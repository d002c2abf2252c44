/** Sets of nodes ordered by name: the java.util.TreeSet<DirectedGraphNode>
    the classifier keeps its levels in. Such a set is modelled as the
    sequence of its elements in iteration order, strictly ascending by name,
    and TreeSet.add as an insertion into that sequence. */
module SortedNodes {
  import opened DirectedGraph

  function Elements(s: seq<Node>): set<Node> {
    set n | n in s
  }

  /** Nodes of `s` that are equal in Java's sense (by name) are the same
      node. */
  predicate UniqueNames(s: set<Node>) {
    forall a, b {:trigger Equals(a, b)} :: a in s && b in s && Equals(a, b) ==> a == b
  }

  /** The iteration order of a TreeSet: strictly ascending by name. */
  predicate StrictlySorted(s: seq<Node>) {
    forall i, j :: 0 <= i < j < |s| ==> NameLess(s[i].name, s[j].name)
  }

  lemma NameLessIrreflexive(s: string)
    ensures !NameLess(s, s)
  {
    CompareNamesZero(s, s);
  }

  lemma NameLessAsymmetric(s: string, t: string)
    requires NameLess(s, t)
    ensures !NameLess(t, s) && s != t
  {
    CompareNamesAntisymmetric(s, t);
  }

  /** A sorted sequence has no repeated element. */
  lemma SortedDistinct(s: seq<Node>, i: nat, j: nat)
    requires StrictlySorted(s) && i < j < |s|
    ensures s[i] != s[j]
  {
    NameLessAsymmetric(s[i].name, s[j].name);
  }

  /** Every element after the head of a sorted sequence is above the head. */
  lemma HeadIsLeast(s: seq<Node>, x: Node)
    requires StrictlySorted(s) && s != [] && x in s
    ensures x == s[0] || NameLess(s[0].name, x.name)
  {
  }

  /** TreeSet.add: a node whose name is already present leaves the set as it
      is; otherwise the node goes in before the first larger name. */
  function Insert(s: seq<Node>, n: Node): (r: seq<Node>)
    requires StrictlySorted(s)
    ensures StrictlySorted(r)
    ensures (exists i :: 0 <= i < |s| && s[i].name == n.name) ==> r == s
    ensures (forall i :: 0 <= i < |s| ==> s[i].name != n.name) ==> Elements(r) == Elements(s) + {n}
  {
    if s == [] then [n]
    else if NameLess(n.name, s[0].name) then
      InsertAtFront(s, n);
      [n] + s
    else if n.name == s[0].name then s
    else
      NameLessTotal(n.name, s[0].name);
      InsertBehindHead(s, n, Insert(s[1..], n));
      [s[0]] + Insert(s[1..], n)
  }

  lemma InsertAtFront(s: seq<Node>, n: Node)
    requires StrictlySorted(s) && s != [] && NameLess(n.name, s[0].name)
    ensures StrictlySorted([n] + s)
    ensures forall i :: 0 <= i < |s| ==> s[i].name != n.name
  {
    forall i | 0 < i < |s|
      ensures NameLess(n.name, s[i].name)
    {
      CompareNamesTransitive(n.name, s[0].name, s[i].name);
    }
    forall i | 0 <= i < |s|
      ensures s[i].name != n.name
    {
      NameLessIrreflexive(n.name);
    }
  }

  lemma InsertBehindHead(s: seq<Node>, n: Node, tail: seq<Node>)
    requires StrictlySorted(s) && s != [] && NameLess(s[0].name, n.name)
    requires StrictlySorted(tail) && Elements(tail) <= Elements(s[1..]) + {n}
    ensures StrictlySorted([s[0]] + tail)
  {
    forall j | 0 <= j < |tail|
      ensures NameLess(s[0].name, tail[j].name)
    {
      assert tail[j] in Elements(s[1..]) + {n};
    }
  }

  lemma NonEmptyElements(s: seq<Node>)
    ensures s != [] <==> Elements(s) != {}
  {
    if s != [] {
      assert s[0] in Elements(s);
    }
  }

  /** Two sorted sequences with the same elements are equal: the iteration
      order of a TreeSet is determined by its contents. */
  lemma {:induction false} SortedUnique(a: seq<Node>, b: seq<Node>)
    requires StrictlySorted(a) && StrictlySorted(b) && Elements(a) == Elements(b)
    ensures a == b
    decreases |a|
  {
    if a != [] && b != [] {
      assert b[0] in Elements(a) && a[0] in Elements(b);
      HeadIsLeast(a, b[0]);
      HeadIsLeast(b, a[0]);
      if a[0] != b[0] {
        NameLessAsymmetric(a[0].name, b[0].name);
      }
      forall i | 0 < i < |a|
        ensures a[i] != a[0]
      {
        SortedDistinct(a, 0, i);
      }
      forall i | 0 < i < |b|
        ensures b[i] != b[0]
      {
        SortedDistinct(b, 0, i);
      }
      assert Elements(a[1..]) == Elements(a) - {a[0]};
      assert Elements(b[1..]) == Elements(b) - {b[0]};
      SortedUnique(a[1..], b[1..]);
      assert a == [a[0]] + a[1..] && b == [b[0]] + b[1..];
    } else {
      NonEmptyElements(a);
      NonEmptyElements(b);
    }
  }

  /** The iteration order of a TreeSet holding the nodes of `s`. */
  ghost function SortedByName(s: set<Node>): (r: seq<Node>)
    requires UniqueNames(s)
    ensures StrictlySorted(r) && Elements(r) == s
  {
    if s == {} then []
    else
      var x :| x in s;
      var rest := SortedByName(s - {x});
      assert forall i :: 0 <= i < |rest| ==> rest[i].name != x.name by {
        forall i | 0 <= i < |rest|
          ensures rest[i].name != x.name
        {
          assert rest[i] in s - {x} && !Equals(rest[i], x);
        }
      }
      Insert(rest, x)
  }
}
