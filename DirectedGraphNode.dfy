/** Directed graph nodes of a Bayesian network (DirectedGraphNode.java).

    A node carries a name, the set of its children and the set of its
    parents; an arc tail -> head is recorded on both ends: head is in
    tail.children and tail is in head.parents. Java compares, hashes and
    orders nodes by name only; the functions `Equals`, `HashCode` and
    `CompareTo` below are those three methods. */
module DirectedGraph {

  // ---------------------------------------------------------------------
  // Name order: java.lang.String.compareTo
  // ---------------------------------------------------------------------

  /** The value String.compareTo returns: the difference of the first pair
      of differing characters, or else the difference of the lengths. */
  function CompareNames(s: string, t: string): int
    decreases |s|
  {
    if |s| == 0 || |t| == 0 then |s| - |t|
    else if s[0] != t[0] then s[0] as int - t[0] as int
    else CompareNames(s[1..], t[1..])
  }

  /** compareTo returns 0 exactly for equal names. */
  lemma {:induction false} CompareNamesZero(s: string, t: string)
    ensures CompareNames(s, t) == 0 <==> s == t
    decreases |s|
  {
    if |s| != 0 && |t| != 0 && s[0] == t[0] {
      CompareNamesZero(s[1..], t[1..]);
      assert s == [s[0]] + s[1..] && t == [t[0]] + t[1..];
    }
  }

  /** Swapping the arguments negates the result. */
  lemma {:induction false} CompareNamesAntisymmetric(s: string, t: string)
    ensures CompareNames(t, s) == -CompareNames(s, t)
    decreases |s|
  {
    if |s| != 0 && |t| != 0 && s[0] == t[0] {
      CompareNamesAntisymmetric(s[1..], t[1..]);
    }
  }

  /** "Less than" in the name order is transitive. */
  lemma {:induction false} CompareNamesTransitive(s: string, t: string, u: string)
    requires CompareNames(s, t) < 0 && CompareNames(t, u) < 0
    ensures CompareNames(s, u) < 0
    decreases |s|
  {
    if |s| != 0 && |t| != 0 && |u| != 0 && s[0] == t[0] && t[0] == u[0] {
      CompareNamesTransitive(s[1..], t[1..], u[1..]);
    }
  }

  /** The strict order a TreeSet of nodes iterates in. */
  predicate NameLess(s: string, t: string) {
    CompareNames(s, t) < 0
  }

  /** Any two distinct names are ordered one way or the other. */
  lemma NameLessTotal(s: string, t: string)
    ensures s == t || NameLess(s, t) || NameLess(t, s)
  {
    CompareNamesZero(s, t);
    CompareNamesAntisymmetric(s, t);
  }

  // ---------------------------------------------------------------------
  // The node class
  // ---------------------------------------------------------------------

  class Node {
    const name: string
    var children: set<Node>
    var parents: set<Node>

    constructor (name: string)
      ensures this.name == name
      ensures children == {} && parents == {}
    {
      this.name := name;
      children := {};
      parents := {};
    }

    /** Adds the arc this -> child on both ends; a self-loop is silently
        refused. */
    method AddChild(child: Node)
      modifies this, child
      ensures child == this ==> unchanged(this)
      ensures child != this ==>
        && children == old(children) + {child}
        && child.parents == old(child.parents) + {this}
        && parents == old(parents)
        && child.children == old(child.children)
      ensures child in old(children) && this in old(child.parents) ==>
        children == old(children) && child.parents == old(child.parents)
    {
      if child == this {
        return;
      }
      children := children + {child};
      child.parents := child.parents + {this};
    }

    predicate HasChild(child: Node)
      reads this
    {
      child in children
    }

    /** Removes the arc this -> child on both ends; nothing happens when the
        arc is absent. */
    method RemoveChild(child: Node)
      modifies this, child
      ensures child !in old(children) ==> unchanged(this, child)
      ensures child in old(children) ==>
        && children == old(children) - {child}
        && child.parents == old(child.parents) - {this}
      ensures child in old(children) && child != this ==>
        && parents == old(parents)
        && child.children == old(child.children)
    {
      if child in children {
        children := children - {child};
        child.parents := child.parents - {this};
      }
    }

    /** A node is independent (a root) when it has no parents. */
    predicate IsIndependent()
      reads this
    {
      parents == {}
    }
  }

  /** DirectedGraphNode.equals: nodes are equal when their names are. */
  predicate Equals(a: Node, b: Node) {
    a.name == b.name
  }

  /** DirectedGraphNode.compareTo: the name order. */
  function CompareTo(a: Node, b: Node): (c: int)
    ensures c == 0 <==> Equals(a, b)
    ensures c == -CompareNames(b.name, a.name)
  {
    CompareNamesZero(a.name, b.name);
    CompareNamesAntisymmetric(a.name, b.name);
    CompareNames(a.name, b.name)
  }

  /** Reduces an unbounded integer to a Java int (32-bit two's complement). */
  function ToInt32(x: int): (r: int)
    ensures -0x8000_0000 <= r < 0x8000_0000
    ensures (r - x) % 0x1_0000_0000 == 0
  {
    (x + 0x8000_0000) % 0x1_0000_0000 - 0x8000_0000
  }

  /** String.hashCode: h = 31 * h + c over the characters, in int arithmetic. */
  function StringHash(s: string): int
  {
    if s == [] then 0 else ToInt32(31 * StringHash(s[..|s| - 1]) + s[|s| - 1] as int)
  }

  /** DirectedGraphNode.hashCode: the hash of the name. */
  function HashCode(a: Node): int {
    StringHash(a.name)
  }

  /** Equal nodes have equal hashes and compare as 0. */
  lemma EqualsConsistent(a: Node, b: Node)
    requires Equals(a, b)
    ensures HashCode(a) == HashCode(b) && CompareTo(a, b) == 0
  {
  }

  // ---------------------------------------------------------------------
  // Graph invariants over a set of nodes
  // ---------------------------------------------------------------------

  /** Every neighbour of a node of `nodes` is in `nodes`. */
  ghost predicate Closed(nodes: set<Node>)
    reads nodes
  {
    forall n :: n in nodes ==> n.children <= nodes && n.parents <= nodes
  }

  /** The two ends of every arc agree: c is a child of n iff n is a parent of c. */
  ghost predicate Symmetric(nodes: set<Node>)
    reads nodes
  {
    forall n, c {:trigger c in n.children} {:trigger n in c.parents} ::
      n in nodes && c in nodes ==> (c in n.children <==> n in c.parents)
  }

  ghost predicate NoSelfLoops(nodes: set<Node>)
    reads nodes
  {
    forall n :: n in nodes ==> n !in n.children
  }

  ghost predicate WellFormed(nodes: set<Node>)
    reads nodes
  {
    Closed(nodes) && Symmetric(nodes) && NoSelfLoops(nodes)
  }
}
