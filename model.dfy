/**
 * The employee record and the tree node of model/Employee.java and
 * model/EmployeeNode.java.
 *
 * A node lives in an arena: a map from employee id to node value. A node's
 * parent and children are ids into that map instead of object references,
 * which keeps the node/parent cycle out of the heap. `AddChild` and
 * `SetParent`, which update two objects in place in the source, are updates
 * of the arena.
 */
module Model {
  import opened Wrappers

  /** One employee record. `managerId == None` is Java's `null`. */
  datatype Employee = Employee(
    id: string,
    firstName: string,
    lastName: string,
    salary: real,
    managerId: Option<string>)

  /** A tree position: the record, an optional parent id and the ordered child ids. */
  datatype Node = Node(employee: Employee, parent: Option<string>, children: seq<string>)
  {
    /** A node is a root iff it has no parent. */
    predicate IsRoot() { parent.None? }

    /** A node is a leaf iff it has no children. */
    predicate IsLeaf() { |children| == 0 }
  }

  /** No element occurs twice. */
  predicate Distinct<T(==)>(s: seq<T>)
  {
    forall i, j | 0 <= i < j < |s| :: s[i] != s[j]
  }

  /** Two repeat-free sequences with no common element concatenate to a repeat-free sequence. */
  lemma DistinctConcat<T>(xs: seq<T>, ys: seq<T>)
    requires Distinct(xs) && Distinct(ys)
    requires forall x | x in xs :: x !in ys
    ensures Distinct(xs + ys)
  {
    forall i, j | 0 <= i < j < |xs + ys|
      ensures (xs + ys)[i] != (xs + ys)[j]
    {
      if i < |xs| && j >= |xs| {
        assert (xs + ys)[i] in xs && (xs + ys)[j] == ys[j - |xs|];
      }
    }
  }

  /** All nodes of one tree, by employee id. */
  type Arena = map<string, Node>

  /** Every child id of every node names a node of the arena. */
  predicate ChildrenPresent(a: Arena)
  {
    forall m, c | m in a && c in a[m].children :: c in a
  }

  /** The node constructor: a fresh node has neither parent nor children. */
  function NewNode(e: Employee): (n: Node)
    ensures n.employee == e
    ensures n.IsRoot() && n.IsLeaf()
  {
    Node(e, None, [])
  }

  /** `getChildren` returns a copy; a Dafny sequence is a value, so handing it out cannot expose the node's own list. */
  function GetChildren(n: Node): (cs: seq<string>)
    ensures cs == n.children
    ensures n.IsLeaf() <==> cs == []
  {
    n.children
  }

  /** `setParent`: overwrites the parent of node `c` and nothing else. */
  function SetParent(a: Arena, c: string, p: Option<string>): (r: Arena)
    requires c in a
    ensures r.Keys == a.Keys
    ensures r[c].parent == p
    ensures forall k | k in a && k != c :: r[k] == a[k]
    ensures forall k | k in a :: r[k].employee == a[k].employee && r[k].children == a[k].children
  {
    a[c := a[c].(parent := p)]
  }

  /**
   * `addChild`: a `None` child (Java `null`) changes nothing; otherwise the
   * child is appended to `p`'s children and its parent is set to `p`. The
   * child is not removed from the children of a previous parent.
   */
  function AddChild(a: Arena, p: string, child: Option<string>): (r: Arena)
    requires p in a
    requires child.Some? ==> child.value in a
    ensures child.None? ==> r == a
    ensures r.Keys == a.Keys
    ensures child.Some? ==> r[p].children == a[p].children + [child.value]
    ensures child.Some? ==> r[child.value].parent == Some(p)
    ensures child.Some? ==> forall k | k in a && k != p :: r[k].children == a[k].children
    ensures child.Some? ==> forall k | k in a && k != child.value :: r[k].parent == a[k].parent
    ensures forall k | k in a :: r[k].employee == a[k].employee
  {
    match child
    case None => a
    case Some(c) =>
      var appended := a[p := a[p].(children := a[p].children + [c])];
      SetParent(appended, c, Some(p))
  }

  /**
   * The parent-chain length from `id`, following at most `fuel` parent links:
   * 0 for a root, the parent's depth plus one otherwise. `None` when the chain
   * leaves the arena or is longer than `fuel` (the source recurses forever on
   * a cycle).
   */
  function DepthWithin(a: Arena, id: string, fuel: nat): (r: Option<nat>)
    ensures r.Some? ==> r.value <= fuel
    decreases fuel
  {
    if id !in a then None
    else match a[id].parent
      case None => Some(0)
      case Some(p) =>
        if fuel == 0 then None
        else match DepthWithin(a, p, fuel - 1)
          case None => None
          case Some(d) => Some(d + 1)
  }

  /** The parent chain from `id` reaches a root, so `getDepth` terminates on it. */
  predicate Grounded(a: Arena, id: string)
  {
    DepthWithin(a, id, |a|).Some?
  }

  /** `getDepth`: the number of parent links from `id` up to its root. */
  function GetDepth(a: Arena, id: string): (d: nat)
    requires Grounded(a, id)
    ensures id in a
    ensures a[id].IsRoot() <==> d == 0
    ensures d <= |a|
  {
    DepthWithin(a, id, |a|).value
  }

  /** More fuel never changes a depth that has been found. */
  lemma {:induction false} DepthWithinMonotonic(a: Arena, id: string, f: nat, g: nat)
    requires f <= g
    requires DepthWithin(a, id, f).Some?
    ensures DepthWithin(a, id, g) == DepthWithin(a, id, f)
    decreases f
  {
    if a[id].parent.Some? {
      DepthWithinMonotonic(a, a[id].parent.value, f - 1, g - 1);
    }
  }

  /** The depth of a non-root node is its parent's depth plus one, and the parent is grounded too. */
  lemma DepthOfChild(a: Arena, id: string)
    requires Grounded(a, id)
    requires !a[id].IsRoot()
    ensures a[id].parent.value in a
    ensures Grounded(a, a[id].parent.value)
    ensures GetDepth(a, id) == GetDepth(a, a[id].parent.value) + 1
  {
    var p := a[id].parent.value;
    DepthWithinMonotonic(a, p, |a| - 1, |a|);
  }
}
