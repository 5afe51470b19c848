/**
 * The tree builder and navigator of EmployeeTree.java.
 *
 * `Build` is the two-pass construction as a function of the record list:
 * `Index` is the first pass (one fresh node per record, keyed by id) and
 * `Link` the second (each record is placed either under its manager or among
 * the roots). The class `EmployeeTree` keeps the index and the root list as
 * fields and its `BuildTree` method runs the two loops of the source; it is
 * proved to end in the state `Build` describes.
 */
module Tree {
  import opened Wrappers
  import opened Model

  /** The result of a build: the id index of all nodes and the root ids in the order they were added. */
  datatype Forest = Forest(nodes: Arena, roots: seq<string>)

  /** The set of ids of a record list. */
  function Ids(es: seq<Employee>): (ids: set<string>)
    ensures forall i | 0 <= i < |es| :: es[i].id in ids
  {
    set i | 0 <= i < |es| :: es[i].id
  }

  /** The ids of a record list, one per record, in input order. */
  function IdSeq(es: seq<Employee>): (ids: seq<string>)
    ensures |ids| == |es|
    ensures forall i | 0 <= i < |es| :: ids[i] == es[i].id
  {
    seq(|es|, i requires 0 <= i < |es| => es[i].id)
  }

  /** No two records share an id. */
  predicate UniqueIds(es: seq<Employee>)
  {
    forall i, j | 0 <= i < j < |es| :: es[i].id != es[j].id
  }

  /** Record `i` is the last one with its id. */
  predicate IsLastWithId(es: seq<Employee>, i: int)
  {
    0 <= i < |es| && forall j | i < j < |es| :: es[j].id != es[i].id
  }

  /** First pass: a fresh node per record; a later record replaces an earlier one with the same id. */
  function Index(es: seq<Employee>): (a: Arena)
    ensures a.Keys == Ids(es)
    ensures forall k | k in a :: a[k].IsRoot() && a[k].IsLeaf()
    decreases |es|
  {
    if es == [] then map[]
    else
      var last := es[|es| - 1];
      assert Ids(es) == Ids(es[..|es| - 1]) + {last.id} by {
        assert forall i | 0 <= i < |es| - 1 :: es[..|es| - 1][i] == es[i];
      }
      Index(es[..|es| - 1])[last.id := NewNode(last)]
  }

  /**
   * Second pass, one record: the record is root material when its manager id
   * is absent, empty, or not an id of the index.
   */
  predicate IsRootRecord(e: Employee, ids: set<string>)
  {
    e.managerId.None? || e.managerId.value == "" || e.managerId.value !in ids
  }

  /** Places one record: appended to the roots, or appended as a child of its manager. */
  function Place(f: Forest, e: Employee): (r: Forest)
    requires e.id in f.nodes
    ensures r.nodes.Keys == f.nodes.Keys
    ensures forall k | k in f.nodes :: r.nodes[k].employee == f.nodes[k].employee
  {
    if IsRootRecord(e, f.nodes.Keys) then Forest(f.nodes, f.roots + [e.id])
    else Forest(AddChild(f.nodes, e.managerId.value, Some(e.id)), f.roots)
  }

  /** Second pass over the records `es`, starting from the index `a` and no roots. */
  function Link(es: seq<Employee>, a: Arena): (f: Forest)
    requires forall i | 0 <= i < |es| :: es[i].id in a
    ensures f.nodes.Keys == a.Keys
    ensures forall k | k in a :: f.nodes[k].employee == a[k].employee
    decreases |es|
  {
    if es == [] then Forest(a, [])
    else Place(Link(es[..|es| - 1], a), es[|es| - 1])
  }

  /**
   * buildTree: the forest built from `es`, independent of any earlier state;
   * it indexes exactly the records' ids, one node for each distinct id.
   */
  function Build(es: seq<Employee>): (f: Forest)
    ensures f.nodes.Keys == Ids(es)
    ensures |f.nodes| == |Ids(es)|
  {
    assert |Link(es, Index(es)).nodes| == |Link(es, Index(es)).nodes.Keys|;
    Link(es, Index(es))
  }

  /** The child entry `c` of `m` points back: `c` is a node whose parent is `m`. */
  ghost predicate ChildLinked(a: Arena, m: string, c: string)
  {
    c in a && a[c].parent == Some(m)
  }

  /** A node with a parent is listed among that parent's children. */
  ghost predicate ParentLinked(a: Arena, c: string)
    requires c in a
  {
    a[c].parent.Some? ==> a[c].parent.value in a && c in a[a[c].parent.value].children
  }

  /** Every parent link has the matching child entry and vice versa, and no child list repeats an id. */
  ghost predicate LinksAgree(a: Arena)
  {
    && (forall m, c | m in a && c in a[m].children :: ChildLinked(a, m, c))
    && (forall c {:trigger ParentLinked(a, c)} | c in a :: ParentLinked(a, c))
    && (forall m | m in a :: Distinct(a[m].children))
  }

  /** The forest invariant: links agree and every parent chain ends at a root (no cycles). */
  ghost predicate WellFormed(a: Arena)
  {
    LinksAgree(a) && forall k {:trigger Grounded(a, k)} | k in a :: Grounded(a, k)
  }

  /** In a well-formed forest the children of `m` sit one level below `m`. */
  lemma ChildDepths(a: Arena, m: string)
    requires WellFormed(a)
    requires m in a
    ensures forall c | c in a[m].children :: c in a && GetDepth(a, c) == GetDepth(a, m) + 1
  {
    forall c | c in a[m].children
      ensures c in a && GetDepth(a, c) == GetDepth(a, m) + 1
    {
      assert ChildLinked(a, m, c);
      assert Grounded(a, c);
      DepthOfChild(a, c);
    }
  }

  /**
   * Pre-order walk of the subtrees rooted at `cs`, all at depth `d`: each
   * node, then its own subtree, then the next sibling.
   */
  function Walk(a: Arena, cs: seq<string>, d: nat): seq<string>
    requires WellFormed(a)
    requires forall c | c in cs :: c in a && GetDepth(a, c) == d
    decreases |a| + 1 - d, |cs|
  {
    if cs == [] then []
    else
      var c := cs[0];
      assert c in cs;
      assert GetDepth(a, c) == d;
      assert d <= |a|;
      ChildDepths(a, c);
      [c] + Walk(a, a[c].children, d + 1) + Walk(a, cs[1..], d)
  }

  /** getAllSubordinates of an existing node: the pre-order walk below it, without the node itself. */
  function Subordinates(a: Arena, id: string): seq<string>
    requires WellFormed(a)
    requires id in a
  {
    ChildDepths(a, id);
    Walk(a, a[id].children, GetDepth(a, id) + 1)
  }

  /** Walking a concatenation walks the two parts one after the other. */
  lemma {:induction false} WalkConcat(a: Arena, xs: seq<string>, ys: seq<string>, d: nat)
    requires WellFormed(a)
    requires forall c | c in xs + ys :: c in a && GetDepth(a, c) == d
    ensures Walk(a, xs + ys, d) == Walk(a, xs, d) + Walk(a, ys, d)
    decreases |xs|
  {
    if xs == [] {
      assert xs + ys == ys;
    } else {
      assert (xs + ys)[0] == xs[0];
      assert (xs + ys)[1..] == xs[1..] + ys;
      WalkConcat(a, xs[1..], ys, d);
    }
  }

  /** Extending the walked prefix by one sibling adds that sibling and then its subordinates. */
  lemma WalkStep(a: Arena, cs: seq<string>, i: nat, d: nat)
    requires WellFormed(a)
    requires i < |cs|
    requires forall c | c in cs :: c in a && GetDepth(a, c) == d
    ensures cs[i] in a && GetDepth(a, cs[i]) == d
    ensures Walk(a, cs[..i + 1], d) == Walk(a, cs[..i], d) + [cs[i]] + Subordinates(a, cs[i])
  {
    assert cs[i] in cs;
    assert cs[..i + 1] == cs[..i] + [cs[i]];
    WalkConcat(a, cs[..i], [cs[i]], d);
    WalkSingle(a, cs[i], d);
  }

  /** The walk of a single node is the node followed by its subordinates. */
  lemma WalkSingle(a: Arena, c: string, d: nat)
    requires WellFormed(a)
    requires c in a && GetDepth(a, c) == d
    ensures Walk(a, [c], d) == [c] + Subordinates(a, c)
  {
    assert [c][1..] == [];
  }

  lemma IndexStep(es: seq<Employee>, i: nat)
    requires i < |es|
    ensures Index(es[..i + 1]) == Index(es[..i])[es[i].id := NewNode(es[i])]
  {
    assert es[..i + 1][..i] == es[..i];
  }

  lemma LinkStep(es: seq<Employee>, i: nat, a: Arena)
    requires i < |es|
    requires forall j | 0 <= j < |es| :: es[j].id in a
    ensures es[i].id in Link(es[..i], a).nodes
    ensures Link(es[..i + 1], a) == Place(Link(es[..i], a), es[i])
  {
    assert es[..i + 1][..i] == es[..i];
  }

  /** The two outcomes of placing one record. */
  lemma PlaceCases(f: Forest, e: Employee)
    requires e.id in f.nodes
    ensures IsRootRecord(e, f.nodes.Keys) ==> Place(f, e) == Forest(f.nodes, f.roots + [e.id])
    ensures !IsRootRecord(e, f.nodes.Keys) ==>
      Place(f, e) == Forest(AddChild(f.nodes, e.managerId.value, Some(e.id)), f.roots)
  {
  }

  class EmployeeTree {
    var rootNodes: seq<string>
    var employeeNodeMap: Arena

    /** An empty tree. */
    constructor()
      ensures rootNodes == [] && employeeNodeMap == map[]
    {
      rootNodes := [];
      employeeNodeMap := map[];
    }

    /** buildTree: clears the old state, then the two passes; the result depends on `employees` only. */
    method BuildTree(employees: seq<Employee>)
      modifies this
      ensures employeeNodeMap == Build(employees).nodes
      ensures rootNodes == Build(employees).roots
      ensures GetTotalEmployeeCount() == |Ids(employees)|
    {
      rootNodes := [];
      employeeNodeMap := map[];
      for i := 0 to |employees|
        invariant employeeNodeMap == Index(employees[..i])
        invariant rootNodes == []
      {
        var employee := employees[i];
        IndexStep(employees, i);
        employeeNodeMap := employeeNodeMap[employee.id := NewNode(employee)];
      }
      assert employees[..|employees|] == employees;
      ghost var index := employeeNodeMap;
      assert employees[..0] == [];
      for i := 0 to |employees|
        invariant employeeNodeMap == Link(employees[..i], index).nodes
        invariant rootNodes == Link(employees[..i], index).roots
      {
        var employee := employees[i];
        LinkStep(employees, i, index);
        PlaceCases(Forest(employeeNodeMap, rootNodes), employee);
        var managerId := employee.managerId;
        if managerId.None? || managerId.value == "" {
          rootNodes := rootNodes + [employee.id];
        } else if managerId.value in employeeNodeMap {
          employeeNodeMap := AddChild(employeeNodeMap, managerId.value, Some(employee.id));
        } else {
          rootNodes := rootNodes + [employee.id];
        }
      }
      assert employees[..|employees|] == employees;
    }

    /** getNodeById: the node stored under `employeeId`, or `None`. */
    function GetNodeById(employeeId: string): (n: Option<Node>)
      reads this
      ensures n.Some? <==> employeeId in employeeNodeMap
      ensures n.Some? ==> n.value == employeeNodeMap[employeeId]
    {
      if employeeId in employeeNodeMap then Some(employeeNodeMap[employeeId]) else None
    }

    /** getRootNodes: the root handles in the order they were added (a copy). */
    function GetRootNodes(): (roots: seq<string>)
      reads this
      ensures roots == rootNodes
      ensures |roots| == GetRootNodeCount()
    {
      rootNodes
    }

    /** getAllNodes: the handles of all indexed nodes; the source's order is that of a HashMap and is not modelled. */
    function GetAllNodes(): (all: set<string>)
      reads this
      ensures |all| == GetTotalEmployeeCount()
      ensures forall id :: id in all <==> GetNodeById(id).Some?
    {
      employeeNodeMap.Keys
    }

    /** getTotalEmployeeCount: the number of distinct ids in the index. */
    function GetTotalEmployeeCount(): (n: nat)
      reads this
      ensures n == 0 <==> employeeNodeMap == map[]
    {
      |employeeNodeMap|
    }

    /** getRootNodeCount: the number of roots, duplicates of a repeated id included. */
    function GetRootNodeCount(): (n: nat)
      reads this
      ensures n == 0 <==> rootNodes == []
    {
      |rootNodes|
    }

    /** getDirectReports: the children of the node, or nothing for an unknown id. */
    function GetDirectReports(employeeId: string): (reports: seq<string>)
      reads this
      ensures employeeId !in employeeNodeMap ==> reports == []
      ensures employeeId in employeeNodeMap ==> reports == GetChildren(employeeNodeMap[employeeId])
    {
      if employeeId in employeeNodeMap then GetChildren(employeeNodeMap[employeeId]) else []
    }

    /** getAllSubordinates: every node below `employeeId`, pre-order; nothing for an unknown id. */
    method GetAllSubordinates(employeeId: string) returns (subordinates: seq<string>)
      requires employeeId in employeeNodeMap ==> WellFormed(employeeNodeMap)
      ensures employeeId !in employeeNodeMap ==> subordinates == []
      ensures employeeId in employeeNodeMap ==> subordinates == Subordinates(employeeNodeMap, employeeId)
    {
      subordinates := [];
      if employeeId in employeeNodeMap {
        subordinates := CollectSubordinates(employeeId, subordinates);
      }
    }

    /** collectSubordinates: appends each child, then that child's subordinates, to the accumulator. */
    method CollectSubordinates(id: string, acc: seq<string>) returns (result: seq<string>)
      requires WellFormed(employeeNodeMap)
      requires id in employeeNodeMap
      ensures result == acc + Subordinates(employeeNodeMap, id)
      decreases |employeeNodeMap| + 1 - GetDepth(employeeNodeMap, id)
    {
      var children := employeeNodeMap[id].children;
      ghost var d := GetDepth(employeeNodeMap, id) + 1;
      ChildDepths(employeeNodeMap, id);
      result := acc;
      for i := 0 to |children|
        invariant result == acc + Walk(employeeNodeMap, children[..i], d)
      {
        WalkStep(employeeNodeMap, children, i, d);
        result := result + [children[i]];
        result := CollectSubordinates(children[i], result);
      }
      assert children[..|children|] == children;
    }
  }
}
