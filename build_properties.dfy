/**
 * What the two-pass build of EmployeeTree.java guarantees, stated against
 * independent descriptions of the record list: which ids are indexed, which
 * records become roots, whose children are whose, and how many placements
 * there are in all.
 */
module BuildProperties {
  import opened Wrappers
  import opened Model
  import opened Tree

  /** The ids of the records that are root material, in input order. */
  function RootIds(es: seq<Employee>, ids: set<string>): (r: seq<string>)
    ensures |r| <= |es|
  {
    if es == [] then []
    else (if IsRootRecord(es[0], ids) then [es[0].id] else []) + RootIds(es[1..], ids)
  }

  /** Record `e` names `m` as its manager; an empty manager id names nobody. */
  predicate ReportsTo(e: Employee, m: string)
  {
    e.managerId == Some(m) && m != ""
  }

  /** The ids of the records that report to `m`, in input order. */
  function ChildIds(es: seq<Employee>, m: string): (r: seq<string>)
    ensures |r| <= |es|
  {
    if es == [] then []
    else (if ReportsTo(es[0], m) then [es[0].id] else []) + ChildIds(es[1..], m)
  }

  /** All child entries of the nodes `ks`, counted with multiplicity. */
  function Placements(a: Arena, ks: seq<string>): multiset<string>
    requires forall k | k in ks :: k in a
  {
    if ks == [] then multiset{} else multiset(a[ks[0]].children) + Placements(a, ks[1..])
  }

  // ---------------------------------------------------------------- the index

  /** Pass 1 is last-write-wins: an id's node holds the last record with that id. */
  lemma {:induction false} IndexLastWriteWins(es: seq<Employee>, i: int)
    requires IsLastWithId(es, i)
    ensures es[i].id in Index(es) && Index(es)[es[i].id].employee == es[i]
    decreases |es|
  {
    if i < |es| - 1 {
      var p := es[..|es| - 1];
      assert p[i] == es[i];
      assert IsLastWithId(p, i) by {
        forall j | i < j < |p| ensures p[j].id != p[i].id {
          assert p[j] == es[j];
        }
      }
      IndexLastWriteWins(p, i);
    }
  }

  /**
   * After a build the node of each id holds the last record with that id
   * (which ids are indexed is stated by `Tree.Build`).
   */
  lemma BuildIndex(es: seq<Employee>)
    ensures forall i | IsLastWithId(es, i) ::
      es[i].id in Build(es).nodes && Build(es).nodes[es[i].id].employee == es[i]
  {
    forall i | IsLastWithId(es, i)
      ensures Build(es).nodes[es[i].id].employee == es[i]
    {
      IndexLastWriteWins(es, i);
    }
  }

  /** With unique ids there are as many distinct ids as records. */
  lemma {:induction false} UniqueIdCount(es: seq<Employee>)
    requires UniqueIds(es)
    ensures |Ids(es)| == |es|
    decreases |es|
  {
    if es != [] {
      var p := es[..|es| - 1];
      assert Ids(es) == Ids(p) + {es[|es| - 1].id} by {
        assert forall i | 0 <= i < |p| :: p[i] == es[i];
      }
      assert es[|es| - 1].id !in Ids(p) by {
        forall i | 0 <= i < |p| ensures p[i].id != es[|es| - 1].id {
          assert p[i] == es[i];
        }
      }
      assert UniqueIds(p) by {
        forall i, j | 0 <= i < j < |p| ensures p[i].id != p[j].id {
          assert p[i] == es[i] && p[j] == es[j];
        }
      }
      UniqueIdCount(p);
    }
  }

  // ---------------------------------------------------------------- the roots

  lemma {:induction false} RootIdsSnoc(es: seq<Employee>, e: Employee, ids: set<string>)
    ensures RootIds(es + [e], ids) == RootIds(es, ids) + (if IsRootRecord(e, ids) then [e.id] else [])
    decreases |es|
  {
    if es == [] {
      assert [e][1..] == [];
    } else {
      assert (es + [e])[0] == es[0];
      assert (es + [e])[1..] == es[1..] + [e];
      RootIdsSnoc(es[1..], e, ids);
    }
  }

  lemma {:induction false} LinkRoots(es: seq<Employee>, a: Arena)
    requires forall i | 0 <= i < |es| :: es[i].id in a
    ensures Link(es, a).roots == RootIds(es, a.Keys)
    decreases |es|
  {
    if es != [] {
      var p := es[..|es| - 1];
      var e := es[|es| - 1];
      assert es == p + [e];
      LinkRoots(p, a);
      RootIdsSnoc(p, e, a.Keys);
    }
  }

  /** The roots are the ids of the root-material records, in input order. */
  lemma BuildRoots(es: seq<Employee>)
    ensures Build(es).roots == RootIds(es, Ids(es))
  {
    LinkRoots(es, Index(es));
  }

  lemma {:induction false} RootIdsMembers(es: seq<Employee>, ids: set<string>, x: string)
    ensures x in RootIds(es, ids) <==> exists i :: 0 <= i < |es| && es[i].id == x && IsRootRecord(es[i], ids)
    decreases |es|
  {
    if es != [] {
      RootIdsMembers(es[1..], ids, x);
      if x in RootIds(es[1..], ids) {
        var i :| 0 <= i < |es[1..]| && es[1..][i].id == x && IsRootRecord(es[1..][i], ids);
        assert es[i + 1] == es[1..][i];
      }
      if exists i :: 0 <= i < |es| && es[i].id == x && IsRootRecord(es[i], ids) {
        var i :| 0 <= i < |es| && es[i].id == x && IsRootRecord(es[i], ids);
        if i > 0 {
          assert es[1..][i - 1] == es[i];
        }
      }
    }
  }

  /**
   * A record with no manager, an empty manager id, or a manager id that no
   * record has (an orphan) becomes a root; a record whose manager is present
   * does not, provided no other record shares its id.
   */
  lemma RootPlacement(es: seq<Employee>, i: int)
    requires 0 <= i < |es|
    ensures IsRootRecord(es[i], Ids(es)) ==> es[i].id in Build(es).roots
    ensures UniqueIds(es) && !IsRootRecord(es[i], Ids(es)) ==> es[i].id !in Build(es).roots
  {
    BuildRoots(es);
    RootIdsMembers(es, Ids(es), es[i].id);
  }

  // ---------------------------------------------------------------- the children

  lemma {:induction false} ChildIdsSnoc(es: seq<Employee>, e: Employee, m: string)
    ensures ChildIds(es + [e], m) == ChildIds(es, m) + (if ReportsTo(e, m) then [e.id] else [])
    decreases |es|
  {
    if es == [] {
      assert [e][1..] == [];
    } else {
      assert (es + [e])[0] == es[0];
      assert (es + [e])[1..] == es[1..] + [e];
      ChildIdsSnoc(es[1..], e, m);
    }
  }

  /** One placement appends the record's id to its manager's children and to no other list. */
  lemma PlaceChildren(f: Forest, e: Employee, m: string)
    requires e.id in f.nodes && m in f.nodes
    ensures Place(f, e).nodes[m].children
         == f.nodes[m].children + (if ReportsTo(e, m) then [e.id] else [])
  {
    if !IsRootRecord(e, f.nodes.Keys) {
      var r := AddChild(f.nodes, e.managerId.value, Some(e.id));
      assert m != e.managerId.value ==> r[m].children == f.nodes[m].children;
    } else {
      assert f.nodes[m].children + [] == f.nodes[m].children;
    }
  }

  /** The filter's result on a non-empty list is its result on all but the last record, then the last. */
  lemma ChildIdsLast(es: seq<Employee>, m: string)
    requires es != []
    ensures ChildIds(es, m) == ChildIds(es[..|es| - 1], m)
         + (if ReportsTo(es[|es| - 1], m) then [es[|es| - 1].id] else [])
  {
    assert es[..|es| - 1] + [es[|es| - 1]] == es;
    ChildIdsSnoc(es[..|es| - 1], es[|es| - 1], m);
  }

  /** The last record of a pass adds its id to its manager's children only. */
  lemma LinkChildrenStep(es: seq<Employee>, a: Arena, m: string)
    requires es != []
    requires forall i | 0 <= i < |es| :: es[i].id in a
    requires m in a
    ensures Link(es, a).nodes[m].children == Link(es[..|es| - 1], a).nodes[m].children
         + (if ReportsTo(es[|es| - 1], m) then [es[|es| - 1].id] else [])
  {
    var p := es[..|es| - 1];
    assert forall i | 0 <= i < |p| :: p[i] == es[i];
    PlaceChildren(Link(p, a), es[|es| - 1], m);
  }

  lemma {:induction false} LinkChildren(es: seq<Employee>, a: Arena, m: string)
    requires forall i | 0 <= i < |es| :: es[i].id in a
    requires m in a && a[m].IsLeaf()
    ensures Link(es, a).nodes[m].children == ChildIds(es, m)
    decreases |es|
  {
    if es != [] {
      var p := es[..|es| - 1];
      var e := es[|es| - 1];
      assert forall i | 0 <= i < |p| :: p[i] == es[i];
      LinkChildrenStep(es, a, m);
      LinkChildren(p, a, m);
      ChildIdsLast(es, m);
    }
  }

  /** Every node's children are the ids of the records reporting to it, in input order. */
  lemma BuildChildren(es: seq<Employee>, m: string)
    requires m in Build(es).nodes
    ensures Build(es).nodes[m].children == ChildIds(es, m)
  {
    LinkChildren(es, Index(es), m);
  }

  lemma {:induction false} ChildIdsMembers(es: seq<Employee>, m: string, x: string)
    ensures x in ChildIds(es, m) <==> exists i :: 0 <= i < |es| && es[i].id == x && ReportsTo(es[i], m)
    decreases |es|
  {
    if es != [] {
      ChildIdsMembers(es[1..], m, x);
      if x in ChildIds(es[1..], m) {
        var i :| 0 <= i < |es[1..]| && es[1..][i].id == x && ReportsTo(es[1..][i], m);
        assert es[i + 1] == es[1..][i];
      }
      if exists i :: 0 <= i < |es| && es[i].id == x && ReportsTo(es[i], m) {
        var i :| 0 <= i < |es| && es[i].id == x && ReportsTo(es[i], m);
        if i > 0 {
          assert es[1..][i - 1] == es[i];
        }
      }
    }
  }

  // ---------------------------------------------------------------- the parents

  /** One placement sets the parent of the placed record's node only, and only when it is not root material. */
  lemma PlaceParent(f: Forest, e: Employee, k: string)
    requires e.id in f.nodes && k in f.nodes
    ensures Place(f, e).nodes[k].parent
         == if k == e.id && !IsRootRecord(e, f.nodes.Keys) then e.managerId else f.nodes[k].parent
  {
  }

  /** The last record of a pass sets the parent of its own node only, and only when it is attached. */
  lemma LinkParentStep(es: seq<Employee>, a: Arena, k: string)
    requires es != []
    requires forall j | 0 <= j < |es| :: es[j].id in a
    requires k in a
    ensures forall j | 0 <= j < |es| - 1 :: es[j].id in a
    ensures Link(es, a).nodes[k].parent
         == if k == es[|es| - 1].id && !IsRootRecord(es[|es| - 1], a.Keys) then es[|es| - 1].managerId
            else Link(es[..|es| - 1], a).nodes[k].parent
  {
    var p := es[..|es| - 1];
    assert forall j | 0 <= j < |p| :: p[j] == es[j];
    PlaceParent(Link(p, a), es[|es| - 1], k);
  }

  /** The parent of a node that no record names stays as it was. */
  lemma {:induction false} LinkParentFrame(es: seq<Employee>, a: Arena, k: string)
    requires forall j | 0 <= j < |es| :: es[j].id in a
    requires k in a
    requires forall j | 0 <= j < |es| :: es[j].id != k
    ensures Link(es, a).nodes[k].parent == a[k].parent
    decreases |es|
  {
    if es != [] {
      var p := es[..|es| - 1];
      assert forall j | 0 <= j < |p| :: p[j] == es[j];
      LinkParentStep(es, a, k);
      LinkParentFrame(p, a, k);
    }
  }

  lemma {:induction false} LinkParents(es: seq<Employee>, a: Arena, i: int)
    requires forall j | 0 <= j < |es| :: es[j].id in a
    requires UniqueIds(es)
    requires 0 <= i < |es|
    ensures Link(es, a).nodes[es[i].id].parent
         == if IsRootRecord(es[i], a.Keys) then a[es[i].id].parent else es[i].managerId
    decreases |es|
  {
    var p := es[..|es| - 1];
    var e := es[|es| - 1];
    assert forall j | 0 <= j < |p| :: p[j] == es[j];
    LinkParentStep(es, a, es[i].id);
    if i == |es| - 1 {
      assert forall j | 0 <= j < |p| :: p[j].id != e.id by {
        forall j | 0 <= j < |p| ensures p[j].id != e.id {
          assert p[j] == es[j];
        }
      }
      LinkParentFrame(p, a, e.id);
    } else {
      assert p[i] == es[i];
      assert es[i].id != e.id;
      assert UniqueIds(p) by {
        forall j, k | 0 <= j < k < |p| ensures p[j].id != p[k].id {
          assert p[j] == es[j] && p[k] == es[k];
        }
      }
      LinkParents(p, a, i);
    }
  }

  /** With unique ids, a record's node has its manager as parent exactly when it is not root material. */
  lemma BuildParents(es: seq<Employee>, i: int)
    requires UniqueIds(es)
    requires 0 <= i < |es|
    ensures Build(es).nodes[es[i].id].parent
         == if IsRootRecord(es[i], Ids(es)) then None else es[i].managerId
  {
    LinkParents(es, Index(es), i);
  }

  // ---------------------------------------------------------------- every record placed once

  /** Placements only look at the child lists of `ks`. */
  lemma {:induction false} PlacementsFrame(a: Arena, b: Arena, ks: seq<string>)
    requires forall k | k in ks :: k in a && k in b && a[k].children == b[k].children
    ensures Placements(a, ks) == Placements(b, ks)
    decreases |ks|
  {
    if ks != [] {
      PlacementsFrame(a, b, ks[1..]);
    }
  }

  /** Attaching a child under a node listed once in `ks` adds exactly that child to the placements. */
  lemma {:induction false} PlacementsAddChild(a: Arena, ks: seq<string>, m: string, c: string)
    requires forall k | k in ks :: k in a
    requires Distinct(ks) && m in ks && c in a
    ensures Placements(AddChild(a, m, Some(c)), ks) == Placements(a, ks) + multiset{c}
    decreases |ks|
  {
    var r := AddChild(a, m, Some(c));
    if ks[0] == m {
      assert m !in ks[1..] by {
        forall j | 0 <= j < |ks[1..]| ensures ks[1..][j] != m {
          assert ks[1..][j] == ks[j + 1];
        }
      }
      PlacementsFrame(r, a, ks[1..]);
    } else {
      assert Distinct(ks[1..]) by {
        forall j, k | 0 <= j < k < |ks[1..]| ensures ks[1..][j] != ks[1..][k] {
          assert ks[1..][j] == ks[j + 1] && ks[1..][k] == ks[k + 1];
        }
      }
      PlacementsAddChild(a, ks[1..], m, c);
    }
  }

  /** One placement adds the record's id once, to the roots or to its manager's children. */
  lemma PlacePartition(f: Forest, e: Employee, ks: seq<string>)
    requires e.id in f.nodes
    requires Distinct(ks) && forall k :: k in ks <==> k in f.nodes
    ensures multiset(Place(f, e).roots) + Placements(Place(f, e).nodes, ks)
         == multiset(f.roots) + Placements(f.nodes, ks) + multiset{e.id}
  {
    if IsRootRecord(e, f.nodes.Keys) {
      assert multiset(f.roots + [e.id]) == multiset(f.roots) + multiset{e.id};
    } else {
      PlacementsAddChild(f.nodes, ks, e.managerId.value, e.id);
    }
  }

  lemma IdSeqSnoc(es: seq<Employee>)
    requires es != []
    ensures multiset(IdSeq(es)) == multiset(IdSeq(es[..|es| - 1])) + multiset{es[|es| - 1].id}
  {
    assert IdSeq(es) == IdSeq(es[..|es| - 1]) + [es[|es| - 1].id];
  }

  lemma {:induction false} LinkPartition(es: seq<Employee>, a: Arena, ks: seq<string>)
    requires forall i | 0 <= i < |es| :: es[i].id in a
    requires Distinct(ks) && forall k :: k in ks <==> k in a
    requires Placements(a, ks) == multiset{}
    ensures multiset(Link(es, a).roots) + Placements(Link(es, a).nodes, ks) == multiset(IdSeq(es))
    decreases |es|
  {
    if es == [] {
      assert IdSeq(es) == [];
    } else {
      var p := es[..|es| - 1];
      var e := es[|es| - 1];
      var f := Link(p, a);
      assert Link(es, a) == Place(f, e);
      IdSeqSnoc(es);
      LinkPartition(p, a, ks);
      PlacePartition(f, e, ks);
    }
  }

  lemma {:induction false} FreshPlacements(a: Arena, ks: seq<string>)
    requires forall k | k in ks :: k in a && a[k].IsLeaf()
    ensures Placements(a, ks) == multiset{}
    decreases |ks|
  {
    if ks != [] {
      FreshPlacements(a, ks[1..]);
    }
  }

  /**
   * Every record adds its id exactly once, either to the roots or to one
   * child list: for any enumeration `ks` of the indexed ids, the root list
   * and all child lists together hold the records' ids, each as often as it
   * occurs among the records. In particular the roots and the attached
   * children together number as many as the records. This holds even when
   * ids repeat.
   */
  lemma BuildPartition(es: seq<Employee>, ks: seq<string>)
    requires Distinct(ks) && forall k :: k in ks <==> k in Ids(es)
    ensures multiset(Build(es).roots) + Placements(Build(es).nodes, ks) == multiset(IdSeq(es))
    ensures |Build(es).roots| + |Placements(Build(es).nodes, ks)| == |es|
  {
    FreshPlacements(Index(es), ks);
    LinkPartition(es, Index(es), ks);
    assert |multiset(IdSeq(es))| == |es|;
  }

  // ---------------------------------------------------------------- the forest invariant

  lemma {:induction false} ChildIdsDistinct(es: seq<Employee>, m: string)
    requires UniqueIds(es)
    ensures Distinct(ChildIds(es, m))
    decreases |es|
  {
    if es != [] {
      var rest := es[1..];
      assert UniqueIds(rest) by {
        forall j, k | 0 <= j < k < |rest| ensures rest[j].id != rest[k].id {
          assert rest[j] == es[j + 1] && rest[k] == es[k + 1];
        }
      }
      ChildIdsDistinct(rest, m);
      ChildIdsMembers(rest, m, es[0].id);
      assert forall i | 0 <= i < |rest| :: rest[i].id != es[0].id by {
        forall i | 0 <= i < |rest| ensures rest[i].id != es[0].id {
          assert rest[i] == es[i + 1];
        }
      }
    }
  }

  lemma {:induction false} RootIdsDistinct(es: seq<Employee>, ids: set<string>)
    requires UniqueIds(es)
    ensures Distinct(RootIds(es, ids))
    decreases |es|
  {
    if es != [] {
      var rest := es[1..];
      assert UniqueIds(rest) by {
        forall j, k | 0 <= j < k < |rest| ensures rest[j].id != rest[k].id {
          assert rest[j] == es[j + 1] && rest[k] == es[k + 1];
        }
      }
      RootIdsDistinct(rest, ids);
      RootIdsMembers(rest, ids, es[0].id);
      assert forall i | 0 <= i < |rest| :: rest[i].id != es[0].id by {
        forall i | 0 <= i < |rest| ensures rest[i].id != es[0].id {
          assert rest[i] == es[i + 1];
        }
      }
    }
  }

  /** The position of an indexed id among the records. */
  lemma IdPosition(es: seq<Employee>, x: string) returns (i: int)
    requires x in Ids(es)
    ensures 0 <= i < |es| && es[i].id == x
  {
    i :| 0 <= i < |es| && es[i].id == x;
  }

  /** With unique ids every child entry points back: the child's parent is the node listing it. */
  lemma BuildChildLinks(es: seq<Employee>, m: string, c: string)
    requires UniqueIds(es)
    requires m in Build(es).nodes && c in Build(es).nodes[m].children
    ensures c in Build(es).nodes && Build(es).nodes[c].parent == Some(m)
  {
    BuildChildren(es, m);
    ChildIdsMembers(es, m, c);
    var i :| 0 <= i < |es| && es[i].id == c && ReportsTo(es[i], m);
    BuildParents(es, i);
  }

  /** With unique ids a node with a parent is listed among that parent's children. */
  lemma BuildParentLinks(es: seq<Employee>, c: string)
    requires UniqueIds(es)
    requires c in Build(es).nodes && Build(es).nodes[c].parent.Some?
    ensures Build(es).nodes[c].parent.value in Build(es).nodes
    ensures c in Build(es).nodes[Build(es).nodes[c].parent.value].children
  {
    var i := IdPosition(es, c);
    BuildParents(es, i);
    var m := es[i].managerId.value;
    BuildChildren(es, m);
    ChildIdsMembers(es, m, c);
  }

  /** With unique ids a node is a root exactly when it is parentless. */
  lemma BuildRootsParentless(es: seq<Employee>, x: string)
    requires UniqueIds(es)
    ensures x in Build(es).roots <==> x in Build(es).nodes && Build(es).nodes[x].IsRoot()
  {
    BuildRoots(es);
    RootIdsMembers(es, Ids(es), x);
    if x in Build(es).nodes {
      var i := IdPosition(es, x);
      BuildParents(es, i);
      assert forall j | 0 <= j < |es| && es[j].id == x :: j == i;
    }
  }

  lemma AllChildLinks(es: seq<Employee>)
    requires UniqueIds(es)
    ensures var a := Build(es).nodes;
      forall m, c | m in a && c in a[m].children :: ChildLinked(a, m, c)
  {
    var a := Build(es).nodes;
    forall m, c | m in a && c in a[m].children
      ensures ChildLinked(a, m, c)
    {
      BuildChildLinks(es, m, c);
    }
  }

  lemma AllParentLinks(es: seq<Employee>)
    requires UniqueIds(es)
    ensures var a := Build(es).nodes;
      forall c {:trigger ParentLinked(a, c)} | c in a :: ParentLinked(a, c)
  {
    var a := Build(es).nodes;
    forall c | c in a
      ensures ParentLinked(a, c)
    {
      if a[c].parent.Some? {
        BuildParentLinks(es, c);
      }
    }
  }

  lemma AllChildrenDistinct(es: seq<Employee>)
    requires UniqueIds(es)
    ensures var a := Build(es).nodes; forall m | m in a :: Distinct(a[m].children)
  {
    var a := Build(es).nodes;
    forall m | m in a
      ensures Distinct(a[m].children)
    {
      BuildChildren(es, m);
      ChildIdsDistinct(es, m);
    }
  }

  /**
   * With unique ids the built forest is consistent: a node's children have
   * it as parent, a node with a parent is among that parent's children, no
   * child list repeats an id, and the roots are exactly the parentless nodes,
   * each listed once.
   */
  lemma BuildLinksAgree(es: seq<Employee>)
    requires UniqueIds(es)
    ensures LinksAgree(Build(es).nodes)
    ensures forall x :: x in Build(es).roots <==> x in Build(es).nodes && Build(es).nodes[x].IsRoot()
    ensures Distinct(Build(es).roots)
  {
    AllChildLinks(es);
    AllParentLinks(es);
    AllChildrenDistinct(es);
    forall x
      ensures x in Build(es).roots <==> x in Build(es).nodes && Build(es).nodes[x].IsRoot()
    {
      BuildRootsParentless(es, x);
    }
    BuildRoots(es);
    RootIdsDistinct(es, Ids(es));
  }

  /** With unique ids and a grounded chain, a record that is placed under its manager sits one level below it. */
  lemma BuiltDepth(es: seq<Employee>, i: int)
    requires UniqueIds(es)
    requires 0 <= i < |es|
    requires !IsRootRecord(es[i], Ids(es))
    requires Grounded(Build(es).nodes, es[i].id)
    ensures es[i].managerId.value in Build(es).nodes
    ensures Grounded(Build(es).nodes, es[i].managerId.value)
    ensures GetDepth(Build(es).nodes, es[i].id) == GetDepth(Build(es).nodes, es[i].managerId.value) + 1
  {
    BuildParents(es, i);
    DepthOfChild(Build(es).nodes, es[i].id);
  }
}
