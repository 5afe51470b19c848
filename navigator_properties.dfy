/**
 * What the tree queries of EmployeeTree.java and EmployeeNode.java promise
 * on a well-formed forest: `getAllSubordinates` lists every node below the
 * given one exactly once and never the node itself.
 */
module NavigatorProperties {
  import opened Wrappers
  import opened Model
  import opened Tree
  import opened BuildProperties

  /** The node reached from `x` by following `k` parent links. */
  ghost function Ancestor(a: Arena, x: string, k: nat): (y: string)
    requires WellFormed(a)
    requires x in a && k <= GetDepth(a, x)
    ensures y in a && GetDepth(a, y) == GetDepth(a, x) - k
    decreases k
  {
    if k == 0 then x
    else
      DepthOfChild(a, x);
      Ancestor(a, a[x].parent.value, k - 1)
  }

  /** `x` lies below `boss`: one or more parent links lead from `x` to `boss`. */
  ghost predicate IsSubordinate(a: Arena, boss: string, x: string)
    requires WellFormed(a)
  {
    x in a && exists k :: 1 <= k <= GetDepth(a, x) && Ancestor(a, x, k) == boss
  }

  /** One more link up is the parent of the ancestor found so far. */
  lemma {:induction false} AncestorStep(a: Arena, x: string, k: nat)
    requires WellFormed(a)
    requires x in a && k + 1 <= GetDepth(a, x)
    ensures !a[Ancestor(a, x, k)].IsRoot()
    ensures Ancestor(a, x, k + 1) == a[Ancestor(a, x, k)].parent.value
    decreases k
  {
    DepthOfChild(a, x);
    if k > 0 {
      AncestorStep(a, a[x].parent.value, k - 1);
    }
  }

  /** A child entry and a parent link say the same thing in a well-formed forest. */
  lemma ChildIffParent(a: Arena, m: string, g: string)
    requires WellFormed(a)
    requires m in a && g in a
    ensures g in a[m].children <==> a[g].parent == Some(m)
  {
    if g in a[m].children {
      assert ChildLinked(a, m, g);
    }
    assert ParentLinked(a, g);
  }

  /**
   * A node is in the walk of the siblings `cs` (all at depth `d`) exactly
   * when its ancestor at depth `d` is one of them.
   */
  lemma {:induction false} WalkMembers(a: Arena, cs: seq<string>, d: nat, x: string)
    requires WellFormed(a)
    requires forall c | c in cs :: c in a && GetDepth(a, c) == d
    ensures x in Walk(a, cs, d)
        <==> x in a && GetDepth(a, x) >= d && Ancestor(a, x, GetDepth(a, x) - d) in cs
    decreases |a| + 1 - d, |cs|
  {
    if cs != [] {
      var c := cs[0];
      assert c in cs;
      assert GetDepth(a, c) == d;
      ChildDepths(a, c);
      WalkMembers(a, a[c].children, d + 1, x);
      WalkMembers(a, cs[1..], d, x);
      assert Walk(a, cs, d) == [c] + Walk(a, a[c].children, d + 1) + Walk(a, cs[1..], d);
      assert cs == [c] + cs[1..];
      if x in a && GetDepth(a, x) >= d + 1 {
        var k := GetDepth(a, x) - d - 1;
        var g := Ancestor(a, x, k);
        AncestorStep(a, x, k);
        ChildIffParent(a, c, g);
      }
    }
  }

  /** The walk of one node holds only nodes below it at depth `d`, through that node. */
  lemma WalkOfOne(a: Arena, c: string, d: nat, x: string)
    requires WellFormed(a)
    requires c in a && GetDepth(a, c) == d
    requires x in Subordinates(a, c)
    ensures x in a && GetDepth(a, x) > d && Ancestor(a, x, GetDepth(a, x) - d) == c
  {
    WalkSingle(a, c, d);
    WalkMembers(a, [c], d, x);
    ChildDepths(a, c);
    WalkMembers(a, a[c].children, d + 1, x);
  }

  /** `getAllSubordinates` lists exactly the nodes below `id`. */
  lemma SubordinatesMembers(a: Arena, id: string, x: string)
    requires WellFormed(a)
    requires id in a
    ensures x in Subordinates(a, id) <==> IsSubordinate(a, id, x)
  {
    var D := GetDepth(a, id);
    ChildDepths(a, id);
    WalkMembers(a, a[id].children, D + 1, x);
    if x in a && GetDepth(a, x) >= D + 1 {
      var k := GetDepth(a, x) - D - 1;
      AncestorStep(a, x, k);
      ChildIffParent(a, id, Ancestor(a, x, k));
      assert Ancestor(a, x, k + 1) == id <==> Ancestor(a, x, k) in a[id].children;
      if IsSubordinate(a, id, x) {
        var j :| 1 <= j <= GetDepth(a, x) && Ancestor(a, x, j) == id;
        assert j == k + 1;
      }
    }
    if x in a && GetDepth(a, x) < D + 1 {
      assert forall j | 1 <= j <= GetDepth(a, x) :: Ancestor(a, x, j) != id;
    }
  }

  /** No node is its own subordinate. */
  lemma NotOwnSubordinate(a: Arena, id: string)
    requires WellFormed(a)
    requires id in a
    ensures id !in Subordinates(a, id)
  {
    SubordinatesMembers(a, id, id);
    assert forall j | 1 <= j <= GetDepth(a, id) :: Ancestor(a, id, j) != id;
  }

  /** The walk of repeat-free siblings repeats no node. */
  lemma {:induction false} WalkDistinct(a: Arena, cs: seq<string>, d: nat)
    requires WellFormed(a)
    requires forall c | c in cs :: c in a && GetDepth(a, c) == d
    requires Distinct(cs)
    ensures Distinct(Walk(a, cs, d))
    decreases |a| + 1 - d, |cs|
  {
    if cs != [] {
      var c := cs[0];
      var rest := cs[1..];
      assert c in cs;
      assert GetDepth(a, c) == d;
      ChildDepths(a, c);
      var w1 := Walk(a, a[c].children, d + 1);
      var w2 := Walk(a, rest, d);
      WalkDistinct(a, a[c].children, d + 1);
      assert Distinct(rest) by {
        forall i, j | 0 <= i < j < |rest| ensures rest[i] != rest[j] {
          assert rest[i] == cs[i + 1] && rest[j] == cs[j + 1];
        }
      }
      WalkDistinct(a, rest, d);
      assert c !in rest by {
        forall i | 0 <= i < |rest| ensures rest[i] != c {
          assert rest[i] == cs[i + 1];
        }
      }
      forall x | x in w1
        ensures x !in w2 && x != c
      {
        WalkOfOne(a, c, d, x);
        WalkMembers(a, rest, d, x);
      }
      WalkMembers(a, rest, d, c);
      assert [c][0] == c;
      DistinctConcat([c], w1);
      DistinctConcat([c] + w1, w2);
    }
  }

  /** `getAllSubordinates` lists each node below `id` once. */
  lemma SubordinatesDistinct(a: Arena, id: string)
    requires WellFormed(a)
    requires id in a
    ensures Distinct(Subordinates(a, id))
  {
    ChildDepths(a, id);
    WalkDistinct(a, a[id].children, GetDepth(a, id) + 1);
  }

  /** Every direct report is a subordinate. */
  lemma DirectReportsAreSubordinates(a: Arena, id: string, c: string)
    requires WellFormed(a)
    requires id in a && c in GetChildren(a[id])
    ensures c in Subordinates(a, id)
  {
    assert ChildLinked(a, id, c);
    assert Grounded(a, c);
    DepthOfChild(a, c);
    assert Ancestor(a, c, 1) == id;
    SubordinatesMembers(a, id, c);
  }

  /**
   * A build of records with unique ids whose manager chains all end at a
   * root is a well-formed forest, so the subordinate queries apply to it.
   */
  lemma BuildWellFormed(es: seq<Employee>)
    requires UniqueIds(es)
    requires forall k | k in Build(es).nodes :: Grounded(Build(es).nodes, k)
    ensures WellFormed(Build(es).nodes)
  {
    BuildLinksAgree(es);
  }

  /**
   * Every child id of a built node names an indexed node, duplicate ids
   * included, so the salary batch can look up the reports of any node of
   * `getAllNodes()`.
   */
  lemma BuildChildrenPresent(es: seq<Employee>)
    ensures ChildrenPresent(Build(es).nodes)
  {
    forall m, c | m in Build(es).nodes && c in Build(es).nodes[m].children
      ensures c in Build(es).nodes
    {
      BuildChildren(es, m);
      ChildIdsMembers(es, m, c);
    }
  }
}
