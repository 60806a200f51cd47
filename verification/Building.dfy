/** The first pass of `build_tree`: from the list of APIs to the tree of all prefixes. */
module Building {
  import opened Apis
  import opened Branches
  import opened Frontier
  import opened ATrees

  /** The elements are one branch per registered path, holding its APIs. */
  ghost predicate AreGroups(apis: seq<Api>, elements: seq<Branch>)
  {
    && DistinctPaths(elements)
    && (forall e | e in elements :: e == BranchAt(apis, Keys(e.path)) && exists api | api in apis :: api.path == e.path)
    && (forall api | api in apis :: exists e | e in elements :: e.path == api.path)
  }

  lemma GroupIsBranchAt(apis: seq<Api>, path: string)
    ensures NewBranch(path, GroupOf(apis, path)) == BranchAt(apis, Keys(path))
    ensures NewBranch(path, GroupOf(apis, path)).path == path
  {
    PathOfKeys(path);
  }

  /** One branch per path of the hash set, which is walked in no particular order. */
  method GroupBranches(apis: seq<Api>) returns (elements: seq<Branch>)
    ensures AreGroups(apis, elements)
  {
    hide BranchAt, NewBranch;
    var paths := set api | api in apis :: api.path;
    var todo := paths;
    elements := [];
    while todo != {}
      invariant todo <= paths && DistinctPaths(elements)
      invariant forall e | e in elements :: e.path in paths && e.path !in todo && e == BranchAt(apis, Keys(e.path))
      invariant forall path | path in paths && path !in todo :: exists e | e in elements :: e.path == path
    {
      var path :| path in todo;
      var group := GroupOf(apis, path);
      var api :| api in apis && api.path == path;
      assert api in group && group[0] in group;
      var branch := NewBranch(group[0].path, group);
      GroupIsBranchAt(apis, path);
      ghost var before := elements;
      elements := elements + [branch];
      assert forall e | e in before :: e in elements;
      assert branch in elements;
      todo := todo - {path};
    }
    forall e | e in elements ensures exists api | api in apis :: api.path == e.path {
      assert e.path in paths;
    }
    forall api | api in apis ensures exists e | e in elements :: e.path == api.path {
      assert api.path in paths;
    }
  }

  // ----- the remains handler -----

  lemma GroupOfNone(apis: seq<Api>, path: string)
    requires forall api | api in apis :: api.path != path
    ensures GroupOf(apis, path) == []
  {
  }

  /** A prefix is registered, or its branch is bare. */
  lemma BareUnlessRegistered(apis: seq<Api>, p: Path)
    requires p != [] && forall api | api in apis :: api.path != PathOf(p)
    ensures BranchAt(apis, p) == NewBranch(PathOf(p), [])
  {
    GroupOfNone(apis, PathOf(p));
  }

  /** All non-empty prefixes of an element are in the tree or waiting to be filled in. */
  ghost predicate HasWay(e: Branch, have: set<Path>)
  {
    forall n | 0 < n <= |Keys(e.path)| :: Keys(e.path)[..n] in have
  }

  /** Fills are missing prefixes; each holds its branch, or its own element is still to come. */
  ghost predicate FillsOk(apis: seq<Api>, tree: set<Path>, fills: map<Path, Branch>, remains: seq<Branch>)
  {
    forall p | p in fills ::
      && p != [] && p in Prefixes(apis) && p !in tree
      && (fills[p] == BranchAt(apis, p) || exists e | e in remains :: Keys(e.path) == p)
  }

  /** What the collecting loop keeps. */
  ghost predicate Collecting(apis: seq<Api>, all: seq<Branch>, remains: seq<Branch>, tree: set<Path>,
                             fills: map<Path, Branch>)
  {
    && FillsOk(apis, tree, fills, remains)
    && (forall e | e in all :: e in remains || HasWay(e, tree + fills.Keys))
    && (forall e | e in remains :: e in all && Keys(e.path) !in tree)
  }

  lemma HasWayMore(e: Branch, have: set<Path>, more: set<Path>)
    requires HasWay(e, have) && have <= more
    ensures HasWay(e, more)
  {
  }

  /** A missing ancestor is bare, unless its own element is still to come. */
  lemma AncestorIsBareOrComes(apis: seq<Api>, all: seq<Branch>, remains: seq<Branch>, have: set<Path>, p: Path)
    requires AreGroups(apis, all) && SeparatorFree(p) && p != [] && p !in have
    requires forall e | e in all :: e in remains || HasWay(e, have)
    ensures BranchAt(apis, p) == NewBranch(PathOf(p), []) || exists e | e in remains :: Keys(e.path) == p
  {
    hide BranchAt, NewBranch, Keys;
    if forall x | x in apis :: x.path != PathOf(p) {
      BareUnlessRegistered(apis, p);
    } else {
      var x :| x in apis && x.path == PathOf(p);
      var own :| own in all && own.path == x.path;
      KeysOfPathOf(p);
      assert Keys(own.path) == p && p[..|p|] == p;
      assert own in remains;
    }
  }

  lemma PrefixOfElement(apis: seq<Api>, all: seq<Branch>, e: Branch, n: nat)
    requires AreGroups(apis, all) && e in all && n <= |Keys(e.path)|
    ensures Keys(e.path)[..n] in Prefixes(apis) && SeparatorFree(Keys(e.path)[..n])
  {
    hide Keys, BranchAt, DistinctPaths;
    var api :| api in apis && api.path == e.path;
    PathOfKeys(e.path);
  }

  /** A bare ancestor is filled in; should it be registered, its element comes later. */
  lemma FillAncestor(apis: seq<Api>, all: seq<Branch>, remains: seq<Branch>, tree: set<Path>, fills: map<Path, Branch>,
                     e: Branch, n: nat)
    requires AreGroups(apis, all) && Collecting(apis, all, remains, tree, fills)
    requires e in remains && 0 < n < |Keys(e.path)|
    requires Keys(e.path)[..n] !in tree && Keys(e.path)[..n] !in fills
    ensures Collecting(apis, all, remains, tree, fills[Keys(e.path)[..n] := NewBranch(PathOf(Keys(e.path)[..n]), [])])
  {
    hide BranchAt, NewBranch, Keys, Prefixes, AreGroups, HasWay;
    var p := Keys(e.path)[..n];
    var fills' := fills[p := NewBranch(PathOf(p), [])];
    PrefixOfElement(apis, all, e, n);
    AncestorIsBareOrComes(apis, all, remains, tree + fills.Keys, p);
    forall x | x in all && x !in remains ensures HasWay(x, tree + fills'.Keys) {
      HasWayMore(x, tree + fills.Keys, tree + fills'.Keys);
    }
  }

  lemma OwnBranch(apis: seq<Api>, all: seq<Branch>, e: Branch)
    requires AreGroups(apis, all) && e in all
    ensures e == BranchAt(apis, Keys(e.path))
  {
  }

  lemma FrontIsDistinct(elements: seq<Branch>)
    requires DistinctPaths(elements) && elements != []
    ensures DistinctPaths(Front(elements))
  {
  }

  /** The element itself always goes in. */
  lemma FillElement(apis: seq<Api>, all: seq<Branch>, remains: seq<Branch>, tree: set<Path>, fills: map<Path, Branch>)
    requires AreGroups(apis, all) && Collecting(apis, all, remains, tree, fills) && remains != []
    requires DistinctPaths(remains)
    requires forall n | 0 < n < |Keys(Last(remains).path)| :: Keys(Last(remains).path)[..n] in tree + fills.Keys
    ensures Collecting(apis, all, Front(remains), tree, fills[Keys(Last(remains).path) := Last(remains)])
    ensures DistinctPaths(Front(remains))
  {
    hide BranchAt, Keys, Prefixes, DistinctPaths, AreGroups;
    var e := Last(remains);
    var fills' := fills[Keys(e.path) := e];
    assert remains == Front(remains) + [e] && e in remains;
    PrefixOfElement(apis, all, e, |Keys(e.path)|);
    assert Keys(e.path)[..|Keys(e.path)|] == Keys(e.path);
    assert HasWay(e, tree + fills'.Keys);
    OwnBranch(apis, all, e);
    hide HasWay;
    forall x | x in all ensures x in Front(remains) || HasWay(x, tree + fills'.Keys) {
      assert x in remains ==> x == e || x in Front(remains);
      if x !in remains { HasWayMore(x, tree + fills.Keys, tree + fills'.Keys); }
    }
    forall p | p in fills' && fills'[p] != BranchAt(apis, p)
      ensures exists x | x in Front(remains) :: Keys(x.path) == p
    {
      var x :| x in remains && Keys(x.path) == p;
      assert x in Front(remains);
    }
    FrontIsDistinct(remains);
  }

  /** After the loop, the fills are exactly the missing prefixes with their branches. */
  lemma CollectedAll(apis: seq<Api>, all: seq<Branch>, tree: set<Path>, fills: map<Path, Branch>)
    requires AreGroups(apis, all) && Collecting(apis, all, [], tree, fills)
    requires [] in tree && tree <= Prefixes(apis)
    ensures tree + fills.Keys == Prefixes(apis) && tree !! fills.Keys
    ensures forall p | p in fills :: fills[p] == BranchAt(apis, p)
  {
    hide BranchAt, Keys;
    forall p | p in Prefixes(apis) && p != [] ensures p in tree + fills.Keys {
      var api, n :| api in apis && 0 <= n <= |Keys(api.path)| && p == Keys(api.path)[..n];
      var e :| e in all && e.path == api.path;
      assert HasWay(e, tree + fills.Keys);
    }
  }

  lemma StartCollecting(apis: seq<Api>, all: seq<Branch>, left: seq<Branch>, nodes: Nodes)
    requires IsTree(nodes) && Placed(all, left, Elements(nodes))
    ensures Collecting(apis, all, left, nodes.Keys, map[])
  {
    TreeIsRooted(nodes);
    forall e | e in all && e !in left ensures HasWay(e, nodes.Keys) {
      forall n | 0 < n <= |Keys(e.path)| ensures Keys(e.path)[..n] in nodes.Keys {
        RootedPrefix(nodes.Keys, Keys(e.path), n);
      }
    }
  }

  method CollectFills(root: ATree, ghost apis: seq<Api>, ghost all: seq<Branch>, left: seq<Branch>, ghost nodes: Nodes)
    returns (fills: map<Path, Branch>)
    requires IsTree(nodes) && nodes[[]] == root
    requires AreGroups(apis, all) && Placed(all, left, Elements(nodes)) && DistinctPaths(left)
    requires nodes.Keys <= Prefixes(apis)
    ensures nodes.Keys + fills.Keys == Prefixes(apis) && nodes.Keys !! fills.Keys
    ensures forall p | p in fills :: fills[p] == BranchAt(apis, p)
  {
    hide IsTree, AreGroups, Placed, Collecting, DistinctPaths, Prefixes, BranchAt, NewBranch, Keys, Rooted, Elements;
    var remains := left;
    fills := map[];
    StartCollecting(apis, all, left, nodes);
    RootOk(nodes);
    while remains != []
      invariant Collecting(apis, all, remains, nodes.Keys, fills) && DistinctPaths(remains)
      decreases |remains|
    {
      var element := Last(remains);
      assert element in remains;
      var paths := Keys(element.path);
      for i := 0 to |paths| - 1
        invariant Collecting(apis, all, remains, nodes.Keys, fills)
        invariant forall n | 0 < n <= i :: paths[..n] in nodes.Keys + fills.Keys
      {
        var path := paths[..i + 1];
        var found := root.GetByPath(path, nodes);
        assert root.keys + path == path;
        if found == null && path !in fills {
          FillAncestor(apis, all, remains, nodes.Keys, fills, element, i + 1);
          fills := fills[path := NewBranch(PathOf(path), [])];
        }
      }
      FillElement(apis, all, remains, nodes.Keys, fills);
      fills := fills[paths := element];
      remains := Front(remains);
    }
    CollectedAll(apis, all, nodes.Keys, fills);
  }

  // ----- inserting the fills -----

  /** The tree and the fills together hold what the APIs stand for. */
  ghost predicate Filling(apis: seq<Api>, nodes: Nodes, fills: map<Path, Branch>, root: ATree)
    reads nodes.Values
  {
    && IsTree(nodes) && nodes[[]] == root
    && nodes.Keys + fills.Keys == Prefixes(apis) && nodes.Keys !! fills.Keys
    && (forall p | p in nodes :: nodes[p].element == BranchAt(apis, p) && Unwired(nodes[p]))
    && (forall p | p in fills :: fills[p] == BranchAt(apis, p))
  }

  /** The least of the fills has its parent in the tree: a prefix sorts first. */
  lemma LeastHasParent(apis: seq<Api>, tree: set<Path>, fills: set<Path>, p: Path)
    requires tree + fills == Prefixes(apis) && [] in tree && tree !! fills
    requires p in fills && forall q | q in fills :: PathLeq(p, q)
    ensures p != [] && Front(p) in tree
  {
    PrefixesShape(apis, p);
    assert Front(p) <= p;
    PrefixSortsFirst(Front(p), p);
    if Front(p) in fills {
      PathLeqAntisymmetric(Front(p), p);
    }
  }

  lemma FillMoves(all: set<Path>, tree: set<Path>, fills: map<Path, Branch>, p: Path)
    requires p in fills && tree + fills.Keys == all && tree !! fills.Keys
    ensures (tree + {p}) + (fills - {p}).Keys == all && (tree + {p}) !! (fills - {p}).Keys
    ensures (fills - {p}).Keys < fills.Keys
  {
    assert (fills - {p}).Keys == fills.Keys - {p};
  }

  /** The tree with one fill inserted. */
  lemma Filled(apis: seq<Api>, nodes: Nodes, fills: map<Path, Branch>, root: ATree, p: Path, child: ATree)
    requires p in fills && p !in nodes && [] in nodes && nodes[[]] == root
    requires nodes.Keys + fills.Keys == Prefixes(apis) && nodes.Keys !! fills.Keys
    requires forall q | q in nodes :: nodes[q].element == BranchAt(apis, q) && Unwired(nodes[q])
    requires forall q | q in fills :: fills[q] == BranchAt(apis, q)
    requires child.element == fills[p] && Unwired(child)
    ensures IsTree(nodes[p := child]) ==> Filling(apis, nodes[p := child], fills - {p}, root)
    ensures (fills - {p}).Keys < fills.Keys
  {
    hide IsTree, Prefixes, BranchAt;
    FillMoves(Prefixes(apis), nodes.Keys, fills, p);
    assert nodes[p := child].Keys == nodes.Keys + {p};
  }

  lemma FillingFacts(apis: seq<Api>, nodes: Nodes, fills: map<Path, Branch>, root: ATree)
    requires Filling(apis, nodes, fills, root)
    ensures IsTree(nodes) && Rooted(nodes.Keys) && nodes[[]] == root && root.keys == []
    ensures nodes.Keys + fills.Keys == Prefixes(apis) && nodes.Keys !! fills.Keys
    ensures forall q | q in nodes :: nodes[q].element == BranchAt(apis, q) && Unwired(nodes[q])
    ensures forall q | q in fills :: fills[q] == BranchAt(apis, q)
  {
    RootOk(nodes);
    TreeIsRooted(nodes);
  }

  /** `pop_first` and `set_by_path`: the insertion neither fails nor drops a subtree. */
  method InsertLeast(root: ATree, ghost apis: seq<Api>, fills: map<Path, Branch>, ghost nodes: Nodes)
    returns (ghost nodes': Nodes, rest: map<Path, Branch>)
    requires fills != map[] && Filling(apis, nodes, fills, root)
    modifies nodes.Values
    ensures Filling(apis, nodes', rest, root) && rest.Keys < fills.Keys
    ensures forall n: ATree | n in nodes'.Values :: n in nodes.Values || fresh(n)
  {
    hide IsTree, Prefixes, BranchAt, PathLeq, Rooted, WithNode, Filling;
    FillingFacts(apis, nodes, fills, root);
    LeastPathExists(fills.Keys);
    var p :| p in fills.Keys && forall q | q in fills.Keys :: PathLeq(p, q);
    LeastHasParent(apis, nodes.Keys, fills.Keys, p);
    assert root.keys + Front(p) == Front(p) && root.keys + p == p;
    var child;
    child, nodes' := root.SetByPath(p, fills[p], nodes);
    forall q | q in nodes ensures nodes[q].element == BranchAt(apis, q) && Unwired(nodes[q]) {
      assert nodes[q] in nodes.Values;
    }
    WithFreshPath(nodes, p, child);
    Filled(apis, nodes, fills, root, p, child);
    rest := fills - {p};
  }

  method InsertFills(root: ATree, ghost apis: seq<Api>, missing: map<Path, Branch>, ghost nodes: Nodes)
    returns (ghost nodes': Nodes)
    requires Filling(apis, nodes, missing, root)
    modifies nodes.Values
    ensures Filling(apis, nodes', map[], root)
    ensures forall n: ATree | n in nodes'.Values :: n in nodes.Values || fresh(n)
  {
    var fills := missing;
    nodes' := nodes;
    while fills != map[]
      invariant Filling(apis, nodes', fills, root)
      invariant forall n: ATree | n in nodes'.Values :: n in nodes.Values || fresh(n)
      decreases fills.Keys
    {
      nodes', fills := InsertLeast(root, apis, fills, nodes');
    }
  }

  // ----- the whole first pass -----

  lemma RootIsPrefix(apis: seq<Api>)
    ensures [] in Prefixes(apis)
  {
  }

  /** What `ATree::build` placed agrees with the APIs. */
  lemma PlacedAgrees(apis: seq<Api>, all: seq<Branch>, rest: seq<Branch>, nodes: Nodes)
    requires IsTree(nodes) && AreGroups(apis, all) && Placed(all, rest, Elements(nodes))
    requires nodes[[]].element == BranchAt(apis, [])
    ensures nodes.Keys <= Prefixes(apis)
    ensures forall p | p in nodes :: nodes[p].element == BranchAt(apis, p)
  {
    hide IsTree, BranchAt, Prefixes, Keys;
    RootOk(nodes);
    forall p | p in nodes ensures p in Prefixes(apis) && nodes[p].element == BranchAt(apis, p) {
      var e := Elements(nodes)[p];
      if p == [] {
        RootIsPrefix(apis);
      } else {
        PrefixOfElement(apis, all, e, |p|);
        assert p[..|p|] == p;
      }
    }
  }

  lemma GroupsArePlaceable(apis: seq<Api>, elements: seq<Branch>)
    requires AreGroups(apis, elements) && forall api | api in apis :: TreePath(api.path)
    ensures DistinctPaths(elements) && forall e | e in elements :: TreePath(e.path)
  {
    hide TreePath, BranchAt;
    forall e | e in elements ensures TreePath(e.path) {
      var api :| api in apis && api.path == e.path;
    }
  }

  lemma StartFilling(apis: seq<Api>, nodes: Nodes, fills: map<Path, Branch>, root: ATree)
    requires IsTree(nodes) && nodes[[]] == root && Unwired(root)
    requires nodes.Keys + fills.Keys == Prefixes(apis) && nodes.Keys !! fills.Keys
    requires forall p | p in nodes :: nodes[p].element == BranchAt(apis, p)
    requires forall p | p in nodes && p != [] :: Unwired(nodes[p])
    requires forall p | p in fills :: fills[p] == BranchAt(apis, p)
    ensures Filling(apis, nodes, fills, root)
  {
    hide IsTree, BranchAt, Prefixes;
  }

  lemma FilledAll(apis: seq<Api>, nodes: Nodes, root: ATree)
    requires Filling(apis, nodes, map[], root)
    ensures IsTree(nodes) && nodes[[]] == root && Elements(nodes) == Contents(apis)
    ensures forall n | n in nodes.Values :: Unwired(n)
  {
    hide IsTree, BranchAt, Prefixes;
    assert nodes.Keys == Prefixes(apis);
  }

  lemma RootBranch(apis: seq<Api>)
    ensures BranchAt(apis, []) == NewBranch([], []) && NewBranch([], []).path == []
  {
  }

  /** The first pass: whatever order the groups come in, the tree holds exactly the prefixes of
      the registered paths, each with its APIs. */
  method BuildContents(root: ATree, apis: seq<Api>, ghost nodes: Nodes) returns (ghost nodes': Nodes)
    requires IsTree(nodes) && nodes.Keys == {[]} && nodes[[]] == root && Unwired(root)
    requires root.element == NewBranch([], [])
    requires forall api | api in apis :: TreePath(api.path)
    modifies root
    ensures IsTree(nodes') && nodes'[[]] == root
    ensures Elements(nodes') == Contents(apis)
    ensures forall n | n in nodes'.Values :: Unwired(n) && (n == root || fresh(n))
  {
    hide IsTree, BranchAt, NewBranch, TreePath, Placed, Keys, Prefixes, AreGroups, Filling, DistinctPaths, Elements,
         Contents;
    var elements := GroupBranches(apis);
    RootBranch(apis);
    GroupsArePlaceable(apis, elements);
    var remains;
    remains, nodes' := root.Build(elements, nodes);
    PlacedAgrees(apis, elements, remains, nodes');
    var fills := CollectFills(root, apis, elements, remains, nodes');
    StartFilling(apis, nodes', fills, root);
    nodes' := InsertFills(root, apis, fills, nodes');
    FilledAll(apis, nodes', root);
  }
}
