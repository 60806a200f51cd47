/** The mutable tree of `atom_tree.rs`, holding route branches: nodes with a map of children, a
    link to their parent, and the links that wiring adds. */
module ATrees {
  import opened Branches
  import opened Frontier

  /** The nodes of a tree by key path. */
  type Nodes = map<Path, ATree>

  /** The key path and the parent of `p` agree with the maps of children. */
  ghost predicate ParentOk(nodes: Nodes, kids: map<Path, map<string, ATree>>, p: Path)
    requires p in nodes && kids.Keys == nodes.Keys
  {
    && nodes[p].keys == p
    && (p == [] ==> nodes[p].parent == null)
    && (p != [] ==>
          && Front(p) in nodes
          && nodes[p].parent == nodes[Front(p)]
          && Last(p) in kids[Front(p)])
  }

  /** The children of `p` are the nodes one key below. */
  ghost predicate ChildrenOk(nodes: Nodes, kids: map<Path, map<string, ATree>>, p: Path)
    requires p in nodes && kids.Keys == nodes.Keys
  {
    forall k | k in kids[p] :: p + [k] in nodes && nodes[p + [k]] == kids[p][k]
  }

  ghost predicate ShapeOk(nodes: Nodes, kids: map<Path, map<string, ATree>>, p: Path)
    requires p in nodes && kids.Keys == nodes.Keys
  {
    ParentOk(nodes, kids, p) && ChildrenOk(nodes, kids, p)
  }

  ghost predicate Shape(nodes: Nodes, kids: map<Path, map<string, ATree>>)
  {
    [] in nodes && kids.Keys == nodes.Keys && forall p | p in nodes :: ShapeOk(nodes, kids, p)
  }

  ghost function KidMaps(nodes: Nodes): map<Path, map<string, ATree>>
    reads nodes.Values
  {
    map p | p in nodes :: nodes[p].children
  }

  ghost predicate IsTree(nodes: Nodes)
    reads nodes.Values
  {
    Shape(nodes, KidMaps(nodes))
  }

  /** What a tree says about one node. */
  lemma NodeOk(nodes: Nodes, p: Path)
    requires IsTree(nodes) && p in nodes
    ensures nodes[p].keys == p
    ensures p == [] <==> nodes[p].parent == null
    ensures p != [] ==> Front(p) in nodes && nodes[p].parent == nodes[Front(p)] && Last(p) in nodes[Front(p)].children
    ensures forall k :: k in nodes[p].children <==> p + [k] in nodes
    ensures forall k | k in nodes[p].children :: nodes[p + [k]] == nodes[p].children[k]
  {
    assert ShapeOk(nodes, KidMaps(nodes), p);
    forall k | p + [k] in nodes ensures k in nodes[p].children {
      assert ShapeOk(nodes, KidMaps(nodes), p + [k]);
      assert Front(p + [k]) == p && Last(p + [k]) == k;
    }
  }

  lemma RootOk(nodes: Nodes)
    requires IsTree(nodes)
    ensures [] in nodes && nodes[[]].keys == []
  {
    NodeOk(nodes, []);
  }

  /** The elements by key path. */
  ghost function Elements(nodes: Nodes): (r: map<Path, Branch>)
    reads nodes.Values
    ensures r.Keys == nodes.Keys
  {
    map p | p in nodes :: nodes[p].element
  }

  /** Everything of a node that `set` leaves alone. */
  ghost function Links(n: ATree): (Branch, seq<ATree>, map<string, ATree>)
    reads n
  {
    (n.element, n.varChildren, n.omittedPassedChildren)
  }

  /** No links were added to the node yet. */
  ghost predicate Unwired(n: ATree)
    reads n
  {
    n.varChildren == [] && n.omittedPassedChildren == map[]
  }

  // ----- building -----

  ghost predicate DistinctPaths(elements: seq<Branch>)
  {
    forall i, j | 0 <= i < j < |elements| :: elements[i].path != elements[j].path
  }

  /** Every element is in the tree at its own keys or left over, never both. */
  ghost predicate Placed(all: seq<Branch>, rest: seq<Branch>, elements: map<Path, Branch>)
  {
    && (forall p | p in elements && p != [] :: elements[p] in all && Keys(elements[p].path) == p)
    && (forall e | e in rest :: e in all && Keys(e.path) !in elements)
    && (forall e | e in all :: e in rest || Keys(e.path) in elements)
  }

  /** The nodes are the tree's own. */
  ghost predicate OnTree(ns: seq<ATree>, nodes: Nodes)
  {
    forall n | n in ns :: n.keys in nodes && nodes[n.keys] == n
  }

  /** If the element's parent is in the tree already, it is still to be looked at. */
  ghost predicate Waits(e: Branch, nodes: Nodes, parents: seq<ATree>)
  {
    Front(Keys(e.path)) in nodes ==> nodes[Front(Keys(e.path))] in parents
  }

  lemma WaitsGrown(e: Branch, nodes: Nodes, q: Path, child: ATree, parents: seq<ATree>, parents': seq<ATree>)
    requires Waits(e, nodes, parents) && child in parents' && forall n | n in parents :: n in parents'
    ensures Waits(e, nodes[q := child], parents')
  {
  }

  lemma WaitsAfterTake(rest: seq<Branch>, i: nat, nodes: Nodes, child: ATree, parents: seq<ATree>, pa: ATree)
    requires i < |rest|
    requires forall e | e in rest :: Waits(e, nodes, parents + [pa])
    requires forall j | i < j < |rest| :: Waits(rest[j], nodes, parents)
    ensures
      var rest', nodes', parents' := rest[..i] + rest[i + 1..], nodes[Keys(rest[i].path) := child], parents + [child];
      && (forall e | e in rest' :: Waits(e, nodes', parents' + [pa]))
      && (forall j | i <= j < |rest'| :: Waits(rest'[j], nodes', parents'))
  {
    hide Waits, Keys;
    var rest', nodes', parents' := rest[..i] + rest[i + 1..], nodes[Keys(rest[i].path) := child], parents + [child];
    forall e | e in rest' ensures Waits(e, nodes', parents' + [pa]) {
      assert e in rest;
      WaitsGrown(e, nodes, Keys(rest[i].path), child, parents + [pa], parents' + [pa]);
    }
    forall j | i <= j < |rest'| ensures Waits(rest'[j], nodes', parents') {
      assert rest'[j] == rest[j + 1];
      WaitsGrown(rest'[j], nodes, Keys(rest[i].path), child, parents, parents');
    }
  }

  lemma KeysTellNodes(nodes: Nodes)
    requires IsTree(nodes)
    ensures forall q | q in nodes :: nodes[q].keys == q
  {
    forall q | q in nodes ensures nodes[q].keys == q { NodeOk(nodes, q); }
  }

  lemma WaitsWithout(e: Branch, nodes: Nodes, parents: seq<ATree>, pa: ATree)
    requires IsTree(nodes) && OnTree([pa], nodes)
    requires Waits(e, nodes, parents + [pa]) && Front(Keys(e.path)) != pa.keys
    ensures Waits(e, nodes, parents)
  {
    KeysTellNodes(nodes);
  }

  /** The tree under construction. */
  ghost predicate Growing(root: ATree, all: seq<Branch>, rest: seq<Branch>, nodes: Nodes)
    reads root, nodes.Values
  {
    && IsTree(nodes) && nodes[[]] == root && root.element.path == []
    && Placed(all, rest, Elements(nodes)) && DistinctPaths(rest)
  }

  lemma StartGrowing(root: ATree, all: seq<Branch>, nodes: Nodes)
    requires IsTree(nodes) && nodes.Keys == {[]} && nodes[[]] == root && root.element.path == []
    requires DistinctPaths(all)
    ensures Growing(root, all, all, nodes) && OnTree([root], nodes)
    ensures forall e | e in all :: Waits(e, nodes, [root])
  {
    NodeOk(nodes, []);
  }

  lemma GrowingRoot(root: ATree, all: seq<Branch>, rest: seq<Branch>, nodes: Nodes)
    requires Growing(root, all, rest, nodes)
    ensures IsTree(nodes) && [] in nodes && nodes[[]] == root && root.keys == []
    ensures forall p | p in nodes && nodes[p] == root :: p == []
  {
    KeysTellNodes(nodes);
  }

  lemma GrowingEnds(root: ATree, all: seq<Branch>, rest: seq<Branch>, nodes: Nodes)
    requires Growing(root, all, rest, nodes) && forall e | e in rest :: Waits(e, nodes, [])
    ensures IsTree(nodes) && nodes[[]] == root
    ensures Placed(all, rest, Elements(nodes)) && DistinctPaths(rest)
    ensures forall e | e in rest :: Front(Keys(e.path)) !in nodes
  {
  }

  lemma TreeIsRooted(nodes: Nodes)
    requires IsTree(nodes)
    ensures Rooted(nodes.Keys)
  {
    forall p | p in nodes && p != [] ensures Front(p) in nodes {
      NodeOk(nodes, p);
    }
  }

  lemma GrowingTakes(root: ATree, all: seq<Branch>, rest: seq<Branch>, nodes: Nodes, i: nat)
    requires Growing(root, all, rest, nodes) && i < |rest|
    ensures IsTree(nodes) && Rooted(nodes.Keys) && nodes[[]] == root && root.element.path == []
    ensures Placed(all, rest, Elements(nodes)) && DistinctPaths(rest)
    ensures forall p | p in nodes :: nodes[p].element == Elements(nodes)[p]
    ensures forall e | e in rest[..i] + rest[i + 1..] :: e in rest
  {
    TreeIsRooted(nodes);
    assert rest[i] in rest;
  }

  lemma Removed(rest: seq<Branch>, i: nat)
    requires i < |rest| && DistinctPaths(rest)
    ensures DistinctPaths(rest[..i] + rest[i + 1..])
    ensures forall x | x in rest[..i] + rest[i + 1..] :: x in rest && x.path != rest[i].path
    ensures forall x | x in rest && x != rest[i] :: x in rest[..i] + rest[i + 1..]
  {
    var rest' := rest[..i] + rest[i + 1..];
    assert rest == rest[..i] + [rest[i]] + rest[i + 1..];
    forall x | x in rest' ensures x in rest && x.path != rest[i].path {
      var j :| 0 <= j < |rest'| && rest'[j] == x;
      assert x == rest[if j < i then j else j + 1];
    }
  }

  /** Taking one element from the rest and putting it at its keys. */
  lemma TakeElement(all: seq<Branch>, rest: seq<Branch>, elements: map<Path, Branch>, i: nat)
    requires Placed(all, rest, elements) && DistinctPaths(rest) && i < |rest|
    ensures
      var e := rest[i];
      && Placed(all, rest[..i] + rest[i + 1..], elements[Keys(e.path) := e])
      && DistinctPaths(rest[..i] + rest[i + 1..])
      && Keys(e.path) !in elements
      && (forall x | x in rest[..i] + rest[i + 1..] :: x in rest)
  {
    hide Keys, DistinctPaths;
    var e := rest[i];
    assert e in rest;
    Removed(rest, i);
    forall x | x in rest[..i] + rest[i + 1..] ensures Keys(x.path) != Keys(e.path) {
      PathOfKeys(x.path);
      PathOfKeys(e.path);
    }
  }

  /** A new node at `q`: whatever was below `q` is dropped. */
  ghost function WithNode(nodes: Nodes, q: Path, child: ATree): Nodes
  {
    (map p | p in nodes && !(q <= p) :: nodes[p])[q := child]
  }

  /** A path that is not in the tree has nothing below it there. */
  lemma WithFreshPath(nodes: Nodes, q: Path, child: ATree)
    requires Rooted(nodes.Keys) && q !in nodes
    ensures WithNode(nodes, q, child) == nodes[q := child]
  {
    forall p | p in nodes ensures !(q <= p) {
      assert q <= p <==> |q| <= |p| && p[..|q|] == q;
      if q <= p {
        RootedPrefix(nodes.Keys, p, |q|);
      }
    }
  }

  lemma PlacedRest(all: seq<Branch>, rest: seq<Branch>, elements: map<Path, Branch>, i: nat)
    requires Placed(all, rest, elements) && i < |rest|
    ensures Keys(rest[i].path) !in elements
  {
    assert rest[i] in rest;
  }

  /** The tree with one element moved from the rest to its place. */
  lemma Grown(root: ATree, all: seq<Branch>, rest: seq<Branch>, nodes: Nodes, elements: map<Path, Branch>, i: nat,
              child: ATree)
    requires i < |rest| && Rooted(nodes.Keys) && nodes.Keys == elements.Keys && nodes[[]] == root
        && root.element.path == []
    requires Placed(all, rest, elements) && DistinctPaths(rest)
    requires forall p | p in nodes :: nodes[p].element == elements[p]
    requires child.element == rest[i]
    requires IsTree(WithNode(nodes, Keys(rest[i].path), child))
    ensures WithNode(nodes, Keys(rest[i].path), child) == nodes[Keys(rest[i].path) := child]
    ensures Keys(rest[i].path) !in nodes
    ensures Growing(root, all, rest[..i] + rest[i + 1..], nodes[Keys(rest[i].path) := child])
  {
    hide IsTree, Keys, Placed, DistinctPaths, WithNode;
    var q := Keys(rest[i].path);
    assert Keys(rest[i].path) !in nodes by { PlacedRest(all, rest, elements, i); }
    WithFreshPath(nodes, q, child);
    TakeElement(all, rest, elements, i);
    assert Elements(nodes[q := child]) == elements[q := rest[i]];
  }

  lemma PlaceOfNode(all: seq<Branch>, rest: seq<Branch>, nodes: Nodes, n: ATree)
    requires Placed(all, rest, Elements(nodes)) && n.keys in nodes && nodes[n.keys] == n
    requires [] in nodes && nodes[[]].element.path == []
    ensures SeparatorFree(n.keys) && n.element.path == PathOf(n.keys)
  {
    assert Elements(nodes)[n.keys] == n.element;
    PathOfKeys(n.element.path);
  }

  lemma GrowingNode(root: ATree, all: seq<Branch>, rest: seq<Branch>, nodes: Nodes, e: Branch, parents: seq<ATree>,
                    pa: ATree)
    requires Growing(root, all, rest, nodes) && pa.keys in nodes && nodes[pa.keys] == pa && e in rest
    requires root !in parents && Waits(e, nodes, parents + [pa])
    ensures IsTree(nodes) && OnTree([pa], nodes) && e in all
    ensures SeparatorFree(pa.keys) && pa.element.path == PathOf(pa.keys)
    ensures Front(Keys(e.path)) == [] ==> pa.keys == []
  {
    hide Keys;
    GrowingRoot(root, all, rest, nodes);
    PlaceOfNode(all, rest, nodes, pa);
  }

  /** Only the root and the node with the empty key have an empty path. */
  lemma EmptyPath(p: Path)
    requires PathOf(p) == []
    ensures p == [] || p == [[]]
  {
  }

  /** The key test of the source finds exactly the elements one key below, once no element
      waits for the root. */
  lemma ChildIsBelow(e: Branch, p: Path, parent: string)
    requires TreePath(e.path) && SeparatorFree(p)
    requires parent == PathOf(p)
    ensures Key(e.path) == Last(Keys(e.path))
    ensures Front(Keys(e.path)) == p ==> ChildOf(e.path, parent)
    ensures ChildOf(e.path, parent) ==> Front(Keys(e.path)) == p || (Front(Keys(e.path)) == [] && p == [[]])
  {
    var keys := Keys(e.path);
    PathOfKeys(e.path);
    ChildOfPath(keys, parent);
    LastPartOfPath(keys);
    FirstKeyOfTreePath(e.path);
    if ChildOf(e.path, parent) && Front(keys) != p {
      assert SeparatorFree(Front(keys));
      if Front(keys) != [] && p != [] { PathOfInjective(Front(keys), p); }
      assert Front(keys) == [] ==> |keys| == 1;
      EmptyPath(p);
      EmptyPath(Front(keys));
    }
  }

  /** The key test of the source finds exactly the elements one key below. */
  lemma ChildTest(e: Branch, p: Path, parent: string)
    requires TreePath(e.path) && SeparatorFree(p) && parent == PathOf(p)
    requires Front(Keys(e.path)) == [] ==> p == []
    ensures ChildOf(e.path, parent) <==> Front(Keys(e.path)) == p
    ensures Front(Keys(e.path)) == p ==> p + [Key(e.path)] == Keys(e.path)
  {
    hide TreePath, ChildOf, Keys, Key;
    ChildIsBelow(e, p, parent);
    assert Keys(e.path) == Front(Keys(e.path)) + [Last(Keys(e.path))];
  }

  // ----- looking up and setting -----

  /** A missing child cuts off everything below it. */
  lemma MissingChild(nodes: Nodes, path: Path, n: nat)
    requires IsTree(nodes) && n < |path| && path[..n] + [path[n]] !in nodes
    ensures path !in nodes
  {
    hide IsTree;
    TreeIsRooted(nodes);
    assert path[..n] + [path[n]] == path[..n + 1];
    if path in nodes {
      RootedPrefix(nodes.Keys, path, n + 1);
    }
  }

  /** The maps of children after a new, childless node is put under `p`. */
  ghost function NewKids(nodes: Nodes, kids: map<Path, map<string, ATree>>, p: Path, key: string, child: ATree)
    : map<Path, map<string, ATree>>
    requires kids.Keys == nodes.Keys && p in nodes
  {
    (map q | q in nodes && !(p + [key] <= q) :: if q == p then kids[p][key := child] else kids[q])[p + [key] := map[]]
  }

  lemma NewNodeOk(nodes: Nodes, kids: map<Path, map<string, ATree>>, p: Path, key: string, child: ATree)
    requires Shape(nodes, kids) && p in nodes
    requires child.keys == p + [key] && child.parent == nodes[p]
    ensures ShapeOk(WithNode(nodes, p + [key], child), NewKids(nodes, kids, p, key, child), p + [key])
  {
    hide Shape;
    assert Front(p + [key]) == p && Last(p + [key]) == key;
  }

  lemma SiblingParentOk(nodes: Nodes, kids: map<Path, map<string, ATree>>, p: Path, key: string, child: ATree, q: Path)
    requires kids.Keys == nodes.Keys && p in nodes && q in nodes && q != [] && !(p + [key] <= q)
    requires ParentOk(nodes, kids, q) && !(p + [key] <= Front(q))
    ensures ParentOk(WithNode(nodes, p + [key], child), NewKids(nodes, kids, p, key, child), q)
  {
  }

  /** A path below `x` is `x` or extends a path below `x`. */
  lemma BelowOrEqual(x: Path, q: Path, k: string)
    requires x <= q + [k] && x != q + [k]
    ensures x <= q
  {
    assert |x| <= |q|;
    assert (q + [k])[..|x|] == q[..|x|];
  }

  lemma SiblingChildrenOk(nodes: Nodes, kids: map<Path, map<string, ATree>>, p: Path, key: string, child: ATree,
                          q: Path)
    requires kids.Keys == nodes.Keys && p in nodes && q in nodes && !(p + [key] <= q)
    requires ChildrenOk(nodes, kids, q)
    ensures ChildrenOk(WithNode(nodes, p + [key], child), NewKids(nodes, kids, p, key, child), q)
  {
    var x := p + [key];
    var nodes', kids' := WithNode(nodes, x, child), NewKids(nodes, kids, p, key, child);
    forall k | k in kids'[q] ensures q + [k] in nodes' && nodes'[q + [k]] == kids'[q][k] {
      if q + [k] == x {
        assert q == Front(x) == p && k == Last(x) == key;
      } else {
        assert q == p ==> k != key;
        if x <= q + [k] { BelowOrEqual(x, q, k); }
      }
    }
  }

  lemma SiblingOk(nodes: Nodes, kids: map<Path, map<string, ATree>>, p: Path, key: string, child: ATree, q: Path)
    requires kids.Keys == nodes.Keys && p in nodes && q in nodes && !(p + [key] <= q)
    requires ShapeOk(nodes, kids, q)
    ensures ShapeOk(WithNode(nodes, p + [key], child), NewKids(nodes, kids, p, key, child), q)
  {
    hide ChildrenOk;
    SiblingChildrenOk(nodes, kids, p, key, child, q);
    if q != [] {
      assert q == Front(q) + [Last(q)];
      assert p + [key] <= Front(q) ==> p + [key] <= q;
      SiblingParentOk(nodes, kids, p, key, child, q);
    }
  }

  /** Nothing below another key is dropped, so the tree stays a tree. */
  lemma SetKeepsShape(nodes: Nodes, kids: map<Path, map<string, ATree>>, p: Path, key: string, child: ATree)
    requires Shape(nodes, kids) && p in nodes
    requires child.keys == p + [key] && child.parent == nodes[p]
    ensures Shape(WithNode(nodes, p + [key], child), NewKids(nodes, kids, p, key, child))
  {
    hide ShapeOk;
    var nodes' := WithNode(nodes, p + [key], child);
    var kids' := NewKids(nodes, kids, p, key, child);
    assert [] in nodes';
    assert kids'.Keys == nodes'.Keys;
    forall q | q in nodes' ensures ShapeOk(nodes', kids', q) {
      if q == p + [key] {
        NewNodeOk(nodes, kids, p, key, child);
      } else {
        assert ShapeOk(nodes, kids, q);
        SiblingOk(nodes, kids, p, key, child, q);
      }
    }
  }

  /** The heap holds the new maps of children. */
  lemma HeapKids(nodes: Nodes, kids: map<Path, map<string, ATree>>, p: Path, key: string, child: ATree)
    requires kids.Keys == nodes.Keys && p in nodes && child.children == map[]
    requires forall q | q in nodes :: nodes[q].children == if q == p then kids[p][key := child] else kids[q]
    ensures KidMaps(WithNode(nodes, p + [key], child)) == NewKids(nodes, kids, p, key, child)
  {
  }

  lemma TreeFromShape(nodes: Nodes, kids: map<Path, map<string, ATree>>, p: Path, key: string, child: ATree)
    requires kids.Keys == nodes.Keys && p in nodes && child.children == map[]
    requires Shape(WithNode(nodes, p + [key], child), NewKids(nodes, kids, p, key, child))
    requires forall q | q in nodes :: nodes[q].children == if q == p then kids[p][key := child] else kids[q]
    ensures IsTree(WithNode(nodes, p + [key], child))
  {
    hide Shape, WithNode, NewKids, KidMaps;
    HeapKids(nodes, kids, p, key, child);
  }

  // ----- what one parent takes -----

  /** From `i` on, what remains is no child of the path; what was taken is one. */
  ghost predicate Sifted(rest: seq<Branch>, remains: seq<Branch>, i: nat, path: string)
  {
    && (forall e | e in remains :: e in rest)
    && (forall j | i <= j < |remains| :: !ChildOf(remains[j].path, path))
    && (forall e | e in rest && e !in remains :: ChildOf(e.path, path))
  }

  lemma SiftStarts(rest: seq<Branch>, path: string)
    ensures Sifted(rest, rest, |rest|, path)
  {
  }

  lemma SiftKeeps(rest: seq<Branch>, remains: seq<Branch>, i: nat, path: string)
    requires i < |remains| && Sifted(rest, remains, i + 1, path) && !ChildOf(remains[i].path, path)
    ensures Sifted(rest, remains, i, path)
  {
    hide ChildOf;
  }

  lemma SiftTakes(rest: seq<Branch>, remains: seq<Branch>, i: nat, path: string)
    requires i < |remains| && Sifted(rest, remains, i + 1, path) && ChildOf(remains[i].path, path)
    ensures Sifted(rest, remains[..i] + remains[i + 1..], i, path)
  {
    hide ChildOf;
    var left := remains[..i] + remains[i + 1..];
    assert remains == remains[..i] + [remains[i]] + remains[i + 1..];
    assert forall j | i <= j < |left| :: left[j] == remains[j + 1];
  }

  // ----- the tree -----

  /** A node. `keys` is its key path, fixed when it is made. */
  class ATree {
    var element: Branch
    var children: map<string, ATree>
    var varChildren: seq<ATree>
    var omittedPassedChildren: map<string, ATree>
    const parent: ATree?
    ghost const keys: Path

    constructor (element: Branch, parent: ATree?, ghost keys: Path)
      ensures this.element == element && this.parent == parent && this.keys == keys
      ensures children == map[] && varChildren == [] && omittedPassedChildren == map[]
    {
      this.element := element;
      this.parent := parent;
      this.keys := keys;
      children, varChildren, omittedPassedChildren := map[], [], map[];
    }

    /** `ATree::set`: a new, childless node takes the place of whatever was under the key. */
    method Set(key: string, element: Branch, ghost nodes: Nodes) returns (child: ATree, ghost nodes': Nodes)
      requires IsTree(nodes) && keys in nodes && nodes[keys] == this
      modifies this`children
      ensures fresh(child) && child.element == element && child.keys == keys + [key]
      ensures child.children == map[] && child.varChildren == [] && child.omittedPassedChildren == map[]
      ensures nodes' == WithNode(nodes, keys + [key], child)
      ensures IsTree(nodes')
    {
      child := new ATree(element, this, keys + [key]);
      nodes' := WithNode(nodes, keys + [key], child);
      ghost var kids := KidMaps(nodes);
      SetKeepsShape(nodes, kids, keys, key, child);
      KeysTellNodes(nodes);
      hide IsTree, Shape;
      children := children[key := child];
      TreeFromShape(nodes, kids, keys, key, child);
    }

    /** `ATree::get_by_path`. */
    method GetByPath(path: Path, ghost nodes: Nodes) returns (r: ATree?)
      requires IsTree(nodes) && keys in nodes && nodes[keys] == this
      ensures r != null <==> keys + path in nodes
      ensures r != null ==> r == nodes[keys + path]
    {
      hide IsTree;
      var child: ATree := this;
      assert keys + path[..0] == keys;
      for i := 0 to |path|
        invariant keys + path[..i] in nodes && child == nodes[keys + path[..i]]
      {
        NodeOk(nodes, keys + path[..i]);
        assert keys + path[..i] + [path[i]] == keys + path[..i + 1];
        if path[i] !in child.children {
          assert (keys + path)[..|keys| + i] == keys + path[..i];
          MissingChild(nodes, keys + path, |keys| + i);
          return null;
        }
        child := child.children[path[i]];
      }
      assert path[..|path|] == path;
      r := child;
    }

    /** `ATree::set_by_path`: it fails, with null, on an empty path and on a missing parent. */
    method SetByPath(path: Path, element: Branch, ghost nodes: Nodes) returns (child: ATree?, ghost nodes': Nodes)
      requires IsTree(nodes) && keys in nodes && nodes[keys] == this
      modifies nodes.Values
      ensures child != null <==> path != [] && keys + Front(path) in nodes
      ensures child == null ==> nodes' == nodes
      ensures child != null ==>
                && fresh(child) && nodes' == WithNode(nodes, keys + path, child) && child.element == element
                && child.varChildren == [] && child.omittedPassedChildren == map[]
      ensures IsTree(nodes')
      ensures forall n: ATree | n in nodes.Values :: Links(n) == old(Links(n))
    {
      hide IsTree, WithNode;
      child, nodes' := null, nodes;
      if path != [] {
        var parent := GetByPath(Front(path), nodes);
        if parent != null {
          NodeOk(nodes, keys + Front(path));
          assert keys + Front(path) + [Last(path)] == keys + path;
          child, nodes' := parent.Set(Last(path), element, nodes);
        }
      }
    }

    /** One element becomes a child of this node, and a parent still to be looked at. */
    method Take(ghost root: ATree, ghost all: seq<Branch>, rest: seq<Branch>, i: nat, parents: seq<ATree>,
                ghost nodes: Nodes)
      returns (remains: seq<Branch>, child: ATree, ghost nodes': Nodes)
      requires Growing(root, all, rest, nodes) && i < |rest| && OnTree([this], nodes)
      requires Keys(rest[i].path) == keys + [Key(rest[i].path)]
      requires forall e | e in rest :: Waits(e, nodes, parents + [this])
      requires forall j | i < j < |rest| :: Waits(rest[j], nodes, parents)
      modifies this`children
      ensures remains == rest[..i] + rest[i + 1..] && Growing(root, all, remains, nodes')
      ensures Keys(rest[i].path) !in nodes && nodes' == nodes[Keys(rest[i].path) := child]
      ensures fresh(child) && Unwired(child) && child.keys == Keys(rest[i].path)
      ensures forall e | e in remains :: Waits(e, nodes', parents + [child] + [this])
      ensures forall j | i <= j < |remains| :: Waits(remains[j], nodes', parents + [child])
    {
      hide Keys, Key, Waits, WithNode, Growing, IsTree, Rooted, Placed, DistinctPaths, Elements;
      ghost var elements := Elements(nodes);
      assert this in [this];
      GrowingTakes(root, all, rest, nodes, i);
      remains := rest[..i] + rest[i + 1..];
      child, nodes' := Set(Key(rest[i].path), rest[i], nodes);
      Grown(root, all, rest, nodes, elements, i, child);
      WaitsAfterTake(rest, i, nodes, child, parents, this);
    }

    /** One round of `build`: every element whose path is one key below this node's becomes a
        child of it, and a parent still to be looked at. */
    method Adopt(ghost root: ATree, ghost all: seq<Branch>, rest: seq<Branch>, stack: seq<ATree>, ghost nodes: Nodes)
      returns (remains: seq<Branch>, parents: seq<ATree>, ghost nodes': Nodes)
      requires Growing(root, all, rest, nodes) && forall e | e in all :: TreePath(e.path)
      requires OnTree(stack, nodes) && OnTree([this], nodes) && root !in stack
      requires forall e | e in rest :: Waits(e, nodes, stack + [this])
      modifies this`children
      ensures Growing(root, all, remains, nodes')
      ensures OnTree(parents, nodes') && root !in parents
      ensures forall e | e in remains :: Waits(e, nodes', parents)
      ensures 2 * |remains| + |parents| <= 2 * |rest| + |stack|
      ensures Sifted(rest, remains, 0, element.path)
      ensures forall p | p in nodes' ::
                (p in nodes && nodes'[p] == nodes[p]) || (fresh(nodes'[p]) && Unwired(nodes'[p]))
    {
      SiftStarts(rest, element.path);
      hide TreePath, ChildOf, Keys, Key, Waits, WithNode, Growing, IsTree, Rooted, Placed, DistinctPaths, Elements,
           Sifted;
      remains, parents, nodes' := rest, stack, nodes;
      assert this in [this];
      var i := |remains|;
      while i > 0
        invariant 0 <= i <= |remains|
        invariant Growing(root, all, remains, nodes')
        invariant Sifted(rest, remains, i, element.path)
        invariant forall p | p in nodes' ::
                    (p in nodes && nodes'[p] == nodes[p]) || (fresh(nodes'[p]) && Unwired(nodes'[p]))
        invariant OnTree(parents, nodes') && keys in nodes' && nodes'[keys] == this && root !in parents
        invariant forall e | e in remains :: Waits(e, nodes', parents + [this])
        invariant forall j | i <= j < |remains| :: Waits(remains[j], nodes', parents)
        invariant 2 * |remains| + |parents| <= 2 * |rest| + |stack|
      {
        i := i - 1;
        var elem := remains[i];
        assert elem in remains;
        GrowingNode(root, all, remains, nodes', elem, parents, this);
        ChildTest(elem, keys, element.path);
        if ChildOf(elem.path, element.path) {
          SiftTakes(rest, remains, i, element.path);
          var child;
          remains, child, nodes' := Take(root, all, remains, i, parents, nodes');
          parents := parents + [child];
        } else {
          WaitsWithout(elem, nodes', parents, this);
          SiftKeeps(rest, remains, i, element.path);
        }
      }
      assert forall e | e in remains :: exists j :: 0 <= j < |remains| && remains[j] == e;
    }

    /** `ATree::build`, up to its remains handler: elements go below their parents until no
        element left has its parent in the tree. */
    method Build(all: seq<Branch>, ghost nodes: Nodes) returns (remains: seq<Branch>, ghost nodes': Nodes)
      requires IsTree(nodes) && nodes.Keys == {[]} && nodes[[]] == this && element.path == []
      requires DistinctPaths(all) && forall e | e in all :: TreePath(e.path)
      modifies this`children
      ensures IsTree(nodes') && nodes'[[]] == this
      ensures forall p | p in nodes' && p != [] :: fresh(nodes'[p]) && Unwired(nodes'[p])
      ensures Placed(all, remains, Elements(nodes')) && DistinctPaths(remains)
      ensures forall e | e in remains :: Front(Keys(e.path)) !in nodes'
    {
      hide TreePath, Keys, Waits, Growing, IsTree, Rooted, Placed, DistinctPaths, Elements;
      var parents: seq<ATree> := [this];
      remains, nodes' := all, nodes;
      StartGrowing(this, all, nodes);
      while parents != []
        invariant Growing(this, all, remains, nodes')
        invariant forall p | p in nodes' && p != [] :: fresh(nodes'[p]) && Unwired(nodes'[p])
        invariant OnTree(parents, nodes')
        invariant this in parents ==> parents == [this]
        invariant forall e | e in remains :: Waits(e, nodes', parents)
        decreases 2 * |remains| + |parents|
      {
        var pa := Last(parents);
        assert parents == Front(parents) + [pa] && pa in parents;
        GrowingRoot(this, all, remains, nodes');
        remains, parents, nodes' := pa.Adopt(this, all, remains, Front(parents), nodes');
      }
      GrowingEnds(this, all, remains, nodes');
    }
  }
}
