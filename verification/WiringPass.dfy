/** The second pass of `build_tree` on the tree itself: the traversal and what it does at each node. */
module WiringPass {
  import opened Branches
  import opened Frontier
  import opened Wiring
  import opened ATrees

  // ----- the tree as a value -----

  ghost function KeysOf(ns: seq<ATree>): (r: seq<Path>)
    ensures |r| == |ns| && forall i | 0 <= i < |ns| :: r[i] == ns[i].keys
  {
    seq(|ns|, i requires 0 <= i < |ns| => ns[i].keys)
  }

  ghost function CellOf(n: ATree): Cell
    reads n
  {
    Cell(n.element, KeysOf(n.varChildren), map k | k in n.omittedPassedChildren :: n.omittedPassedChildren[k].keys)
  }

  ghost function View(nodes: Nodes): Trie
    reads nodes.Values
  {
    map p | p in nodes :: CellOf(nodes[p])
  }

  /** Links lead to nodes of the same tree. */
  ghost predicate LinksInside(nodes: Nodes, n: ATree)
    reads n
  {
    && OnTree(n.varChildren, nodes)
    && forall k | k in n.omittedPassedChildren ::
         n.omittedPassedChildren[k].keys in nodes
             && nodes[n.omittedPassedChildren[k].keys] == n.omittedPassedChildren[k]
  }

  ghost predicate AllInside(nodes: Nodes)
    reads nodes.Values
  {
    forall n | n in nodes.Values :: LinksInside(nodes, n)
  }

  /** The elements the pass starts from. */
  ghost predicate Plain(c: map<Path, Branch>)
  {
    && Rooted(c.Keys) && !c[[]].isOmission
    && forall p | p in c :: !c[p].isMidVar && (p != [] ==> Key(c[p].path) == Last(p))
  }

  // ----- one node -----

  /** What an ancestor writes down about a node: it has a middle variable if it is a required
      variable, and a variable or omission-passed node becomes one of its links. */
  method WriteDown(parent: ATree, node: ATree, isOmittedPassedChild: bool) returns (ok: bool)
    modifies parent`element, parent`varChildren, parent`omittedPassedChildren
    ensures ok <==> !IsOpenVar(old(parent.element.varType))
    ensures ok ==>
              parent.element
              == old(parent.element).(isMidVar := old(parent.element.isMidVar) || old(parent.element.varType.Required?))
    ensures ok ==>
              parent.varChildren
              == old(parent.varChildren) + (if !old(node.element.varType).NotVar? then [node] else [])
    ensures ok ==> parent.omittedPassedChildren ==
                   (if old(node.element.varType).NotVar? && isOmittedPassedChild
                    then old(parent.omittedPassedChildren)[Key(old(node.element.path)) := node]
                    else old(parent.omittedPassedChildren))
  {
    match parent.element.varType {
      case Required(_) => parent.element := parent.element.(isMidVar := true);
      case NotVar =>
      case _ => return false;
    }
    if !node.element.varType.NotVar? {
      parent.varChildren := parent.varChildren + [node];
    } else if isOmittedPassedChild {
      parent.omittedPassedChildren := parent.omittedPassedChildren[Key(node.element.path) := node];
    }
    ok := true;
  }

  lemma ParentOf(nodes: Nodes, n: ATree)
    requires IsTree(nodes) && n.keys in nodes && nodes[n.keys] == n && n.keys != []
    ensures n.parent != null && Front(n.keys) in nodes && n.parent == nodes[Front(n.keys)]
    ensures n.parent.keys == Front(n.keys)
  {
    hide IsTree;
    NodeOk(nodes, n.keys);
    NodeOk(nodes, Front(n.keys));
  }

  lemma AmbiguousAt(c: map<Path, Branch>, q: Path)
    requires Rooted(c.Keys) && q in c && q != []
    ensures Anchor(Omitted(c), q) in c
    ensures IsAmbiguous(c, q) <==> IsOpenVar(c[Anchor(Omitted(c), q)].varType)
  {
    AnchorInTree(c, q);
  }

  lemma RootNotOmitted(c: map<Path, Branch>)
    requires Plain(c)
    ensures [] !in Omitted(c)
  {
  }

  lemma ElementOf(c: map<Path, Branch>, order: seq<Path>, nodes: Nodes, p: Path)
    requires c.Keys == nodes.Keys && p in nodes && View(nodes) == WiredBy(c, order)
    ensures nodes[p].element == c[p].(isMidVar := nodes[p].element.isMidVar)
    ensures nodes[p].element.isOmission <==> p in Omitted(c)
  {
    assert View(nodes)[p] == WiredBy(c, order)[p];
  }

  lemma KeyOfNode(c: map<Path, Branch>, p: Path)
    requires Plain(c) && p in c && p != []
    ensures Key(c[p].path) == Last(p) && Rooted(c.Keys)
  {
  }

  lemma PassedMeans(c: map<Path, Branch>, a: Path, q: Path)
    requires q != [] && a == Anchor(Omitted(c), q)
    ensures a != Front(q) <==> |a| < |q| - 1
  {
    assert a == q[..|a|];
  }

  /** The ancestor's new links are what one more visit attaches. */
  lemma AttachedCell(c: map<Path, Branch>, was: Cell, n: ATree, node: ATree, links: seq<ATree>,
                     passed: map<string, ATree>)
    requires node.keys != [] && node.keys in c
    requires was.varChildren == KeysOf(links) && was.passed == map k | k in passed :: passed[k].keys
    requires n.element == was.branch.(isMidVar := was.branch.isMidVar || was.branch.varType.Required?)
    requires n.varChildren == links + (if !c[node.keys].varType.NotVar? then [node] else [])
    requires n.omittedPassedChildren ==
             (if c[node.keys].varType.NotVar? && Anchor(Omitted(c), node.keys) != Front(node.keys)
              then passed[Last(node.keys) := node] else passed)
    ensures CellOf(n) == Attached(c, was, node.keys)
  {
    hide Anchor;
  }

  /** Only the cell of `a` changed. */
  lemma OneCellChanged(nodes: Nodes, was: Trie, a: Path, cell: Cell)
    requires a in nodes && was.Keys == nodes.Keys && CellOf(nodes[a]) == cell
    requires forall p | p in nodes && p != a :: CellOf(nodes[p]) == was[p]
    ensures View(nodes) == was[a := cell]
  {
    hide CellOf;
  }

  lemma CellParts(nodes: Nodes, p: Path)
    requires p in nodes
    ensures View(nodes)[p].branch == nodes[p].element && View(nodes)[p].varChildren == KeysOf(nodes[p].varChildren)
    ensures View(nodes)[p].passed == map k | k in nodes[p].omittedPassedChildren ::
        nodes[p].omittedPassedChildren[k].keys
  {
  }

  ghost predicate PassedInside(nodes: Nodes, passed: map<string, ATree>)
  {
    forall k | k in passed :: passed[k].keys in nodes && nodes[passed[k].keys] == passed[k]
  }

  lemma InsideOf(nodes: Nodes)
    requires AllInside(nodes)
    ensures forall p | p in nodes :: LinksInside(nodes, nodes[p])
  {
  }

  lemma LinksOf(nodes: Nodes, n: ATree)
    requires LinksInside(nodes, n)
    ensures OnTree(n.varChildren, nodes) && PassedInside(nodes, n.omittedPassedChildren)
  {
  }

  /** One more link inside the tree. */
  lemma StillInside(nodes: Nodes, parent: ATree, node: ATree, links: seq<ATree>, passed: map<string, ATree>)
    requires parent.keys in nodes && node.keys in nodes && nodes[node.keys] == node && node.keys != []
    requires forall p | p in nodes && p != parent.keys :: LinksInside(nodes, nodes[p])
    requires nodes[parent.keys] == parent
    requires OnTree(links, nodes) && PassedInside(nodes, passed)
    requires parent.varChildren == links || parent.varChildren == links + [node]
    requires parent.omittedPassedChildren == passed || parent.omittedPassedChildren == passed[Last(node.keys) := node]
    ensures AllInside(nodes)
  {
  }

  /** One visited node: its anchor is told about it. */
  method Tell(parent: ATree, node: ATree, isOmittedPassedChild: bool, ghost c: map<Path, Branch>,
              ghost order: seq<Path>, ghost nodes: Nodes)
    returns (ok: bool)
    requires IsTree(nodes) && Plain(c) && c.Keys == nodes.Keys
    requires node.keys in nodes && nodes[node.keys] == node && node.keys != []
    requires parent.keys in nodes && nodes[parent.keys] == parent && parent.keys == Anchor(Omitted(c), node.keys)
    requires isOmittedPassedChild <==> |parent.keys| < |node.keys| - 1
    requires View(nodes) == WiredBy(c, order) && AllInside(nodes)
    modifies parent`element, parent`varChildren, parent`omittedPassedChildren
    ensures ok <==> Rooted(c.Keys) && !IsAmbiguous(c, node.keys)
    ensures ok ==> View(nodes) == WiredBy(c, order + [node.keys]) && AllInside(nodes)
  {
    hide IsTree, Plain, WiredBy, Rooted, Anchor, VarsAt, PassedAt, Attached, CellOf, KeysOf, AllInside, LinksInside,
         OnTree, PassedInside;
    ghost var was := View(nodes);
    ghost var links, passed := parent.varChildren, parent.omittedPassedChildren;
    ElementOf(c, order, nodes, parent.keys);
    ElementOf(c, order, nodes, node.keys);
    KeyOfNode(c, node.keys);
    KeysTellNodes(nodes);
    PassedMeans(c, parent.keys, node.keys);
    CellParts(nodes, parent.keys);
    assert forall p | p in nodes :: CellOf(nodes[p]) == was[p];
    InsideOf(nodes);
    LinksOf(nodes, parent);
    AmbiguousAt(c, node.keys);
    hide IsAmbiguous, IsOpenVar, Omitted;
    ok := WriteDown(parent, node, isOmittedPassedChild);
    if ok {
      VisitWires(c, order, node.keys);
      AttachedCell(c, was[parent.keys], parent, node, links, passed);
      OneCellChanged(nodes, was, parent.keys, Attached(c, was[parent.keys], node.keys));
      StillInside(nodes, parent, node, links, passed);
    }
  }

  /** The callback of the traversal: it climbs to the nearest ancestor that is not omitted and
      tells it. False stands for the panic on a `?`, `*` or `+` variable in the middle. */
  method Attach(node: ATree, ghost c: map<Path, Branch>, ghost order: seq<Path>, ghost nodes: Nodes) returns (ok: bool)
    requires IsTree(nodes) && Plain(c) && c.Keys == nodes.Keys
    requires node.keys in nodes && nodes[node.keys] == node && node.keys != []
    requires View(nodes) == WiredBy(c, order) && AllInside(nodes)
    modifies nodes.Values
    ensures forall n: ATree | n in nodes.Values :: n.children == old(n.children)
    ensures ok <==> Rooted(c.Keys) && !IsAmbiguous(c, node.keys)
    ensures ok ==> View(nodes) == WiredBy(c, order + [node.keys]) && AllInside(nodes)
  {
    hide IsTree, Plain, WiredBy, Rooted, Anchor, AllInside, IsAmbiguous, View, Omitted;
    var current := node;
    var isOmittedPassedChild := false;
    assert node.keys[..|node.keys|] == node.keys;
    ParentOf(nodes, current);
    var parent: ATree := current.parent;
    while parent.element.isOmission
      invariant current.keys in nodes && nodes[current.keys] == current && current.keys != []
      invariant current.keys == node.keys[..|current.keys|] && |current.keys| <= |node.keys|
      invariant parent.keys == Front(current.keys) && parent.keys in nodes && nodes[parent.keys] == parent
      invariant forall n | |current.keys| <= n < |node.keys| :: node.keys[..n] in Omitted(c)
      invariant isOmittedPassedChild <==> |current.keys| < |node.keys|
      decreases |current.keys|
      modifies {}
    {
      ElementOf(c, order, nodes, parent.keys);
      RootNotOmitted(c);
      isOmittedPassedChild := true;
      current := parent;
      ParentOf(nodes, current);
      parent := current.parent;
    }
    ElementOf(c, order, nodes, parent.keys);
    assert parent.keys == node.keys[..|parent.keys|];
    AnchorUnique(Omitted(c), node.keys, parent.keys);
    ok := Tell(parent, node, isOmittedPassedChild, c, order, nodes);
  }

  // ----- the traversal -----

  /** The paths one key below `p`, for keys in order. */
  function Below(p: Path, keys: seq<string>): (r: seq<Path>)
    ensures |r| == |keys| && forall i | 0 <= i < |keys| :: r[i] == p + [keys[i]]
  {
    seq(|keys|, i requires 0 <= i < |keys| => p + [keys[i]])
  }

  /** No visited node is ambiguous. */
  ghost predicate NoneAmbiguous(c: map<Path, Branch>, order: seq<Path>)
  {
    Rooted(c.Keys) && forall q | q in order && q in c && q != [] :: !IsAmbiguous(c, q)
  }

  /** Everything the pass keeps from node to node. */
  ghost predicate Passing(c: map<Path, Branch>, order: seq<Path>, nodes: Nodes)
    reads nodes.Values
  {
    && IsTree(nodes) && Plain(c) && c.Keys == nodes.Keys
    && View(nodes) == WiredBy(c, order) && AllInside(nodes)
    && NoneAmbiguous(c, order)
  }

  /** One callback: either the pass goes on with one more node, or it has met an ambiguous one. */
  method Visit(node: ATree, ghost c: map<Path, Branch>, ghost order: seq<Path>, ghost nodes: Nodes) returns (ok: bool)
    requires Passing(c, order, nodes)
    requires node.keys in nodes && nodes[node.keys] == node && node.keys != []
    modifies nodes.Values
    ensures forall n: ATree | n in nodes.Values :: n.children == old(n.children)
    ensures ok ==> Passing(c, order + [node.keys], nodes)
    ensures !ok ==> exists q | q in c && q != [] && Rooted(c.Keys) :: IsAmbiguous(c, q)
  {
    hide Shape, Plain, WiredBy, Rooted, AllInside, IsAmbiguous, View;
    KeyOfNode(c, node.keys);
    ghost var kids := KidMaps(nodes);
    ok := Attach(node, c, order, nodes);
    assert KidMaps(nodes) == kids;
  }

  lemma ChildKeysOfNode(nodes: set<Path>, p: Path, keys: set<string>)
    requires forall k :: k in keys <==> p + [k] in nodes
    ensures ChildKeys(nodes, p) == keys
  {
    forall k | k in keys ensures k in ChildKeys(nodes, p) {
      assert Front(p + [k]) == p && Last(p + [k]) == k;
    }
    forall k | k in ChildKeys(nodes, p) ensures k in keys {
      var q :| q in nodes && q != [] && Front(q) == p && Last(q) == k;
      assert q == p + [k];
    }
  }

  lemma KidsOfNode(nodes: Nodes, p: Path)
    requires IsTree(nodes) && p in nodes
    ensures nodes[p].keys == p
    ensures Kids(nodes.Keys, p) == Below(p, Ascending(nodes[p].children.Keys))
    ensures forall k | k in nodes[p].children :: p + [k] in nodes && nodes[p + [k]] == nodes[p].children[k]
  {
    NodeOk(nodes, p);
    hide IsTree, ChildKeys, Ascending;
    ChildKeysOfNode(nodes.Keys, p, nodes[p].children.Keys);
  }

  lemma PassingTree(c: map<Path, Branch>, order: seq<Path>, nodes: Nodes)
    requires Passing(c, order, nodes)
    ensures IsTree(nodes) && c.Keys == nodes.Keys && Rooted(c.Keys)
  {
  }

  lemma BelowCons(p: Path, k: string, keys: seq<string>)
    ensures Below(p, [k] + keys) == [p + [k]] + Below(p, keys)
  {
  }

  lemma NextKid(p: Path, todo: set<string>)
    requires todo != {}
    ensures Below(p, Ascending(todo)) == [p + [MinString(todo)]] + Below(p, Ascending(todo - {MinString(todo)}))
  {
    BelowCons(p, MinString(todo), Ascending(todo - {MinString(todo)}));
  }

  lemma ReverseSnoc(done: seq<Path>, q: Path)
    ensures Reverse(done + [q]) == [q] + Reverse(done)
  {
  }

  lemma KeysOfConcat(a: seq<ATree>, b: seq<ATree>)
    ensures KeysOf(a + b) == KeysOf(a) + KeysOf(b)
  {
  }

  /** One element moves from what is left to what is done. */
  lemma MoveOver(before: seq<Path>, done: seq<Path>, q: Path, left: seq<Path>)
    ensures before + done + [q] == before + (done + [q])
    ensures done + ([q] + left) == (done + [q]) + left
  {
  }

  lemma NothingVisited(p: Path, ns: seq<ATree>)
    requires ns == []
    ensures KeysOf(ns) == Reverse<Path>([]) && Below(p, Ascending({})) == []
  {
  }

  lemma KeysOfCons(n: ATree, ns: seq<ATree>)
    ensures KeysOf([n] + ns) == [n.keys] + KeysOf(ns)
  {
  }

  /** The children of one node are visited in the order of their keys, and put on the stack so
      that the first comes off first. */
  method VisitChildren(parent: ATree, ghost c: map<Path, Branch>, ghost before: seq<Path>, ghost nodes: Nodes)
    returns (ok: bool, added: seq<ATree>)
    requires Passing(c, before, nodes) && parent.keys in nodes && nodes[parent.keys] == parent
    modifies nodes.Values
    ensures ok ==>
              && Passing(c, before + Kids(c.Keys, parent.keys), nodes)
              && OnTree(added, nodes) && KeysOf(added) == Reverse(Kids(c.Keys, parent.keys))
    ensures !ok ==> exists q | q in c && q != [] && Rooted(c.Keys) :: IsAmbiguous(c, q)
  {
    hide Passing, IsTree, IsAmbiguous, Rooted, Ascending, Kids, KeysOf, Below, Reverse, MinString, NoneAmbiguous;
    PassingTree(c, before, nodes);
    KidsOfNode(nodes, parent.keys);
    var children := parent.children;
    var todo := children.Keys;
    ghost var done: seq<Path> := [];
    ok, added := true, [];
    assert before + done == before;
    NothingVisited(parent.keys, added);
    while todo != {}
      invariant ok && todo <= children.Keys
      invariant Passing(c, before + done, nodes)
      invariant done + Below(parent.keys, Ascending(todo)) == Kids(c.Keys, parent.keys)
      invariant OnTree(added, nodes) && KeysOf(added) == Reverse(done)
    {
      var k := MinString(todo);
      var child := children[k];
      assert parent.keys + [k] != [] && child.keys == parent.keys + [k] by {
        PassingTree(c, before + done, nodes);
        NodeOk(nodes, parent.keys + [k]);
      }
      ok := Visit(child, c, before + done, nodes);
      if !ok { return; }
      NextKid(parent.keys, todo);
      ReverseSnoc(done, child.keys);
      KeysOfCons(child, added);
      MoveOver(before, done, child.keys, Below(parent.keys, Ascending(todo - {k})));
      done := done + [child.keys];
      added := [child] + added;
      todo := todo - {k};
    }
    assert done + [] == done;
    assert done == Kids(c.Keys, parent.keys);
  }

  lemma NothingLeft(nodes: set<Path>, stack: seq<ATree>)
    requires stack == []
    ensures KeysOf(stack) == [] && Stack(nodes, []) && Visits(nodes, []) == []
  {
  }

  lemma PassedAll(c: map<Path, Branch>, order: seq<Path>, nodes: Nodes)
    requires Passing(c, order, nodes) && Rooted(c.Keys) && order == VisitOrder(c.Keys)
    ensures IsTree(nodes) && View(nodes) == Wired(c) && AllInside(nodes)
    ensures !exists q | q in c && q != [] :: IsAmbiguous(c, q)
  {
    hide IsAmbiguous, IsTree, View, AllInside, WiredBy, Rooted;
  }

  /** The second pass: it goes through exactly when no `?`, `*` or `+` variable has something
      below it, and then leaves the wired tree behind. */
  method WireTree(root: ATree, ghost c: map<Path, Branch>, ghost nodes: Nodes) returns (ok: bool)
    requires Passing(c, [], nodes) && nodes[[]] == root
    modifies nodes.Values
    ensures Rooted(c.Keys)
    ensures ok <==> !exists q | q in c && q != [] :: IsAmbiguous(c, q)
    ensures ok ==> IsTree(nodes) && View(nodes) == Wired(c) && AllInside(nodes)
  {
    hide Passing, IsTree, IsAmbiguous, Rooted, Kids, KeysOf, Stack, Covered, Visits;
    PassingTree(c, [], nodes);
    RootOk(nodes);
    var stack := [root];
    ghost var order: seq<Path> := [];
    RootIsVisitedFrom(c.Keys);
    assert KeysOf(stack) == [[]];
    assert order + Visits(c.Keys, [[]]) == VisitOrder(c.Keys);
    ok := true;
    while stack != []
      invariant ok && Passing(c, order, nodes) && OnTree(stack, nodes)
      invariant Stack(c.Keys, KeysOf(stack))
      invariant order + Visits(c.Keys, KeysOf(stack)) == VisitOrder(c.Keys)
      decreases Covered(c.Keys, KeysOf(stack))
    {
      var parent, rest := Last(stack), Front(stack);
      assert parent in stack && stack == rest + [parent];
      KeysOfConcat(rest, [parent]);
      assert KeysOf([parent]) == [parent.keys];
      VisitsUnfold(c.Keys, KeysOf(stack));
      assert Front(KeysOf(stack)) == KeysOf(rest) && Last(KeysOf(stack)) == parent.keys;
      var added;
      ok, added := VisitChildren(parent, c, order, nodes);
      if !ok { return; }
      KeysOfConcat(rest, added);
      order := order + Kids(c.Keys, parent.keys);
      stack := rest + added;
    }
    assert KeysOf(stack) == [] && Visits(c.Keys, []) == [] by { NothingLeft(c.Keys, stack); }
    PassedAll(c, order, nodes);
  }
}
