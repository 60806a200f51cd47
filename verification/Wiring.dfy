/** The second pass of `build_tree`: variables and omission-passed nodes are attached to their
    nearest ancestor that a request has to spell out. */
module Wiring {
  import opened Apis
  import opened Branches
  import opened Frontier

  /** A node: its element and its links, as key paths. */
  datatype Cell = Cell(branch: Branch, varChildren: seq<Path>, passed: map<string, Path>)

  type Trie = map<Path, Cell>

  function Omitted(c: map<Path, Branch>): set<Path>
  {
    set p | p in c && c[p].isOmission
  }

  /** The nearest proper ancestor that is not omitted; the root never is. */
  function Anchor(omitted: set<Path>, p: Path): (a: Path)
    requires p != []
    ensures a < p
    ensures a == [] || a !in omitted
    ensures forall n | |a| < n < |p| :: p[..n] in omitted
  {
    var parent := Front(p);
    if parent == [] || parent !in omitted then parent
    else
      var a := Anchor(omitted, parent);
      assert forall n | |a| < n < |parent| :: p[..n] == parent[..n];
      a
  }

  /** The anchor is the only proper ancestor of its kind. */
  lemma AnchorUnique(omitted: set<Path>, p: Path, a: Path)
    requires p != [] && a < p && (a == [] || a !in omitted)
    requires forall n | |a| < n < |p| :: p[..n] in omitted
    ensures a == Anchor(omitted, p)
  {
    var b := Anchor(omitted, p);
    assert a == p[..|a|] && b == p[..|b|];
  }

  /** A variable that takes a changing number of parts. */
  predicate IsOpenVar(v: VarType)
  {
    v.Optional? || v.EmptableVector? || v.Vector?
  }

  lemma RootIsVisitedFrom(nodes: set<Path>)
    requires Rooted(nodes)
    ensures Stack(nodes, [[]])
    ensures forall q :: q in Visits(nodes, [[]]) <==> q in nodes && q != []
  {
    forall q ensures q in Visits(nodes, [[]]) <==> q in nodes && q != [] {
      VisitsAllBelow(nodes, [[]], q);
      var root: Path := [[]][0];
      assert StrictlyBelow([[]], q) <==> root < q;
    }
  }

  /** The traversal from the root hands over every node but the root, once. */
  ghost function VisitOrder(nodes: set<Path>): (r: seq<Path>)
    requires Rooted(nodes)
    ensures forall q :: q in r <==> q in nodes && q != []
    ensures Distinct(r)
  {
    VisitsAreDistinct(nodes, [[]]);
    RootIsVisitedFrom(nodes);
    Visits(nodes, [[]])
  }

  // ----- what the pass leaves behind -----

  predicate IsVarAt(c: map<Path, Branch>, q: Path, p: Path)
  {
    q in c && q != [] && !c[q].varType.NotVar? && Anchor(Omitted(c), q) == p
  }

  predicate IsPassedAt(c: map<Path, Branch>, q: Path, p: Path)
  {
    q in c && q != [] && c[q].varType.NotVar? && Anchor(Omitted(c), q) == p && Front(q) != p
  }

  /** The variables anchored at `p`, in the order they were visited. */
  function VarsAt(c: map<Path, Branch>, order: seq<Path>, p: Path): (r: seq<Path>)
    ensures forall q :: q in r <==> q in order && IsVarAt(c, q, p)
  {
    if order == [] then [] else
      assert order == Front(order) + [Last(order)];
      var before := VarsAt(c, Front(order), p);
      if IsVarAt(c, Last(order), p)
      then before + [Last(order)]
      else before
  }

  /** The fixed nodes anchored at `p` through an omission: a later equal key replaces an earlier one. */
  function PassedAt(c: map<Path, Branch>, order: seq<Path>, p: Path): (r: map<string, Path>)
    ensures forall k | k in r :: r[k] in order && IsPassedAt(c, r[k], p) && Last(r[k]) == k
    ensures forall q | q in order && IsPassedAt(c, q, p) :: Last(q) in r
  {
    if order == [] then map[] else
      assert order == Front(order) + [Last(order)];
      var q := Last(order);
      var before := PassedAt(c, Front(order), p);
      if IsPassedAt(c, q, p)
      then before[Last(q) := q]
      else before
  }

  /** Of the omission-passed nodes with one key, the last visited is the one kept. */
  lemma {:induction false} LastPassedWins(c: map<Path, Branch>, order: seq<Path>, p: Path, i: nat)
    requires i < |order| && IsPassedAt(c, order[i], p)
    requires forall j | i < j < |order| && IsPassedAt(c, order[j], p) :: Last(order[j]) != Last(order[i])
    ensures Last(order[i]) in PassedAt(c, order, p) && PassedAt(c, order, p)[Last(order[i])] == order[i]
  {
    hide Anchor;
    if i < |order| - 1 {
      assert forall j | 0 <= j < |order| - 1 :: Front(order)[j] == order[j];
      LastPassedWins(c, Front(order), p, i);
    }
  }

  ghost predicate HasBelow(c: map<Path, Branch>, order: seq<Path>, p: Path)
  {
    exists q | q in order && q != [] :: Anchor(Omitted(c), q) == p
  }

  /** The tree after the nodes in `order` were visited. */
  ghost function WiredBy(c: map<Path, Branch>, order: seq<Path>): Trie
  {
    map p | p in c ::
      Cell(c[p].(isMidVar := c[p].varType.Required? && HasBelow(c, order, p)),
           VarsAt(c, order, p), PassedAt(c, order, p))
  }

  /** One more visited node changes the cell of its anchor and no other. */
  ghost function Attached(c: map<Path, Branch>, cell: Cell, q: Path): Cell
    requires q in c && q != []
  {
    var marked := cell.(branch := cell.branch.(isMidVar := cell.branch.isMidVar || cell.branch.varType.Required?));
    if !c[q].varType.NotVar? then marked.(varChildren := cell.varChildren + [q])
    else if Anchor(Omitted(c), q) != Front(q) then marked.(passed := cell.passed[Last(q) := q])
    else marked
  }

  lemma LinksAfterVisit(c: map<Path, Branch>, order: seq<Path>, q: Path, p: Path)
    requires q in c && q != []
    ensures
      var here := Anchor(Omitted(c), q) == p;
      && VarsAt(c, order + [q], p) == VarsAt(c, order, p) + (if here && !c[q].varType.NotVar? then [q] else [])
      && PassedAt(c, order + [q], p)
         == (if here && c[q].varType.NotVar? && Front(q) != p
             then PassedAt(c, order, p)[Last(q) := q]
             else PassedAt(c, order, p))
  {
    var longer := order + [q];
    assert Front(longer) == order && Last(longer) == q;
  }

  lemma BelowAfterVisit(c: map<Path, Branch>, order: seq<Path>, q: Path, p: Path)
    requires q != []
    ensures HasBelow(c, order + [q], p) <==> HasBelow(c, order, p) || p == Anchor(Omitted(c), q)
  {
    assert q in order + [q];
  }

  lemma CellAfterVisit(c: map<Path, Branch>, order: seq<Path>, q: Path, p: Path)
    requires q in c && q != [] && p in c
    ensures WiredBy(c, order + [q])[p]
         == if p == Anchor(Omitted(c), q) then Attached(c, WiredBy(c, order)[p], q) else WiredBy(c, order)[p]
  {
    hide Anchor, VarsAt, PassedAt, HasBelow;
    LinksAfterVisit(c, order, q, p);
    BelowAfterVisit(c, order, q, p);
  }

  lemma AnchorInTree(c: map<Path, Branch>, q: Path)
    requires q in c && q != [] && Rooted(c.Keys)
    ensures Anchor(Omitted(c), q) in c
  {
    var a := Anchor(Omitted(c), q);
    RootedPrefix(c.Keys, q, |a|);
    assert q[..|a|] == a;
  }

  lemma VisitWires(c: map<Path, Branch>, order: seq<Path>, q: Path)
    requires Rooted(c.Keys) && q in c && q != []
    ensures Anchor(Omitted(c), q) in c
    ensures
      var a := Anchor(Omitted(c), q);
      WiredBy(c, order + [q]) == WiredBy(c, order)[a := Attached(c, WiredBy(c, order)[a], q)]
  {
    hide Attached, Anchor, Rooted, VarsAt, PassedAt, HasBelow;
    AnchorInTree(c, q);
    var a := Anchor(Omitted(c), q);
    var was, now := WiredBy(c, order), WiredBy(c, order + [q]);
    var cell := Attached(c, was[a], q);
    forall p | p in c ensures now[p] == if p == a then cell else was[p] {
      CellAfterVisit(c, order, q, p);
    }
    assert now == was[a := cell];
  }

  /** Something below a variable that takes a changing number of parts. */
  ghost predicate IsAmbiguous(c: map<Path, Branch>, q: Path)
    requires q != [] && q in c && Rooted(c.Keys)
  {
    AnchorInTree(c, q);
    IsOpenVar(c[Anchor(Omitted(c), q)].varType)
  }

  /** The pass goes through exactly when no `?`, `*` or `+` variable has a child. */
  lemma AmbiguousMeans(c: map<Path, Branch>)
    requires Rooted(c.Keys)
    requires forall p | p in c && c[p].isOmission :: c[p].varType.NotVar?
    requires c[[]].varType.NotVar?
    ensures (exists q | q in c && q != [] :: IsAmbiguous(c, q))
       <==> (exists p | p in c && IsOpenVar(c[p].varType) :: HasKid(c.Keys, p))
  {
    if p :| p in c && IsOpenVar(c[p].varType) && HasKid(c.Keys, p) {
      var q :| q in c.Keys && q != [] && Front(q) == p;
      AnchorUnique(Omitted(c), q, p);
      assert IsAmbiguous(c, q);
    }
    if q :| q in c && q != [] && IsAmbiguous(c, q) {
      AnchorInTree(c, q);
      ExtensionHasKid(c.Keys, Anchor(Omitted(c), q), q);
    }
  }

  /** The tree after the whole pass. */
  ghost function Wired(c: map<Path, Branch>): Trie
    requires Rooted(c.Keys)
  {
    WiredBy(c, VisitOrder(c.Keys))
  }

  // ----- what the search relies on -----

  ghost function Omissions(t: Trie): set<Path>
  {
    set p | p in t && t[p].branch.isOmission
  }

  /** A node and its links are as registration and wiring leave them. */
  ghost predicate CellOk(t: Trie, p: Path)
    requires p in t
  {
    var b := t[p].branch;
    && SeparatorFree(p)
    && b.path == PathOf(p)
    && (p != [] ==> b.varType == VarTypeOf(Last(p)))
    && (b.isOmission ==> b.varType.NotVar?)
    && (p == [] ==> !b.isOmission && b.varType.NotVar? && b.apis == [])
    && (b.isMidVar <==> b.varType.Required? && HasKid(t.Keys, p))
    && (IsOpenVar(b.varType) ==> !HasKid(t.Keys, p))
    && (p != [] && !HasKid(t.Keys, p) ==> b.apis != [])
  }

  ghost predicate PassedOk(t: Trie, p: Path, k: string)
    requires p in t && k in t[p].passed
  {
    var q := t[p].passed[k];
    && q in t && q != [] && Last(q) == k && t[q].branch.varType.NotVar?
    && Anchor(Omissions(t), q) == p && Front(q) != p
  }

  ghost predicate LinksOk(t: Trie, p: Path)
    requires p in t
  {
    && Distinct(t[p].varChildren)
    && (forall v | v in t[p].varChildren ::
          v in t && v != [] && !t[v].branch.varType.NotVar? && Anchor(Omissions(t), v) == p)
    && (forall k | k in t[p].passed :: PassedOk(t, p, k))
  }

  /** Nothing is left out of the links. */
  ghost predicate LinksComplete(t: Trie)
  {
    forall q | q in t && q != [] ::
      var a := Anchor(Omissions(t), q);
      && a in t
      && (!t[q].branch.varType.NotVar? ==> q in t[a].varChildren)
      && (t[q].branch.varType.NotVar? && a != Front(q) ==> Last(q) in t[a].passed)
  }

  ghost predicate Searchable(t: Trie)
  {
    && Rooted(t.Keys)
    && (forall p | p in t :: CellOk(t, p) && LinksOk(t, p))
    && LinksComplete(t)
  }

  lemma PathOfBranch(t: Trie, q: Path)
    requires Searchable(t) && q in t
    ensures t[q].branch.path == PathOf(q)
  {
    assert CellOk(t, q);
  }

  // ----- building and wiring make a searchable tree -----

  lemma ContentsRooted(apis: seq<Api>)
    ensures Rooted(Contents(apis).Keys)
  {
    forall p | p in Prefixes(apis) && p != [] ensures Front(p) in Prefixes(apis) {
      PrefixesShape(apis, p);
    }
  }

  /** The route tree of a list of APIs. */
  ghost function TrieOf(apis: seq<Api>): Trie
  {
    ContentsRooted(apis);
    Wired(Contents(apis))
  }

  /** No `?`, `*` or `+` variable has anything below it. */
  ghost predicate Unambiguous(apis: seq<Api>)
  {
    forall p | p in Prefixes(apis) && p != [] && Front(p) in Prefixes(apis) ::
      !IsOpenVar(BranchAt(apis, Front(p)).varType)
  }

  lemma DistinctVarsAt(c: map<Path, Branch>, order: seq<Path>, p: Path)
    requires Distinct(order)
    ensures Distinct(VarsAt(c, order, p))
  {
    if order != [] {
      assert order == Front(order) + [Last(order)];
      DistinctVarsAt(c, Front(order), p);
      assert Last(order) !in Front(order);
    }
  }

  lemma HasBelowMeansKid(c: map<Path, Branch>, p: Path)
    requires Rooted(c.Keys) && p in c && (p == [] || !c[p].isOmission)
    ensures HasBelow(c, VisitOrder(c.Keys), p) <==> HasKid(c.Keys, p)
  {
    var order := VisitOrder(c.Keys);
    if HasKid(c.Keys, p) {
      var q :| q in c.Keys && q != [] && Front(q) == p;
      AnchorUnique(Omitted(c), q, p);
      assert q in order;
    }
    if q :| q in order && q != [] && Anchor(Omitted(c), q) == p {
      ExtensionHasKid(c.Keys, p, q);
    }
  }

  lemma LeafIsRegistered(apis: seq<Api>, p: Path)
    requires p in Prefixes(apis) && p != [] && !HasKid(Prefixes(apis), p)
    ensures BranchAt(apis, p).apis != []
  {
    ContentsRooted(apis);
    assert Contents(apis).Keys == Prefixes(apis);
    forall longer | longer in Prefixes(apis) && p <= longer ensures longer == p {
      if longer != p { ExtensionHasKid(Prefixes(apis), p, longer); }
    }
    LeavesAreRegistered(apis, p);
  }

  /** The cell of a wired node whose element is in order. */
  lemma CellFacts(c: map<Path, Branch>, p: Path)
    requires Rooted(c.Keys) && p in c && p != []
    requires !c[p].isMidVar && (c[p].isOmission ==> c[p].varType.NotVar?)
    ensures
      var b := Wired(c)[p].branch;
      && b == c[p].(isMidVar := b.isMidVar)
      && (b.isMidVar <==> c[p].varType.Required? && HasKid(c.Keys, p))
  {
    if !c[p].isOmission { HasBelowMeansKid(c, p); }
  }

  lemma WiredCellOk(apis: seq<Api>, p: Path)
    requires Registrable(apis) && Unambiguous(apis) && p in Prefixes(apis)
    ensures Rooted(Contents(apis).Keys) && CellOk(Wired(Contents(apis)), p)
  {
    hide Rooted, Visits, VarsAt, PassedAt, Anchor;
    ContentsRooted(apis);
    PrefixesShape(apis, p);
    if p != [] {
      BranchShape(apis, p);
      if !HasKid(Prefixes(apis), p) { LeafIsRegistered(apis, p); }
      CellFacts(Contents(apis), p);
    }
  }

  lemma OmissionsOfWired(c: map<Path, Branch>)
    requires Rooted(c.Keys)
    ensures Omissions(Wired(c)) == Omitted(c)
  {
  }

  lemma WiredLinksAt(c: map<Path, Branch>, p: Path)
    requires Rooted(c.Keys) && p in c
    ensures LinksOk(Wired(c), p)
  {
    hide Rooted, Visits, HasBelow, Anchor, VarsAt, PassedAt;
    var t, order := Wired(c), VisitOrder(c.Keys);
    OmissionsOfWired(c);
    DistinctVarsAt(c, order, p);
    forall k | k in t[p].passed ensures PassedOk(t, p, k) {
      assert t[p].passed[k] in order;
    }
  }

  lemma WiredLinksComplete(c: map<Path, Branch>)
    requires Rooted(c.Keys)
    ensures LinksComplete(Wired(c))
  {
    hide Rooted, Visits, HasBelow, Anchor, VarsAt, PassedAt;
    OmissionsOfWired(c);
    forall q | q in Wired(c) && q != [] ensures Anchor(Omissions(Wired(c)), q) in Wired(c) {
      AnchorInTree(c, q);
    }
  }

  /** After registration, building and wiring, the tree is fit for searching. */
  lemma TrieIsSearchable(apis: seq<Api>)
    requires Registrable(apis) && Unambiguous(apis)
    ensures Searchable(TrieOf(apis)) && TrieOf(apis).Keys == Prefixes(apis)
    ensures forall p | p in TrieOf(apis) :: TrieOf(apis)[p].branch.apis == BranchAt(apis, p).apis
  {
    hide CellOk, LinksOk, LinksComplete, BranchAt;
    ContentsRooted(apis);
    WiredLinksComplete(Contents(apis));
    forall p | p in Prefixes(apis) ensures CellOk(TrieOf(apis), p) && LinksOk(TrieOf(apis), p) {
      WiredLinksAt(Contents(apis), p);
      WiredCellOk(apis, p);
    }
  }

  /** A node of the tree may be dropped exactly when an omissible API is registered there. */
  lemma OmissionsMean(apis: seq<Api>, p: Path)
    ensures p in Omissions(TrieOf(apis))
       <==> p in Prefixes(apis) && p != [] && exists api | api in apis && api.omission :: api.path == PathOf(p)
  {
    ContentsRooted(apis);
    OmissionsOfWired(Contents(apis));
    hide Prefixes, PathOf, Wired;
    if p in Prefixes(apis) && p != [] {
      var group := GroupOf(apis, PathOf(p));
      assert forall api | api in apis && api.omission && api.path == PathOf(p) :: api in group;
    }
  }

  // ----- the order of the variables -----

  lemma {:induction false} VarsAtInOrder(c: map<Path, Branch>, order: seq<Path>, p: Path)
    requires InVisitOrder(order)
    ensures InVisitOrder(VarsAt(c, order, p))
  {
    hide VisitBefore, IsVarAt;
    if order != [] {
      assert forall i | 0 <= i < |order| - 1 :: Front(order)[i] == order[i];
      VarsAtInOrder(c, Front(order), p);
      var before := VarsAt(c, Front(order), p);
      forall i | 0 <= i < |before| ensures VisitBefore(before[i], Last(order)) {
        assert before[i] in before;
        var k :| 0 <= k < |Front(order)| && Front(order)[k] == before[i];
      }
    }
  }

  /** The variables a branch offers are in the order of their parents, and those of one parent in the
      order of their keys. */
  lemma VarsInKeyOrder(apis: seq<Api>, p: Path)
    requires p in TrieOf(apis)
    ensures InVisitOrder(TrieOf(apis)[p].varChildren)
  {
    ContentsRooted(apis);
    var c, root: Path := Contents(apis), [];
    RootIsVisitedFrom(c.Keys);
    assert TopFirst([root]);
    hide Rooted, Visits, VarsAt, TopFirst, Contents, VisitBefore;
    VisitsInOrder(c.Keys, [root]);
    VarsAtInOrder(c, VisitOrder(c.Keys), p);
  }
}
