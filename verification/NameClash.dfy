/** Why variables of one name may not meet in a search: with the routes `{x}/{y}/c` and
    `{y}/{z}/d`, the abandoned branch rebinds `y`, and the request `p/q/d` finds it bound to `q`. */
module NameClash {
  import opened Text
  import opened Apis
  import opened Branches
  import opened Frontier
  import opened Wiring
  import opened Search
  import opened Matching
  import opened Soundness
  import opened Walking

  const X: Path := ["{x}"]
  const XY: Path := ["{x}", "{y}"]
  const XYC: Path := ["{x}", "{y}", "c"]
  const Y: Path := ["{y}"]
  const YZ: Path := ["{y}", "{z}"]
  const YZD: Path := ["{y}", "{z}", "d"]
  const C_API: Api := Api("{x}/{y}/c", [[]], [], false, [], "c")
  const D_API: Api := Api("{y}/{z}/d", [[]], [], false, [], "d")

  /** A middle variable with one child. */
  function Middle(p: Path, name: string, children: seq<Path>): Cell
  {
    Cell(Branch(PathOf(p), Required(name), true, false, []), children, map[])
  }

  function End(p: Path, api: Api): Cell
  {
    Cell(Branch(PathOf(p), NotVar, false, false, [api]), [], map[])
  }

  const CLASH: Trie := map[
    [] := Cell(Branch([], NotVar, false, false, []), [X, Y], map[]),
    X := Middle(X, "x", [XY]), XY := Middle(XY, "y", []), XYC := End(XYC, C_API),
    Y := Middle(Y, "y", [YZ]), YZ := Middle(YZ, "z", []), YZD := End(YZD, D_API)]

  lemma KeyTypes()
    ensures VarTypeOf("{x}") == Required("x") && VarTypeOf("{y}") == Required("y") && VarTypeOf("{z}") == Required("z")
    ensures VarTypeOf("c") == NotVar && VarTypeOf("d") == NotVar
  {
    assert "{x}"[1..2] == "x" && "{y}"[1..2] == "y" && "{z}"[1..2] == "z";
  }

  lemma Parents()
    ensures Front(X) == [] && Front(XY) == X && Front(XYC) == XY && Front(Y) == [] && Front(YZ) == Y && Front(YZD) == YZ
    ensures Last(X) == "{x}" && Last(XY) == "{y}" && Last(XYC) == "c" && Last(Y) == "{y}" && Last(YZ) == "{z}"
        && Last(YZD) == "d"
  {
  }

  lemma ClashIsRooted()
    ensures Rooted(CLASH.Keys) && Omissions(CLASH) == {}
    ensures forall p | p in CLASH :: HasKid(CLASH.Keys, p) <==> p != XYC && p != YZD
  {
    Parents();
    assert X in CLASH.Keys && XY in CLASH.Keys && XYC in CLASH.Keys && Y in CLASH.Keys && YZ in CLASH.Keys
        && YZD in CLASH.Keys;
  }

  lemma KeysAreFree(p: Path)
    requires p in CLASH
    ensures SeparatorFree(p)
  {
  }

  /** What the cells of the tree are, by the kind of their nodes. */
  lemma ClashCell(p: Path)
    requires p in CLASH
    ensures
      var b := CLASH[p].branch;
      && b.path == PathOf(p) && !b.isOmission && (p != [] ==> b.varType == VarTypeOf(Last(p)))
      && (p == [] ==> b.varType.NotVar? && b.apis == [])
      && (b.isMidVar <==> b.varType.Required? && p != XYC && p != YZD) && !IsOpenVar(b.varType)
      && (p == XYC || p == YZD ==> b.apis != [])
  {
    assert PathOf([]) == "";
    Parents();
    KeyTypes();
    hide VarTypeOf, PathOf;
  }

  lemma ClashAnchors(p: Path)
    requires p in CLASH && p != []
    ensures Anchor(Omissions(CLASH), p) == Front(p)
  {
    ClashIsRooted();
  }

  // ----- the tree is that of the two routes -----

  const ROUTES: seq<Api> := [C_API, D_API]

  lemma JoinThree(a: string, b: string, c: string)
    ensures PathOf([a, b, c]) == a + "/" + b + "/" + c
  {
    assert [a, b, c][1..] == [b, c] && [b, c][1..] == [c];
    assert Join([c], '/') == c;
    assert Join([b, c], '/') == b + ['/'] + c;
  }

  lemma RouteKeys()
    ensures PathOf(XYC) == C_API.path && PathOf(YZD) == D_API.path
    ensures Keys(C_API.path) == XYC && Keys(D_API.path) == YZD
  {
    hide PathOf, Keys;
    JoinThree("{x}", "{y}", "c");
    JoinThree("{y}", "{z}", "d");
    KeysAreFree(XYC);
    KeysAreFree(YZD);
    KeysOfPathOf(XYC);
    KeysOfPathOf(YZD);
  }

  lemma RoutePrefixes()
    ensures Prefixes(ROUTES) == CLASH.Keys
  {
    RouteKeys();
    hide Keys, PathOf;
    assert XYC[..0] == [] && XYC[..1] == X && XYC[..2] == XY && XYC[..3] == XYC;
    assert YZD[..0] == [] && YZD[..1] == Y && YZD[..2] == YZ && YZD[..3] == YZD;
    assert C_API in ROUTES && D_API in ROUTES;
    forall p | p in CLASH ensures p in Prefixes(ROUTES) {
      assert p == [] || (exists n | 0 <= n <= 3 :: p == XYC[..n]) || (exists n | 0 <= n <= 3 :: p == YZD[..n]);
    }
    forall p | p in Prefixes(ROUTES) && p != [] ensures p in CLASH {
      var api, n :| api in ROUTES && 0 <= n <= |Keys(api.path)| && p == Keys(api.path)[..n];
      assert api == C_API || api == D_API;
    }
  }

  /** The APIs under a path that is one of the two, or neither. */
  lemma RouteGroups(path: string)
    ensures GroupOf(ROUTES, path)
         == if path == C_API.path then [C_API] else if path == D_API.path then [D_API] else []
  {
    assert ROUTES[1..] == [D_API] && [D_API][1..] == [];
    assert GroupOf([D_API], path) == if path == D_API.path then [D_API] + GroupOf([], path) else GroupOf([], path);
  }

  lemma KeyIsTrimmed(p: Path)
    requires p in CLASH && p != []
    ensures Trim(Last(p)) == Last(p)
  {
    Parents();
    assert Trim("{x}") == "{x}" && Trim("{y}") == "{y}" && Trim("{z}") == "{z}" && Trim("c") == "c" && Trim("d") == "d";
    hide Trim;
  }

  /** The branch of a path with known APIs. */
  lemma BranchParts(p: Path, apis: seq<Api>)
    requires p in CLASH && p != [] && GroupOf(ROUTES, PathOf(p)) == apis && forall api | api in apis :: !api.omission
    ensures BranchAt(ROUTES, p) == Branch(PathOf(p), VarTypeOf(Last(p)), false, false, apis)
  {
    KeysAreFree(p);
    hide PathOf, VarTypeOf, Trim, GroupOf;
    LastPartOfPath(p);
    KeyIsTrimmed(p);
  }

  lemma ClashApis(p: Path)
    requires p in CLASH
    ensures CLASH[p].branch.apis == if p == XYC then [C_API] else if p == YZD then [D_API] else []
  {
    hide PathOf;
  }

  /** The APIs under one of two different paths, or under neither. */
  lemma GroupOfPath(path: string, first: bool, second: bool)
    requires first <==> path == C_API.path
    requires second <==> path == D_API.path
    ensures GroupOf(ROUTES, path) == if first then [C_API] else if second then [D_API] else []
  {
    RouteGroups(path);
  }

  lemma SamePath(p: Path, q: Path)
    requires p in CLASH && q in CLASH && p != [] && q != []
    ensures PathOf(p) == PathOf(q) <==> p == q
  {
    KeysAreFree(p);
    KeysAreFree(q);
    hide PathOf;
    if PathOf(p) == PathOf(q) { PathOfInjective(p, q); }
  }

  lemma RouteApis(p: Path)
    requires p in CLASH && p != []
    ensures GroupOf(ROUTES, PathOf(p)) == CLASH[p].branch.apis
    ensures forall api | api in CLASH[p].branch.apis :: !api.omission
  {
    hide PathOf, GroupOf, Keys;
    RouteKeys();
    SamePath(p, XYC);
    SamePath(p, YZD);
    GroupOfPath(PathOf(p), p == XYC, p == YZD);
    ClashApis(p);
  }

  lemma RootBranch()
    ensures BranchAt(ROUTES, []) == CLASH[[]].branch
  {
    assert PathOf([]) == [];
  }

  lemma RouteBranch(p: Path)
    requires p in CLASH
    ensures BranchAt(ROUTES, p) == CLASH[p].branch.(isMidVar := false)
  {
    hide PathOf, VarTypeOf, GroupOf, BranchAt;
    ClashCell(p);
    if p != [] {
      RouteApis(p);
      BranchParts(p, CLASH[p].branch.apis);
    } else {
      RootBranch();
    }
  }

  lemma RouteKey(p: Path, i: nat)
    requires p in CLASH && (p == XYC || p == YZD) && i < |p|
    ensures Trim(p[i]) == p[i]
  {
    assert p[..3] == p && Last(p[..1]) == p[0] && Last(p[..2]) == p[1];
    assert XYC[..1] == X && XYC[..2] == XY && YZD[..1] == Y && YZD[..2] == YZ;
    KeyIsTrimmed(p[..i + 1]);
  }

  lemma RouteTreePath(p: Path)
    requires p == XYC || p == YZD
    ensures TreePath(PathOf(p)) && PathOf(p) != []
  {
    hide Keys, PathOf, Trim;
    RouteKeys();
    forall i | 0 <= i < |Keys(PathOf(p))| ensures Trim(Keys(PathOf(p))[i]) == Keys(PathOf(p))[i] {
      RouteKey(p, i);
    }
  }

  lemma RoutesAreRegistrable()
    ensures Registrable(ROUTES) && Unambiguous(ROUTES)
  {
    hide Keys, PathOf, Trim, BranchAt, Prefixes, TreePath;
    RouteKeys();
    RoutePrefixes();
    RouteTreePath(XYC);
    RouteTreePath(YZD);
    assert ROUTES == [C_API] + [D_API];
    forall p | p in Prefixes(ROUTES) ensures !IsOpenVar(BranchAt(ROUTES, p).varType) {
      RouteBranch(p);
      ClashCell(p);
    }
  }

  lemma RootKeys()
    ensures ChildKeys(CLASH.Keys, []) == {"{x}", "{y}"}
  {
    Parents();
    hide PathOf;
    assert X in CLASH.Keys && Y in CLASH.Keys;
  }

  lemma TwoAscending(a: string, b: string)
    requires a != b && StrLeq(a, b) && !StrLeq(b, a)
    ensures Ascending({a, b}) == [a, b]
  {
    assert MinString({a, b}) == a;
    assert {a, b} - {a} == {b};
    assert MinString({b}) == b && {b} - {b} == {};
    assert Ascending({b}) == [b] + Ascending({});
  }

  lemma KeysInOrder()
    ensures StrLeq("{x}", "{y}") && !StrLeq("{y}", "{x}")
  {
    assert "{x}"[1..] == "x}" && "{y}"[1..] == "y}";
  }

  lemma KidsInOrder(nodes: set<Path>, p: Path, a: string, b: string)
    requires Ascending(ChildKeys(nodes, p)) == [a, b]
    ensures Kids(nodes, p) == [p + [a], p + [b]]
  {
    hide Ascending, ChildKeys;
    var kids := Kids(nodes, p);
    assert |kids| == 2 && kids[0] == p + [a] && kids[1] == p + [b];
  }

  /** The variables of the root are visited in this order. */
  lemma RootKids()
    ensures Kids(CLASH.Keys, []) == [X, Y]
  {
    hide Ascending, ChildKeys, StrLeq, Kids, PathOf;
    RootKeys();
    KeysInOrder();
    TwoAscending("{x}", "{y}");
    KidsInOrder(CLASH.Keys, [], "{x}", "{y}");
    assert [] + ["{x}"] == X && [] + ["{y}"] == Y;
  }

  lemma {:induction false} VarsAtConcat(c: map<Path, Branch>, a: seq<Path>, b: seq<Path>, p: Path)
    ensures VarsAt(c, a + b, p) == VarsAt(c, a, p) + VarsAt(c, b, p)
  {
    hide IsVarAt;
    if b == [] {
      assert a + b == a;
    } else {
      assert Front(a + b) == a + Front(b) && Last(a + b) == Last(b);
      VarsAtConcat(c, a, Front(b), p);
    }
  }

  lemma RootOrder() returns (rest: seq<Path>)
    ensures Rooted(CLASH.Keys) && VisitOrder(CLASH.Keys) == [X, Y] + rest
  {
    ClashIsRooted();
    RootIsVisitedFrom(CLASH.Keys);
    hide Rooted, Kids, PathOf;
    VisitsUnfold(CLASH.Keys, [[]]);
    RootKids();
    rest := Visits(CLASH.Keys, Front([[]]) + Reverse([X, Y]));
  }

  lemma RouteContents()
    ensures Contents(ROUTES).Keys == CLASH.Keys
    ensures forall p | p in CLASH :: Contents(ROUTES)[p] == CLASH[p].branch.(isMidVar := false)
  {
    hide BranchAt, PathOf, Prefixes;
    RoutePrefixes();
    forall p | p in CLASH ensures BranchAt(ROUTES, p) == CLASH[p].branch.(isMidVar := false) {
      RouteBranch(p);
    }
  }

  lemma MiddleIs(t: Trie, p: Path)
    requires Searchable(t) && p in t
    ensures t[p].branch.isMidVar <==> t[p].branch.varType.Required? && HasKid(t.Keys, p)
  {
    assert CellOk(t, p);
  }

  /** The branch of a wired node is that of its path, but for the mark of middle variables. */
  lemma WiredBranch(p: Path)
    requires p in CLASH
    ensures p in TrieOf(ROUTES) && TrieOf(ROUTES)[p].branch == CLASH[p].branch
  {
    RoutesAreRegistrable();
    RouteContents();
    ClashIsRooted();
    ClashCell(p);
    hide Registrable, Unambiguous, Contents, Visits, VarsAt, PassedAt, PathOf, VarTypeOf, Rooted;
    TrieIsSearchable(ROUTES);
    ContentsRooted(ROUTES);
    MiddleIs(TrieOf(ROUTES), p);
  }

  /** The variables below a node, where nothing is omitted, are its variable children in some order. */
  lemma VarChildrenAre(t: Trie, p: Path)
    requires Searchable(t) && p in t && Omissions(t) == {}
    ensures Distinct(t[p].varChildren) && t[p].passed == map[]
    ensures forall v :: v in t[p].varChildren <==> IsVar(t, v) && Front(v) == p
  {
    NothingPassed(t, p);
    assert LinksOk(t, p);
    assert forall v: Path | v != [] :: Anchor({}, v) == Front(v);
  }

  lemma OnlyOne(vs: seq<Path>, v: Path)
    requires Distinct(vs) && forall x :: x in vs <==> x == v
    ensures vs == [v]
  {
    DistinctFits(vs, {v});
    assert v in vs;
  }

  lemma NoOmissions()
    ensures NoneOmitted(ROUTES)
  {
    assert ROUTES == [C_API] + [D_API];
  }

  lemma RealOmissions()
    ensures Searchable(TrieOf(ROUTES)) && TrieOf(ROUTES).Keys == CLASH.Keys && Omissions(TrieOf(ROUTES)) == {}
  {
    hide TrieOf, Searchable, PathOf, Registrable, Unambiguous, Prefixes, NoneOmitted, Omissions;
    RoutesAreRegistrable();
    RoutePrefixes();
    TrieIsSearchable(ROUTES);
    NoOmissions();
    NothingOmitted(ROUTES);
  }

  lemma VariablesOf(p: Path)
    ensures IsVar(CLASH, p) <==> p == X || p == XY || p == Y || p == YZ
  {
    hide PathOf;
  }

  lemma RealVariables(v: Path)
    ensures IsVar(TrieOf(ROUTES), v) <==> v == X || v == XY || v == Y || v == YZ
  {
    hide TrieOf, Searchable, PathOf;
    RealOmissions();
    VariablesOf(v);
    if v in CLASH { WiredBranch(v); }
  }

  /** The links of a node below the root. */
  lemma RealLinks(p: Path)
    requires p in CLASH && p != []
    ensures p in TrieOf(ROUTES) && TrieOf(ROUTES)[p].passed == map[]
    ensures TrieOf(ROUTES)[p].varChildren == if p == X then [XY] else if p == Y then [YZ] else []
  {
    hide TrieOf, Searchable, PathOf, IsVar;
    RealOmissions();
    Parents();
    var t := TrieOf(ROUTES);
    VarChildrenAre(t, p);
    forall v ensures v in t[p].varChildren <==> (p == X && v == XY) || (p == Y && v == YZ) {
      RealVariables(v);
    }
    assert t[p].varChildren != [] ==> t[p].varChildren[0] in t[p].varChildren;
    if p == X {
      OnlyOne(t[p].varChildren, XY);
    } else if p == Y {
      OnlyOne(t[p].varChildren, YZ);
    }
  }

  lemma VarsAtTwo(c: map<Path, Branch>, a: Path, b: Path, p: Path)
    requires IsVarAt(c, a, p) && IsVarAt(c, b, p)
    ensures VarsAt(c, [a, b], p) == [a, b]
  {
    hide IsVarAt;
    assert Front([a, b]) == [a] && Front([a]) == [] && Last([a, b]) == b && Last([a]) == a;
    assert VarsAt(c, [a], p) == VarsAt(c, [], p) + [a];
  }

  lemma SomeElement(s: seq<Path>)
    ensures s != [] ==> exists v :: v in s
  {
    if s != [] { assert s[0] in s; }
  }

  /** Both variables come first, and do not come again. */
  lemma RootVars(c: map<Path, Branch>, t: Trie, rest: seq<Path>)
    requires Distinct([X, Y] + rest) && t.Keys == CLASH.Keys && [] in t && t == TrieOf(ROUTES)
    requires forall v :: v in t[[]].varChildren <==> IsVar(t, v) && Front(v) == []
    requires t[[]].varChildren == VarsAt(c, [X, Y], []) + VarsAt(c, rest, [])
    ensures t[[]].varChildren == [X, Y]
  {
    hide TrieOf, PathOf, IsVar, VarsAt, IsVarAt;
    Parents();
    var all := [X, Y] + rest;
    assert all[0] == X && all[1] == Y && forall i | 0 <= i < |rest| :: all[i + 2] == rest[i];
    forall v ensures v in t[[]].varChildren <==> v == X || v == Y { RealVariables(v); }
    var more := VarsAt(c, rest, []);
    assert forall v | v in more :: v in t[[]].varChildren && v in rest;
    SomeElement(more);
    assert X in VarsAt(c, [X, Y], []) && Y in VarsAt(c, [X, Y], []);
    VarsAtTwo(c, X, Y, []);
  }

  /** The links of the root: the order of its variables is that of their keys. */
  lemma RealRootLinks()
    ensures [] in TrieOf(ROUTES) && TrieOf(ROUTES)[[]].passed == map[]
    ensures TrieOf(ROUTES)[[]].varChildren == [X, Y]
  {
    RealOmissions();
    RouteContents();
    var rest := RootOrder();
    hide Searchable, PathOf, IsVar, Contents, VarsAt, PassedAt, Rooted, Visits, HasBelow, Anchor;
    ContentsRooted(ROUTES);
    var c, t := Contents(ROUTES), TrieOf(ROUTES);
    VarChildrenAre(t, []);
    assert t[[]].varChildren == VarsAt(c, [X, Y] + rest, []);
    VarsAtConcat(c, [X, Y], rest, []);
    RootVars(c, t, rest);
  }

  lemma ClashLinksAre(p: Path)
    requires p in CLASH
    ensures CLASH[p].passed == map[]
    ensures CLASH[p].varChildren == if p == [] then [X, Y] else if p == X then [XY] else if p == Y then [YZ] else []
  {
    hide PathOf;
  }

  /** The tree above is the one the router builds from the two routes. */
  lemma ClashIsReal()
    ensures TrieOf(ROUTES) == CLASH
  {
    hide TrieOf, PathOf, Searchable;
    RealOmissions();
    RealRootLinks();
    forall p | p in CLASH ensures TrieOf(ROUTES)[p] == CLASH[p] {
      WiredBranch(p);
      ClashLinksAre(p);
      if p != [] { RealLinks(p); }
    }
  }

  lemma ClashIsSearchable()
    ensures Searchable(CLASH)
  {
    hide TrieOf, PathOf, Searchable;
    RealOmissions();
    ClashIsReal();
  }

  // ----- the search for p/q/d -----

  const PQD: seq<string> := ["p", "q", "d"]

  /** No child of the branch has this part for its key, and it has no suffix to cut. */
  lemma NoFixedChild(b: Path, n: nat)
    requires b in CLASH && n < 3 && b + [PQD[n]] !in CLASH
    ensures FindFixed(CLASH, PQD, Item(b, n)) == None
  {
    assert "d"[..1] == "d";
    assert RFind("d", SUFFIX_BOUNDARY) == None;
    hide PathOf;
  }

  lemma NotThere()
    ensures [] + ["p"] !in CLASH && X + ["q"] !in CLASH && XY + ["d"] !in CLASH && Y + ["q"] !in CLASH
    ensures YZ + ["d"] == YZD
  {
  }

  /** A round that takes the middle variables `vs` of a branch without a matching child. */
  lemma VariablesRound(rest: seq<Item>, b: Path, n: nat, args: Args, next: State)
    requires Searchable(CLASH) && b in CLASH && n < 3 && b + [PQD[n]] !in CLASH
    requires Live(CLASH, State(rest + [Item(b, n)], args, []))
    requires forall v | v in CLASH[b].varChildren :: v in CLASH
    requires TryVars(CLASH, PQD, n, CLASH[b].varChildren, |rest|, State(rest, args, [])) == Continue(next)
    ensures GoesOn(CLASH, PQD, State(rest + [Item(b, n)], args, []), next)
  {
    var st := State(rest + [Item(b, n)], args, []);
    assert Last(st.items) == Item(b, n) && Front(st.items) == rest;
    NoFixedChild(b, n);
    hide Searchable, Live, TryVars, FindFixed, GoesOn;
    RunUnfold(CLASH, PQD, st);
  }

  function Bind(args: Args, name: string, part: string): Args
  {
    args[name := RequiredParam(part)]
  }

  const AFTER_ROOT: State := State([Item(Y, 1), Item(X, 1)], Bind(Bind(map[], "x", "p"), "y", "p"), [])
  const AFTER_X: State := State([Item(Y, 1), Item(XY, 2)], Bind(AFTER_ROOT.args, "y", "q"), [])
  const AFTER_XY: State := State([Item(Y, 1)], AFTER_X.args, [])
  const AFTER_Y: State := State([Item(YZ, 2)], Bind(AFTER_X.args, "z", "q"), [])
  const AFTER_YZ: State := State([Item(YZD, 3)], AFTER_Y.args, [])

  /** The search goes on from one state in the other. */
  ghost predicate Leads(st: State, next: State)
  {
    Searchable(CLASH) && Live(CLASH, st) && Live(CLASH, next) && Run(CLASH, PQD, st) == Run(CLASH, PQD, next)
  }

  lemma LeadsOn(st: State, next: State)
    requires Searchable(CLASH) && Live(CLASH, st) && GoesOn(CLASH, PQD, st, next)
    ensures Leads(st, next)
  {
    hide Searchable, Live, Run;
  }

  lemma RootVariables()
    ensures TryVars(CLASH, PQD, 0, [X, Y], 0, State([], map[], [])) == Continue(AFTER_ROOT)
  {
    hide PathOf;
    var rest := State([], map[], []);
    var mid := WithMidVar(X, "x", "p", 0, 0, rest);
    assert [X, Y][1..] == [Y] && [Y][1..] == [];
    assert WithMidVar(Y, "y", "p", 0, 0, mid) == AFTER_ROOT;
    assert TryVars(CLASH, PQD, 0, [Y], 0, mid) == Continue(AFTER_ROOT);
  }

  lemma FromRoot()
    requires Searchable(CLASH)
    ensures Leads(START, AFTER_ROOT)
  {
    hide Searchable, Live, PathOf, TryVars, Run, Middle, End, GoesOn;
    StartIsLive(CLASH);
    NotThere();
    RootVariables();
    var root: Path := [];
    assert CLASH[root].varChildren == [X, Y];
    var rest: seq<Item> := [];
    assert State(rest + [Item(root, 0)], map[], []) == START;
    VariablesRound(rest, root, 0, map[], AFTER_ROOT);
    LeadsOn(START, AFTER_ROOT);
  }

  lemma FromX()
    requires Searchable(CLASH) && Live(CLASH, AFTER_ROOT)
    ensures Leads(AFTER_ROOT, AFTER_X)
  {
    NotThere();
    hide Searchable, Live, Run, PathOf;
    var rest := State([Item(Y, 1)], AFTER_ROOT.args, []);
    assert [XY][1..] == [];
    assert WithMidVar(XY, "y", "q", 1, 1, rest) == AFTER_X;
    assert TryVars(CLASH, PQD, 1, [XY], 1, rest) == Continue(AFTER_X);
    assert [Item(Y, 1)] + [Item(X, 1)] == AFTER_ROOT.items;
    VariablesRound([Item(Y, 1)], X, 1, AFTER_ROOT.args, AFTER_X);
  }

  lemma FromXY()
    requires Searchable(CLASH) && Live(CLASH, AFTER_X)
    ensures Leads(AFTER_X, AFTER_XY)
  {
    NotThere();
    hide Searchable, Live, Run, PathOf;
    assert [Item(Y, 1)] + [Item(XY, 2)] == AFTER_X.items;
    VariablesRound([Item(Y, 1)], XY, 2, AFTER_X.args, AFTER_XY);
  }

  lemma FromY()
    requires Searchable(CLASH) && Live(CLASH, AFTER_XY)
    ensures Leads(AFTER_XY, AFTER_Y)
  {
    NotThere();
    hide Searchable, Live, Run, PathOf;
    var rest := State([], AFTER_X.args, []);
    assert [YZ][1..] == [];
    assert WithMidVar(YZ, "z", "q", 1, 0, rest) == AFTER_Y;
    assert TryVars(CLASH, PQD, 1, [YZ], 0, rest) == Continue(AFTER_Y);
    assert [] + [Item(Y, 1)] == AFTER_XY.items;
    VariablesRound([], Y, 1, AFTER_X.args, AFTER_Y);
  }

  lemma FromYZ()
    requires Searchable(CLASH) && Live(CLASH, AFTER_Y)
    ensures Leads(AFTER_Y, AFTER_YZ)
  {
    NotThere();
    hide Searchable, Live, Run, PathOf;
    assert AFTER_Y.items == [Item(YZ, 2)] && Front(AFTER_Y.items) == [];
    assert FindFixed(CLASH, PQD, Item(YZ, 2)) == Some((YZD, []));
    hide FindFixed;
    RunUnfold(CLASH, PQD, AFTER_Y);
    assert [] + [Item(YZD, 3)] == AFTER_YZ.items;
  }

  /** With `y` bound to another part, the request does not match the route with its bindings. */
  lemma Misbound(args: Args)
    requires "y" in args && args["y"] != RequiredParam("p")
    ensures !Matches(CLASH, YZD, PQD, [], Some(args))
  {
    Parents();
    hide PathOf;
    assert !Uses(CLASH, Y, "p", Some(args));
    assert PQD[0] == "p";
    assert !Stepped(CLASH, Y, PQD, 1, Some(args));
    assert !Spelled(CLASH, Y, PQD, 1, Some(args));
    assert !Stepped(CLASH, YZ, PQD, 2, Some(args));
    assert !Spelled(CLASH, YZ, PQD, 2, Some(args));
    assert CLASH[YZD].branch.varType.NotVar?;
  }

  lemma ClashNames()
    ensures SameName(CLASH, Y, XY) && IsVar(CLASH, X) && X != Y && X < XY && Y != XY
  {
    hide PathOf;
  }

  /** `y` is used below `x`, beside `y`. */
  lemma ClashMeets()
    ensures !NamesApart(CLASH)
  {
    hide PathOf, Anchor, Omissions, SameName, IsVar;
    ClashAnchors(X);
    ClashAnchors(Y);
    Parents();
    ClashNames();
    assert Meet(CLASH, Y, XY);
  }

  /** The route `{y}/{z}/d` is found, and `y` is bound to the part of `z`. */
  lemma NameClashMisbinds()
    ensures TrieOf(ROUTES) == CLASH && Searchable(CLASH) && !NamesApart(CLASH)
    ensures MatchVarPath(CLASH, PQD).Found?
    ensures
      var Found(q, args, suffix) := MatchVarPath(CLASH, PQD);
      && q == YZD && suffix == [] && "y" in args && args["y"] == RequiredParam("q")
      && Matches(CLASH, q, PQD, suffix, None) && !Matches(CLASH, q, PQD, suffix, Some(args))
  {
    hide NamesApart, TrieOf;
    hide Searchable, Live, Run, Matches, PathOf;
    ClashIsReal();
    ClashMeets();
    ClashIsSearchable();
    FromRoot();
    FromX();
    FromXY();
    FromY();
    FromYZ();
    assert CLASH[YZD].branch.apis == [D_API];
    EndsAt(CLASH, PQD, YZD, AFTER_Y.args, []);
    SearchIsSound(CLASH, PQD);
    Misbound(AFTER_Y.args);
  }
}
