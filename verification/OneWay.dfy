/** Trees in which the search has one way to go: nothing is omitted, and each branch offers fixed
    parts or one single variable. What the search does there is said request by request. */
module OneWay {
  import opened Text
  import opened Apis
  import opened Branches
  import opened Frontier
  import opened Wiring
  import opened Search
  import opened Matching
  import opened Soundness
  import opened Walking

  /** A branch offers fixed parts or one single variable. */
  ghost predicate OneKind(t: Trie)
  {
    forall p, q | p in t && q in t && p != [] && q != [] && p != q && Front(p) == Front(q) ::
      t[p].branch.varType.NotVar?
  }

  ghost predicate Straight(t: Trie)
  {
    Searchable(t) && Omissions(t) == {} && OneKind(t)
  }

  lemma SearchableOf(t: Trie)
    requires Straight(t)
    ensures Searchable(t)
  {
  }

  // ----- a branch with a variable -----

  /** The only child of a branch with a variable is the variable. */
  lemma OnlyChild(t: Trie, p: Path, k: string)
    requires Straight(t) && IsVar(t, p) && Front(p) + [k] in t
    ensures k == Last(p) && k != [] && k[0] == VARIABLE_OPENER
  {
    var other := Front(p) + [k];
    assert Front(other) == Front(p) && Last(other) == k;
    assert other == p;
    assert CellOk(t, p);
  }

  lemma SameVariable(t: Trie, p: Path, v: Path)
    requires Straight(t) && IsVar(t, p) && Front(p) in t && v in t[Front(p)].varChildren
    ensures v == p
  {
    assert LinksOk(t, Front(p));
    assert Anchor({}, v) == Front(v);
  }

  lemma IsVarChild(t: Trie, p: Path)
    requires Straight(t) && IsVar(t, p)
    ensures Front(p) in t && Distinct(t[Front(p)].varChildren) && p in t[Front(p)].varChildren
  {
    assert Anchor({}, p) == Front(p);
    assert LinksOk(t, Front(p));
  }

  lemma OnlyVariable(t: Trie, p: Path)
    requires Straight(t) && IsVar(t, p)
    ensures Front(p) in t && t[Front(p)].varChildren == [p]
  {
    hide Straight;
    IsVarChild(t, p);
    var vs := t[Front(p)].varChildren;
    forall v | v in vs ensures v == p { SameVariable(t, p, v); }
    DistinctFits(vs, {p});
  }

  lemma {:induction false} ScanFindsNothing(t: Trie, p: Path, text: string, boundary: nat)
    requires p in t && p != [] && Front(p) in t && t[Front(p)].passed == map[] && boundary <= |text|
    requires forall k | Front(p) + [k] in t :: k == Last(p)
    requires !TakenAsKey(t, p, [text], 0)
    ensures BoundaryScan(t, Front(p), text, boundary) == None
    decreases boundary
  {
    var at := RFind(text[..boundary], SUFFIX_BOUNDARY);
    assert p == Front(p) + [Last(p)];
    if at.Some? {
      assert text == text[..at.value] + [SUFFIX_BOUNDARY] + text[at.value + 1..];
      ScanFindsNothing(t, p, text, at.value);
    }
  }

  /** Nothing is found for a part that is not taken for the key of the variable. */
  lemma FindsNothing(t: Trie, p: Path, parts: seq<string>, n: nat)
    requires Straight(t) && IsVar(t, p) && !TakenAsKey(t, p, parts, n)
    ensures Front(p) in t && FindFixed(t, parts, Item(Front(p), n)).None?
  {
    var b := Front(p);
    RootedParent(t, p);
    NothingPassed(t, b);
    forall k | b + [k] in t ensures k == Last(p) { OnlyChild(t, p, k); }
    hide Straight, BoundaryScan;
    if n == |parts| - 1 {
      assert [parts[n]][0] == parts[n];
      ScanFindsNothing(t, p, parts[n], |parts[n]|);
    }
  }

  lemma OneMiddle(t: Trie, p: Path, parts: seq<string>, n: nat, args: Args)
    requires p in t && t[p].branch.isMidVar && t[p].branch.varType.Required? && n < |parts|
    ensures TryVars(t, parts, n, [p], 0, State([], args, []))
         == Continue(At(p, n + 1, args[t[p].branch.varType.name := RequiredParam(parts[n])]))
  {
    var rest, name := State([], args, []), t[p].branch.varType.name;
    assert [p][1..] == [];
    assert WithMidVar(p, name, parts[n], n, 0, rest) == At(p, n + 1, args[name := RequiredParam(parts[n])]);
  }

  lemma AtMeans(b: Path, n: nat, args: Args)
    ensures At(b, n, args).args == args && At(b, n, args).suffix == []
  {
  }

  /** A middle variable takes its part. */
  lemma WalkVariable(t: Trie, p: Path, parts: seq<string>, n: nat, args: Args)
    requires Straight(t) && IsVar(t, p) && t[p].branch.isMidVar
    requires n < |parts| && !TakenAsKey(t, p, parts, n)
    ensures Front(p) in t && t[p].branch.varType.Required?
    ensures Live(t, At(Front(p), n, args))
    ensures
      var args' := args[t[p].branch.varType.name := RequiredParam(parts[n])];
      Live(t, At(p, n + 1, args')) && Run(t, parts, At(Front(p), n, args)) == Run(t, parts, At(p, n + 1, args'))
  {
    SearchableOf(t);
    MidVarIsRequired(t, p);
    hide Straight, Searchable, FindFixed, Stack, Run, TakenAsKey, TryVars, At;
    OnlyVariable(t, p);
    FindsNothing(t, p, parts, n);
    var b, name := Front(p), t[p].branch.varType.name;
    AtIsLive(t, b, n, args);
    AtIsLive(t, p, n + 1, args[name := RequiredParam(parts[n])]);
    OneMiddle(t, p, parts, n, args);
    RunUnfold(t, parts, At(b, n, args));
    assert At(b, n, args).args == args && At(b, n, args).suffix == [] by { AtMeans(b, n, args); }
  }

  /** An end variable takes the rest. */
  lemma EndsOnVariable(t: Trie, p: Path, parts: seq<string>, n: nat, args: Args, param: PathParam, suffix: string)
    requires Straight(t) && IsVar(t, p) && !t[p].branch.isMidVar && parts != [] && !TakenAsKey(t, p, parts, n)
    requires n >= |parts| ==> Front(p) in t && t[Front(p)].branch.apis == []
    requires EndMatch(t[p].branch.varType, t[p].branch.apis, parts, n, []) == Some((param, suffix))
    ensures Front(p) in t && Live(t, At(Front(p), n, args))
    ensures Run(t, parts, At(Front(p), n, args)) == Found(p, args[t[p].branch.varType.name := param], suffix)
  {
    OnlyVariable(t, p);
    FindsNothing(t, p, parts, n);
    hide Straight, OneKind, FindFixed, CellOk, LinksOk, LinksComplete, Rooted, Stack, Run, EndMatch, TakenAsKey;
    AtIsLive(t, Front(p), n, args);
    RunUnfold(t, parts, At(Front(p), n, args));
  }

  // ----- one round on the way -----

  /** A node with something below it is fixed or a middle variable. */
  lemma InnerNode(t: Trie, q: Path)
    requires Searchable(t) && q in t && q != [] && HasKid(t.Keys, q)
    ensures Front(q) in t && HasKid(t.Keys, Front(q))
    ensures t[q].branch.varType.NotVar? || (t[q].branch.isMidVar && t[q].branch.varType.Required?)
  {
    assert CellOk(t, q);
  }

  lemma ParentHasKid(t: Trie, q: Path)
    requires Searchable(t) && q in t && q != []
    ensures Front(q) in t && HasKid(t.Keys, Front(q))
  {
  }

  lemma WalkFixed(t: Trie, q: Path, parts: seq<string>, args: Args)
    requires Searchable(t) && q in t && q != [] && |q| <= |parts| && parts[|q| - 1] == Last(q)
    ensures Front(q) in t && Live(t, At(Front(q), |q| - 1, args)) && Live(t, At(q, |q|, args))
    ensures Run(t, parts, At(Front(q), |q| - 1, args)) == Run(t, parts, At(q, |q|, args))
  {
    hide Searchable, Live, Run, At;
    RootedParent(t, q);
    assert q == Front(q) + [Last(q)];
    WalkOne(t, parts, Front(q), |q| - 1, args);
  }

  /** The part is the key of a fixed node, or something else than the key of a variable. */
  ghost predicate Fitting(t: Trie, q: Path, parts: seq<string>)
    requires q != []
  {
    && |q| <= |parts|
    && if IsVar(t, q) then !TakenAsKey(t, q, parts, |q| - 1) else parts[|q| - 1] == Last(q)
  }

  /** What a node on the way adds to the bindings. */
  function Binding(t: Trie, q: Path, parts: seq<string>, args: Args): Args
    requires q in t && 0 < |q| <= |parts|
  {
    var v := t[q].branch.varType;
    if v.NotVar? then args else args[v.name := RequiredParam(parts[|q| - 1])]
  }

  /** One round on the way: a fixed child is found, or the variable takes its part. */
  lemma WalkOn(t: Trie, q: Path, parts: seq<string>, args: Args)
    requires Straight(t) && q in t && q != [] && Fitting(t, q, parts)
    requires t[q].branch.varType.NotVar? || t[q].branch.isMidVar
    ensures Searchable(t) && Front(q) in t && Live(t, At(Front(q), |q| - 1, args))
    ensures
      var args' := Binding(t, q, parts, args);
      && Live(t, At(q, |q|, args'))
      && Run(t, parts, At(Front(q), |q| - 1, args)) == Run(t, parts, At(q, |q|, args'))
  {
    hide Straight, Searchable, Live, Run, TakenAsKey, At, OneKind, Rooted;
    SearchableOf(t);
    if t[q].branch.varType.NotVar? {
      WalkFixed(t, q, parts, args);
    } else {
      WalkVariable(t, q, parts, |q| - 1, args);
    }
  }

  // ----- requests that spell a route -----

  /** Without omissions, a spelled node uses as many parts as it has keys. */
  lemma {:induction false} DepthIsCount(t: Trie, b: Path, parts: seq<string>, n: nat, bind: Option<Args>)
    requires Omissions(t) == {} && Spelled(t, b, parts, n, bind)
    ensures n == |b|
    decreases |b|
  {
    if b != [] {
      assert b !in Omissions(t);
      DepthIsCount(t, Front(b), parts, n - 1, bind);
    }
  }

  /** The parts spell the route: each fixed key, and something else than its key for each variable. */
  ghost predicate SpellsOut(t: Trie, q: Path, parts: seq<string>)
  {
    |q| <= |parts| && forall m | 0 < m <= |q| && q[..m] in t :: Fitting(t, q[..m], parts)
  }

  lemma SpellsFront(t: Trie, q: Path, parts: seq<string>)
    requires q != [] && q in t && SpellsOut(t, q, parts)
    ensures SpellsOut(t, Front(q), parts) && Fitting(t, q, parts)
  {
    hide Fitting;
    assert q[..|q|] == q;
    assert forall m | 0 < m <= |Front(q)| :: Front(q)[..m] == q[..m];
  }

  /** What the variables on the way to `q` take. */
  ghost function BoundTo(t: Trie, q: Path, parts: seq<string>): Args
  {
    if q == [] || q !in t || |q| > |parts| then map[] else Binding(t, q, parts, BoundTo(t, Front(q), parts))
  }

  /** The search follows such parts to an inner node of the route. */
  lemma {:induction false} RouteWalk(t: Trie, q: Path, parts: seq<string>)
    requires Straight(t) && q in t && HasKid(t.Keys, q) && SpellsOut(t, q, parts) && parts != []
    ensures Searchable(t) && Live(t, At(q, |q|, BoundTo(t, q, parts)))
    ensures MatchVarPath(t, parts) == Run(t, parts, At(q, |q|, BoundTo(t, q, parts)))
    decreases |q|
  {
    hide Straight, Searchable, Live, Run, HasKid, MatchVarPath, At, SpellsOut, Binding;
    SearchableOf(t);
    if q == [] {
      WalkStarts(t, parts);
    } else {
      InnerNode(t, q);
      SpellsFront(t, q, parts);
      RouteWalk(t, Front(q), parts);
      WalkOn(t, q, parts, BoundTo(t, Front(q), parts));
    }
  }

  /** An end variable takes one part, whatever its kind. */
  lemma OnePart(v: VarType, apis: seq<Api>, parts: seq<string>)
    requires !v.NotVar? && parts != []
    ensures EndMatch(v, apis, parts, |parts| - 1, []).Some?
  {
    hide Extract;
  }

  /** Parts that spell a registered route are routed to it. */
  lemma SpelledIsFound(t: Trie, q: Path, parts: seq<string>)
    requires Straight(t) && q in t && q != [] && t[q].branch.apis != [] && SpellsOut(t, q, parts) && |parts| == |q|
    ensures Searchable(t)
    ensures MatchVarPath(t, parts).Found? && MatchVarPath(t, parts).branch == q
  {
    SearchableOf(t);
    ParentHasKid(t, q);
    hide Straight, Searchable, Live, Run, HasKid, MatchVarPath, SpellsOut, TakenAsKey, EndMatch, Binding;
    SpellsFront(t, q, parts);
    RouteWalk(t, Front(q), parts);
    var args := BoundTo(t, Front(q), parts);
    if t[q].branch.varType.NotVar? || t[q].branch.isMidVar {
      WalkOn(t, q, parts, args);
      EndsAt(t, parts, q, Binding(t, q, parts, args), []);
    } else {
      OnePart(t[q].branch.varType, t[q].branch.apis, parts);
      var (param, suffix) := EndMatch(t[q].branch.varType, t[q].branch.apis, parts, |q| - 1, []).value;
      EndsOnVariable(t, q, parts, |q| - 1, args, param, suffix);
    }
  }
}
