/** What the search decides where it has one way to go, said without the search: which requests
    are found, which make it panic, and which are bound right. */
module Decided {
  import opened Text
  import opened Apis
  import opened Branches
  import opened Frontier
  import opened Wiring
  import opened Search
  import opened Matching
  import opened Soundness
  import opened Completeness
  import opened Walking
  import opened Panics
  import opened OneWay
  import opened Rebinding

  // ----- what is found -----

  lemma SpellsSnoc(t: Trie, b: Path, parts: seq<string>)
    requires b != [] && SpellsOut(t, Front(b), parts) && Fitting(t, b, parts)
    ensures SpellsOut(t, b, parts)
  {
    hide IsVar, TakenAsKey;
    assert b[..|b|] == b;
    assert forall m | 0 < m <= |Front(b)| :: Front(b)[..m] == b[..m];
  }

  lemma EmptySpells(t: Trie, parts: seq<string>)
    ensures SpellsOut(t, [], parts)
  {
  }

  /** Parts that spell a node, none of them taken for a variable's key, spell it key by key. */
  lemma {:induction false} SpelledSpellsOut(t: Trie, b: Path, parts: seq<string>, n: nat)
    requires Omissions(t) == {} && KeyFree(t, parts) && Spelled(t, b, parts, n, None)
    ensures n == |b| && SpellsOut(t, b, parts)
    decreases |b|
  {
    hide TakenAsKey, SpellsOut;
    DepthIsCount(t, b, parts, n, None);
    if b == [] {
      EmptySpells(t, parts);
    } else {
      assert b !in Omissions(t);
      SpelledSpellsOut(t, Front(b), parts, n - 1);
      SpellsSnoc(t, b, parts);
    }
  }

  lemma EndsAtHere(t: Trie, parts: seq<string>, b: Path, args: Args)
    requires Searchable(t) && b in t && parts != [] && |b| == |parts| && t[b].branch.apis != []
    ensures Live(t, At(b, |b|, args)) && Run(t, parts, At(b, |b|, args)) == Found(b, args, [])
  {
    hide Searchable, Run, Live;
    EndsAt(t, parts, b, args, []);
  }

  /** The route ends on a fixed node. */
  lemma FixedIsFound(t: Trie, q: Path, parts: seq<string>, suffix: string)
    requires Straight(t) && q in t && q != [] && parts != [] && !IsVar(t, q) && t[q].branch.apis != []
    requires |parts| == |q| && SpellsOut(t, Front(q), parts)
    requires Last(parts) == Last(q)
          || (Last(parts) == Last(q) + [SUFFIX_BOUNDARY] + suffix && Declared(t[q].branch.apis, suffix)
              && ToldApart(t, Front(q), Last(q), suffix))
    ensures Searchable(t) && MatchVarPath(t, parts).Found?
  {
    SearchableOf(t);
    ParentHasKid(t, q);
    NothingPassed(t, Front(q));
    hide Straight, Searchable, Live, Run, HasKid, MatchVarPath, SpellsOut, FindFixed, ToldApart, Declared, At;
    RouteWalk(t, Front(q), parts);
    var args := BoundTo(t, Front(q), parts);
    if Last(parts) == Last(q) {
      WalkFixed(t, q, parts, args);
      EndsAtHere(t, parts, q, args);
    } else {
      DottedRound(t, q, parts, suffix);
      EndsOnFound(t, parts, Front(q), q, args, suffix);
    }
  }

  lemma MiddleIsFound(t: Trie, q: Path, parts: seq<string>, args: Args)
    requires Straight(t) && IsVar(t, q) && parts != [] && t[q].branch.apis != [] && t[q].branch.isMidVar
    requires |q| == |parts| && !TakenAsKey(t, q, parts, |q| - 1)
    ensures Front(q) in t && Live(t, At(Front(q), |q| - 1, args))
    ensures Run(t, parts, At(Front(q), |q| - 1, args)).Found? && Run(t, parts, At(Front(q), |q| - 1, args)).branch == q
  {
    SearchableOf(t);
    hide Straight, Searchable, Live, Run, TakenAsKey, At;
    WalkOn(t, q, parts, args);
    EndsAtHere(t, parts, q, Binding(t, q, parts, args));
  }

  /** An end variable matches when it may take what is left. */
  lemma TakesMatches(v: VarType, apis: seq<Api>, parts: seq<string>, n: nat)
    requires parts != [] && n <= |parts| && TakesParts(v, |parts| - n)
    ensures EndMatch(v, apis, parts, n, []).Some?
  {
    hide Extract;
  }

  lemma EndIsFound(t: Trie, q: Path, parts: seq<string>, args: Args)
    requires Straight(t) && IsVar(t, q) && parts != [] && !t[q].branch.isMidVar && |q| - 1 <= |parts|
    requires !TakenAsKey(t, q, parts, |q| - 1) && TakesParts(t[q].branch.varType, |parts| - (|q| - 1))
    ensures Front(q) in t && Live(t, At(Front(q), |q| - 1, args))
    ensures
      var outcome := Run(t, parts, At(Front(q), |q| - 1, args));
      outcome.Found? && (|q| - 1 < |parts| || t[Front(q)].branch.apis == [] ==> outcome.branch == q)
  {
    SearchableOf(t);
    ParentHasKid(t, q);
    hide Straight, Searchable, Live, Run, TakenAsKey, At, EndMatch, TakesParts, HasKid;
    if |q| - 1 == |parts| && t[Front(q)].branch.apis != [] {
      EndsAtHere(t, parts, Front(q), args);
    } else {
      TakesMatches(t[q].branch.varType, t[q].branch.apis, parts, |q| - 1);
      var (param, suffix) := EndMatch(t[q].branch.varType, t[q].branch.apis, parts, |q| - 1, []).value;
      EndsOnVariable(t, q, parts, |q| - 1, args, param, suffix);
    }
  }

  lemma MiddleTakesOne(t: Trie, q: Path, k: int)
    requires Searchable(t) && q in t && t[q].branch.isMidVar && TakesParts(t[q].branch.varType, k)
    ensures k == 1
  {
    MidVarIsRequired(t, q);
  }

  /** The route ends on a variable; it is the branch found unless its parent is. */
  lemma VariableIsFound(t: Trie, q: Path, parts: seq<string>)
    requires Straight(t) && IsVar(t, q) && parts != [] && t[q].branch.apis != []
    requires |q| - 1 <= |parts| && SpellsOut(t, Front(q), parts) && !TakenAsKey(t, q, parts, |q| - 1)
    requires TakesParts(t[q].branch.varType, |parts| - (|q| - 1))
    ensures Searchable(t) && MatchVarPath(t, parts).Found? && Front(q) in t
    ensures |q| - 1 < |parts| || t[Front(q)].branch.apis == [] ==> MatchVarPath(t, parts).branch == q
  {
    SearchableOf(t);
    ParentHasKid(t, q);
    hide Straight, Searchable, Live, Run, HasKid, MatchVarPath, SpellsOut, TakenAsKey, At, TakesParts;
    RouteWalk(t, Front(q), parts);
    var args := BoundTo(t, Front(q), parts);
    if t[q].branch.isMidVar {
      MiddleTakesOne(t, q, |parts| - (|q| - 1));
      MiddleIsFound(t, q, parts, args);
    } else {
      EndIsFound(t, q, parts, args);
    }
  }

  /** No key ends with a boundary. */
  ghost predicate NoDottedEnd(t: Trie)
  {
    forall p | p in t && p != [] :: !EndsWith(Last(p), [SUFFIX_BOUNDARY])
  }

  lemma OneIsTold(t: Trie, q: Path, suffix: string)
    requires KeysApart(t) && q in t && q != [] && suffix != [] && Declared(t[q].branch.apis, suffix)
    ensures ToldApart(t, Front(q), Last(q), suffix)
  {
    hide Declared, ToldApart;
  }

  lemma SuffixIsTold(t: Trie, q: Path, suffix: string)
    requires KeysApart(t) && NoDottedEnd(t) && q in t && q != [] && Declared(t[q].branch.apis, suffix)
    ensures ToldApart(t, Front(q), Last(q), suffix)
  {
    hide Declared, KeysApart;
    if suffix == [] {
      var key := Last(q) + [SUFFIX_BOUNDARY];
      assert key + [] == key;
      forall k | Front(q) + [k] in t && key <= k ensures !ReadsAs(key + suffix, k) {
        assert Last(Front(q) + [k]) == k;
        assert k != key;
      }
    } else {
      assert ToldApart(t, Front(q), Last(q), suffix) by { OneIsTold(t, q, suffix); }
    }
  }

  lemma FreeKey(t: Trie, q: Path, parts: seq<string>, suffix: string)
    requires KeyFree(t, parts) && q in t && q != [] && parts != []
    requires Last(parts) == Last(q)
          || (Last(parts) == Last(q) + [SUFFIX_BOUNDARY] + suffix && Declared(t[q].branch.apis, suffix))
    ensures !IsVar(t, q)
  {
    assert TakenAsKey(t, q, parts, |parts| - 1);
  }

  lemma IsTaking(t: Trie, q: Path, k: int)
    requires q in t && q != [] && TakesParts(t[q].branch.varType, k)
    ensures IsVar(t, q)
  {
  }

  lemma FreeVariable(t: Trie, q: Path, parts: seq<string>, n: nat)
    requires KeyFree(t, parts) && IsVar(t, q)
    ensures !TakenAsKey(t, q, parts, n)
  {
  }

  /** What a request matches, by its declarative meaning, the search finds. */
  lemma MatchedIsFound(t: Trie, q: Path, parts: seq<string>, suffix: string)
    requires Straight(t) && KeysApart(t) && NoDottedEnd(t) && KeyFree(t, parts) && parts != []
    requires Matches(t, q, parts, suffix, None)
    ensures Searchable(t) && MatchVarPath(t, parts).Found?
  {
    hide Searchable, Spelled, SpellsOut, KeysApart, NoDottedEnd, TakenAsKey, OneKind, MatchVarPath, LongestCut,
         TakesParts, ToldApart, Declared;
    if MatchesFixed(t, q, parts, suffix, None) {
      SpelledSpellsOut(t, Front(q), parts, |parts| - 1);
      FreeKey(t, q, parts, suffix);
      if Last(parts) != Last(q) { SuffixIsTold(t, q, suffix); }
      FixedIsFound(t, q, parts, suffix);
    } else {
      var n: nat, cut :| MatchesVar(t, q, parts, n, cut, suffix, None);
      SpelledSpellsOut(t, Front(q), parts, n);
      IsTaking(t, q, |parts| - n);
      FreeVariable(t, q, parts, n);
      VariableIsFound(t, q, parts);
    }
  }

  lemma PanicsAtMeans(t: Trie, b: Path)
    requires Searchable(t) && Omissions(t) == {} && b in t && PanicsAt(t, b)
    ensures HasKid(t.Keys, b) && t[b].branch.apis == []
    ensures (forall v | v in t[b].varChildren :: v in t) && MidVarFirst(t, t[b].varChildren)
  {
    assert LinksOk(t, b);
    var v := t[b].varChildren[0];
    assert v in t[b].varChildren && Anchor({}, v) == Front(v);
  }

  /** With every part used, a bare branch with a middle variable panics. */
  lemma EndsInPanic(t: Trie, b: Path, parts: seq<string>, args: Args)
    requires Searchable(t) && b in t && parts != [] && |b| == |parts| && t[b].branch.apis == []
    requires (forall v | v in t[b].varChildren :: v in t) && MidVarFirst(t, t[b].varChildren)
    ensures Live(t, At(b, |b|, args)) && Run(t, parts, At(b, |b|, args)) == Panicked
  {
    hide Searchable, Run, Live, TryVars, MidVarFirst;
    AtIsLive(t, b, |b|, args);
    RunUnfold(t, parts, At(b, |b|, args));
    TryVarsPanics(t, parts, |b|, t[b].varChildren, 0, State([], args, []));
  }

  /** A bare branch with a middle variable, spelled by all the parts, makes the search panic. */
  lemma SpelledRunsOut(t: Trie, b: Path, parts: seq<string>)
    requires Straight(t) && KeyFree(t, parts) && parts != [] && b in t && PanicsAt(t, b)
    requires Spelled(t, b, parts, |parts|, None)
    ensures Searchable(t) && MatchVarPath(t, parts) == Panicked
  {
    hide Searchable, PanicsAt, KeyFree, Spelled, SpellsOut, OneKind, Run, Live, MidVarFirst, MatchVarPath, HasKid, At,
         Omissions;
    SpelledSpellsOut(t, b, parts, |parts|);
    PanicsAtMeans(t, b);
    RouteWalk(t, b, parts);
    EndsInPanic(t, b, parts, BoundTo(t, b, parts));
  }

  /** In any tree a request that makes the search panic spells such a branch. */
  lemma PanicIsSpelled(t: Trie, parts: seq<string>) returns (b: Path)
    requires Searchable(t) && parts != [] && MatchVarPath(t, parts) == Panicked
    ensures b in t && PanicsAt(t, b) && Spelled(t, b, parts, |parts|, None)
  {
    StartIsSound(t, parts, false);
    hide Searchable, Sound, PanicsAt, Spelled, Run;
    b := RunPanics(t, parts, START);
  }

  /** Where the search has one way to go, a request without a variable's key is found exactly when
      it matches some registered branch, and makes the search panic exactly when it spells a bare
      branch with a middle variable. */
  lemma DecidedExactly(t: Trie, parts: seq<string>)
    requires Straight(t) && KeysApart(t) && NoDottedEnd(t) && KeyFree(t, parts) && parts != []
    ensures Searchable(t)
    ensures MatchVarPath(t, parts).Found? <==> exists q, suffix :: Matches(t, q, parts, suffix, None)
    ensures MatchVarPath(t, parts) == Panicked
       <==> exists b | b in t && PanicsAt(t, b) :: Spelled(t, b, parts, |parts|, None)
  {
    SearchableOf(t);
    hide Straight, Searchable, KeysApart, NoDottedEnd, KeyFree, MatchVarPath, Matches, PanicsAt, Spelled;
    SearchIsSound(t, parts);
    if q, suffix :| Matches(t, q, parts, suffix, None) {
      MatchedIsFound(t, q, parts, suffix);
    }
    if MatchVarPath(t, parts) == Panicked { var b := PanicIsSpelled(t, parts); }
    if b :| b in t && PanicsAt(t, b) && Spelled(t, b, parts, |parts|, None) {
      SpelledRunsOut(t, b, parts);
    }
  }

  // ----- what is bound right -----

  /** No variable on the way to `q` has its part taken for its key. */
  ghost predicate NoneTaken(t: Trie, q: Path, parts: seq<string>)
  {
    forall p | p <= q && IsVar(t, p) :: !TakenAsKey(t, p, parts, |p| - 1)
  }

  /** What the search has bound on its way to `b`: names of variables on the way, none of a variable
      whose part was taken for its key, and all right when there is no such variable. */
  ghost predicate BoundOn(t: Trie, b: Path, parts: seq<string>, args: Args)
  {
    && b in t && |b| <= |parts|
    && (forall name | name in args :: !NameFree(t, b, name))
    && (forall p | p <= b && IsVar(t, p) && TakenAsKey(t, p, parts, |p| - 1) :: t[p].branch.varType.name !in args)
    && (NoneTaken(t, b, parts) ==> Stepped(t, b, parts, |b|, Some(args)))
  }

  lemma BelowOrEqual(p: Path, q: Path)
    requires q != [] && p <= q
    ensures p == q || p <= Front(q)
  {
  }

  lemma FrontBelow(q: Path)
    requires q != []
    ensures Front(q) < q
  {
  }

  /** None of the names bound so far is that of the next variable. */
  lemma NameIsNew(t: Trie, q: Path, parts: seq<string>, args: Args)
    requires NamesApart(t) && IsVar(t, q) && BoundOn(t, Front(q), parts, args)
    ensures t[q].branch.varType.name !in args && NameFree(t, Front(q), t[q].branch.varType.name)
  {
    hide NamesApart, NameFree, TakenAsKey, NoneTaken, Stepped;
    FrontBelow(q);
    FreeAbove(t, Front(q), q);
  }

  lemma NoneTakenFront(t: Trie, q: Path, parts: seq<string>)
    requires q != [] && NoneTaken(t, q, parts)
    ensures NoneTaken(t, Front(q), parts)
    ensures IsVar(t, q) ==> !TakenAsKey(t, q, parts, |q| - 1)
  {
    hide TakenAsKey, IsVar;
    FrontBelow(q);
  }

  lemma NamesStay(t: Trie, q: Path, args: Args)
    requires q != [] && forall name | name in args :: !NameFree(t, Front(q), name)
    ensures forall name | name in args :: !NameFree(t, q, name)
  {
    forall name | name in args ensures !NameFree(t, q, name) {
      if NameFree(t, q, name) { NameFreeFront(t, q, name); }
    }
  }

  /** The variables whose part was taken for their key stay unbound. */
  lemma TakenUnbound(t: Trie, q: Path, parts: seq<string>, args: Args, p: Path)
    requires NamesApart(t) && q in t && q != [] && BoundOn(t, Front(q), parts, args)
    requires p <= q && IsVar(t, p) && TakenAsKey(t, p, parts, |p| - 1)
    ensures t[p].branch.varType.name !in args
  {
    hide NamesApart, NameFree, TakenAsKey, NoneTaken, Stepped;
    BelowOrEqual(p, q);
    if p == q { NameIsNew(t, q, parts, args); }
  }

  lemma TakenIsOther(t: Trie, q: Path, p: Path)
    requires NamesApart(t) && IsVar(t, q) && p <= q && p != q && IsVar(t, p)
    ensures t[p].branch.varType.name != t[q].branch.varType.name
  {
    BelowOrEqual(p, q);
    FrontBelow(q);
    assert Meet(t, p, q);
  }

  lemma FixedSteps(t: Trie, q: Path, parts: seq<string>, args: Args)
    requires q in t && q != [] && !IsVar(t, q) && Stepped(t, Front(q), parts, |q| - 1, Some(args))
    requires |q| <= |parts| && parts[|q| - 1] == Last(q)
    ensures Stepped(t, q, parts, |q|, Some(args))
  {
    assert Uses(t, q, parts[|q| - 1], Some(args));
  }

  /** A fixed child is reached with the same bindings. */
  lemma FixedKeeps(t: Trie, q: Path, parts: seq<string>, args: Args)
    requires Searchable(t) && NamesApart(t) && q in t && q != [] && BoundOn(t, Front(q), parts, args)
    requires |q| <= |parts| && parts[|q| - 1] == Last(q)
    ensures BoundOn(t, q, parts, args)
  {
    hide Searchable, NamesApart, NameFree, Stepped, NoneTaken;
    NamesStay(t, q, args);
    forall p | p <= q && IsVar(t, p) && TakenAsKey(t, p, parts, |p| - 1) ensures t[p].branch.varType.name !in args {
      TakenUnbound(t, q, parts, args, p);
    }
    if NoneTaken(t, q, parts) {
      NoneTakenFront(t, q, parts);
      assert TakenAsKey(t, q, parts, |q| - 1);
      FixedSteps(t, q, parts, args);
    }
  }

  lemma OwnName(t: Trie, q: Path)
    requires IsVar(t, q)
    ensures !NameFree(t, q, t[q].branch.varType.name)
  {
    assert q[..|q|] == q;
  }

  /** A middle variable is reached with its part bound. */
  lemma MiddleKeeps(t: Trie, q: Path, parts: seq<string>, args: Args)
    requires Searchable(t) && NamesApart(t) && IsVar(t, q) && t[q].branch.isMidVar
    requires Front(q) in t && q in t[Front(q)].varChildren && BoundOn(t, Front(q), parts, args)
    requires |q| <= |parts| && !TakenAsKey(t, q, parts, |q| - 1)
    ensures BoundOn(t, q, parts, args[t[q].branch.varType.name := RequiredParam(parts[|q| - 1])])
  {
    hide Searchable, NamesApart, NameFree, TakenAsKey, Stepped, NoneTaken;
    var name := t[q].branch.varType.name;
    var args' := args[name := RequiredParam(parts[|q| - 1])];
    NamesStay(t, q, args);
    OwnName(t, q);
    forall p | p <= q && IsVar(t, p) && TakenAsKey(t, p, parts, |p| - 1) ensures t[p].branch.varType.name !in args' {
      TakenUnbound(t, q, parts, args, p);
      TakenIsOther(t, q, p);
    }
    if NoneTaken(t, q, parts) {
      NoneTakenFront(t, q, parts);
      MidVarSteps(t, parts, Item(Front(q), |q| - 1), q, true, args);
    }
  }

  // ----- where the search ends -----

  lemma SpelledBinds(t: Trie, b: Path, parts: seq<string>, n: nat, args: Args, p: Path)
    requires Searchable(t) && Spelled(t, b, parts, n, Some(args)) && p <= b && IsVar(t, p)
    ensures t[p].branch.varType.name in args
  {
    OmittedAreFixed(t);
    hide Searchable, Spelled;
    var i := SpelledVariable(t, b, parts, n, args, p);
  }

  /** A branch is matched with its bindings only if each variable on the way is bound. */
  lemma MatchBinds(t: Trie, q: Path, parts: seq<string>, suffix: string, args: Args, p: Path)
    requires Searchable(t) && Matches(t, q, parts, suffix, Some(args)) && p <= q && IsVar(t, p)
    ensures t[p].branch.varType.name in args
  {
    hide Searchable, Spelled, TakesParts, LongestCut, Texts, ParamOf, Declared;
    BelowOrEqual(p, q);
    if MatchesFixed(t, q, parts, suffix, Some(args)) {
      assert p != q;
      SpelledBinds(t, Front(q), parts, |parts| - 1, args, p);
    } else {
      var n: nat, cut :| MatchesVar(t, q, parts, n, cut, suffix, Some(args));
      if p != q { SpelledBinds(t, Front(q), parts, n, args, p); }
    }
  }

  /** The branch found is matched with its bindings exactly when no variable on the way had its part
      taken for its key. */
  ghost predicate RightExactly(t: Trie, parts: seq<string>, outcome: Outcome)
  {
    outcome.Found? ==>
      (Matches(t, outcome.branch, parts, outcome.suffix, Some(outcome.args)) <==> NoneTaken(t, outcome.branch, parts))
  }

  lemma TakenIsWrong(t: Trie, q: Path, parts: seq<string>, suffix: string, args: Args)
    requires Searchable(t) && !NoneTaken(t, q, parts)
    requires forall p | p <= q && IsVar(t, p) && TakenAsKey(t, p, parts, |p| - 1) :: t[p].branch.varType.name !in args
    ensures !Matches(t, q, parts, suffix, Some(args))
  {
    hide Searchable, Matches, TakenAsKey;
    var p :| p <= q && IsVar(t, p) && TakenAsKey(t, p, parts, |p| - 1);
    if Matches(t, q, parts, suffix, Some(args)) { MatchBinds(t, q, parts, suffix, args, p); }
  }

  lemma SteppedIsKnown(t: Trie, b: Path, parts: seq<string>, args: Args)
    requires Stepped(t, b, parts, |b|, Some(args))
    ensures b in t
  {
  }

  /** The search ends on a branch, every part used. */
  lemma HereIsRight(t: Trie, b: Path, parts: seq<string>, args: Args)
    requires Searchable(t) && parts != [] && BoundOn(t, b, parts, args) && |b| == |parts| && t[b].branch.apis != []
    ensures RightExactly(t, parts, Found(b, args, []))
  {
    hide Searchable, Matches, TakenAsKey, Stepped, NoneTaken;
    if NoneTaken(t, b, parts) {
      SteppedIsKnown(t, b, parts, args);
      SteppedAtEnd(t, parts, b, Some(args));
    } else {
      TakenIsWrong(t, b, parts, [], args);
    }
  }

  lemma SteppedSpells(t: Trie, b: Path, parts: seq<string>, args: Args)
    requires Stepped(t, b, parts, |b|, Some(args))
    ensures Spelled(t, b, parts, |b|, Some(args))
  {
  }

  /** The search ends on a key and a suffix. */
  lemma SuffixIsRight(t: Trie, q: Path, parts: seq<string>, args: Args, suffix: string)
    requires Searchable(t) && NamesApart(t) && q in t && q != [] && BoundOn(t, Front(q), parts, args)
    requires |q| == |parts| && Last(parts) == Last(q) + [SUFFIX_BOUNDARY] + suffix && Declared(t[q].branch.apis, suffix)
    ensures RightExactly(t, parts, Found(q, args, suffix))
  {
    assert TakenAsKey(t, q, parts, |q| - 1);
    hide Searchable, NamesApart, TakenAsKey, NoneTaken, NameFree;
    if NoneTaken(t, q, parts) {
      NoneTakenFront(t, q, parts);
      hide Stepped;
      SteppedSpells(t, Front(q), parts, args);
      assert MatchesFixed(t, q, parts, suffix, Some(args));
    } else {
      forall p | p <= q && IsVar(t, p) && TakenAsKey(t, p, parts, |p| - 1) ensures t[p].branch.varType.name !in args {
        TakenUnbound(t, q, parts, args, p);
      }
      TakenIsWrong(t, q, parts, suffix, args);
    }
  }

  /** The search ends on a variable. */
  lemma VariableIsRight(t: Trie, q: Path, parts: seq<string>, args: Args, param: PathParam, suffix: string)
    requires Searchable(t) && NamesApart(t) && parts != [] && IsVar(t, q) && !t[q].branch.isMidVar
    requires Front(q) in t && q in t[Front(q)].varChildren && BoundOn(t, Front(q), parts, args)
    requires !TakenAsKey(t, q, parts, |q| - 1)
    requires EndMatch(t[q].branch.varType, t[q].branch.apis, parts, |q| - 1, []) == Some((param, suffix))
    ensures RightExactly(t, parts, Found(q, args[t[q].branch.varType.name := param], suffix))
  {
    hide Searchable, NamesApart, TakenAsKey, NoneTaken, NameFree, Stepped, Matches, EndMatch;
    var args' := args[t[q].branch.varType.name := param];
    if NoneTaken(t, q, parts) {
      NoneTakenFront(t, q, parts);
      EndVarMatches(t, parts, Item(Front(q), |q| - 1), q, true, args);
    } else {
      forall p | p <= q && IsVar(t, p) && TakenAsKey(t, p, parts, |p| - 1) ensures t[p].branch.varType.name !in args' {
        TakenUnbound(t, q, parts, args, p);
        TakenIsOther(t, q, p);
      }
      TakenIsWrong(t, q, parts, suffix, args');
    }
  }

  // ----- the run -----

  lemma NotFoundExactly(t: Trie, p: Path, parts: seq<string>, n: nat)
    requires p in t && p != [] && Front(p) in t && FindFixed(t, parts, Item(Front(p), n)).None? && n < |parts|
    ensures parts[n] != Last(p)
  {
    assert p == Front(p) + [Last(p)];
  }

  lemma OnlyIsTold(t: Trie, p: Path, suffix: string)
    requires p != [] && forall k | Front(p) + [k] in t :: k == Last(p)
    ensures ToldApart(t, Front(p), Last(p), suffix)
  {
  }

  lemma DottedIsFound(t: Trie, p: Path, parts: seq<string>, s: string)
    requires Straight(t) && IsVar(t, p) && Front(p) in t && parts != []
    requires Declared(t[p].branch.apis, s) && Last(parts) == Last(p) + [SUFFIX_BOUNDARY] + s
    ensures FindFixed(t, parts, Item(Front(p), |parts| - 1)).Some?
  {
    SearchableOf(t);
    assert Omissions(t) == {};
    hide Straight, Searchable, FindFixed, Declared, ToldApart, Omissions;
    NothingPassed(t, Front(p));
    forall k | Front(p) + [k] in t ensures k == Last(p) { OnlyChild(t, p, k); }
    OnlyIsTold(t, p, s);
    DottedRound(t, p, parts, s);
  }

  /** What is not found among the fixed children is not taken for the key of the variable. */
  lemma NotFoundNotTaken(t: Trie, p: Path, parts: seq<string>, n: nat)
    requires Straight(t) && IsVar(t, p) && Front(p) in t && FindFixed(t, parts, Item(Front(p), n)).None?
    ensures !TakenAsKey(t, p, parts, n)
  {
    hide Straight, FindFixed, Declared;
    if TakenAsKey(t, p, parts, n) {
      NotFoundExactly(t, p, parts, n);
      var s :| Declared(t[p].branch.apis, s) && parts[n] == Last(p) + [SUFFIX_BOUNDARY] + s;
      DottedIsFound(t, p, parts, s);
    }
  }

  lemma FoundIsChild(t: Trie, b: Path, parts: seq<string>, n: nat)
    requires Searchable(t) && Omissions(t) == {} && b in t && FindFixed(t, parts, Item(b, n)).Some?
    ensures
      var (q, suffix) := FindFixed(t, parts, Item(b, n)).value;
      && n < |parts| && q in t && q != [] && Front(q) == b
      && (parts[n] == Last(q)
          || (n == |parts| - 1 && parts[n] == Last(q) + [SUFFIX_BOUNDARY] + suffix
              && Declared(t[q].branch.apis, suffix)))
  {
    NothingPassed(t, b);
    hide Searchable, FindConsiderSuffix, Declared;
    FindFinds(t, b, parts[n], n == |parts| - 1);
  }

  /** With no variable to try, nothing is found. */
  lemma NoVariable(t: Trie, b: Path, parts: seq<string>, n: nat, args: Args)
    requires Searchable(t) && b in t && parts != [] && !(n >= |parts| && t[b].branch.apis != [])
    requires FindFixed(t, parts, Item(b, n)).None?
    requires (forall v | v in t[b].varChildren :: v in t)
    requires
      var r := TryVars(t, parts, n, t[b].varChildren, 0, State([], args, []));
      r == Done(Panicked) || r == Continue(State([], args, []))
    ensures Live(t, At(b, n, args)) && !Run(t, parts, At(b, n, args)).Found?
  {
    hide Searchable, FindFixed, TryVars, Stack;
    AtIsLive(t, b, n, args);
    RunUnfold(t, parts, At(b, n, args));
  }

  /** A single variable that takes nothing. */
  lemma OneFails(t: Trie, p: Path, parts: seq<string>, n: nat, args: Args)
    requires p in t && parts != []
    requires if t[p].branch.isMidVar then n >= |parts|
             else EndMatch(t[p].branch.varType, t[p].branch.apis, parts, n, []).None?
    ensures
      var r := TryVars(t, parts, n, [p], 0, State([], args, []));
      r == Done(Panicked) || r == Continue(State([], args, []))
  {
    hide EndMatch;
    assert [p][1..] == [];
  }

  lemma VariableOf(t: Trie, b: Path) returns (p: Path)
    requires Straight(t) && b in t && t[b].varChildren != []
    ensures IsVar(t, p) && Front(p) == b && t[b].varChildren == [p]
  {
    assert LinksOk(t, b);
    p := t[b].varChildren[0];
    assert p in t[b].varChildren && Anchor({}, p) == Front(p);
    hide Straight;
    OnlyVariable(t, p);
  }

  lemma HasApis(apis: seq<Api>, suffix: string)
    requires Declared(apis, suffix)
    ensures apis != []
  {
  }

  lemma BoundOnIsKnown(t: Trie, b: Path, parts: seq<string>, args: Args)
    requires BoundOn(t, b, parts, args)
    ensures b in t && |b| <= |parts|
  {
  }

  lemma NotFoundIsRight(t: Trie, parts: seq<string>, outcome: Outcome)
    requires !outcome.Found?
    ensures RightExactly(t, parts, outcome)
  {
  }

  lemma NoneToTry(t: Trie, parts: seq<string>, n: nat, args: Args)
    requires parts != []
    ensures TryVars(t, parts, n, [], 0, State([], args, [])) == Continue(State([], args, []))
  {
  }

  /** The search ends from here, and what it finds is bound right or not as said. */
  ghost predicate Decides(t: Trie, parts: seq<string>, b: Path, args: Args)
    requires parts != []
  {
    Live(t, At(b, |b|, args)) && RightExactly(t, parts, Run(t, parts, At(b, |b|, args)))
  }

  /** The search goes on from `b` to its child `p`. */
  ghost predicate Leads(t: Trie, parts: seq<string>, b: Path, args: Args, p: Path, args': Args)
    requires parts != []
  {
    && BoundOn(t, p, parts, args') && |p| == |b| + 1
    && Live(t, At(b, |b|, args)) && Live(t, At(p, |p|, args'))
    && Run(t, parts, At(b, |b|, args)) == Run(t, parts, At(p, |p|, args'))
  }

  lemma LeadsDecides(t: Trie, parts: seq<string>, b: Path, args: Args, p: Path, args': Args)
    requires parts != [] && Leads(t, parts, b, args, p, args') && Decides(t, parts, p, args')
    ensures Decides(t, parts, b, args)
  {
    hide Live, Run, BoundOn, RightExactly;
  }

  lemma EndsRight(t: Trie, p: Path, parts: seq<string>, args: Args)
    requires Straight(t) && NamesApart(t) && parts != [] && IsVar(t, p) && !t[p].branch.isMidVar
    requires Front(p) in t && t[Front(p)].varChildren == [p] && BoundOn(t, Front(p), parts, args)
    requires |p| - 1 == |parts| ==> t[Front(p)].branch.apis == []
    requires !TakenAsKey(t, p, parts, |p| - 1)
    requires EndMatch(t[p].branch.varType, t[p].branch.apis, parts, |p| - 1, []).Some?
    ensures Decides(t, parts, Front(p), args)
  {
    SearchableOf(t);
    BoundOnIsKnown(t, Front(p), parts, args);
    hide Straight, Searchable, NamesApart, BoundOn, Run, Live, RightExactly, At, TakenAsKey, EndMatch;
    var (param, suffix) := EndMatch(t[p].branch.varType, t[p].branch.apis, parts, |p| - 1, []).value;
    EndsOnVariable(t, p, parts, |p| - 1, args, param, suffix);
    VariableIsRight(t, p, parts, args, param, suffix);
  }

  /** A branch where nothing is tried, or the variable takes nothing. */
  lemma FailsRight(t: Trie, b: Path, parts: seq<string>, args: Args)
    requires Straight(t) && parts != [] && b in t && !(|b| >= |parts| && t[b].branch.apis != [])
    requires FindFixed(t, parts, Item(b, |b|)).None?
    requires t[b].varChildren != [] ==>
               var p := t[b].varChildren[0];
               p in t && if t[p].branch.isMidVar then |b| >= |parts|
                         else EndMatch(t[p].branch.varType, t[p].branch.apis, parts, |b|, []).None?
    ensures Decides(t, parts, b, args)
  {
    SearchableOf(t);
    hide Straight, Searchable, Run, Live, RightExactly, At, FindFixed, EndMatch, TryVars;
    if t[b].varChildren == [] {
      NoneToTry(t, parts, |b|, args);
    } else {
      var p := VariableOf(t, b);
      OneFails(t, p, parts, |b|, args);
    }
    NoVariable(t, b, parts, |b|, args);
    NotFoundIsRight(t, parts, Run(t, parts, At(b, |b|, args)));
  }

  /** A middle variable takes its part, and the search goes on from it. */
  lemma MiddleLeads(t: Trie, p: Path, parts: seq<string>, args: Args) returns (args': Args)
    requires Straight(t) && NamesApart(t) && parts != [] && IsVar(t, p) && t[p].branch.isMidVar && |p| <= |parts|
    requires Front(p) in t && t[Front(p)].varChildren == [p] && BoundOn(t, Front(p), parts, args)
    requires !TakenAsKey(t, p, parts, |p| - 1)
    ensures Leads(t, parts, Front(p), args, p, args')
  {
    SearchableOf(t);
    hide Straight, Searchable, NamesApart, BoundOn, Run, Live, At, TakenAsKey;
    WalkVariable(t, p, parts, |p| - 1, args);
    MiddleKeeps(t, p, parts, args);
    args' := args[t[p].branch.varType.name := RequiredParam(parts[|p| - 1])];
  }

  /** The variable of a branch, if there is one. */
  lemma VarsLead(t: Trie, parts: seq<string>, b: Path, args: Args) returns (p: Path, args': Args)
    requires Straight(t) && NamesApart(t) && parts != [] && BoundOn(t, b, parts, args)
    requires b in t && |b| <= |parts| && !(|b| == |parts| && t[b].branch.apis != [])
    requires FindFixed(t, parts, Item(b, |b|)).None?
    ensures Decides(t, parts, b, args) || Leads(t, parts, b, args, p, args')
  {
    hide Straight, Searchable, NamesApart, BoundOn, Decides, Leads, FindFixed, TakenAsKey, EndMatch;
    p, args' := b, args;
    if t[b].varChildren == [] {
      FailsRight(t, b, parts, args);
    } else {
      p := VariableOf(t, b);
      NotFoundNotTaken(t, p, parts, |b|);
      if t[p].branch.isMidVar && |b| < |parts| {
        args' := MiddleLeads(t, p, parts, args);
      } else if t[p].branch.isMidVar
             || EndMatch(t[p].branch.varType, t[p].branch.apis, parts, |b|, []).None? {
        FailsRight(t, b, parts, args);
      } else {
        EndsRight(t, p, parts, args);
      }
    }
  }

  /** The fixed child that is found. */
  lemma FixedLeads(t: Trie, parts: seq<string>, b: Path, args: Args) returns (q: Path)
    requires Straight(t) && NamesApart(t) && parts != [] && BoundOn(t, b, parts, args) && b in t
    requires FindFixed(t, parts, Item(b, |b|)).Some?
    ensures Decides(t, parts, b, args) || Leads(t, parts, b, args, q, args)
  {
    SearchableOf(t);
    FoundIsChild(t, b, parts, |b|);
    hide Straight, Searchable, NamesApart, BoundOn, Run, Live, RightExactly, At, FindFixed, Declared;
    var suffix := FindFixed(t, parts, Item(b, |b|)).value.1;
    q := FindFixed(t, parts, Item(b, |b|)).value.0;
    if parts[|b|] == Last(q) {
      WalkFixed(t, q, parts, args);
      FixedKeeps(t, q, parts, args);
    } else {
      HasApis(t[q].branch.apis, suffix);
      EndsOnFound(t, parts, b, q, args, suffix);
      SuffixIsRight(t, q, parts, args, suffix);
    }
  }

  lemma HereDecides(t: Trie, b: Path, parts: seq<string>, args: Args)
    requires Straight(t) && parts != [] && BoundOn(t, b, parts, args) && |b| == |parts| && t[b].branch.apis != []
    ensures Decides(t, parts, b, args)
  {
    SearchableOf(t);
    hide Straight, Searchable, BoundOn, Run, Live, RightExactly, At;
    BoundOnIsKnown(t, b, parts, args);
    EndsAtHere(t, parts, b, args);
    HereIsRight(t, b, parts, args);
  }

  lemma LeadsOn(t: Trie, parts: seq<string>, b: Path, args: Args, p: Path, args': Args)
    requires parts != [] && Leads(t, parts, b, args, p, args')
    ensures BoundOn(t, p, parts, args') && |p| == |b| + 1 && |p| <= |parts|
  {
    hide Live, Run;
  }

  /** Whatever way the search goes on from a branch, its end is bound right or not as said. */
  lemma {:induction false} RunBinds(t: Trie, parts: seq<string>, b: Path, args: Args)
    requires Straight(t) && NamesApart(t) && parts != [] && BoundOn(t, b, parts, args)
    ensures Decides(t, parts, b, args)
    decreases |parts| - |b|
  {
    BoundOnIsKnown(t, b, parts, args);
    hide Straight, NamesApart, BoundOn, Decides, Leads, FindFixed;
    if |b| == |parts| && t[b].branch.apis != [] {
      HereDecides(t, b, parts, args);
    } else {
      var p, args' := b, args;
      if FindFixed(t, parts, Item(b, |b|)).Some? {
        p := FixedLeads(t, parts, b, args);
      } else {
        p, args' := VarsLead(t, parts, b, args);
      }
      if !Decides(t, parts, b, args) {
        LeadsOn(t, parts, b, args, p, args');
        RunBinds(t, parts, p, args');
        LeadsDecides(t, parts, b, args, p, args');
      }
    }
  }

  lemma StartIsBound(t: Trie, parts: seq<string>)
    requires Searchable(t)
    ensures BoundOn(t, [], parts, map[])
  {
  }

  /** Where the search has one way to go and names are apart, the branch found is matched with its
      bindings exactly when no part was taken for the key of a variable on the way. */
  lemma BoundRightExactly(t: Trie, parts: seq<string>)
    requires Straight(t) && NamesApart(t) && parts != []
    ensures Searchable(t)
    ensures MatchVarPath(t, parts).Found? ==>
              (BindsRight(t, parts) <==> NoneTaken(t, MatchVarPath(t, parts).branch, parts))
  {
    SearchableOf(t);
    hide Straight, Searchable, NamesApart, BoundOn, Run, Live, MatchVarPath, Matches, NoneTaken, At;
    WalkStarts(t, parts);
    StartIsBound(t, parts);
    RunBinds(t, parts, [], map[]);
  }
}
