/** Which of several matching branches the search returns, said without a worklist. */
module Choice {
  import opened Branches
  import opened Frontier
  import opened Wiring
  import opened Search
  import opened Completeness

  /** The variable takes the rest of the parts. */
  ghost predicate EndsOn(t: Trie, parts: seq<string>, v: Path, n: nat)
    requires parts != []
  {
    v in t && !t[v].branch.isMidVar && EndMatch(t[v].branch.varType, t[v].branch.apis, parts, n, []).Some?
  }

  /** It is the first of the variables to do so. */
  ghost predicate IsFirstEnd(t: Trie, parts: seq<string>, vs: seq<Path>, n: nat, q: Path)
    requires parts != []
  {
    exists i | 0 <= i < |vs| && EndsOn(t, parts, vs[i], n) ::
      vs[i] == q && forall j | 0 <= j < i :: !EndsOn(t, parts, vs[j], n)
  }

  /** The middle variable takes one part, and a walk goes on from it. */
  ghost predicate GoesOver(t: Trie, parts: seq<string>, v: Path, n: nat)
    requires parts != []
  {
    v in t && t[v].branch.isMidVar && Walks(t, parts, v, n + 1)
  }

  /** The walk the search takes from the branch with `n` parts used ends on `q`: the branch itself
      has every part and APIs; or the walk goes on over the fixed child where one is found; or else
      over the first variable that takes all the rest; or else over the first middle variable from
      which a walk succeeds. */
  ghost predicate WalkEnds(t: Trie, parts: seq<string>, b: Path, n: nat, q: Path)
    requires parts != []
    decreases if n < |parts| then |parts| - n else 0
  {
    b in t
    && if n >= |parts| && t[b].branch.apis != [] then q == b
       else
         match FindFixed(t, parts, Item(b, n))
         case Some((c, _)) => WalkEnds(t, parts, c, n + 1, q)
         case None =>
           var vs := t[b].varChildren;
           if SomeEnds(t, parts, vs, n) then IsFirstEnd(t, parts, vs, n, q)
           else n < |parts| && exists i | 0 <= i < |vs| && GoesOver(t, parts, vs[i], n) ::
                  (forall j | 0 <= j < i :: !GoesOver(t, parts, vs[j], n)) && WalkEnds(t, parts, vs[i], n + 1, q)
  }

  /** The walk over the first middle variable from which one succeeds ends on `q`. */
  ghost predicate FirstOverEnds(t: Trie, parts: seq<string>, vs: seq<Path>, n: nat, q: Path)
    requires parts != []
  {
    exists i | 0 <= i < |vs| && GoesOver(t, parts, vs[i], n) ::
      (forall j | 0 <= j < i :: !GoesOver(t, parts, vs[j], n)) && WalkEnds(t, parts, vs[i], n + 1, q)
  }

  ghost predicate SomeOver(t: Trie, parts: seq<string>, vs: seq<Path>, n: nat)
    requires parts != []
  {
    exists v | v in vs :: GoesOver(t, parts, v, n)
  }

  lemma EndUnfold(t: Trie, parts: seq<string>, vs: seq<Path>, n: nat, q: Path)
    requires parts != [] && vs != []
    ensures IsFirstEnd(t, parts, vs, n, q)
       <==> if EndsOn(t, parts, vs[0], n) then q == vs[0] else IsFirstEnd(t, parts, vs[1..], n, q)
  {
    hide EndsOn;
    if !EndsOn(t, parts, vs[0], n) {
      if i :| 0 <= i < |vs| && EndsOn(t, parts, vs[i], n)
              && vs[i] == q && forall j | 0 <= j < i :: !EndsOn(t, parts, vs[j], n) {
        assert vs[1..][i - 1] == q;
        assert forall j | 0 <= j < i - 1 :: vs[1..][j] == vs[j + 1];
      }
      if i :| 0 <= i < |vs[1..]| && EndsOn(t, parts, vs[1..][i], n)
              && vs[1..][i] == q && forall j | 0 <= j < i :: !EndsOn(t, parts, vs[1..][j], n) {
        assert vs[i + 1] == q;
        assert forall j | 1 <= j < i + 1 :: vs[j] == vs[1..][j - 1];
      }
    }
  }

  lemma SomeOverUnfold(t: Trie, parts: seq<string>, vs: seq<Path>, n: nat)
    requires parts != [] && vs != []
    ensures SomeOver(t, parts, vs, n) <==> GoesOver(t, parts, vs[0], n) || SomeOver(t, parts, vs[1..], n)
  {
    hide GoesOver;
    assert vs == [vs[0]] + vs[1..];
  }

  lemma OverUnfold(t: Trie, parts: seq<string>, vs: seq<Path>, n: nat, q: Path)
    requires parts != [] && vs != []
    ensures FirstOverEnds(t, parts, vs, n, q)
       <==> if GoesOver(t, parts, vs[0], n) then WalkEnds(t, parts, vs[0], n + 1, q)
            else FirstOverEnds(t, parts, vs[1..], n, q)
  {
    hide GoesOver, WalkEnds;
    if !GoesOver(t, parts, vs[0], n) {
      if i :| 0 <= i < |vs| && GoesOver(t, parts, vs[i], n)
              && (forall j | 0 <= j < i :: !GoesOver(t, parts, vs[j], n)) && WalkEnds(t, parts, vs[i], n + 1, q) {
        assert vs[1..][i - 1] == vs[i];
        assert forall j | 0 <= j < i - 1 :: vs[1..][j] == vs[j + 1];
      }
      if i :| 0 <= i < |vs[1..]| && GoesOver(t, parts, vs[1..][i], n)
              && (forall j | 0 <= j < i :: !GoesOver(t, parts, vs[1..][j], n))
              && WalkEnds(t, parts, vs[1..][i], n + 1, q) {
        assert vs[i + 1] == vs[1..][i];
        assert forall j | 1 <= j < i + 1 :: vs[j] == vs[1..][j - 1];
      }
    }
  }

  lemma EndsUnfold(t: Trie, parts: seq<string>, item: Item, q: Path)
    requires parts != [] && item.branch in t
    ensures
      var vs := t[item.branch].varChildren;
      WalkEnds(t, parts, item.branch, item.part, q) <==>
        if item.part >= |parts| && t[item.branch].branch.apis != [] then q == item.branch
        else if FindFixed(t, parts, item).Some? then
          WalkEnds(t, parts, FindFixed(t, parts, item).value.0, item.part + 1, q)
        else if SomeEnds(t, parts, vs, item.part) then IsFirstEnd(t, parts, vs, item.part, q)
        else item.part < |parts| && FirstOverEnds(t, parts, vs, item.part, q)
  {
    hide FindConsiderSuffix, SomeEnds, IsFirstEnd, GoesOver;
    assert item == Item(item.branch, item.part);
  }

  /** The loop ends on the first variable that takes all the rest. */
  lemma {:induction false} TryVarsFirst(t: Trie, parts: seq<string>, n: nat, vs: seq<Path>, pos: nat, st: State)
    requires parts != [] && pos <= |st.items| && forall v | v in vs :: v in t
    ensures
      var r := TryVars(t, parts, n, vs, pos, st);
      r.Done? && r.outcome.Found? ==> IsFirstEnd(t, parts, vs, n, r.outcome.branch)
    decreases |vs|
  {
    hide EndMatch, IsFirstEnd;
    if vs != [] {
      var b := t[vs[0]].branch;
      assert forall v | v in vs[1..] :: v in vs;
      EndMatchAnySuffix(b.varType, b.apis, parts, n, st.suffix);
      if b.isMidVar && b.varType.Required? && n < |parts| {
        TryVarsFirst(t, parts, n, vs[1..], pos, WithMidVar(vs[0], b.varType.name, parts[n], n, pos, st));
      } else {
        TryVarsFirst(t, parts, n, vs[1..], pos, st);
      }
      forall q ensures IsFirstEnd(t, parts, vs, n, q)
          <==> if EndsOn(t, parts, vs[0], n) then q == vs[0] else IsFirstEnd(t, parts, vs[1..], n, q)
      {
        EndUnfold(t, parts, vs, n, q);
      }
    }
  }

  /** The walk of the last item from which one succeeds ends on `q`. */
  ghost predicate ItemsEnd(t: Trie, parts: seq<string>, items: seq<Item>, q: Path)
    requires parts != []
    decreases |items|
  {
    items != []
    && if Walks(t, parts, Last(items).branch, Last(items).part)
       then WalkEnds(t, parts, Last(items).branch, Last(items).part, q)
       else ItemsEnd(t, parts, Front(items), q)
  }

  lemma ItemsEndSnoc(t: Trie, parts: seq<string>, rest: seq<Item>, item: Item, q: Path)
    requires parts != []
    ensures ItemsEnd(t, parts, rest + [item], q)
       <==> if Walks(t, parts, item.branch, item.part) then WalkEnds(t, parts, item.branch, item.part, q)
            else ItemsEnd(t, parts, rest, q)
  {
    hide Walks, WalkEnds;
    assert Front(rest + [item]) == rest && Last(rest + [item]) == item;
  }

  /** The items of the middle variables end where the first walk over one does. */
  lemma {:induction false} MidItemsEnd(t: Trie, parts: seq<string>, rest: seq<Item>, vs: seq<Path>, n: nat, q: Path)
    requires parts != [] && n < |parts|
    ensures ItemsEnd(t, parts, rest + MidItems(t, vs, n), q)
       <==> if SomeOver(t, parts, vs, n) then FirstOverEnds(t, parts, vs, n, q) else ItemsEnd(t, parts, rest, q)
    decreases |vs|
  {
    hide Walks, WalkEnds, ItemsEnd;
    if vs == [] {
      assert rest + [] == rest;
    } else {
      MidItemsEnd(t, parts, rest, vs[1..], n, q);
      OverUnfold(t, parts, vs, n, q);
      SomeOverUnfold(t, parts, vs, n);
      hide SomeOver, FirstOverEnds;
      var before := rest + MidItems(t, vs[1..], n);
      if vs[0] in t && t[vs[0]].branch.isMidVar {
        assert rest + MidItems(t, vs, n) == before + [Item(vs[0], n + 1)];
        ItemsEndSnoc(t, parts, before, Item(vs[0], n + 1), q);
      }
    }
  }

  // ----- one round -----

  /** What a round does to where the list ends. */
  ghost predicate KeepsEnd(t: Trie, parts: seq<string>, items: seq<Item>, r: StepResult, q: Path)
    requires parts != []
  {
    && (r.Continue? ==> (ItemsEnd(t, parts, r.state.items, q) <==> ItemsEnd(t, parts, items, q)))
    && (r.Done? && r.outcome.Found? ==> (ItemsEnd(t, parts, items, q) <==> q == r.outcome.branch))
  }

  lemma OneFirstEnd(t: Trie, parts: seq<string>, vs: seq<Path>, n: nat, q: Path, other: Path)
    requires parts != [] && IsFirstEnd(t, parts, vs, n, q)
    ensures SomeEnds(t, parts, vs, n)
    ensures IsFirstEnd(t, parts, vs, n, other) <==> other == q
  {
    hide EndMatch;
    var i :| 0 <= i < |vs| && EndsOn(t, parts, vs[i], n) && vs[i] == q
             && forall j | 0 <= j < i :: !EndsOn(t, parts, vs[j], n);
    if IsFirstEnd(t, parts, vs, n, other) {
      var k :| 0 <= k < |vs| && EndsOn(t, parts, vs[k], n) && vs[k] == other
               && forall j | 0 <= j < k :: !EndsOn(t, parts, vs[j], n);
      assert i == k;
    }
  }

  lemma ItemsLast(t: Trie, parts: seq<string>, items: seq<Item>, q: Path)
    requires parts != [] && items != []
    ensures ItemsEnd(t, parts, items, q) <==>
              if Walks(t, parts, Last(items).branch, Last(items).part)
              then WalkEnds(t, parts, Last(items).branch, Last(items).part, q)
              else ItemsEnd(t, parts, Front(items), q)
  {
    hide Walks, WalkEnds;
  }

  lemma OverRoundEnds(t: Trie, parts: seq<string>, st: State, q: Path)
    requires parts != [] && st.items != [] && Live(t, st) && Known(t, st.items)
    requires Last(st.items).part >= |parts|
    ensures KeepsEnd(t, parts, st.items, Step(t, parts, st), q)
  {
    hide Stack, TryVars, Walks, WalkEnds, ItemsEnd, AnyVarWalks, AnyWalks, SomeEnds, IsFirstEnd, Searchable,
         FirstOverEnds;
    var item, rest := Last(st.items), Front(st.items);
    var vs, start := t[item.branch].varChildren, State(Front(st.items), st.args, st.suffix);
    VarsAreRequired(t, item.branch);
    WalksUnfold(t, parts, item);
    EndsUnfold(t, parts, item, q);
    ItemsLast(t, parts, st.items, q);
    TryVarsOver(t, parts, item.part, vs, |rest|, start);
    TryVarsWalks(t, parts, item.part, vs, |rest|, start);
    TryVarsFirst(t, parts, item.part, vs, |rest|, start);
    var r := TryVars(t, parts, item.part, vs, |rest|, start);
    if r.Done? && r.outcome.Found? { OneFirstEnd(t, parts, vs, item.part, r.outcome.branch, q); }
  }

  lemma FixedHasPart(t: Trie, parts: seq<string>, item: Item)
    requires item.branch in t && FindFixed(t, parts, item).Some?
    ensures item.part < |parts|
  {
  }

  /** A fixed child that is found takes the place of its branch. */
  lemma FixedEnds(t: Trie, parts: seq<string>, item: Item, q: Path)
    requires parts != [] && item.branch in t && FindFixed(t, parts, item).Some?
    ensures
      var c := FindFixed(t, parts, item).value.0;
      && (Walks(t, parts, item.branch, item.part) <==> Walks(t, parts, c, item.part + 1))
      && (WalkEnds(t, parts, item.branch, item.part, q) <==> WalkEnds(t, parts, c, item.part + 1, q))
  {
    hide Walks, FindFixed, WalkEnds, AnyVarWalks, SomeEnds, IsFirstEnd, FirstOverEnds;
    FixedHasPart(t, parts, item);
    WalksUnfold(t, parts, item);
    EndsUnfold(t, parts, item, q);
  }

  lemma FixedRoundEnds(t: Trie, parts: seq<string>, st: State, q: Path)
    requires parts != [] && st.items != [] && Searchable(t) && Known(t, st.items)
    requires FindFixed(t, parts, Last(st.items)).Some?
    ensures KeepsEnd(t, parts, st.items, Step(t, parts, st), q)
  {
    hide Walks, FindFixed, WalkEnds, ItemsEnd, Searchable, Step;
    var item := Last(st.items);
    FixedStep(t, parts, st);
    FixedEnds(t, parts, item, q);
    ItemsLast(t, parts, st.items, q);
    ItemsEndSnoc(t, parts, Front(st.items), Item(FindFixed(t, parts, item).value.0, item.part + 1), q);
  }

  lemma OverMeans(t: Trie, parts: seq<string>, vs: seq<Path>, n: nat)
    requires parts != []
    ensures SomeOver(t, parts, vs, n)
       <==> exists v | v in vs && v in t && t[v].branch.isMidVar :: Walks(t, parts, v, n + 1)
  {
    hide Walks;
    assert forall v | v in vs && v in t && t[v].branch.isMidVar && Walks(t, parts, v, n + 1) ::
        GoesOver(t, parts, v, n);
  }

  lemma VarRoundEnds(t: Trie, parts: seq<string>, st: State, q: Path)
    requires parts != [] && st.items != [] && Live(t, st) && Known(t, st.items)
    requires Last(st.items).part < |parts| && FindFixed(t, parts, Last(st.items)).None?
    ensures KeepsEnd(t, parts, st.items, Step(t, parts, st), q)
  {
    hide Stack, TryVars, Walks, FindFixed, WalkEnds, ItemsEnd, AnyVarWalks, SomeEnds, MidItems, Searchable,
         IsFirstEnd, FirstOverEnds, SomeOver;
    var item, rest := Last(st.items), Front(st.items);
    var vs, start := t[item.branch].varChildren, State(Front(st.items), st.args, st.suffix);
    VarsAreRequired(t, item.branch);
    WalksUnfold(t, parts, item);
    EndsUnfold(t, parts, item, q);
    ItemsLast(t, parts, st.items, q);
    VarWalksMeans(t, parts, vs, item.part);
    OverMeans(t, parts, vs, item.part);
    TryVarsItems(t, parts, item.part, vs, |rest|, start);
    TryVarsFirst(t, parts, item.part, vs, |rest|, start);
    MidItemsEnd(t, parts, rest, vs, item.part, q);
    assert rest[..|rest|] + MidItems(t, vs, item.part) + rest[|rest|..] == rest + MidItems(t, vs, item.part);
    var r := TryVars(t, parts, item.part, vs, |rest|, start);
    if r.Done? { OneFirstEnd(t, parts, vs, item.part, r.outcome.branch, q); }
  }

  lemma StepEnds(t: Trie, parts: seq<string>, st: State, q: Path)
    requires parts != [] && st.items != [] && Live(t, st) && Known(t, st.items)
    ensures KeepsEnd(t, parts, st.items, Step(t, parts, st), q)
  {
    hide Searchable, Stack, Step, ItemsEnd, FindFixed, KeepsEnd;
    if Last(st.items).part >= |parts| {
      OverRoundEnds(t, parts, st, q);
    } else if FindFixed(t, parts, Last(st.items)).Some? {
      FixedRoundEnds(t, parts, st, q);
    } else {
      VarRoundEnds(t, parts, st, q);
    }
  }

  lemma {:induction false} RunEnds(t: Trie, parts: seq<string>, st: State, q: Path)
    requires parts != [] && Live(t, st)
    ensures Run(t, parts, st).Found? ==> (ItemsEnd(t, parts, st.items, q) <==> q == Run(t, parts, st).branch)
    decreases Covered(t.Keys, Places(st.items))
  {
    hide Searchable, Stack, Step, ItemsEnd;
    if st.items != [] {
      LiveIsKnown(t, st);
      StepEnds(t, parts, st, q);
      if Step(t, parts, st).Continue? {
        StepShrinks(t, parts, st);
        RunEnds(t, parts, Step(t, parts, st).state, q);
      }
    }
  }

  // ----- the branch found -----

  lemma EndIsWalk(t: Trie, parts: seq<string>, vs: seq<Path>, n: nat)
    requires parts != [] && SomeEnds(t, parts, vs, n)
    ensures AnyVarWalks(t, parts, vs, n)
  {
    hide EndMatch, Walks;
    var v :| v in vs && v in t && !t[v].branch.isMidVar
             && EndMatch(t[v].branch.varType, t[v].branch.apis, parts, n, []).Some?;
    assert VarWalks(t, parts, v, n);
  }

  lemma OverIsWalk(t: Trie, parts: seq<string>, b: Path, n: nat, q: Path)
    requires Searchable(t) && parts != [] && b in t && n < |parts|
    requires FirstOverEnds(t, parts, t[b].varChildren, n, q)
    ensures AnyVarWalks(t, parts, t[b].varChildren, n)
  {
    VarsAreRequired(t, b);
    hide Walks, WalkEnds, Searchable;
    var vs := t[b].varChildren;
    var i :| 0 <= i < |vs| && GoesOver(t, parts, vs[i], n);
    assert VarWalks(t, parts, vs[i], n);
  }

  lemma EndsInTree(t: Trie, parts: seq<string>, b: Path, n: nat, q: Path)
    requires parts != [] && WalkEnds(t, parts, b, n, q)
    ensures b in t
  {
    hide FindFixed, SomeEnds, IsFirstEnd, GoesOver;
  }

  /** Where no fixed child is found. */
  lemma EndsHereWalks(t: Trie, parts: seq<string>, item: Item, q: Path)
    requires Searchable(t) && parts != [] && item.branch in t && FindFixed(t, parts, item).None?
    requires WalkEnds(t, parts, item.branch, item.part, q)
    ensures Walks(t, parts, item.branch, item.part)
  {
    hide Searchable, FindFixed, Walks, WalkEnds, SomeEnds, IsFirstEnd, FirstOverEnds, AnyVarWalks;
    var vs := t[item.branch].varChildren;
    WalksUnfold(t, parts, item);
    EndsUnfold(t, parts, item, q);
    if SomeEnds(t, parts, vs, item.part) { EndIsWalk(t, parts, vs, item.part); }
    if item.part < |parts| && FirstOverEnds(t, parts, vs, item.part, q) {
      OverIsWalk(t, parts, item.branch, item.part, q);
    }
  }

  /** A walk that ends somewhere is a walk. */
  lemma {:induction false} EndsMeansWalks(t: Trie, parts: seq<string>, b: Path, n: nat, q: Path)
    requires Searchable(t) && parts != [] && WalkEnds(t, parts, b, n, q)
    ensures Walks(t, parts, b, n)
    decreases if n < |parts| then |parts| - n else 0
  {
    hide Searchable, FindFixed, Walks, WalkEnds;
    EndsInTree(t, parts, b, n, q);
    var item := Item(b, n);
    if FindFixed(t, parts, item).Some? {
      FixedHasPart(t, parts, item);
      FixedEnds(t, parts, item, q);
      EndsMeansWalks(t, parts, FindFixed(t, parts, item).value.0, n + 1, q);
    } else {
      EndsHereWalks(t, parts, item, q);
    }
  }

  /** The search finds `q` exactly when the walk it takes from the root ends on `q`, unless it runs
      out of parts before. */
  lemma SearchChooses(t: Trie, parts: seq<string>, q: Path)
    requires Searchable(t) && parts != []
    ensures MatchVarPath(t, parts).Found? && MatchVarPath(t, parts).branch == q
       <==> WalkEnds(t, parts, [], 0, q) && !RunsOut(t, parts, [], 0)
  {
    hide Searchable, Walks, WalkEnds, Run, RunsOut, ItemsEnd;
    StartIsLive(t);
    SearchIsComplete(t, parts);
    RunEnds(t, parts, START, q);
    ItemsLast(t, parts, START.items, q);
    if WalkEnds(t, parts, [], 0, q) { EndsMeansWalks(t, parts, [], 0, q); }
  }

  /** With variables in the order of their visit, the one of those that take all the rest is found whose
      parent and key come first. */
  lemma EarlierKeyEnds(t: Trie, parts: seq<string>, vs: seq<Path>, n: nat, q: Path, other: Path)
    requires parts != [] && InVisitOrder(vs) && IsFirstEnd(t, parts, vs, n, q)
    requires other in vs && EndsOn(t, parts, other, n)
    ensures other == q || VisitBefore(q, other)
  {
    hide EndsOn, VisitBefore;
    var i :| 0 <= i < |vs| && EndsOn(t, parts, vs[i], n) && vs[i] == q
             && forall j | 0 <= j < i :: !EndsOn(t, parts, vs[j], n);
    var k :| 0 <= k < |vs| && vs[k] == other;
  }

  /** So it is with the middle variable over which the walk goes on. */
  lemma EarlierKeyGoesOn(t: Trie, parts: seq<string>, vs: seq<Path>, n: nat, q: Path, other: Path) returns (v: Path)
    requires parts != [] && InVisitOrder(vs) && FirstOverEnds(t, parts, vs, n, q)
    requires other in vs && GoesOver(t, parts, other, n)
    ensures v in vs && (v == other || VisitBefore(v, other))
    ensures GoesOver(t, parts, v, n) && WalkEnds(t, parts, v, n + 1, q)
  {
    hide GoesOver, VisitBefore, WalkEnds;
    var i :| 0 <= i < |vs| && GoesOver(t, parts, vs[i], n)
             && (forall j | 0 <= j < i :: !GoesOver(t, parts, vs[j], n)) && WalkEnds(t, parts, vs[i], n + 1, q);
    var k :| 0 <= k < |vs| && vs[k] == other;
    v := vs[i];
  }
}
