/** What the search finds, said without a worklist: some walk down the tree that takes the fixed
    child wherever one is found, and any variable child otherwise. */
module Completeness {
  import opened Apis
  import opened Branches
  import opened Frontier
  import opened Wiring
  import opened Search

  /** A walk from the branch with `n` parts used ends on a branch with APIs or an end variable. */
  ghost predicate Walks(t: Trie, parts: seq<string>, b: Path, n: nat)
    requires parts != []
    decreases if n < |parts| then |parts| - n else 0, 1
  {
    b in t
    && if n >= |parts| && t[b].branch.apis != [] then true
       else
         match FindFixed(t, parts, Item(b, n))
         case Some((q, _)) => Walks(t, parts, q, n + 1)
         case None => exists v | v in t[b].varChildren :: VarWalks(t, parts, v, n)
  }

  /** A walk over the variable: it ends there with the rest of the parts, or takes one and goes on. */
  ghost predicate VarWalks(t: Trie, parts: seq<string>, v: Path, n: nat)
    requires parts != []
    decreases if n < |parts| then |parts| - n else 0, 0
  {
    v in t
    && var b := t[v].branch;
       if b.isMidVar then b.varType.Required? && n < |parts| && Walks(t, parts, v, n + 1)
       else EndMatch(b.varType, b.apis, parts, n, []).Some?
  }

  ghost predicate AnyWalks(t: Trie, parts: seq<string>, items: seq<Item>)
    requires parts != []
  {
    exists i | 0 <= i < |items| :: Walks(t, parts, items[i].branch, items[i].part)
  }

  lemma AnyOfInserted(t: Trie, parts: seq<string>, items: seq<Item>, pos: nat, x: Item)
    requires parts != [] && pos <= |items|
    ensures AnyWalks(t, parts, items[..pos] + [x] + items[pos..])
       <==> AnyWalks(t, parts, items) || Walks(t, parts, x.branch, x.part)
  {
    hide Walks;
    var next := items[..pos] + [x] + items[pos..];
    if i :| 0 <= i < |items| && Walks(t, parts, items[i].branch, items[i].part) {
      assert next[if i < pos then i else i + 1] == items[i];
    }
    if i :| 0 <= i < |next| && Walks(t, parts, next[i].branch, next[i].part) {
      assert i == pos || next[i] == items[if i < pos then i else i - 1];
    }
    assert next[pos] == x;
  }

  ghost predicate AnyVarWalks(t: Trie, parts: seq<string>, vs: seq<Path>, n: nat)
    requires parts != []
  {
    exists v | v in vs :: VarWalks(t, parts, v, n)
  }

  lemma AnyVarUnfold(t: Trie, parts: seq<string>, vs: seq<Path>, n: nat)
    requires parts != [] && vs != []
    ensures AnyVarWalks(t, parts, vs, n) <==> VarWalks(t, parts, vs[0], n) || AnyVarWalks(t, parts, vs[1..], n)
  {
    hide VarWalks;
    assert vs == [vs[0]] + vs[1..];
  }

  /** The suffix so far does not decide whether an end variable matches. */
  lemma EndMatchAnySuffix(v: VarType, apis: seq<Api>, parts: seq<string>, n: nat, suffix: string)
    requires parts != []
    ensures EndMatch(v, apis, parts, n, suffix).Some? <==> EndMatch(v, apis, parts, n, []).Some?
  {
    hide Extract;
  }

  lemma NoVarWalks(t: Trie, parts: seq<string>, n: nat)
    requires parts != []
    ensures !AnyVarWalks(t, parts, [], n)
  {
  }

  /** The loop over the variables puts the walks over them on the list, or ends in one. */
  lemma {:induction false} TryVarsWalks(t: Trie, parts: seq<string>, n: nat, vs: seq<Path>, pos: nat, st: State)
    requires parts != [] && pos <= |st.items| && forall v | v in vs :: v in t
    ensures
      var r := TryVars(t, parts, n, vs, pos, st);
      && (r.Continue? ==>
            (AnyWalks(t, parts, r.state.items) <==> AnyWalks(t, parts, st.items) || AnyVarWalks(t, parts, vs, n)))
      && (r.Done? ==> r.outcome == Panicked || (r.outcome.Found? && AnyVarWalks(t, parts, vs, n)))
    decreases |vs|
  {
    hide Walks, AnyWalks, AnyVarWalks, EndMatch;
    if vs == [] {
      NoVarWalks(t, parts, n);
    } else {
      var b := t[vs[0]].branch;
      assert forall v | v in vs[1..] :: v in vs;
      AnyVarUnfold(t, parts, vs, n);
      EndMatchAnySuffix(b.varType, b.apis, parts, n, st.suffix);
      if b.isMidVar && b.varType.Required? && n < |parts| {
        TryVarsWalks(t, parts, n, vs[1..], pos, WithMidVar(vs[0], b.varType.name, parts[n], n, pos, st));
        AnyOfInserted(t, parts, st.items, pos, Item(vs[0], n + 1));
      } else {
        TryVarsWalks(t, parts, n, vs[1..], pos, st);
      }
    }
  }

  lemma LastWalks(t: Trie, parts: seq<string>, items: seq<Item>)
    requires parts != [] && items != []
    ensures AnyWalks(t, parts, items)
        <==> AnyWalks(t, parts, Front(items)) || Walks(t, parts, Last(items).branch, Last(items).part)
  {
    hide Walks;
    assert forall i | 0 <= i < |Front(items)| :: Front(items)[i] == items[i];
  }

  lemma WalksUnfold(t: Trie, parts: seq<string>, item: Item)
    requires parts != [] && item.branch in t
    ensures
      Walks(t, parts, item.branch, item.part) <==>
        if item.part >= |parts| && t[item.branch].branch.apis != [] then true
        else if FindFixed(t, parts, item).Some? then Walks(t, parts, FindFixed(t, parts, item).value.0, item.part + 1)
        else AnyVarWalks(t, parts, t[item.branch].varChildren, item.part)
  {
    hide FindConsiderSuffix, VarWalks;
    assert item == Item(item.branch, item.part);
  }

  /** A round neither loses nor makes a walk. */
  lemma StepWalks(t: Trie, parts: seq<string>, st: State)
    requires parts != [] && st.items != [] && Live(t, st) && Known(t, st.items)
    ensures
      var r := Step(t, parts, st);
      && (r.Continue? ==> (AnyWalks(t, parts, r.state.items) <==> AnyWalks(t, parts, st.items)))
      && (r.Done? ==> r.outcome == Panicked || (r.outcome.Found? && AnyWalks(t, parts, st.items)))
  {
    hide Searchable, FindConsiderSuffix, VarWalks, AnyWalks, AnyVarWalks, TryVars, Stack, Walks, FindFixed;
    var item, rest := Last(st.items), Front(st.items);
    VarsAreKnown(t, item.branch);
    WalksUnfold(t, parts, item);
    LastWalks(t, parts, st.items);
    if FindFixed(t, parts, item).Some? {
      var q := FindFixed(t, parts, item).value.0;
      LastWalks(t, parts, rest + [Item(q, item.part + 1)]);
      assert Front(rest + [Item(q, item.part + 1)]) == rest;
    } else {
      TryVarsWalks(t, parts, item.part, t[item.branch].varChildren, |rest|, State(rest, st.args, st.suffix));
    }
  }

  lemma {:induction false} RunWalks(t: Trie, parts: seq<string>, st: State)
    requires parts != [] && Live(t, st)
    ensures Run(t, parts, st).Found? ==> AnyWalks(t, parts, st.items)
    ensures Run(t, parts, st).NotFound? ==> !AnyWalks(t, parts, st.items)
    decreases Covered(t.Keys, Places(st.items))
  {
    hide Searchable, Stack, Step, Walks;
    if st.items != [] {
      LiveIsKnown(t, st);
      StepWalks(t, parts, st);
      if Step(t, parts, st).Continue? {
        StepShrinks(t, parts, st);
        RunWalks(t, parts, Step(t, parts, st).state);
      }
    }
  }

  // ----- when it panics instead -----

  /** The loop over these variables meets a middle variable before one that takes no part. */
  ghost predicate MidVarFirst(t: Trie, vs: seq<Path>)
    requires forall v | v in vs :: v in t
  {
    vs != []
    && var b := t[vs[0]].branch;
       if b.isMidVar then b.varType.Required? || MidVarFirst(t, vs[1..])
       else !b.varType.Optional? && !b.varType.EmptableVector? && MidVarFirst(t, vs[1..])
  }

  /** With every part used, the loop panics exactly when a middle variable comes first. */
  lemma {:induction false} TryVarsPanics(t: Trie, parts: seq<string>, n: nat, vs: seq<Path>, pos: nat, st: State)
    requires parts != [] && pos <= |st.items| && forall v | v in vs :: v in t
    ensures TryVars(t, parts, n, vs, pos, st) == Done(Panicked) ==> n >= |parts| && MidVarFirst(t, vs)
    ensures n >= |parts| && MidVarFirst(t, vs) ==> TryVars(t, parts, n, vs, pos, st) == Done(Panicked)
    decreases |vs|
  {
    hide Extract;
    if vs != [] {
      var b := t[vs[0]].branch;
      if b.isMidVar && b.varType.Required? && n < |parts| {
        TryVarsPanics(t, parts, n, vs[1..], pos, WithMidVar(vs[0], b.varType.name, parts[n], n, pos, st));
      } else if !b.isMidVar || !b.varType.Required? {
        TryVarsPanics(t, parts, n, vs[1..], pos, st);
      }
    }
  }

  /** Some end variable matches. */
  ghost predicate SomeEnds(t: Trie, parts: seq<string>, vs: seq<Path>, n: nat)
    requires parts != []
  {
    exists v | v in vs && v in t && !t[v].branch.isMidVar ::
      EndMatch(t[v].branch.varType, t[v].branch.apis, parts, n, []).Some?
  }

  /** So does the search from the middle variables, in order. */
  ghost predicate VarsRunOut(t: Trie, parts: seq<string>, vs: seq<Path>, n: nat)
    requires parts != [] && n < |parts|
    decreases |parts| - n, 0, |vs|
  {
    vs != []
    && (if vs[0] in t && t[vs[0]].branch.isMidVar then
          RunsOut(t, parts, vs[0], n + 1) || (!Walks(t, parts, vs[0], n + 1) && VarsRunOut(t, parts, vs[1..], n))
        else VarsRunOut(t, parts, vs[1..], n))
  }

  /** The search from the branch panics before it ends: a walk, taking the fixed child wherever one
      is found and the variables in order otherwise, uses up the parts on a branch without APIs whose
      variables begin with a middle one, and no walk before it succeeds. */
  ghost predicate RunsOut(t: Trie, parts: seq<string>, b: Path, n: nat)
    requires parts != []
    decreases if n < |parts| then |parts| - n else 0, 1, 0
  {
    b in t
    && if n >= |parts| then
         t[b].branch.apis == [] && (forall v | v in t[b].varChildren :: v in t) && MidVarFirst(t, t[b].varChildren)
       else
         match FindFixed(t, parts, Item(b, n))
         case Some((q, _)) => RunsOut(t, parts, q, n + 1)
         case None => !SomeEnds(t, parts, t[b].varChildren, n) && VarsRunOut(t, parts, t[b].varChildren, n)
  }

  /** So does the search with this list, from its end. */
  ghost predicate ItemsRunOut(t: Trie, parts: seq<string>, items: seq<Item>)
    requires parts != []
    decreases |items|
  {
    items != []
    && (RunsOut(t, parts, Last(items).branch, Last(items).part)
        || (!Walks(t, parts, Last(items).branch, Last(items).part) && ItemsRunOut(t, parts, Front(items))))
  }

  /** The items that the loop puts on the list. */
  ghost function MidItems(t: Trie, vs: seq<Path>, n: nat): seq<Item>
  {
    if vs == [] then []
    else if vs[0] in t && t[vs[0]].branch.isMidVar then MidItems(t, vs[1..], n) + [Item(vs[0], n + 1)]
    else MidItems(t, vs[1..], n)
  }

  /** While there are parts, the loop ends early only on an end variable that matches, */
  lemma {:induction false} TryVarsItems(t: Trie, parts: seq<string>, n: nat, vs: seq<Path>, pos: nat, st: State)
    requires parts != [] && pos <= |st.items| && n < |parts|
    requires forall v | v in vs :: v in t && (t[v].branch.isMidVar ==> t[v].branch.varType.Required?)
    ensures
      var r := TryVars(t, parts, n, vs, pos, st);
      && (r.Done? <==> SomeEnds(t, parts, vs, n))
      && (r.Done? ==> r.outcome.Found?)
      && (r.Continue? ==> r.state.items == st.items[..pos] + MidItems(t, vs, n) + st.items[pos..])
    decreases |vs|
  {
    hide EndMatch;
    if vs != [] {
      var b := t[vs[0]].branch;
      assert vs == [vs[0]] + vs[1..];
      EndMatchAnySuffix(b.varType, b.apis, parts, n, st.suffix);
      if b.isMidVar {
        TryVarsItems(t, parts, n, vs[1..], pos, WithMidVar(vs[0], b.varType.name, parts[n], n, pos, st));
      } else if EndMatch(b.varType, b.apis, parts, n, st.suffix).None? {
        TryVarsItems(t, parts, n, vs[1..], pos, st);
      }
    }
  }

  /** and once they are used up, nothing is put on the list. */
  lemma {:induction false} TryVarsOver(t: Trie, parts: seq<string>, n: nat, vs: seq<Path>, pos: nat, st: State)
    requires parts != [] && pos <= |st.items| && n >= |parts|
    requires forall v | v in vs :: v in t && (t[v].branch.isMidVar ==> t[v].branch.varType.Required?)
    ensures TryVars(t, parts, n, vs, pos, st).Continue? ==>
              TryVars(t, parts, n, vs, pos, st).state == st && !AnyVarWalks(t, parts, vs, n)
    decreases |vs|
  {
    hide EndMatch, Walks, AnyVarWalks;
    if vs == [] {
      NoVarWalks(t, parts, n);
    } else if !t[vs[0]].branch.isMidVar {
      assert forall v | v in vs[1..] :: v in vs;
      EndMatchAnySuffix(t[vs[0]].branch.varType, t[vs[0]].branch.apis, parts, n, st.suffix);
      AnyVarUnfold(t, parts, vs, n);
      TryVarsOver(t, parts, n, vs[1..], pos, st);
    }
  }

  /** The items of middle variables run out, or leave it to those before them. */
  lemma {:induction false} MidItemsRunOut(t: Trie, parts: seq<string>, rest: seq<Item>, vs: seq<Path>, n: nat)
    requires parts != [] && n < |parts|
    ensures ItemsRunOut(t, parts, rest + MidItems(t, vs, n))
       <==> VarsRunOut(t, parts, vs, n)
            || (ItemsRunOut(t, parts, rest)
                && !exists v | v in vs && v in t && t[v].branch.isMidVar :: Walks(t, parts, v, n + 1))
    decreases |vs|
  {
    hide Walks, RunsOut;
    if vs == [] {
      assert rest + [] == rest;
    } else {
      assert vs == [vs[0]] + vs[1..];
      MidItemsRunOut(t, parts, rest, vs[1..], n);
      var before := rest + MidItems(t, vs[1..], n);
      if vs[0] in t && t[vs[0]].branch.isMidVar {
        assert rest + MidItems(t, vs, n) == before + [Item(vs[0], n + 1)];
        assert Front(before + [Item(vs[0], n + 1)]) == before;
      }
    }
  }

  lemma VarsAreRequired(t: Trie, b: Path)
    requires Searchable(t) && b in t
    ensures forall v | v in t[b].varChildren :: v in t && (t[v].branch.isMidVar ==> t[v].branch.varType.Required?)
  {
    assert LinksOk(t, b);
    forall v | v in t[b].varChildren && v in t ensures t[v].branch.isMidVar ==> t[v].branch.varType.Required? {
      assert CellOk(t, v);
    }
  }

  /** How a branch runs out, by the kind of round it takes. */
  lemma RunsOutUnfold(t: Trie, parts: seq<string>, item: Item)
    requires Searchable(t) && parts != [] && item.branch in t
    ensures
      var vs := t[item.branch].varChildren;
      RunsOut(t, parts, item.branch, item.part) <==>
        if item.part >= |parts| then
          t[item.branch].branch.apis == [] && (forall v | v in vs :: v in t) && MidVarFirst(t, vs)
        else if FindFixed(t, parts, item).Some? then RunsOut(t, parts, FindFixed(t, parts, item).value.0, item.part + 1)
        else !SomeEnds(t, parts, vs, item.part) && VarsRunOut(t, parts, vs, item.part)
  {
    hide FindFixed, SomeEnds, VarsRunOut, MidVarFirst, Searchable;
    assert item == Item(item.branch, item.part);
  }

  lemma ItemsUnfold(t: Trie, parts: seq<string>, items: seq<Item>)
    requires parts != [] && items != []
    ensures ItemsRunOut(t, parts, items) <==>
              RunsOut(t, parts, Last(items).branch, Last(items).part)
              || (!Walks(t, parts, Last(items).branch, Last(items).part) && ItemsRunOut(t, parts, Front(items)))
  {
    hide Walks, RunsOut;
  }

  /** A walk over a variable, or none, by the kinds of the variables. */
  lemma VarWalksMeans(t: Trie, parts: seq<string>, vs: seq<Path>, n: nat)
    requires parts != [] && n < |parts|
    requires forall v | v in vs :: v in t && (t[v].branch.isMidVar ==> t[v].branch.varType.Required?)
    ensures AnyVarWalks(t, parts, vs, n)
       <==> SomeEnds(t, parts, vs, n)
            || exists v | v in vs && v in t && t[v].branch.isMidVar :: Walks(t, parts, v, n + 1)
  {
    hide Walks, EndMatch;
    forall v | v in vs
      ensures VarWalks(t, parts, v, n)
         <==> if t[v].branch.isMidVar then Walks(t, parts, v, n + 1)
              else EndMatch(t[v].branch.varType, t[v].branch.apis, parts, n, []).Some?
    {}
    assert forall v | v in vs && VarWalks(t, parts, v, n) && t[v].branch.isMidVar :: Walks(t, parts, v, n + 1);
    assert forall v | v in vs && t[v].branch.isMidVar && Walks(t, parts, v, n + 1) :: VarWalks(t, parts, v, n);
  }

  /** A round with parts left and no fixed child. */
  lemma VarRoundRunsOut(t: Trie, parts: seq<string>, st: State)
    requires parts != [] && st.items != [] && Live(t, st) && Known(t, st.items)
    requires Last(st.items).part < |parts| && FindFixed(t, parts, Last(st.items)).None?
    ensures
      var r := Step(t, parts, st);
      && (r.Continue? ==> (ItemsRunOut(t, parts, r.state.items) <==> ItemsRunOut(t, parts, st.items)))
      && (r.Done? ==> r.outcome.Found? && !ItemsRunOut(t, parts, st.items))
  {
    hide Stack, TryVars, Walks, FindFixed, RunsOut, VarsRunOut, ItemsRunOut, AnyVarWalks, SomeEnds, MidItems,
         Searchable, MidVarFirst;
    var item, rest := Last(st.items), Front(st.items);
    var vs := t[item.branch].varChildren;
    VarsAreRequired(t, item.branch);
    WalksUnfold(t, parts, item);
    RunsOutUnfold(t, parts, item);
    ItemsUnfold(t, parts, st.items);
    VarWalksMeans(t, parts, vs, item.part);
    TryVarsItems(t, parts, item.part, vs, |rest|, State(rest, st.args, st.suffix));
    assert rest[..|rest|] == rest && rest[|rest|..] == [];
    MidItemsRunOut(t, parts, rest, vs, item.part);
    assert rest + MidItems(t, vs, item.part) + [] == rest + MidItems(t, vs, item.part);
  }

  lemma FixedStep(t: Trie, parts: seq<string>, st: State)
    requires parts != [] && st.items != [] && Searchable(t) && Known(t, st.items)
    requires FindFixed(t, parts, Last(st.items)).Some?
    ensures
      var (q, suffix) := FindFixed(t, parts, Last(st.items)).value;
      Step(t, parts, st) == Continue(State(Front(st.items) + [Item(q, Last(st.items).part + 1)], st.args, suffix))
  {
    hide Searchable, FindConsiderSuffix;
  }

  lemma ItemsSnoc(t: Trie, parts: seq<string>, rest: seq<Item>, item: Item)
    requires parts != []
    ensures ItemsRunOut(t, parts, rest + [item])
       <==> RunsOut(t, parts, item.branch, item.part)
            || (!Walks(t, parts, item.branch, item.part) && ItemsRunOut(t, parts, rest))
  {
    hide Walks, RunsOut, ItemsRunOut;
    assert Front(rest + [item]) == rest && Last(rest + [item]) == item;
    ItemsUnfold(t, parts, rest + [item]);
  }

  /** A fixed child that is found takes the place of its branch. */
  lemma FixedRunsOut(t: Trie, parts: seq<string>, item: Item, q: Path)
    requires Searchable(t) && parts != [] && item.branch in t
    requires FindFixed(t, parts, item).Some? && FindFixed(t, parts, item).value.0 == q
    ensures RunsOut(t, parts, item.branch, item.part) <==> RunsOut(t, parts, q, item.part + 1)
    ensures Walks(t, parts, item.branch, item.part) <==> Walks(t, parts, q, item.part + 1)
  {
    assert item.part < |parts|;
    hide Searchable, FindFixed, Walks, RunsOut, AnyVarWalks, SomeEnds, VarsRunOut, MidVarFirst;
    WalksUnfold(t, parts, item);
    RunsOutUnfold(t, parts, item);
  }

  /** A round that finds a fixed child. */
  lemma FixedRoundRunsOut(t: Trie, parts: seq<string>, st: State)
    requires parts != [] && st.items != [] && Searchable(t) && Known(t, st.items)
    requires FindFixed(t, parts, Last(st.items)).Some?
    ensures
      var r := Step(t, parts, st);
      r.Continue? && (ItemsRunOut(t, parts, r.state.items) <==> ItemsRunOut(t, parts, st.items))
  {
    hide Walks, FindFixed, RunsOut, ItemsRunOut, Searchable, Step;
    var item := Last(st.items);
    FixedStep(t, parts, st);
    FixedRunsOut(t, parts, item, FindFixed(t, parts, item).value.0);
    ItemsUnfold(t, parts, st.items);
    ItemsSnoc(t, parts, Front(st.items), Item(FindFixed(t, parts, item).value.0, item.part + 1));
  }

  /** A round with every part used. */
  lemma OverRoundRunsOut(t: Trie, parts: seq<string>, st: State)
    requires parts != [] && st.items != [] && Live(t, st) && Known(t, st.items)
    requires Last(st.items).part >= |parts|
    ensures
      var r := Step(t, parts, st);
      && (r.Continue? ==> (ItemsRunOut(t, parts, r.state.items) <==> ItemsRunOut(t, parts, st.items)))
      && (r.Done? ==> (r.outcome == Panicked <==> ItemsRunOut(t, parts, st.items)))
  {
    hide Stack, TryVars, Walks, RunsOut, VarsRunOut, ItemsRunOut, AnyVarWalks, AnyWalks, SomeEnds, MidItems,
         Searchable, MidVarFirst;
    var item, rest := Last(st.items), Front(st.items);
    var vs, start := t[item.branch].varChildren, State(Front(st.items), st.args, st.suffix);
    VarsAreRequired(t, item.branch);
    WalksUnfold(t, parts, item);
    RunsOutUnfold(t, parts, item);
    ItemsUnfold(t, parts, st.items);
    TryVarsOver(t, parts, item.part, vs, |rest|, start);
    TryVarsPanics(t, parts, item.part, vs, |rest|, start);
    TryVarsWalks(t, parts, item.part, vs, |rest|, start);
  }

  lemma StepRunsOut(t: Trie, parts: seq<string>, st: State)
    requires parts != [] && st.items != [] && Live(t, st) && Known(t, st.items)
    ensures
      var r := Step(t, parts, st);
      && (r.Continue? ==> (ItemsRunOut(t, parts, r.state.items) <==> ItemsRunOut(t, parts, st.items)))
      && (r.Done? ==> (r.outcome == Panicked <==> ItemsRunOut(t, parts, st.items)))
  {
    hide Searchable, Stack, Step, ItemsRunOut, FindFixed;
    if Last(st.items).part >= |parts| {
      OverRoundRunsOut(t, parts, st);
    } else if FindFixed(t, parts, Last(st.items)).Some? {
      FixedRoundRunsOut(t, parts, st);
    } else {
      VarRoundRunsOut(t, parts, st);
    }
  }

  lemma {:induction false} RunRunsOut(t: Trie, parts: seq<string>, st: State)
    requires parts != [] && Live(t, st)
    ensures Run(t, parts, st) == Panicked <==> ItemsRunOut(t, parts, st.items)
    decreases Covered(t.Keys, Places(st.items))
  {
    hide Searchable, Stack, Step, RunsOut, Walks;
    if st.items != [] {
      LiveIsKnown(t, st);
      StepRunsOut(t, parts, st);
      if Step(t, parts, st).Continue? {
        StepShrinks(t, parts, st);
        RunRunsOut(t, parts, Step(t, parts, st).state);
      }
    }
  }

  /** The search of a request panics exactly when it runs out of parts before a walk succeeds, and
      finds something exactly when a walk from the root succeeds and it does not run out before. */
  lemma SearchIsComplete(t: Trie, parts: seq<string>)
    requires Searchable(t) && parts != []
    ensures MatchVarPath(t, parts) == Panicked <==> RunsOut(t, parts, [], 0)
    ensures MatchVarPath(t, parts).Found? <==> Walks(t, parts, [], 0) && !RunsOut(t, parts, [], 0)
  {
    hide Searchable, Walks, Run, RunsOut;
    StartIsLive(t);
    RunWalks(t, parts, START);
    RunRunsOut(t, parts, START);
    assert START.items[0] == Item([], 0);
    assert AnyWalks(t, parts, START.items) <==> Walks(t, parts, [], 0);
    ItemsUnfold(t, parts, START.items);
    assert !ItemsRunOut(t, parts, Front(START.items));
  }
}
