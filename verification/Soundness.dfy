/** The search only returns branches that the request matches; under a condition on the names,
    every variable of the branch is bound to its own parts, whatever was tried before. */
module Soundness {
  import opened Text
  import opened Apis
  import opened Branches
  import opened Frontier
  import opened Wiring
  import opened Search
  import opened Matching

  /** The part at `n` is taken for the key of `p`: it is the key, or the last part, and the key is
      followed by a suffix declared there. */
  ghost predicate TakenAsKey(t: Trie, p: Path, parts: seq<string>, n: int)
  {
    && p in t && p != [] && 0 <= n < |parts|
    && (parts[n] == Last(p)
        || (n == |parts| - 1
            && exists s | Declared(t[p].branch.apis, s) :: parts[n] == Last(p) + [SUFFIX_BOUNDARY] + s))
  }

  /** No request part can be taken for the key of a variable. */
  ghost predicate KeyFree(t: Trie, parts: seq<string>)
  {
    forall i, p | 0 <= i < |parts| && IsVar(t, p) :: !TakenAsKey(t, p, parts, i)
  }

  /** What the binding theorem asks for: names that do not meet, and no part like a variable's key. */
  ghost predicate Strict(t: Trie, parts: seq<string>)
  {
    NamesApart(t) && KeyFree(t, parts)
  }

  function BindOf(strict: bool, args: Args): Option<Args>
  {
    if strict then Some(args) else None
  }

  ghost predicate ItemsOk(t: Trie, parts: seq<string>, items: seq<Item>, bind: Option<Args>)
  {
    forall i | 0 <= i < |items| :: Stepped(t, items[i].branch, parts, items[i].part, bind)
  }

  /** An item whose last key was matched together with a suffix. */
  ghost predicate Ended(t: Trie, parts: seq<string>, item: Item, suffix: string, bind: Option<Args>)
  {
    && item.branch in t && item.branch != [] && item.part == |parts|
    && t[item.branch].branch.apis != []
    && MatchesFixed(t, item.branch, parts, suffix, bind)
  }

  /** The branch is a variable put on the list together with another one, which is on the way to `top`. */
  ghost predicate Pending(t: Trie, v: Path, top: Path)
  {
    IsVar(t, v) && exists u | IsVar(t, u) && u != v && u <= top :: Anchor(Omissions(t), u) == Anchor(Omissions(t), v)
  }

  ghost predicate AllPending(t: Trie, places: seq<Path>)
  {
    forall i, j | 0 <= i < j < |places| :: Pending(t, places[i], places[j])
  }

  /** The invariant of the loop: every item is spelled by the parts before its number. */
  ghost predicate Sound(t: Trie, parts: seq<string>, st: State, strict: bool)
  {
    var bind := BindOf(strict, st.args);
    && Live(t, st) && parts != [] && AllPending(t, Places(st.items))
    && (st.items != [] ==>
          && ItemsOk(t, parts, Front(st.items), bind)
          && var item := Last(st.items);
             || (st.suffix == [] && Stepped(t, item.branch, parts, item.part, bind))
             || Ended(t, parts, item, st.suffix, bind))
  }

  // ----- fixed nodes -----

  lemma AfterFind(t: Trie, parts: seq<string>, item: Item, strict: bool, args: Args)
    requires Searchable(t) && parts != [] && item.branch in t
    requires strict ==> Strict(t, parts)
    requires Stepped(t, item.branch, parts, item.part, BindOf(strict, args))
    requires FindFixed(t, parts, item).Some?
    ensures
      var (q, suffix) := FindFixed(t, parts, item).value;
      var next := Item(q, item.part + 1);
      || (suffix == [] && Stepped(t, q, parts, next.part, BindOf(strict, args)))
      || Ended(t, parts, next, suffix, BindOf(strict, args))
  {
    hide LinksComplete, LinksOk, FindConsiderSuffix, Lookup;
    var (q, suffix) := FindFixed(t, parts, item).value;
    var part := parts[item.part];
    FindFinds(t, item.branch, part, item.part == |parts| - 1);
    LookupBelow(t, item.branch, Last(q));
    AnchorSpellsParent(t, item.branch, q, parts, item.part, BindOf(strict, args));
    assert CellOk(t, q);
    if strict {
      assert KeyFree(t, parts) && TakenAsKey(t, q, parts, item.part);
    }
  }

  // ----- names on the way -----

  lemma VarChildIs(t: Trie, b: Path, w: Path)
    requires Searchable(t) && b in t && w in t[b].varChildren
    ensures IsVar(t, w) && b < w && Anchor(Omissions(t), w) == b
  {
    assert LinksOk(t, b);
  }

  /** Variables above a variable have other names. */
  lemma FreeAbove(t: Trie, b: Path, w: Path)
    requires NamesApart(t) && IsVar(t, w) && b < w
    ensures NameFree(t, b, t[w].branch.varType.name)
  {
    var name := t[w].branch.varType.name;
    hide HasName;
    forall m | 0 < m <= |b| ensures !HasName(t, b[..m], name) {
      assert b[..m] == w[..m];
      assert Meet(t, b[..m], w);
    }
  }

  /** A prefix of a node is a prefix of its anchor, or omitted. */
  lemma UpToAnchor(omitted: set<Path>, v: Path, m: nat)
    requires v != [] && 0 < m < |v|
    ensures if m <= |Anchor(omitted, v)| then v[..m] == Anchor(omitted, v)[..m] else v[..m] in omitted
  {
    var a := Anchor(omitted, v);
    assert a == v[..|a|];
  }

  lemma OmittedIsFixed(t: Trie, p: Path)
    requires Searchable(t) && p in Omissions(t)
    ensures !IsVar(t, p)
  {
    assert CellOk(t, p);
  }

  /** Variables properly above `v` have other names than a variable below the anchor of `v`. */
  lemma FreeBelowAnchor(t: Trie, v: Path, w: Path)
    requires Searchable(t) && NamesApart(t) && IsVar(t, v) && IsVar(t, w) && Anchor(Omissions(t), v) < w
    ensures NameFree(t, Front(v), t[w].branch.varType.name)
  {
    hide Searchable, NamesApart, Anchor, Omissions;
    var a, name := Anchor(Omissions(t), v), t[w].branch.varType.name;
    FreeAbove(t, a, w);
    forall m | 0 < m <= |Front(v)| ensures !HasName(t, Front(v)[..m], name) {
      assert Front(v)[..m] == v[..m];
      UpToAnchor(Omissions(t), v, m);
      if m <= |a| {
        assert !HasName(t, a[..m], name);
      } else {
        OmittedIsFixed(t, v[..m]);
      }
    }
  }

  /** Of two variables with one anchor, none is below the other. */
  lemma SiblingsApart(t: Trie, u: Path, v: Path)
    requires Searchable(t) && IsVar(t, u) && IsVar(t, v) && u != v && Anchor(Omissions(t), u) == Anchor(Omissions(t), v)
    ensures !(u <= v)
  {
    assert CellOk(t, u);
    VarsIncomparable(t, Anchor(Omissions(t), u), u, v);
  }

  /** A pending variable, and those above it, have other names than variables below `top`. */
  lemma FreeWhenPending(t: Trie, v: Path, top: Path, w: Path)
    requires Searchable(t) && NamesApart(t) && Pending(t, v, top) && IsVar(t, w) && top < w
    ensures NameFree(t, Front(v), t[w].branch.varType.name)
    ensures !HasName(t, v, t[w].branch.varType.name)
  {
    hide Searchable, Anchor, Omissions, NameFree;
    var u :| IsVar(t, u) && u != v && u <= top && Anchor(Omissions(t), u) == Anchor(Omissions(t), v);
    FreeBelowAnchor(t, v, w);
    assert u < w && Meet(t, v, w);
    SiblingsApart(t, u, v);
    assert v != w;
  }

  // ----- variables -----

  /** The suffix an end variable cuts is the longest declared one. */
  lemma AllSuffixesDeclared(apis: seq<Api>)
    ensures forall s :: s in AllSuffixes(apis) <==> Declared(apis, s)
  {
    if apis != [] {
      AllSuffixesDeclared(apis[1..]);
      assert apis == [apis[0]] + apis[1..];
    }
  }

  lemma FirstTailIsLongestCut(apis: seq<Api>, part: string)
    ensures LongestCut(apis, part, FirstTail(CollectSuffixes(AllSuffixes(apis)), part))
  {
    var all := CollectSuffixes(AllSuffixes(apis));
    AllSuffixesDeclared(apis);
    if FirstTail(all, part).Some? {
      forall s | Declared(apis, s) && IsDottedTail(part, s) ensures |s| <= |FirstTail(all, part).value| {
        LongestSuffixWins(all, part, s);
      }
    }
  }

  /** An end variable that matches takes an allowed number of parts and holds them. */
  lemma EndMatchTakes(v: VarType, apis: seq<Api>, parts: seq<string>, n: nat) returns (cut: Option<string>)
    requires parts != [] && n <= |parts| && EndMatch(v, apis, parts, n, []).Some?
    ensures TakesParts(v, |parts| - n)
    ensures if n == |parts| then cut.None? else LongestCut(apis, Last(parts), cut)
    ensures cut.Some? ==> n < |parts| && IsDottedTail(Last(parts), cut.value)
    ensures EndMatch(v, apis, parts, n, []).value
         == (ParamOf(v, Texts(parts, n, cut)), if cut.Some? then cut.value else [])
  {
    if n == |parts| {
      cut := None;
      assert parts[n..] == [];
    } else {
      FirstTailIsLongestCut(apis, Last(parts));
      cut := FirstTail(CollectSuffixes(AllSuffixes(apis)), Last(parts));
      var pps := Extract(apis, parts, []).0;
      assert pps[n..] == Texts(parts, n, cut);
      assert n == |parts| - 1 ==> pps[n..] == [pps[n]];
    }
  }

  /** An end variable that matches makes the request match its branch. */
  lemma EndVarMatches(t: Trie, parts: seq<string>, item: Item, w: Path, strict: bool, args: Args)
    requires Searchable(t) && parts != [] && item.branch in t && w in t[item.branch].varChildren
    requires w in t && !t[w].branch.isMidVar
    requires strict ==> NamesApart(t)
    requires Stepped(t, item.branch, parts, item.part, BindOf(strict, args))
    requires EndMatch(t[w].branch.varType, t[w].branch.apis, parts, item.part, []).Some?
    ensures
      var b := t[w].branch;
      var (param, suffix) := EndMatch(b.varType, b.apis, parts, item.part, []).value;
      Matches(t, w, parts, suffix, BindOf(strict, args[b.varType.name := param]))
  {
    var b := t[w].branch;
    assert LinksOk(t, item.branch) && CellOk(t, w);
    var cut := EndMatchTakes(b.varType, b.apis, parts, item.part);
    var (param, suffix) := EndMatch(b.varType, b.apis, parts, item.part, []).value;
    AnchorSpellsParent(t, item.branch, w, parts, item.part, BindOf(strict, args));
    if strict {
      FreeAbove(t, Front(w), w);
      SpelledSurvives(t, Front(w), parts, item.part, args, b.varType.name, param);
    }
    assert MatchesVar(t, w, parts, item.part, cut, suffix, BindOf(strict, args[b.varType.name := param]));
  }

  lemma SearchableIsRooted(t: Trie)
    requires Searchable(t)
    ensures Rooted(t.Keys)
  {
  }

  lemma MidVarIsRequired(t: Trie, p: Path)
    requires Searchable(t) && p in t && t[p].branch.isMidVar
    ensures t[p].branch.varType.Required?
  {
    assert CellOk(t, p);
  }

  /** A middle variable becomes an item, bound to its part. */
  lemma MidVarSteps(t: Trie, parts: seq<string>, item: Item, w: Path, strict: bool, args: Args)
    requires Searchable(t) && item.branch in t && w in t[item.branch].varChildren
    requires w in t && t[w].branch.isMidVar && item.part < |parts|
    requires strict ==> NamesApart(t)
    requires Stepped(t, item.branch, parts, item.part, BindOf(strict, args))
    ensures t[w].branch.varType.Required?
    ensures w != [] && item.branch < w
    ensures Stepped(t, w, parts, item.part + 1,
                    BindOf(strict, args[t[w].branch.varType.name := RequiredParam(parts[item.part])]))
  {
    hide Searchable, NamesApart, Anchor, Omissions, Rooted, NameFree;
    VarChildIs(t, item.branch, w);
    MidVarIsRequired(t, w);
    SearchableIsRooted(t);
    var name, param := t[w].branch.varType.name, RequiredParam(parts[item.part]);
    AnchorSpellsParent(t, item.branch, w, parts, item.part, BindOf(strict, args));
    if strict {
      FreeAbove(t, Front(w), w);
      SpelledSurvives(t, Front(w), parts, item.part, args, name, param);
    }
    var bind := BindOf(strict, args[name := param]);
    assert Spelled(t, Front(w), parts, item.part, bind);
    assert Uses(t, w, parts[item.part], bind);
  }

  /** An item on the list while the variables of `item` are tried: put there together with a node
      on the way to `item`, or as one of these variables. */
  ghost predicate Waiting(t: Trie, item: Item, x: Item)
    requires item.branch in t
  {
    Pending(t, x.branch, item.branch) || (x.branch in t[item.branch].varChildren && x.part == item.part + 1)
  }

  ghost predicate AllWaiting(t: Trie, item: Item, items: seq<Item>)
    requires item.branch in t
  {
    forall i | 0 <= i < |items| :: Waiting(t, item, items[i])
  }

  /** Binding a middle variable leaves a waiting item bound as it was. */
  lemma WaitingSurvives(t: Trie, parts: seq<string>, item: Item, x: Item, args: Args, w: Path)
    requires Searchable(t) && NamesApart(t) && item.branch in t && w in t[item.branch].varChildren && w in t
    requires item.part < |parts| && Waiting(t, item, x) && Stepped(t, x.branch, parts, x.part, Some(args))
    ensures Stepped(t, x.branch, parts, x.part, Some(args[t[w].branch.varType.name := RequiredParam(parts[item.part])]))
  {
    hide Searchable, NamesApart, NameFree, Pending, Anchor, Stepped;
    VarChildIs(t, item.branch, w);
    if Pending(t, x.branch, item.branch) {
      FreeWhenPending(t, x.branch, item.branch, w);
    } else {
      VarChildIs(t, item.branch, x.branch);
      FreeBelowAnchor(t, x.branch, w);
    }
    SteppedSurvives(t, x.branch, parts, x.part, args, t[w].branch.varType.name, RequiredParam(parts[item.part]));
  }

  lemma NotRoot(t: Trie, b: Path, name: string)
    ensures HasName(t, b, name) ==> b != []
  {
  }

  lemma StepSurvives(t: Trie, parts: seq<string>, item: Item, args: Args, name: string, param: PathParam)
    requires NameFree(t, item.branch, name) && Stepped(t, item.branch, parts, item.part, Some(args))
    ensures Stepped(t, item.branch, parts, item.part, Some(args[name := param]))
  {
    hide NameFree, Stepped, HasName;
    NotRoot(t, item.branch, name);
    if item.branch != [] { NameFreeFront(t, item.branch, name); }
    SteppedSurvives(t, item.branch, parts, item.part, args, name, param);
  }

  lemma ItemsSurvive(t: Trie, parts: seq<string>, items: seq<Item>, args: Args, item: Item, w: Path)
    requires Searchable(t) && NamesApart(t) && item.branch in t && w in t[item.branch].varChildren && w in t
    requires item.part < |parts| && AllWaiting(t, item, items)
    requires Stepped(t, item.branch, parts, item.part, Some(args)) && ItemsOk(t, parts, items, Some(args))
    ensures
      var bind := Some(args[t[w].branch.varType.name := RequiredParam(parts[item.part])]);
      ItemsOk(t, parts, items, bind) && Stepped(t, item.branch, parts, item.part, bind)
  {
    hide Searchable, Stepped, NamesApart, Waiting;
    VarChildIs(t, item.branch, w);
    var name, param := t[w].branch.varType.name, RequiredParam(parts[item.part]);
    forall i | 0 <= i < |items| ensures Stepped(t, items[i].branch, parts, items[i].part, Some(args[name := param])) {
      WaitingSurvives(t, parts, item, items[i], args, w);
    }
    FreeAbove(t, item.branch, w);
    StepSurvives(t, parts, item, args, name, param);
  }

  /** What the loop over the variables relies on. */
  ghost predicate InLoop(t: Trie, parts: seq<string>, item: Item, vs: seq<Path>, pos: nat, st: State, strict: bool)
  {
    && Searchable(t) && parts != [] && item.branch in t && pos <= |st.items|
    && (forall v | v in vs :: v in t && v in t[item.branch].varChildren)
    && AllWaiting(t, item, st.items)
    && (strict ==> NamesApart(t))
    && Stepped(t, item.branch, parts, item.part, BindOf(strict, st.args))
    && ItemsOk(t, parts, st.items, BindOf(strict, st.args))
    && st.suffix == []
  }

  /** The loop goes on after a variable that does not match, */
  lemma LoopSkips(t: Trie, parts: seq<string>, item: Item, vs: seq<Path>, pos: nat, st: State, strict: bool)
    requires vs != [] && InLoop(t, parts, item, vs, pos, st, strict)
    ensures InLoop(t, parts, item, vs[1..], pos, st, strict)
  {
    assert forall v | v in vs[1..] :: v in vs;
  }

  lemma ItemsOkInsert(t: Trie, parts: seq<string>, items: seq<Item>, pos: nat, item: Item, bind: Option<Args>)
    requires pos <= |items| && ItemsOk(t, parts, items, bind)
    requires Stepped(t, item.branch, parts, item.part, bind)
    ensures ItemsOk(t, parts, items[..pos] + [item] + items[pos..], bind)
  {
  }

  lemma MidVarBound(t: Trie, parts: seq<string>, item: Item, w: Path, pos: nat, st: State, strict: bool)
    requires Searchable(t) && item.branch in t && w in t && w in t[item.branch].varChildren && pos <= |st.items|
    requires t[w].branch.isMidVar && item.part < |parts| && AllWaiting(t, item, st.items)
    requires strict ==> NamesApart(t)
    requires Stepped(t, item.branch, parts, item.part, BindOf(strict, st.args))
    requires ItemsOk(t, parts, st.items, BindOf(strict, st.args))
    ensures t[w].branch.varType.Required?
    ensures
      var next := WithMidVar(w, t[w].branch.varType.name, parts[item.part], item.part, pos, st);
      && Stepped(t, item.branch, parts, item.part, BindOf(strict, next.args))
      && ItemsOk(t, parts, next.items, BindOf(strict, next.args))
  {
    hide Searchable, Stepped;
    MidVarSteps(t, parts, item, w, strict, st.args);
    var bind := BindOf(strict, st.args[t[w].branch.varType.name := RequiredParam(parts[item.part])]);
    if strict {
      ItemsSurvive(t, parts, st.items, st.args, item, w);
    } else {
      assert bind == BindOf(strict, st.args);
    }
    ItemsOkInsert(t, parts, st.items, pos, Item(w, item.part + 1), bind);
  }

  /** and after a middle variable that was put on the list. */
  lemma LoopKeeps(t: Trie, parts: seq<string>, item: Item, vs: seq<Path>, pos: nat, st: State, strict: bool)
    requires vs != [] && InLoop(t, parts, item, vs, pos, st, strict)
    requires t[vs[0]].branch.isMidVar && item.part < |parts|
    ensures t[vs[0]].branch.varType.Required?
    ensures InLoop(t, parts, item, vs[1..], pos,
                   WithMidVar(vs[0], t[vs[0]].branch.varType.name, parts[item.part], item.part, pos, st), strict)
  {
    hide Searchable, Stepped;
    assert forall v | v in vs[1..] :: v in vs;
    MidVarBound(t, parts, item, vs[0], pos, st, strict);
    var next := WithMidVar(vs[0], t[vs[0]].branch.varType.name, parts[item.part], item.part, pos, st);
    assert pos <= |next.items|;
    assert Waiting(t, item, Item(vs[0], item.part + 1));
    hide Waiting;
    assert AllWaiting(t, item, next.items);
  }

  /** The loop over the variables keeps the items right, and ends in a match. */
  lemma {:induction false} TryVarsSound(t: Trie, parts: seq<string>, item: Item, vs: seq<Path>, pos: nat, st: State,
                                        strict: bool)
    requires InLoop(t, parts, item, vs, pos, st, strict)
    ensures
      var r := TryVars(t, parts, item.part, vs, pos, st);
      && (r.Continue? ==> ItemsOk(t, parts, r.state.items, BindOf(strict, r.state.args)) && r.state.suffix == [])
      && (r.Done? && r.outcome.Found? ==>
            Matches(t, r.outcome.branch, parts, r.outcome.suffix, BindOf(strict, r.outcome.args)))
    decreases |vs|
  {
    hide Stepped, ItemsOk, Matches, Searchable, AllWaiting;
    if vs != [] {
      var b := t[vs[0]].branch;
      LoopSkips(t, parts, item, vs, pos, st, strict);
      if !b.isMidVar {
        if EndMatch(b.varType, b.apis, parts, item.part, []).Some? {
          EndVarMatches(t, parts, item, vs[0], strict, st.args);
        } else {
          TryVarsSound(t, parts, item, vs[1..], pos, st, strict);
        }
      } else if item.part < |parts| {
        LoopKeeps(t, parts, item, vs, pos, st, strict);
        TryVarsSound(t, parts, item, vs[1..], pos,
            WithMidVar(vs[0], b.varType.name, parts[item.part], item.part, pos, st), strict);
      } else {
        MidVarIsRequired(t, vs[0]);
      }
    }
  }

  // ----- the run -----

  /** Whatever is put back is below the branch taken, and its variables are pending for one another. */
  lemma AddedPend(t: Trie, parts: seq<string>, item: Item)
    requires Searchable(t) && item.branch in t
    ensures AllPending(t, Added(t, parts, item))
    ensures forall p | p in Added(t, parts, item) :: item.branch < p
  {
    hide FindFixed, Searchable;
    var added := Added(t, parts, item);
    AddedIsDisjoint(t, parts, item);
    if FindFixed(t, parts, item).None? {
      forall i, j | 0 <= i < j < |added| ensures Pending(t, added[i], added[j]) {
        assert added[i] in t[item.branch].varChildren && added[j] in t[item.branch].varChildren;
        VarChildIs(t, item.branch, added[i]);
        VarChildIs(t, item.branch, added[j]);
        assert added[i] != added[j];
      }
    }
  }

  lemma PendingBelow(t: Trie, v: Path, top: Path, lower: Path)
    requires Pending(t, v, top) && top < lower
    ensures Pending(t, v, lower)
  {
  }

  lemma AllPendingGoesOn(t: Trie, rest: seq<Path>, b: Path, added: seq<Path>)
    requires AllPending(t, rest + [b]) && AllPending(t, added) && forall p | p in added :: b < p
    ensures AllPending(t, rest + added)
  {
    hide Pending;
    var was, items := rest + [b], rest + added;
    forall i, j | 0 <= i < j < |items| ensures Pending(t, items[i], items[j]) {
      if j < |rest| {
        assert was[i] == items[i] && was[j] == items[j];
      } else if i < |rest| {
        assert was[i] == items[i] && was[|rest|] == b;
        assert items[j] == added[j - |rest|] && items[j] in added;
        PendingBelow(t, items[i], b, items[j]);
      } else {
        assert items[i] == added[i - |rest|] && items[j] == added[j - |rest|];
      }
    }
  }

  lemma StepPends(t: Trie, parts: seq<string>, st: State)
    requires parts != [] && st.items != [] && Live(t, st) && Known(t, st.items) && Step(t, parts, st).Continue?
    requires AllPending(t, Places(st.items))
    ensures AllPending(t, Places(Step(t, parts, st).state.items))
  {
    hide Searchable, AllPending, Stack, Added, Step;
    var item := Last(st.items);
    PlacesSnoc(Front(st.items), item);
    assert st.items == Front(st.items) + [item];
    StepAdds(t, parts, st);
    AddedPend(t, parts, item);
    AllPendingGoesOn(t, Places(Front(st.items)), item.branch, Added(t, parts, item));
  }

  lemma ItemsWait(t: Trie, st: State)
    requires Live(t, st) && st.items != [] && Last(st.items).branch in t && AllPending(t, Places(st.items))
    ensures AllWaiting(t, Last(st.items), Front(st.items))
  {
    hide Pending;
    forall i | 0 <= i < |Front(st.items)| ensures Waiting(t, Last(st.items), Front(st.items)[i]) {
      assert Places(st.items)[i] == Front(st.items)[i].branch;
      assert Places(st.items)[|st.items| - 1] == Last(st.items).branch;
    }
  }

  /** A branch that is reached with every part used lines up with the request. */
  lemma SteppedAtEnd(t: Trie, parts: seq<string>, b: Path, bind: Option<Args>)
    requires Searchable(t) && parts != [] && Stepped(t, b, parts, |parts|, bind) && t[b].branch.apis != []
    ensures Matches(t, b, parts, [], bind)
  {
    hide Rooted, LinksOk, LinksComplete, LongestCut;
    assert CellOk(t, b);
    if !MatchesFixed(t, b, parts, [], bind) {
      assert t[b].branch.isMidVar;
      assert parts[|parts| - 1..] == [Last(parts)];
      assert MatchesVar(t, b, parts, |parts| - 1, None, [], bind);
    }
  }

  lemma StepFixedSound(t: Trie, parts: seq<string>, st: State, strict: bool)
    requires Sound(t, parts, st, strict) && st.items != [] && Known(t, st.items)
    requires strict ==> Strict(t, parts)
    requires !(Last(st.items).part >= |parts| && t[Last(st.items).branch].branch.apis != [])
    requires FindFixed(t, parts, Last(st.items)).Some?
    ensures Step(t, parts, st).Continue? && Sound(t, parts, Step(t, parts, st).state, strict)
  {
    hide Searchable, Stepped, MatchesFixed, Stack, FindConsiderSuffix, AllPending;
    var next := Step(t, parts, st).state;
    StepShrinks(t, parts, st);
    StepPends(t, parts, st);
    AfterFind(t, parts, Last(st.items), strict, st.args);
    assert Front(next.items) == Front(st.items);
  }

  lemma ItemsOkIsSound(t: Trie, parts: seq<string>, st: State, strict: bool)
    requires Live(t, st) && parts != [] && st.suffix == [] && AllPending(t, Places(st.items))
    requires ItemsOk(t, parts, st.items, BindOf(strict, st.args))
    ensures Sound(t, parts, st, strict)
  {
  }

  lemma StepVarsSound(t: Trie, parts: seq<string>, st: State, strict: bool)
    requires Sound(t, parts, st, strict) && st.items != [] && Known(t, st.items)
    requires strict ==> Strict(t, parts)
    requires !(Last(st.items).part >= |parts| && t[Last(st.items).branch].branch.apis != [])
    requires FindFixed(t, parts, Last(st.items)).None?
    ensures Step(t, parts, st).Continue? ==> Sound(t, parts, Step(t, parts, st).state, strict)
    ensures Step(t, parts, st).Done? && Step(t, parts, st).outcome.Found? ==>
              var Found(q, args, suffix) := Step(t, parts, st).outcome;
              Matches(t, q, parts, suffix, BindOf(strict, args))
  {
    hide AllPending, AllWaiting;
    var item, rest := Last(st.items), Front(st.items);
    ItemsWait(t, st);
    assert LinksOk(t, item.branch);
    TryVarsSound(t, parts, item, t[item.branch].varChildren, |rest|, State(rest, st.args, st.suffix), strict);
    if Step(t, parts, st).Continue? {
      StepShrinks(t, parts, st);
      StepPends(t, parts, st);
      ItemsOkIsSound(t, parts, Step(t, parts, st).state, strict);
    }
  }

  lemma StepSound(t: Trie, parts: seq<string>, st: State, strict: bool)
    requires Sound(t, parts, st, strict) && st.items != [] && Known(t, st.items)
    requires strict ==> Strict(t, parts)
    ensures Step(t, parts, st).Continue? ==> Sound(t, parts, Step(t, parts, st).state, strict)
    ensures Step(t, parts, st).Done? && Step(t, parts, st).outcome.Found? ==>
              var Found(q, args, suffix) := Step(t, parts, st).outcome;
              Matches(t, q, parts, suffix, BindOf(strict, args))
  {
    var item := Last(st.items);
    if item.part >= |parts| && t[item.branch].branch.apis != [] {
      if !Ended(t, parts, item, st.suffix, BindOf(strict, st.args)) {
        SteppedAtEnd(t, parts, item.branch, BindOf(strict, st.args));
      }
    } else if FindFixed(t, parts, item).Some? {
      StepFixedSound(t, parts, st, strict);
    } else {
      StepVarsSound(t, parts, st, strict);
    }
  }

  lemma {:induction false} RunSound(t: Trie, parts: seq<string>, st: State, strict: bool)
    requires Sound(t, parts, st, strict)
    requires strict ==> Strict(t, parts)
    ensures Run(t, parts, st).Found? ==>
              var Found(q, args, suffix) := Run(t, parts, st);
              Matches(t, q, parts, suffix, BindOf(strict, args))
    decreases Covered(t.Keys, Places(st.items))
  {
    if st.items != [] {
      LiveIsKnown(t, st);
      StepSound(t, parts, st, strict);
      if Step(t, parts, st).Continue? {
        StepShrinks(t, parts, st);
        RunSound(t, parts, Step(t, parts, st).state, strict);
      }
    }
  }

  lemma StartIsSound(t: Trie, parts: seq<string>, strict: bool)
    requires Searchable(t) && parts != []
    ensures Sound(t, parts, START, strict)
  {
    StartIsLive(t);
    hide Searchable, Spelled, Pending;
  }

  /** Whatever the search returns carries APIs and lines up with the request: fixed parts are
      equal, only omitted keys are dropped, variables take an allowed number of parts, and the
      last part ends with the returned suffix. */
  lemma SearchIsSound(t: Trie, parts: seq<string>)
    requires Searchable(t) && parts != []
    ensures MatchVarPath(t, parts).Found? ==>
              var Found(q, _, suffix) := MatchVarPath(t, parts);
              Matches(t, q, parts, suffix, None)
  {
    StartIsSound(t, parts, false);
    RunSound(t, parts, START, false);
  }

  /** The branch found is matched with its bindings. */
  ghost predicate BindsRight(t: Trie, parts: seq<string>)
    requires Searchable(t) && parts != []
  {
    var outcome := MatchVarPath(t, parts);
    outcome.Found? && Matches(t, outcome.branch, parts, outcome.suffix, Some(outcome.args))
  }

  /** Where names do not meet, and no part is taken for a variable's key, every variable of the
      returned branch holds its own parts. */
  lemma SearchBindsCorrectly(t: Trie, parts: seq<string>)
    requires Searchable(t) && parts != [] && Strict(t, parts)
    ensures MatchVarPath(t, parts).Found? ==>
              var Found(q, args, suffix) := MatchVarPath(t, parts);
              Matches(t, q, parts, suffix, Some(args))
  {
    StartIsSound(t, parts, true);
    RunSound(t, parts, START, true);
  }
}
