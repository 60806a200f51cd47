/** What happens when variables of one name do meet: the later binding stays, and the earlier
    variable is right only if both took the same text. With it, the condition of the binding
    theorem is exact where every branch offers fixed parts or one variable. */
module Rebinding {
  import opened Text
  import opened Apis
  import opened Branches
  import opened Frontier
  import opened Wiring
  import opened Search
  import opened Matching
  import opened Soundness
  import opened Index
  import opened OneWay
  import opened Reversal

  // ----- a name used twice on one route -----

  /** A variable on a spelled route is bound to a part of its own. */
  lemma {:induction false} SpelledVariable(t: Trie, b: Path, parts: seq<string>, n: nat, args: Args, p: Path)
    returns (i: nat)
    requires Spelled(t, b, parts, n, Some(args)) && p <= b && IsVar(t, p)
    requires forall q | q in t && t[q].branch.isOmission :: !IsVar(t, q)
    ensures i < n <= |parts| && Spelled(t, Front(p), parts, i, Some(args)) && Uses(t, p, parts[i], Some(args))
    decreases |b|
  {
    if p == b {
      i := n - 1;
    } else {
      assert p <= Front(b);
      i := SpelledVariable(t, Front(b), parts, if Stepped(t, b, parts, n, Some(args)) then n - 1 else n, args, p);
    }
  }

  /** The part at `j` is the one at `i` again, or that with a suffix at the end of the request. */
  ghost predicate Repeats(parts: seq<string>, i: nat, j: nat)
  {
    && i < j < |parts|
    && (parts[i] == parts[j]
        || (j == |parts| - 1 && exists s: string :: parts[j] == parts[i] + [SUFFIX_BOUNDARY] + s))
  }

  /** The parts at `i` and `j` are those of `v` and `w`. */
  ghost predicate TakenAt(t: Trie, v: Path, w: Path, parts: seq<string>, i: nat, j: nat, args: Args)
  {
    v != [] && w != [] && Spelled(t, Front(v), parts, i, Some(args)) && Spelled(t, Front(w), parts, j, Some(args))
  }

  lemma OmittedAreFixed(t: Trie)
    requires Searchable(t)
    ensures forall q | q in t && t[q].branch.isOmission :: !IsVar(t, q)
  {
    forall q | q in t && t[q].branch.isOmission ensures !IsVar(t, q) {
      assert q in Omissions(t);
      OmittedIsFixed(t, q);
    }
  }

  lemma BelowFront(v: Path, w: Path)
    requires v < w
    ensures v <= Front(w)
  {
  }

  /** Both variables above a node: the parts are the same. */
  lemma ReusedAbove(t: Trie, b: Path, parts: seq<string>, n: nat, args: Args, v: Path, w: Path) returns (i: nat, j: nat)
    requires Searchable(t) && Spelled(t, b, parts, n, Some(args)) && SameName(t, v, w) && v < w <= b
    ensures j < n <= |parts| && TakenAt(t, v, w, parts, i, j, args) && Repeats(parts, i, j)
  {
    OmittedAreFixed(t);
    hide Searchable, Spelled;
    j := SpelledVariable(t, b, parts, n, args, w);
    BelowFront(v, w);
    i := SpelledVariable(t, Front(w), parts, j, args, v);
  }

  /** A parameter that holds one text is that of a required variable. */
  lemma EndText(v: VarType, parts: seq<string>, n: nat, cut: Option<string>, text: string)
    requires n <= |parts| && TakesParts(v, |parts| - n)
        && (cut.Some? ==> n < |parts| && IsDottedTail(Last(parts), cut.value))
    requires ParamOf(v, Texts(parts, n, cut)) == RequiredParam(text)
    ensures n == |parts| - 1
    ensures if cut.None? then parts[n] == text else parts[n] == text + [SUFFIX_BOUNDARY] + cut.value
  {
    if cut.Some? { CutTailRestores(Last(parts), cut.value); }
  }

  /** The lower variable ends the route: it is a required one, and its part the same but for the suffix. */
  lemma ReusedAtEnd(t: Trie, w: Path, parts: seq<string>, n: nat, cut: Option<string>, suffix: string, args: Args,
                    v: Path)
    returns (i: nat)
    requires Searchable(t) && SameName(t, v, w) && v < w && MatchesVar(t, w, parts, n, cut, suffix, Some(args))
    ensures n < |parts| && TakenAt(t, v, w, parts, i, n, args) && Repeats(parts, i, n)
  {
    OmittedAreFixed(t);
    hide Searchable, Spelled, LongestCut, ParamOf, Texts, IsDottedTail, TakesParts;
    BelowFront(v, w);
    i := SpelledVariable(t, Front(w), parts, n, args, v);
    EndText(t[w].branch.varType, parts, n, cut, parts[i]);
  }

  /** A route on which a name is used twice is bound right only when both variables take the same
      text. */
  lemma ReusedNameRepeats(t: Trie, q: Path, parts: seq<string>, suffix: string, args: Args, v: Path, w: Path)
    returns (i: nat, j: nat)
    requires Searchable(t) && Matches(t, q, parts, suffix, Some(args)) && SameName(t, v, w) && v < w <= q
    ensures TakenAt(t, v, w, parts, i, j, args) && Repeats(parts, i, j)
  {
    hide Searchable, Spelled, TakenAt, Repeats, LongestCut;
    if MatchesFixed(t, q, parts, suffix, Some(args)) {
      assert !IsVar(t, q) && IsVar(t, w);
      assert w != q;
      BelowFront(w, q);
      i, j := ReusedAbove(t, Front(q), parts, |parts| - 1, args, v, w);
    } else {
      var n: nat, cut :| MatchesVar(t, q, parts, n, cut, suffix, Some(args));
      if w == q {
        i := ReusedAtEnd(t, w, parts, n, cut, suffix, args, v);
        j := n;
      } else {
        BelowFront(w, q);
        i, j := ReusedAbove(t, Front(q), parts, n, args, v, w);
      }
    }
  }

  // ----- the later binding stays -----

  /** No variable of the name is below an item any more. */
  ghost predicate NoneToCome(t: Trie, places: seq<Path>, name: string)
  {
    forall i, p | 0 <= i < |places| && HasName(t, p, name) :: !(places[i] < p)
  }

  lemma {:induction false} TryVarsKeeps(t: Trie, parts: seq<string>, n: nat, vs: seq<Path>, pos: nat, st: State,
                                        name: string)
    requires parts != [] && pos <= |st.items| && forall v | v in vs :: v in t && v != [] && !HasName(t, v, name)
    requires name in st.args
    ensures
      var r := TryVars(t, parts, n, vs, pos, st);
      && (r.Continue? ==> name in r.state.args && r.state.args[name] == st.args[name])
      && (r.Done? && r.outcome.Found? ==> name in r.outcome.args && r.outcome.args[name] == st.args[name])
    decreases |vs|
  {
    hide Extract;
    if vs != [] {
      var b := t[vs[0]].branch;
      assert !HasName(t, vs[0], name);
      assert forall v | v in vs[1..] :: v in vs;
      hide HasName;
      if b.isMidVar && b.varType.Required? && n < |parts| {
        TryVarsKeeps(t, parts, n, vs[1..], pos, WithMidVar(vs[0], b.varType.name, parts[n], n, pos, st), name);
      } else if !b.isMidVar || !b.varType.Required? {
        TryVarsKeeps(t, parts, n, vs[1..], pos, st, name);
      }
    }
  }

  lemma NoneHere(t: Trie, places: seq<Path>, i: nat, name: string)
    requires Searchable(t) && NoneToCome(t, places, name) && i < |places| && places[i] in t
    ensures forall v | v in t[places[i]].varChildren :: v in t && v != [] && !HasName(t, v, name)
  {
    hide Searchable, HasName;
    forall v | v in t[places[i]].varChildren ensures v in t && v != [] && !HasName(t, v, name) {
      VarChildIs(t, places[i], v);
    }
  }

  lemma StepKeeps(t: Trie, parts: seq<string>, st: State, name: string)
    requires parts != [] && st.items != [] && Live(t, st) && Known(t, st.items)
    requires NoneToCome(t, Places(st.items), name) && name in st.args
    ensures
      var r := Step(t, parts, st);
      && (r.Continue? ==> name in r.state.args && r.state.args[name] == st.args[name])
      && (r.Done? && r.outcome.Found? ==> name in r.outcome.args && r.outcome.args[name] == st.args[name])
  {
    hide Stack, FindConsiderSuffix, TryVars, HasName, Searchable, NoneToCome;
    var item, rest := Last(st.items), Front(st.items);
    assert Places(st.items)[|st.items| - 1] == item.branch;
    NoneHere(t, Places(st.items), |st.items| - 1, name);
    TryVarsKeeps(t, parts, item.part, t[item.branch].varChildren, |rest|, State(rest, st.args, st.suffix), name);
  }

  lemma NoneBelow(t: Trie, rest: seq<Path>, b: Path, added: seq<Path>, name: string)
    requires NoneToCome(t, rest + [b], name) && forall p | p in added :: b < p
    ensures NoneToCome(t, rest + added, name)
  {
    hide HasName;
    var was, places := rest + [b], rest + added;
    forall i, p | 0 <= i < |places| && HasName(t, p, name) ensures !(places[i] < p) {
      if i < |rest| {
        assert places[i] == was[i];
      } else {
        assert places[i] in added && was[|rest|] == b;
      }
    }
  }

  lemma NoneToComeStays(t: Trie, parts: seq<string>, st: State, name: string)
    requires parts != [] && st.items != [] && Live(t, st) && Known(t, st.items) && Step(t, parts, st).Continue?
    requires NoneToCome(t, Places(st.items), name)
    ensures NoneToCome(t, Places(Step(t, parts, st).state.items), name)
  {
    hide Searchable, Stack, Step, Added, HasName;
    var item := Last(st.items);
    var rest, added := Places(Front(st.items)), Added(t, parts, item);
    PlacesSnoc(Front(st.items), item);
    assert st.items == Front(st.items) + [item];
    StepAdds(t, parts, st);
    AddedIsDisjoint(t, parts, item);
    NoneBelow(t, rest, item.branch, added, name);
  }

  /** With no variable of the name to come, its binding is the final one. */
  lemma {:induction false} BindingStays(t: Trie, parts: seq<string>, st: State, name: string)
    requires parts != [] && Live(t, st) && NoneToCome(t, Places(st.items), name) && name in st.args
    ensures Run(t, parts, st).Found? ==>
              name in Run(t, parts, st).args && Run(t, parts, st).args[name] == st.args[name]
    decreases Covered(t.Keys, Places(st.items))
  {
    hide Searchable, Stack, Step, NoneToCome;
    if st.items != [] {
      LiveIsKnown(t, st);
      StepKeeps(t, parts, st, name);
      if Step(t, parts, st).Continue? {
        NoneToComeStays(t, parts, st, name);
        StepShrinks(t, parts, st);
        BindingStays(t, parts, Step(t, parts, st).state, name);
      }
    }
  }

  /** From a state of the search in which the name of a middle variable is bound, and no variable
      of the name is to come, a route through the variable is bound right only when the variable
      took just the text bound there: a binding made after its own stays. */
  lemma LaterBindingWins(t: Trie, parts: seq<string>, st: State, v: Path) returns (i: nat)
    requires Searchable(t) && parts != [] && Live(t, st) && Run(t, parts, st) == MatchVarPath(t, parts)
    requires IsVar(t, v) && t[v].branch.isMidVar && t[v].branch.varType.name in st.args
    requires NoneToCome(t, Places(st.items), t[v].branch.varType.name)
    requires MatchVarPath(t, parts).Found? && v < MatchVarPath(t, parts).branch
    ensures
      var Found(q, args, suffix) := MatchVarPath(t, parts);
      Matches(t, q, parts, suffix, Some(args)) ==>
        i < |parts| && Spelled(t, Front(v), parts, i, Some(args))
        && st.args[t[v].branch.varType.name] == RequiredParam(parts[i])
  {
    hide Stack, CellOk, LinksOk, LinksComplete, Rooted;
    var name := t[v].branch.varType.name;
    BindingStays(t, parts, st, name);
    OmittedAreFixed(t);
    hide Searchable, Live, Run, MatchVarPath, Spelled, LongestCut, NoneToCome;
    var Found(q, args, suffix) := MatchVarPath(t, parts);
    i := 0;
    if Matches(t, q, parts, suffix, Some(args)) {
      BelowFront(v, q);
      if MatchesFixed(t, q, parts, suffix, Some(args)) {
        i := SpelledVariable(t, Front(q), parts, |parts| - 1, args, v);
      } else {
        var n: nat, cut :| MatchesVar(t, q, parts, n, cut, suffix, Some(args));
        i := SpelledVariable(t, Front(q), parts, n, args, v);
      }
    }
  }

  // ----- where the condition is exact -----

  lemma KidCoversLess(nodes: set<Path>, w: Path, kid: Path)
    requires w in nodes && kid in nodes && kid != [] && Front(kid) == w
    ensures w < kid && Covered(nodes, [kid]) < Covered(nodes, [w])
  {
    assert kid == w + [Last(kid)];
    assert [w][0] <= w && w in Covered(nodes, [w]);
    assert w !in Covered(nodes, [kid]);
    forall x | x in Covered(nodes, [kid]) ensures x in Covered(nodes, [w]) {
      assert [kid][0] <= x && [w][0] <= x;
    }
  }

  /** The keys below a node, in their own order: some registered branch is below or at it. */
  lemma {:induction false} RegisteredBelow(t: Trie, w: Path) returns (q: Path)
    requires Searchable(t) && w in t && w != []
    ensures q in t && w <= q && t[q].branch.apis != []
    decreases Covered(t.Keys, [w])
  {
    if t[w].branch.apis != [] {
      q := w;
    } else {
      assert CellOk(t, w);
      var kid :| kid in t.Keys && kid != [] && Front(kid) == w;
      KidCoversLess(t.Keys, w, kid);
      q := RegisteredBelow(t, kid);
    }
  }

  // ----- a request that is bound wrongly -----

  /** The last key of a registered route holds no boundary. */
  ghost predicate EndsPlain(t: Trie)
  {
    forall q | q in t && q != [] && t[q].branch.apis != [] :: SUFFIX_BOUNDARY !in Last(q)
  }

  /** Construction takes care of that: the suffixes start at the first boundary of the last part. */
  lemma ConstructedEndsPlain(apis: seq<Api>)
    requires Registrable(apis) && Unambiguous(apis) && AllConstructed(apis)
    ensures EndsPlain(TrieOf(apis))
  {
    hide Registrable, Unambiguous, TrieOf, Prefixes, PathOf, LastPart;
    TrieIsSearchable(apis);
    var t := TrieOf(apis);
    forall q | q in t && q != [] && t[q].branch.apis != [] ensures SUFFIX_BOUNDARY !in Last(q) {
      assert t[q].branch.apis == GroupOf(apis, PathOf(q));
      var api := GroupOf(apis, PathOf(q))[0];
      assert api in GroupOf(apis, PathOf(q));
      assert IsConstructed(api);
      PrefixesShape(apis, q);
      LastPartOfPath(q);
    }
  }

  /** For each variable on the way a letter: another one for `w` than for the others. */
  ghost function Letters(t: Trie, q: Path, w: Path): (parts: seq<string>)
    ensures |parts| == |q|
  {
    seq(|q|, i requires 0 <= i < |q| =>
      if !IsVar(t, q[..i + 1]) then q[i] else if i + 1 == |w| then "b" else "a")
  }

  lemma VarTypeOfKey(key: string)
    ensures VarTypeOf(key).NotVar? <==> !IsVarKey(key)
  {
    hide TrimEnd, TrimStart, IsVarKey;
  }

  lemma KeyOfVariable(t: Trie, p: Path)
    requires Searchable(t) && p in t && p != []
    ensures (IsVar(t, p) <==> IsVarKey(Last(p))) && PATH_PART_SEPARATOR !in Last(p)
  {
    assert CellOk(t, p);
    hide Searchable, VarTypeOf, IsVarKey, HasKid, PathOf;
    VarTypeOfKey(Last(p));
  }

  /** A letter is the key of no variable, a fixed key neither; nor is the last one with a suffix. */
  lemma LetterIsFree(t: Trie, q: Path, w: Path, p: Path, i: nat)
    requires Searchable(t) && q in t && i < |q| && IsVar(t, p)
    requires i == |q| - 1 ==> SUFFIX_BOUNDARY !in Last(q)
    ensures !TakenAsKey(t, p, Letters(t, q, w), i)
    ensures PATH_PART_SEPARATOR !in Letters(t, q, w)[i]
  {
    hide Searchable, Declared;
    PrefixInTree(t, q, i + 1);
    KeyOfVariable(t, q[..i + 1]);
    KeyOfVariable(t, p);
    assert q[..i + 1][i] == q[i];
    var part := Letters(t, q, w)[i];
    assert forall s :: (Last(p) + [SUFFIX_BOUNDARY] + s)[|Last(p)|] == SUFFIX_BOUNDARY;
    assert i == |q| - 1 ==> SUFFIX_BOUNDARY !in part;
  }

  lemma LettersAreKeyFree(t: Trie, q: Path, w: Path)
    requires Searchable(t) && q in t && q != [] && SUFFIX_BOUNDARY !in Last(q)
    ensures KeyFree(t, Letters(t, q, w))
  {
    hide Searchable, TakenAsKey, Letters;
    forall i, p | 0 <= i < |Letters(t, q, w)| && IsVar(t, p) ensures !TakenAsKey(t, p, Letters(t, q, w), i) {
      LetterIsFree(t, q, w, p, i);
    }
  }

  lemma LettersSpell(t: Trie, q: Path, w: Path)
    requires KeyFree(t, Letters(t, q, w))
    ensures SpellsOut(t, q, Letters(t, q, w))
  {
    hide TakenAsKey;
    var parts := Letters(t, q, w);
    forall m | 0 < m <= |q| && q[..m] in t ensures Fitting(t, q[..m], parts) {
      assert !IsVar(t, q[..m]) ==> parts[m - 1] == q[m - 1];
    }
  }

  lemma LettersAreSeparatorFree(t: Trie, q: Path, w: Path)
    requires Searchable(t) && q in t
    ensures SeparatorFree(Letters(t, q, w))
  {
    assert CellOk(t, q);
    hide Searchable, CellOk, IsVar;
  }

  lemma NamedAreVars(t: Trie, v: Path, w: Path)
    requires SameName(t, v, w)
    ensures IsVar(t, v) && IsVar(t, w)
  {
  }

  lemma TakenAtDepth(t: Trie, v: Path, w: Path, parts: seq<string>, i: nat, j: nat, args: Args)
    requires Straight(t) && TakenAt(t, v, w, parts, i, j, args)
    ensures i == |v| - 1 && j == |w| - 1
  {
    hide Searchable, Spelled;
    DepthIsCount(t, Front(v), parts, i, Some(args));
    DepthIsCount(t, Front(w), parts, j, Some(args));
  }

  /** The letters of the two variables differ. */
  lemma LettersAt(t: Trie, q: Path, v: Path, w: Path)
    requires IsVar(t, v) && IsVar(t, w) && v < w <= q
    ensures Letters(t, q, w)[|v| - 1] == "a" && Letters(t, q, w)[|w| - 1] == "b"
    ensures !Repeats(Letters(t, q, w), |v| - 1, |w| - 1)
  {
    var parts := Letters(t, q, w);
    assert q[..|v|] == v && q[..|w|] == w && q[..|q|] == q;
    assert parts[|v| - 1] == "a" && parts[|w| - 1] == "b";
  }

  lemma LettersDiffer(t: Trie, q: Path, v: Path, w: Path, args: Args, suffix: string)
    requires Straight(t) && SameName(t, v, w) && v < w <= q
    ensures !Matches(t, q, Letters(t, q, w), suffix, Some(args))
  {
    hide Straight, Searchable, Matches, TakenAt, Letters, Repeats, SameName, EndsWith;
    SearchableOf(t);
    NamedAreVars(t, v, w);
    var parts := Letters(t, q, w);
    LettersAt(t, q, v, w);
    if Matches(t, q, parts, suffix, Some(args)) {
      var i, j := ReusedNameRepeats(t, q, parts, suffix, args, v, w);
      TakenAtDepth(t, v, w, parts, i, j, args);
    }
  }

  /** A name used twice on a route: some request without a variable's key is routed and bound wrongly. */
  lemma ReuseIsFound(t: Trie, v: Path, w: Path) returns (path: string)
    requires Straight(t) && EndsPlain(t) && SameName(t, v, w) && v < w
    ensures Searchable(t) && KeyFree(t, Keys(path))
    ensures MatchVarPath(t, Keys(path)).Found?
    ensures
      var Found(q, args, suffix) := MatchVarPath(t, Keys(path));
      !Matches(t, q, Keys(path), suffix, Some(args))
  {
    SearchableOf(t);
    var q := RegisteredBelow(t, w);
    assert SUFFIX_BOUNDARY !in Last(q);
    hide Straight, Searchable, EndsPlain, MatchVarPath, Matches, KeyFree, SpellsOut, TakenAt, Letters, Keys, PathOf;
    var parts := Letters(t, q, w);
    LettersAreKeyFree(t, q, w);
    LettersSpell(t, q, w);
    SpelledIsFound(t, q, parts);
    LettersDiffer(t, q, v, w, MatchVarPath(t, parts).args, MatchVarPath(t, parts).suffix);
    LettersAreSeparatorFree(t, q, w);
    path := PathOf(parts);
    KeysOfPathOf(parts);
  }

  /** With one variable at a branch, variables of one name meet only on one route. */
  lemma MeetIsNested(t: Trie, v: Path, w: Path)
    requires Straight(t) && IsVar(t, v) && Meet(t, v, w)
    ensures v < w
  {
    hide Searchable;
    assert forall p: Path | p != [] :: Anchor({}, p) == Front(p);
  }

  /** Where every branch offers fixed parts or one variable and nothing is omitted, names apart is
      exactly what it takes: if the names of a route are used once each, every request without a
      variable's key is bound right, and otherwise some is bound wrongly. */
  lemma BindingExactly(t: Trie)
    requires Straight(t) && EndsPlain(t)
    ensures Searchable(t)
    ensures (forall path: string | KeyFree(t, Keys(path)) && MatchVarPath(t, Keys(path)).Found? ::
               BindsRight(t, Keys(path)))
       <==> NamesApart(t)
  {
    SearchableOf(t);
    hide Straight, Searchable, EndsPlain, MatchVarPath, Matches, KeyFree, Keys;
    if NamesApart(t) {
      forall path: string | KeyFree(t, Keys(path)) && MatchVarPath(t, Keys(path)).Found?
        ensures BindsRight(t, Keys(path))
      {
        SearchBindsCorrectly(t, Keys(path));
      }
    } else {
      var v, w :| SameName(t, v, w) && v != w && Meet(t, v, w);
      MeetIsNested(t, v, w);
      var path := ReuseIsFound(t, v, w);
      assert !BindsRight(t, Keys(path));
    }
  }
}
