/** When the search indexes past the request: exactly for trees with a branch that has no APIs
    of its own and whose variables reach a middle variable before one that may be empty. */
module Panics {
  import opened Text
  import opened Apis
  import opened Branches
  import opened Frontier
  import opened Wiring
  import opened Search
  import opened Completeness
  import opened Matching
  import opened Soundness
  import opened Walking
  import opened Index
  import opened Routing

  /** A request that ends on this branch makes the search panic. */
  ghost predicate PanicsAt(t: Trie, b: Path)
    requires Searchable(t) && b in t
  {
    assert LinksOk(t, b);
    b != [] && t[b].branch.apis == [] && MidVarFirst(t, t[b].varChildren)
  }

  /** A round panics only on a bare branch below the root. */
  lemma StepPanics(t: Trie, parts: seq<string>, st: State)
    requires Sound(t, parts, st, false) && st.items != [] && Known(t, st.items)
    requires Step(t, parts, st) == Done(Panicked)
    ensures PanicsAt(t, Last(st.items).branch) && Stepped(t, Last(st.items).branch, parts, |parts|, None)
  {
    hide Stack, FindConsiderSuffix, MatchesFixed, TryVars, CellOk, LinksComplete, Spelled;
    var item, rest := Last(st.items), Front(st.items);
    assert LinksOk(t, item.branch);
    TryVarsPanics(t, parts, item.part, t[item.branch].varChildren, |rest|, State(rest, st.args, st.suffix));
  }

  /** The parts of a request that makes the search panic spell such a branch. */
  lemma {:induction false} RunPanics(t: Trie, parts: seq<string>, st: State) returns (b: Path)
    requires Sound(t, parts, st, false)
    requires Run(t, parts, st) == Panicked
    ensures b in t && PanicsAt(t, b) && Spelled(t, b, parts, |parts|, None)
    decreases Covered(t.Keys, Places(st.items))
  {
    hide Searchable, Stack, PanicsAt, Step, ItemsOk, Ended, Stepped;
    LiveIsKnown(t, st);
    if Step(t, parts, st).Done? {
      StepPanics(t, parts, st);
      b := Last(st.items).branch;
    } else {
      StepSound(t, parts, st, false);
      StepShrinks(t, parts, st);
      b := RunPanics(t, parts, Step(t, parts, st).state);
    }
  }

  /** A request that spells such a branch out ends on it. */
  lemma SpelledPanics(t: Trie, b: Path)
    requires Searchable(t) && b in t && PanicsAt(t, b)
    ensures MatchVarPath(t, b) == Panicked
  {
    WalkLiterally(t, b, b);
    AtIsLive(t, b, |b|, map[]);
    var st := At(b, |b|, map[]);
    RunUnfold(t, b, st);
    hide Searchable, Run, Live, TryVars;
    TryVarsPanics(t, b, |b|, t[b].varChildren, 0, State([], map[], []));
  }

  /** Some request makes the search panic exactly when the tree has such a branch. */
  lemma PanicsExactly(t: Trie)
    requires Searchable(t)
    ensures (exists path: string :: MatchVarPath(t, Keys(path)) == Panicked) <==> (exists b | b in t :: PanicsAt(t, b))
  {
    if path: string :| MatchVarPath(t, Keys(path)) == Panicked {
      StartIsSound(t, Keys(path), false);
      var b := RunPanics(t, Keys(path), START);
    }
    if b :| b in t && PanicsAt(t, b) {
      hide PanicsAt, MatchVarPath;
      SpelledPanics(t, b);
      assert CellOk(t, b);
      KeysOfPathOf(b);
      assert MatchVarPath(t, Keys(PathOf(b))) == Panicked;
    }
  }

  lemma {:induction false} MidVarIsThere(t: Trie, vs: seq<Path>)
    requires (forall v | v in vs :: v in t) && MidVarFirst(t, vs)
    ensures exists v | v in vs :: t[v].branch.isMidVar
  {
    if !t[vs[0]].branch.isMidVar {
      MidVarIsThere(t, vs[1..]);
    } else {
      assert vs[0] in vs;
    }
  }

  /** No branch without APIs has a middle variable: the search never panics. */
  lemma NeverPanics(t: Trie, parts: seq<string>)
    requires Searchable(t) && parts != []
    requires forall b, v | b in t && b != [] && v in t[b].varChildren && v in t && t[v].branch.isMidVar ::
               t[b].branch.apis != []
    ensures MatchVarPath(t, parts) != Panicked
  {
    if MatchVarPath(t, parts) == Panicked {
      StartIsSound(t, parts, false);
      var b := RunPanics(t, parts, START);
      assert LinksOk(t, b);
      MidVarIsThere(t, t[b].varChildren);
    }
  }

  // ----- the index is asked first -----

  lemma PrefixIsPlain(apis: seq<Api>, b: Path)
    requires PlainPaths(apis) && b in Prefixes(apis)
    ensures SUFFIX_BOUNDARY !in PathOf(b)
  {
    hide Split, Join;
    if b != [] {
      var api, n :| api in apis && 0 <= n <= |Keys(api.path)| && b == Keys(api.path)[..n];
      SplitKeepsOut(api.path, PATH_PART_SEPARATOR, SUFFIX_BOUNDARY);
    }
    JoinKeepsOut(b, PATH_PART_SEPARATOR, SUFFIX_BOUNDARY);
  }

  /** The text of a branch without APIs is no key of the index, when nothing is omitted. */
  lemma BareIsNoKey(apis: seq<Api>, b: Path)
    requires PlainPaths(apis) && b in Prefixes(apis) && b != [] && BranchAt(apis, b).apis == []
    ensures PathOf(b) !in IndexOf({}, apis)
  {
    hide OmittedPath, Split, Join;
    PrefixIsPlain(apis, b);
    assert forall api | api in apis :: api.path == PathOf(b) ==> api in GroupOf(apis, PathOf(b));
    assert forall api | api in apis :: api.path != PathOf(b);
    if PathOf(b) in ServedKeys({}, apis) {
      var api, s :| api in apis && s in api.suffixes && PathOf(b) == SuffixPath(OmittedPath({}, api.path), s);
      OmittedPathOfNone(api.path);
      SuffixPathInjective(PathOf(b), [], api.path, s);
    }
  }

  lemma PanicBranch(t: Trie, b: Path)
    requires Searchable(t) && b in t && PanicsAt(t, b)
    ensures b != [] && t[b].branch.apis == [] && SeparatorFree(b)
  {
    assert CellOk(t, b);
  }

  /** Without omissions, `locate` panics on some request exactly when the tree has such a branch. */
  lemma LocatePanicsExactly(apis: seq<Api>)
    requires Registrable(apis) && Unambiguous(apis) && PlainPaths(apis)
    ensures Searchable(TrieOf(apis))
    ensures (exists path: string :: LookUpPath(RoutesOf(apis), path).Crash?)
       <==> (exists b | b in TrieOf(apis) :: PanicsAt(TrieOf(apis), b))
  {
    hide Registrable, Unambiguous, TrieOf, Searchable, PanicsAt, MatchVarPath, Keys, LookUpPath, Prefixes, BranchAt;
    TrieIsSearchable(apis);
    NothingOmitted(apis);
    var t, rs := TrieOf(apis), RoutesOf(apis);
    if path: string :| LookUpPath(rs, path).Crash? {
      KeyIsHit(rs, path);
      PanicsExactly(t);
    }
    if b :| b in t && PanicsAt(t, b) {
      PanicBranch(t, b);
      SpelledPanics(t, b);
      KeysOfPathOf(b);
      BareIsNoKey(apis, b);
      KeyIsHit(rs, PathOf(b));
    }
  }
}
