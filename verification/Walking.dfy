/** Requests that spell a branch out key by key: the search follows them literally. With it,
    the index and the search agree, and the panic of the search is located exactly. */
module Walking {
  import opened Text
  import opened Apis
  import opened Branches
  import opened Frontier
  import opened Wiring
  import opened Search
  import opened Matching
  import opened Index

  // ----- the literal walk -----

  /** The search stands on the branch, `n` parts used, with nothing else to try. */
  function At(b: Path, n: nat, args: Args): State
  {
    State([Item(b, n)], args, [])
  }

  lemma AtIsLive(t: Trie, b: Path, n: nat, args: Args)
    requires Searchable(t) && b in t
    ensures Live(t, At(b, n, args)) && Known(t, At(b, n, args).items)
    ensures Last(At(b, n, args).items) == Item(b, n) && Front(At(b, n, args).items) == []
    ensures forall q, m :: Front(At(b, n, args).items) + [Item(q, m)] == [Item(q, m)]
  {
    var places := Places(At(b, n, args).items);
    assert |places| == 1 && places[0] == b;
  }

  /** From a branch to its child that has the next part for a key. */
  lemma WalkOne(t: Trie, parts: seq<string>, b: Path, n: nat, args: Args)
    requires Searchable(t) && b in t && n < |parts| && b + [parts[n]] in t
    ensures Live(t, At(b, n, args)) && Live(t, At(b + [parts[n]], n + 1, args))
    ensures Run(t, parts, At(b, n, args)) == Run(t, parts, At(b + [parts[n]], n + 1, args))
  {
    hide Searchable, Run, Live;
    AtIsLive(t, b, n, args);
    AtIsLive(t, b + [parts[n]], n + 1, args);
    FixedRound(t, parts, At(b, n, args), b + [parts[n]], []);
  }

  lemma WalkStarts(t: Trie, parts: seq<string>)
    requires Searchable(t) && parts != []
    ensures Live(t, At([], 0, map[])) && MatchVarPath(t, parts) == Run(t, parts, At([], 0, map[]))
  {
    StartIsLive(t);
    hide Searchable, Run, Live;
    assert At([], 0, map[]) == START;
  }

  lemma RootedParent(t: Trie, q: Path)
    requires Searchable(t) && q in t && q != []
    ensures Front(q) in t
  {
  }

  /** Parts that spell the keys of a branch lead to it. */
  lemma {:induction false} WalkLiterally(t: Trie, parts: seq<string>, q: Path)
    requires Searchable(t) && parts != [] && q in t && q <= parts
    ensures Live(t, At(q, |q|, map[]))
    ensures MatchVarPath(t, parts) == Run(t, parts, At(q, |q|, map[]))
    decreases |q|
  {
    hide Searchable, Run, Live, MatchVarPath, At;
    if q == [] {
      WalkStarts(t, parts);
    } else {
      assert q == Front(q) + [parts[|q| - 1]];
      RootedParent(t, q);
      WalkLiterally(t, parts, Front(q));
      WalkOne(t, parts, Front(q), |q| - 1, map[]);
    }
  }

  /** Every part used on a branch with APIs: the search ends there. */
  lemma EndsAt(t: Trie, parts: seq<string>, b: Path, args: Args, suffix: string)
    requires Searchable(t) && b in t && parts != [] && t[b].branch.apis != []
    ensures
      var st := State([Item(b, |parts|)], args, suffix);
      Live(t, st) && Run(t, parts, st) == Found(b, args, suffix)
  {
    hide Searchable, Run, Stack;
    var st := State([Item(b, |parts|)], args, suffix);
    AtIsLive(t, b, |parts|, args);
    assert st.items == At(b, |parts|, args).items;
    RunUnfold(t, parts, st);
  }

  /** A request that spells out the keys of a registered branch, variables and all, finds the
      branch and binds nothing: its variables are left unbound. */
  lemma LiteralKeysBindNothing(t: Trie, q: Path)
    requires Searchable(t) && q in t && q != [] && t[q].branch.apis != []
    ensures MatchVarPath(t, q) == Found(q, map[], [])
    ensures !t[q].branch.varType.NotVar? ==> !Matches(t, q, q, [], Some(map[]))
  {
    hide Searchable, Run, Live, Spelled;
    WalkLiterally(t, q, q);
    EndsAt(t, q, q, map[], []);
  }

  // ----- the search agrees with the index -----

  ghost predicate NoneOmitted(apis: seq<Api>)
  {
    forall api | api in apis :: !api.omission
  }

  /** Nothing is omitted, and registered paths have no boundary. */
  ghost predicate PlainPaths(apis: seq<Api>)
  {
    NoneOmitted(apis) && forall api | api in apis :: SUFFIX_BOUNDARY !in api.path
  }

  /** Without omissions nothing is passed, and no key has a boundary. */
  lemma NothingPassed(t: Trie, q: Path)
    requires Searchable(t) && Omissions(t) == {} && q in t
    ensures t[q].passed == map[]
  {
    assert LinksOk(t, q);
    assert forall p: Path | p != [] :: Anchor({}, p) == Front(p);
  }

  lemma KeysHaveNoBoundary(apis: seq<Api>, q: Path)
    requires PlainPaths(apis) && q in Prefixes(apis) && q != []
    ensures SUFFIX_BOUNDARY !in Last(q)
  {
    var api, n :| api in apis && 0 <= n <= |Keys(api.path)| && q == Keys(api.path)[..n];
    SplitKeepsOut(api.path, PATH_PART_SEPARATOR, SUFFIX_BOUNDARY);
    assert Last(q) == Keys(api.path)[n - 1];
  }

  lemma BranchOmission(apis: seq<Api>, p: Path)
    requires NoneOmitted(apis)
    ensures !BranchAt(apis, p).isOmission
  {
  }

  lemma NothingOmitted(apis: seq<Api>)
    requires Registrable(apis) && Unambiguous(apis) && NoneOmitted(apis)
    ensures Omissions(TrieOf(apis)) == {} && RawOmitted(apis) == {}
  {
    ContentsRooted(apis);
    OmissionsOfWired(Contents(apis));
    forall p | p in Contents(apis) ensures !Contents(apis)[p].isOmission {
      hide NewBranch;
      BranchOmission(apis, p);
    }
  }

  /** The part is the key, or starts with the key and a boundary. */
  ghost predicate ReadsAs(part: string, key: string)
  {
    part == key || key + [SUFFIX_BOUNDARY] <= part
  }

  /** No sibling with a longer key is read where the key and the suffix are meant. */
  ghost predicate ToldApart(t: Trie, b: Path, key: string, suffix: string)
  {
    forall k | b + [k] in t && key + [SUFFIX_BOUNDARY] <= k :: !ReadsAs(key + [SUFFIX_BOUNDARY] + suffix, k)
  }

  /** No key followed by a declared suffix is read as a sibling of it. */
  ghost predicate KeysApart(t: Trie)
  {
    forall p, s | p in t && p != [] && s != [] && Declared(t[p].branch.apis, s) :: ToldApart(t, Front(p), Last(p), s)
  }

  lemma NoLongerKey(k: string, key: string)
    requires SUFFIX_BOUNDARY !in k
    ensures !(key + [SUFFIX_BOUNDARY] <= k)
  {
    assert (key + [SUFFIX_BOUNDARY])[|key|] == SUFFIX_BOUNDARY;
    assert forall i | 0 <= i < |k| :: k[i] != SUFFIX_BOUNDARY;
  }

  /** Keys without boundaries are apart. */
  lemma PlainIsApart(apis: seq<Api>)
    requires Registrable(apis) && Unambiguous(apis) && PlainPaths(apis)
    ensures KeysApart(TrieOf(apis))
  {
    TrieIsSearchable(apis);
    hide Registrable, Unambiguous, TrieOf, Prefixes, BranchAt, Searchable, Declared, PlainPaths;
    forall b: Path, key: string, suffix: string ensures ToldApart(TrieOf(apis), b, key, suffix) {
      forall k | b + [k] in TrieOf(apis) ensures !(key + [SUFFIX_BOUNDARY] <= k) {
        KeysHaveNoBoundary(apis, b + [k]);
        assert Last(b + [k]) == k;
        NoLongerKey(k, key);
      }
    }
  }

  /** No longer head that ends at a boundary is a child: the scan gets to the key. */
  lemma {:induction false} ScanToKey(t: Trie, b: Path, key: string, suffix: string, boundary: nat)
    requires Searchable(t) && b in t && b + [key] in t && t[b].passed == map[]
    requires ToldApart(t, b, key, suffix)
    requires |key| < boundary <= |key| + 1 + |suffix|
    requires Declared(t[b + [key]].branch.apis, suffix)
    ensures BoundaryScan(t, b, key + [SUFFIX_BOUNDARY] + suffix, boundary) == Some((b + [key], suffix))
    decreases boundary
  {
    hide Searchable, Declared;
    var part := key + [SUFFIX_BOUNDARY] + suffix;
    assert part[..boundary][|key|] == SUFFIX_BOUNDARY;
    var previous := RFind(part[..boundary], SUFFIX_BOUNDARY).value;
    assert previous >= |key|;
    if previous == |key| {
      assert part[..previous] == key && part[previous + 1..] == suffix;
    } else {
      assert part[..previous][..|key| + 1] == key + [SUFFIX_BOUNDARY];
      assert part[..previous + 1] == part[..previous] + [SUFFIX_BOUNDARY];
      assert part[..previous][|key|] == SUFFIX_BOUNDARY;
      ScanToKey(t, b, key, suffix, previous);
    }
  }

  /** A key followed by a boundary and a declared suffix is found as just that. */
  lemma FindDotted(t: Trie, b: Path, key: string, suffix: string)
    requires Searchable(t) && b in t && b + [key] in t && t[b].passed == map[]
    requires ToldApart(t, b, key, suffix)
    requires Declared(t[b + [key]].branch.apis, suffix)
    ensures FindConsiderSuffix(t, b, key + [SUFFIX_BOUNDARY] + suffix, true) == Some((b + [key], suffix))
  {
    hide Searchable, Declared, BoundaryScan;
    var part := key + [SUFFIX_BOUNDARY] + suffix;
    assert part[..|key| + 1] == key + [SUFFIX_BOUNDARY];
    ScanToKey(t, b, key, suffix, |part|);
  }

  lemma FindKey(t: Trie, b: Path, key: string, suffix: string)
    requires Searchable(t) && b in t && b + [key] in t && t[b].passed == map[]
    requires suffix != [] ==> ToldApart(t, b, key, suffix)
    requires Declared(t[b + [key]].branch.apis, suffix)
    ensures FindConsiderSuffix(t, b, SuffixPath(key, suffix), true) == Some((b + [key], suffix))
  {
    hide Searchable, Declared, BoundaryScan, ToldApart;
    if suffix != [] { FindDotted(t, b, key, suffix); }
  }

  /** The last part, a key and a declared suffix, is found as just that. */
  lemma DottedRound(t: Trie, q: Path, parts: seq<string>, suffix: string)
    requires Searchable(t) && q in t && q != [] && Front(q) in t && t[Front(q)].passed == map[]
    requires parts != [] && Last(parts) == Last(q) + [SUFFIX_BOUNDARY] + suffix
    requires ToldApart(t, Front(q), Last(q), suffix) && Declared(t[q].branch.apis, suffix)
    ensures FindFixed(t, parts, Item(Front(q), |parts| - 1)) == Some((q, suffix))
  {
    hide Searchable, ToldApart, Declared, FindConsiderSuffix;
    assert q == Front(q) + [Last(q)];
    FindDotted(t, Front(q), Last(q), suffix);
  }

  /** The last part is found with a suffix: the search ends there. */
  lemma EndsOnFound(t: Trie, parts: seq<string>, b: Path, q: Path, args: Args, suffix: string)
    requires Searchable(t) && b in t && q in t && parts != [] && t[q].branch.apis != []
    requires FindFixed(t, parts, Item(b, |parts| - 1)) == Some((q, suffix))
    ensures Live(t, At(b, |parts| - 1, args)) && Run(t, parts, At(b, |parts| - 1, args)) == Found(q, args, suffix)
  {
    hide Searchable, Run, Live, FindFixed;
    AtIsLive(t, b, |parts| - 1, args);
    FixedRound(t, parts, At(b, |parts| - 1, args), q, suffix);
    EndsAt(t, parts, q, args, suffix);
  }

  lemma SomeApi(apis: seq<Api>, suffix: string)
    ensures Declared(apis, suffix) ==> apis != []
  {
  }

  /** A request that spells a branch and a declared suffix finds just that. */
  lemma SpelledOut(t: Trie, b: Path, key: string, suffix: string)
    requires Searchable(t) && b in t && b + [key] in t && t[b].passed == map[]
    requires suffix != [] ==> ToldApart(t, b, key, suffix)
    requires Declared(t[b + [key]].branch.apis, suffix)
    ensures MatchVarPath(t, b + [SuffixPath(key, suffix)]) == Found(b + [key], map[], suffix)
  {
    hide Searchable, Run, Live, FindConsiderSuffix, SuffixPath, MatchVarPath, Declared, At;
    var parts, q := b + [SuffixPath(key, suffix)], b + [key];
    WalkLiterally(t, parts, b);
    FindKey(t, b, key, suffix);
    assert FindFixed(t, parts, Item(b, |b|)) == Some((q, suffix));
    SomeApi(t[q].branch.apis, suffix);
    EndsOnFound(t, parts, b, q, map[], suffix);
  }

  // ----- the index and the search agree -----

  lemma JoinOfOne(part: string)
    ensures PathOf([part]) == part
  {
  }

  /** A path with a suffix splits into the keys of the path, the suffix on the last one. */
  lemma KeysOfSuffixPath(keys: Path, suffix: string)
    requires keys != [] && SeparatorFree(keys) && PATH_PART_SEPARATOR !in suffix
    ensures Keys(SuffixPath(PathOf(keys), suffix)) == Front(keys) + [SuffixPath(Last(keys), suffix)]
  {
    hide Split, Join;
    var parts := Front(keys) + [SuffixPath(Last(keys), suffix)];
    assert keys == Front(keys) + [Last(keys)];
    if |keys| == 1 {
      assert parts == [SuffixPath(Last(keys), suffix)] && keys == [Last(keys)];
      JoinOfOne(Last(keys));
      JoinOfOne(SuffixPath(Last(keys), suffix));
    } else {
      JoinSnoc(Front(keys), Last(keys), PATH_PART_SEPARATOR);
      JoinSnoc(Front(keys), SuffixPath(Last(keys), suffix), PATH_PART_SEPARATOR);
      var head := PathOf(Front(keys)) + [PATH_PART_SEPARATOR];
      assert head + SuffixPath(Last(keys), suffix) == SuffixPath(head + Last(keys), suffix);
    }
    assert PathOf(parts) == SuffixPath(PathOf(keys), suffix);
    KeysOfPathOf(parts);
  }

  /** No declared suffix has a separator. */
  ghost predicate SuffixesSeparatorFree(apis: seq<Api>)
  {
    forall api, s | api in apis && s in api.suffixes :: PATH_PART_SEPARATOR !in s
  }

  lemma RegisteredBranch(apis: seq<Api>, api: Api, s: string)
    requires api in apis && s in api.suffixes
    ensures Keys(api.path) in Prefixes(apis) && SeparatorFree(Keys(api.path)) && PathOf(Keys(api.path)) == api.path
    ensures Declared(BranchAt(apis, Keys(api.path)).apis, s)
  {
    PathOfKeys(api.path);
    assert Keys(api.path)[..|Keys(api.path)|] == Keys(api.path);
    assert api in GroupOf(apis, PathOf(Keys(api.path)));
  }

  /** Without omissions the trie search finds every key of the index, with the same APIs: the
      index is only a shortcut. */
  lemma FastIsSlow(apis: seq<Api>, key: string)
    requires Registrable(apis) && Unambiguous(apis) && NoneOmitted(apis) && SuffixesSeparatorFree(apis)
    requires KeysApart(TrieOf(apis))
    requires key in IndexOf(RawOmitted(apis), apis)
    ensures Searchable(TrieOf(apis))
    ensures
      var outcome := MatchVarPath(TrieOf(apis), Keys(key));
      && outcome.Found? && outcome.args == map[] && outcome.branch in TrieOf(apis)
      && SuffixPath(OmittedPath(RawOmitted(apis), TrieOf(apis)[outcome.branch].branch.path), outcome.suffix) == key
  {
    hide Registrable, Unambiguous, TrieOf, Searchable, Omissions, Prefixes, Run, Live, OmittedPath, SuffixPath, Keys,
         BranchAt;
    TrieIsSearchable(apis);
    NothingOmitted(apis);
    var t := TrieOf(apis);
    var api, s :| api in apis && s in api.suffixes && key == SuffixPath(OmittedPath({}, api.path), s);
    OmittedPathOfNone(api.path);
    var q := Keys(api.path);
    RegisteredBranch(apis, api, s);
    var b, last := Front(q), Last(q);
    assert q == b + [last];
    RootedParent(t, q);
    NothingPassed(t, b);
    assert s != [] ==> ToldApart(t, b, last, s);
    SpelledOut(t, b, last, s);
    KeysOfSuffixPath(q, s);
    PathOfBranch(t, q);
  }
}
