/** A router whose redirects do not end: `a` redirects to `b`, and `b` to `a`. */
module RedirectCycle {
  import opened Text
  import opened Apis
  import opened Branches
  import opened Wiring
  import opened Index
  import opened Routing
  import opened Reversal

  const A_API: Api := Api("a", [[]], [], false, "b", "a")
  const B_API: Api := Api("b", [[]], [], false, "a", "b")
  const CYCLE: seq<Api> := [A_API, B_API]

  lemma CycleKeys()
    ensures Keys("a") == ["a"] && Keys("b") == ["b"]
    ensures Trim("a") == "a" && Trim("b") == "b"
    ensures RawOmitted(CYCLE) == {}
  {
    SplitOfPart("a", PATH_PART_SEPARATOR);
    SplitOfPart("b", PATH_PART_SEPARATOR);
  }

  lemma RootIsFixed()
    ensures BranchAt(CYCLE, []).varType.NotVar?
  {
    assert PathOf([]) == [];
  }

  lemma CycleIsRegistrable()
    ensures Registrable(CYCLE) && Unambiguous(CYCLE)
  {
    CycleKeys();
    hide Keys, Trim;
    RootIsFixed();
    forall p | p in Prefixes(CYCLE) && p != [] ensures Front(p) == [] {
      var api, n :| api in CYCLE && 0 <= n <= |Keys(api.path)| && p == Keys(api.path)[..n];
      assert api == A_API || api == B_API;
    }
  }

  lemma CycleGroups()
    ensures GroupOf(CYCLE, "a") == [A_API] && GroupOf(CYCLE, "b") == [B_API]
  {
    assert CYCLE == [A_API] + [B_API];
    assert CYCLE[1..] == [B_API] && [B_API][1..] == [];
    assert forall path :: GroupOf([], path) == [];
    assert GroupOf([B_API], "b") == [B_API] && GroupOf([B_API], "a") == [];
  }

  function AcceptAll(api: Api): bool
  {
    true
  }

  /** A key whose only API redirects. */
  lemma OneRedirect(rs: Routes, key: string, api: Api)
    requires Searchable(rs.trie) && key in rs.index && rs.index[key] == [api] && api.redirect != []
    ensures Redirect(rs, AcceptAll, key) == Some(api.redirect)
  {
    hide Searchable;
    assert LookUpPath(rs, key) == Hit([api], None);
  }

  lemma OneIndexed(api: Api)
    requires api in CYCLE && GroupOf(CYCLE, api.path) == [api]
    ensures api.path in IndexOf({}, CYCLE) && IndexOf({}, CYCLE)[api.path] == [api]
  {
    assert CYCLE == [A_API] + [B_API];
    OmittedPathOfNone("a");
    OmittedPathOfNone("b");
    IndexableIsTold({}, CYCLE);
    hide OmittedPath, IndexOf, KeysTold, GroupOf;
    GroupWithoutOmissions(CYCLE, api.path);
    KeyIsIndexed({}, CYCLE, api, []);
  }

  lemma CycleIndex()
    ensures
      var index := RoutesOf(CYCLE).index;
      "a" in index && index["a"] == [A_API] && "b" in index && index["b"] == [B_API]
  {
    CycleKeys();
    CycleGroups();
    hide IndexOf, GroupOf, TrieOf, RawOmitted;
    OneIndexed(A_API);
    OneIndexed(B_API);
  }

  lemma RoundTrip(rs: Routes)
    requires Searchable(rs.trie)
    requires Redirect(rs, AcceptAll, "a") == Some("b") && Redirect(rs, AcceptAll, "b") == Some("a")
    ensures After(rs, AcceptAll, "a", 2) == Some("a")
  {
    hide Searchable, Redirect;
    assert After(rs, AcceptAll, "a", 0) == Some("a");
    assert After(rs, AcceptAll, "b", 1) == After(rs, AcceptAll, "a", 0);
  }

  /** A request for `a` goes round for ever, though each path on the way is a key of the index. */
  lemma CycleNeverEnds(n: nat)
    ensures Searchable(RoutesOf(CYCLE).trie)
    ensures "a" in RoutesOf(CYCLE).index && "b" in RoutesOf(CYCLE).index
    ensures !RedirectsEnd(RoutesOf(CYCLE), AcceptAll, "a", n)
  {
    CycleIsRegistrable();
    TrieIsSearchable(CYCLE);
    SameTrie(CYCLE);
    hide TrieOf, Searchable, Registrable, Unambiguous, IndexOf, RoutesOf, RedirectsEnd, Redirect, After;
    CycleIndex();
    var rs := RoutesOf(CYCLE);
    OneRedirect(rs, "a", A_API);
    OneRedirect(rs, "b", B_API);
    RoundTrip(rs);
    CyclesNeverEnd(rs, AcceptAll, "a", 2, n);
  }
}
