/** The router: registering APIs, closing it into a tree and a hash index, and locating the API
    of a request through both, following redirects. */
module Routers {
  import opened Text
  import opened Apis
  import opened Branches
  import opened Frontier
  import opened Wiring
  import opened Search
  import opened Index
  import opened ATrees
  import opened Building
  import opened WiringPass
  import opened Matchers
  import opened Routing

  // ----- grouping the APIs for the index -----

  /** The suffixes of some API of the list, as a `BTreeSet`. */
  ghost predicate SuffixesOf(apis: seq<Api>, suffixes: seq<string>)
  {
    IsSuffixSet(suffixes) && forall s :: s in suffixes <==> Declared(apis, s)
  }

  /** `suffixes.extend(more)`. */
  function ExtendSuffixes(suffixes: seq<string>, more: seq<string>): (r: seq<string>)
    requires IsSuffixSet(suffixes)
    ensures IsSuffixSet(r) && forall s :: s in r <==> s in suffixes || s in more
    decreases |more|
  {
    if more == [] then suffixes else
      assert more == [more[0]] + more[1..];
      ExtendSuffixes(InsertSuffix(more[0], suffixes), more[1..])
  }

  /** The groups of one more API in front. */
  lemma GroupsOfCons(omitted: set<string>, api: Api, apis: seq<Api>, path: string)
    ensures
      var same := OmittedPath(omitted, api.path) == path;
      && With(omitted, [api] + apis, path) == (if same then [api] else []) + With(omitted, apis, path)
      && Without(omitted, [api] + apis, path) == (if same then [] else [api]) + Without(omitted, apis, path)
  {
    hide OmittedPath;
    assert ([api] + apis)[1..] == apis;
  }

  /** One more sibling looked at, from the back. */
  lemma OneSibling(omitted: set<string>, buffer: seq<Api>, rest: seq<Api>, index: nat, path: string)
    requires index < |buffer| && rest == buffer[..index + 1] + Without(omitted, buffer[index + 1..], path)
    ensures |rest| > index && rest[index] == buffer[index]
    ensures
      var same := OmittedPath(omitted, buffer[index].path) == path;
      && buffer[..index] + Without(omitted, buffer[index..], path)
          == (if same then rest[..index] + rest[index + 1..] else rest)
      && With(omitted, buffer[index..], path)
         == (if same then [buffer[index]] else []) + With(omitted, buffer[index + 1..], path)
  {
    hide OmittedPath, With, Without;
    var head, tail := buffer[..index], Without(omitted, buffer[index + 1..], path);
    assert buffer[index..] == [buffer[index]] + buffer[index + 1..];
    GroupsOfCons(omitted, buffer[index], buffer[index + 1..], path);
    assert buffer[..index + 1] == head + [buffer[index]];
    assert rest[..index] == head && rest[index + 1..] == tail;
    assert head + ([buffer[index]] + tail) == rest && head + ([] + tail) == head + tail;
  }

  lemma StartGroup(omitted: set<string>, buffer: seq<Api>, api: Api)
    requires IsSuffixSet(api.suffixes)
    ensures buffer == buffer[..|buffer|] + Without(omitted, buffer[|buffer|..], OmittedPath(omitted, api.path))
    ensures [api] == With(omitted, buffer[|buffer|..], OmittedPath(omitted, api.path)) + [api]
    ensures SuffixesOf([api], api.suffixes)
  {
    hide OmittedPath, IsSuffixSet;
    assert buffer[|buffer|..] == [];
    assert api in [api];
  }

  lemma SameUnlessCase(omitted: set<string>, buffer: seq<Api>, api: Api, sibling: Api)
    requires Indexable(omitted, buffer + [api]) && sibling in buffer
    ensures EqIgnoreCase(OmittedPath(omitted, api.path), OmittedPath(omitted, sibling.path))
       <==> OmittedPath(omitted, api.path) == OmittedPath(omitted, sibling.path)
  {
    assert api in buffer + [api] && sibling in buffer + [api];
  }

  lemma MoreSuffixes(apis: seq<Api>, suffixes: seq<string>, sibling: Api)
    requires SuffixesOf(apis, suffixes)
    ensures IsSuffixSet(suffixes) && SuffixesOf([sibling] + apis, ExtendSuffixes(suffixes, sibling.suffixes))
  {
    forall s ensures Declared([sibling] + apis, s) <==> s in sibling.suffixes || Declared(apis, s) {
      if Declared(apis, s) {
        var a :| a in apis && s in a.suffixes;
        assert a in [sibling] + apis;
      }
      assert sibling in [sibling] + apis;
    }
  }

  lemma LastOfGroup(omitted: set<string>, buffer: seq<Api>, api: Api)
    ensures With(omitted, buffer + [api], OmittedPath(omitted, api.path))
         == With(omitted, buffer, OmittedPath(omitted, api.path)) + [api]
  {
    hide OmittedPath;
    WithConcat(omitted, buffer, [api], OmittedPath(omitted, api.path));
  }

  /** One round of `closing` collects every API left whose omitted path is that of the last one. */
  method TakeGroup(omitted: set<string>, buffer: seq<Api>, api: Api)
    returns (rest: seq<Api>, apis: seq<Api>, suffixes: seq<string>)
    requires Indexable(omitted, buffer + [api]) && IsSuffixSet(api.suffixes)
    ensures rest == Without(omitted, buffer, OmittedPath(omitted, api.path))
    ensures apis == With(omitted, buffer + [api], OmittedPath(omitted, api.path))
    ensures SuffixesOf(apis, suffixes)
  {
    hide OmittedPath, EqIgnoreCase, Indexable, SuffixesOf, With, Without, ExtendSuffixes;
    var path := OmittedPath(omitted, api.path);
    rest, apis, suffixes := buffer, [api], api.suffixes;
    StartGroup(omitted, buffer, api);
    var index := |buffer|;
    while index > 0
      invariant 0 <= index <= |buffer|
      invariant rest == buffer[..index] + Without(omitted, buffer[index..], path)
      invariant apis == With(omitted, buffer[index..], path) + [api]
      invariant SuffixesOf(apis, suffixes)
    {
      index := index - 1;
      OneSibling(omitted, buffer, rest, index, path);
      var sibling := rest[index];
      SameUnlessCase(omitted, buffer, api, sibling);
      if EqIgnoreCase(path, OmittedPath(omitted, sibling.path)) {
        rest := rest[..index] + rest[index + 1..];
        MoreSuffixes(apis, suffixes, sibling);
        suffixes := ExtendSuffixes(suffixes, sibling.suffixes);
        apis := [sibling] + apis;
      }
    }
    assert buffer[0..] == buffer && buffer[..0] == [];
    LastOfGroup(omitted, buffer, api);
  }

  /** The entries of the groups whose omitted paths are in `done`. */
  ghost predicate IndexedUpTo(omitted: set<string>, all: seq<Api>, done: set<string>, mapping: map<string, seq<Api>>)
  {
    forall key ::
      && (key in mapping
          <==> exists api | api in all :: Serves(omitted, api, key) && OmittedPath(omitted, api.path) in done)
      && (key in mapping ==> mapping[key] == Serving(omitted, all, key))
  }

  /** One of the first `n` suffixes makes the key. */
  ghost predicate IsGroupKey(path: string, suffixes: seq<string>, n: nat, key: string)
  {
    n <= |suffixes| && exists j | 0 <= j < n :: key == SuffixPath(path, suffixes[j])
  }

  /** Some API of the group serves the key. */
  ghost predicate GroupAnswers(omitted: set<string>, all: seq<Api>, path: string, key: string)
  {
    exists api | api in all :: Serves(omitted, api, key) && OmittedPath(omitted, api.path) == path
  }

  lemma OneMoreKey(path: string, suffixes: seq<string>, n: nat, key: string)
    requires n < |suffixes|
    ensures IsGroupKey(path, suffixes, n + 1, key)
        <==> IsGroupKey(path, suffixes, n, key) || key == SuffixPath(path, suffixes[n])
  {
  }

  lemma NoKeyYet(omitted: set<string>, all: seq<Api>, done: set<string>, path: string, suffixes: seq<string>,
                 mapping: map<string, seq<Api>>)
    requires IndexedUpTo(omitted, all, done, mapping)
    ensures forall key :: !IsGroupKey(path, suffixes, 0, key)
    ensures forall key | key in mapping :: mapping[key] == Serving(omitted, all, key)
  {
    hide OmittedPath, SuffixPath, Serves, Serving;
  }

  /** The keys of a group are what its APIs serve. */
  lemma GroupKeys(omitted: set<string>, all: seq<Api>, path: string, apis: seq<Api>, suffixes: seq<string>, key: string)
    requires forall a | a in all :: SUFFIX_BOUNDARY !in OmittedPath(omitted, a.path)
    requires SUFFIX_BOUNDARY !in path && apis == With(omitted, all, path) && SuffixesOf(apis, suffixes)
    ensures IsGroupKey(path, suffixes, |suffixes|, key) <==> GroupAnswers(omitted, all, path, key)
  {
    hide OmittedPath, SuffixPath;
    if IsGroupKey(path, suffixes, |suffixes|, key) {
      var j :| 0 <= j < |suffixes| && key == SuffixPath(path, suffixes[j]);
      assert suffixes[j] in suffixes;
      var api :| api in apis && suffixes[j] in api.suffixes;
      assert Serves(omitted, api, key);
    }
    if GroupAnswers(omitted, all, path, key) {
      var api :| api in all && Serves(omitted, api, key) && OmittedPath(omitted, api.path) == path;
      var s :| s in api.suffixes && SuffixPath(OmittedPath(omitted, api.path), s) == key;
      assert api in apis && Declared(apis, s) && s in suffixes;
    }
  }

  lemma GroupStored(omitted: set<string>, all: seq<Api>, done: set<string>, path: string, apis: seq<Api>,
                    suffixes: seq<string>, mapping0: map<string, seq<Api>>, mapping: map<string, seq<Api>>)
    requires forall a | a in all :: SUFFIX_BOUNDARY !in OmittedPath(omitted, a.path)
    requires SUFFIX_BOUNDARY !in path && apis == With(omitted, all, path) && SuffixesOf(apis, suffixes)
    requires IndexedUpTo(omitted, all, done, mapping0)
    requires forall key :: key in mapping <==> key in mapping0 || IsGroupKey(path, suffixes, |suffixes|, key)
    requires forall key | key in mapping :: mapping[key] == Serving(omitted, all, key)
    ensures IndexedUpTo(omitted, all, done + {path}, mapping)
  {
    hide OmittedPath, SuffixPath, Serves, SuffixesOf, IsGroupKey, With, Serving;
    forall key ensures key in mapping
        <==> exists api | api in all :: Serves(omitted, api, key) && OmittedPath(omitted, api.path) in done + {path} {
      GroupKeys(omitted, all, path, apis, suffixes, key);
    }
  }

  /** The suffixes of one group become keys of the index. */
  method StoreGroup(omitted: set<string>, ghost all: seq<Api>, ghost done: set<string>, path: string, apis: seq<Api>,
                    suffixes: seq<string>, mapping0: map<string, seq<Api>>)
    returns (mapping: map<string, seq<Api>>)
    requires forall a | a in all :: SUFFIX_BOUNDARY !in OmittedPath(omitted, a.path)
    requires SUFFIX_BOUNDARY !in path && apis == With(omitted, all, path) && SuffixesOf(apis, suffixes)
    requires IndexedUpTo(omitted, all, done, mapping0)
    ensures IndexedUpTo(omitted, all, done + {path}, mapping)
  {
    hide OmittedPath, SuffixPath, Serves, SuffixesOf, IsGroupKey, With, WithSuffix, Serving, IndexedUpTo;
    mapping := mapping0;
    NoKeyYet(omitted, all, done, path, suffixes, mapping0);
    for i := 0 to |suffixes|
      invariant forall key :: key in mapping <==> key in mapping0 || IsGroupKey(path, suffixes, i, key)
      invariant forall key | key in mapping :: mapping[key] == Serving(omitted, all, key)
    {
      GroupServes(omitted, all, path, suffixes[i]);
      forall key ensures IsGroupKey(path, suffixes, i + 1, key)
          <==> IsGroupKey(path, suffixes, i, key) || key == SuffixPath(path, suffixes[i]) {
        OneMoreKey(path, suffixes, i, key);
      }
      mapping := mapping[SuffixPath(path, suffixes[i]) := WithSuffix(apis, suffixes[i])];
    }
    GroupStored(omitted, all, done, path, apis, suffixes, mapping0, mapping);
  }

  /** What is left in the buffer: the groups not yet stored, untouched. */
  ghost predicate LeftOver(omitted: set<string>, all: seq<Api>, done: set<string>, buffer: seq<Api>)
  {
    && (forall path | path !in done :: With(omitted, buffer, path) == With(omitted, all, path))
    && (forall api | api in buffer :: api in all && OmittedPath(omitted, api.path) !in done)
    && (forall api | api in all :: api in buffer || OmittedPath(omitted, api.path) in done)
  }

  lemma StillLeft(omitted: set<string>, all: seq<Api>, done: set<string>, buffer: seq<Api>, api: Api)
    requires LeftOver(omitted, all, done, buffer + [api])
    ensures OmittedPath(omitted, api.path) !in done
    ensures With(omitted, buffer + [api], OmittedPath(omitted, api.path))
        == With(omitted, all, OmittedPath(omitted, api.path))
    ensures LeftOver(omitted, all, done + {OmittedPath(omitted, api.path)},
        Without(omitted, buffer, OmittedPath(omitted, api.path)))
  {
    hide OmittedPath;
    var path := OmittedPath(omitted, api.path);
    var rest := Without(omitted, buffer, path);
    assert api in buffer + [api];
    forall other | other !in done + {path} ensures With(omitted, rest, other) == With(omitted, all, other) {
      OtherGroupsStay(omitted, buffer, path, other);
      WithConcat(omitted, buffer, [api], other);
      assert With(omitted, [api], other) == [];
    }
    forall a | a in buffer ensures a in buffer + [api] {}
  }

  // ----- ids -----

  /** The last API pushed with the id. */
  ghost predicate IsLatest(apis: seq<Api>, id: string, api: Api)
  {
    exists i | 0 <= i < |apis| && apis[i] == api && api.id == id :: forall j | i < j < |apis| :: apis[j].id != id
  }

  ghost predicate HasId(apis: seq<Api>, id: string)
  {
    id != [] && exists api | api in apis :: api.id == id
  }

  /** Ids lead to the last API pushed with them; the empty id leads nowhere. */
  ghost predicate IdsOk(apis: seq<Api>, mapping: map<string, Api>)
  {
    forall id :: (id in mapping <==> HasId(apis, id)) && (id in mapping ==> IsLatest(apis, id, mapping[id]))
  }

  lemma NoIds()
    ensures IdsOk([], map[])
  {
  }

  lemma LatestStays(apis: seq<Api>, api: Api, id: string, latest: Api)
    requires IsLatest(apis, id, latest) && api.id != id
    ensures IsLatest(apis + [api], id, latest)
  {
    var i :| 0 <= i < |apis| && apis[i] == latest && latest.id == id && forall j | i < j < |apis| :: apis[j].id != id;
    assert (apis + [api])[i] == latest;
  }

  lemma OneMoreId(apis: seq<Api>, mapping: map<string, Api>, api: Api)
    requires IdsOk(apis, mapping)
    ensures IdsOk(apis + [api], if api.id == [] then mapping else mapping[api.id := api])
  {
    var all, mapping' := apis + [api], if api.id == [] then mapping else mapping[api.id := api];
    assert all[|apis|] == api;
    forall id ensures id in mapping' <==> HasId(all, id) {
      assert id in mapping <==> HasId(apis, id);
    }
    forall id | id in mapping' ensures IsLatest(all, id, mapping'[id]) {
      if id != api.id || api.id == [] {
        assert IsLatest(apis, id, mapping[id]);
        LatestStays(apis, api, id, mapping[id]);
      }
    }
  }

  // ----- around the two passes -----

  lemma RegistrablePaths(apis: seq<Api>)
    requires Registrable(apis)
    ensures forall api | api in apis :: TreePath(api.path)
  {
  }

  lemma PlainContents(apis: seq<Api>)
    requires Registrable(apis)
    ensures Plain(Contents(apis))
  {
    ContentsRooted(apis);
    hide Registrable, Rooted;
    forall p | p in Prefixes(apis) && p != [] ensures Key(Contents(apis)[p].path) == Last(p) {
      BranchShape(apis, p);
    }
  }

  lemma UnwiredView(c: map<Path, Branch>, nodes: Nodes)
    requires Elements(nodes) == c && forall n | n in nodes.Values :: Unwired(n)
    requires forall p | p in c :: !c[p].isMidVar
    ensures View(nodes) == WiredBy(c, [])
    ensures AllInside(nodes)
  {
    forall p | p in nodes ensures CellOf(nodes[p]) == WiredBy(c, [])[p] {
      assert Elements(nodes)[p] == nodes[p].element && nodes[p] in nodes.Values;
    }
  }

  lemma StartPassing(apis: seq<Api>, nodes: Nodes)
    requires Registrable(apis) && IsTree(nodes) && Elements(nodes) == Contents(apis)
    requires forall n | n in nodes.Values :: Unwired(n)
    ensures Passing(Contents(apis), [], nodes)
  {
    hide Registrable, Contents, IsTree, Elements, View, AllInside;
    PlainContents(apis);
    UnwiredView(Contents(apis), nodes);
  }

  lemma RootOfContents(apis: seq<Api>)
    ensures [] in Contents(apis) && Contents(apis)[[]].varType.NotVar? && !Contents(apis)[[]].isOmission
  {
  }

  lemma AmbiguousApis(apis: seq<Api>)
    requires Registrable(apis)
    ensures Rooted(Contents(apis).Keys)
    ensures (exists q | q in Contents(apis) && q != [] :: IsAmbiguous(Contents(apis), q)) <==> !Unambiguous(apis)
  {
    hide IsAmbiguous, BranchAt, Prefixes, Registrable;
    var c := Contents(apis);
    ContentsRooted(apis);
    RootOfContents(apis);
    forall p | p in c && c[p].isOmission ensures c[p].varType.NotVar? {
      if p != [] { BranchShape(apis, p); }
    }
    AmbiguousMeans(c);
    hide Rooted;
    if p :| p in c && IsOpenVar(c[p].varType) && HasKid(c.Keys, p) {
      var q :| q in c.Keys && q != [] && Front(q) == p;
      assert q in Prefixes(apis) && Front(q) in Prefixes(apis);
    }
    if !Unambiguous(apis) {
      var p :| p in Prefixes(apis) && p != [] && Front(p) in Prefixes(apis)
          && IsOpenVar(BranchAt(apis, Front(p)).varType);
      assert Front(p) in c && HasKid(c.Keys, Front(p));
    }
  }

  lemma ClosedTree(apis: seq<Api>, nodes: Nodes)
    requires Rooted(Contents(apis).Keys) && IsTree(nodes) && AllInside(nodes) && View(nodes) == Wired(Contents(apis))
    ensures Holds(nodes, TrieOf(apis))
  {
  }

  // ----- around the grouping -----

  lemma NothingDone(omitted: set<string>, all: seq<Api>)
    ensures IndexedUpTo(omitted, all, {}, map[]) && LeftOver(omitted, all, {}, all)
  {
  }

  lemma LeftIsIndexable(omitted: set<string>, all: seq<Api>, done: set<string>, buffer: seq<Api>, api: Api)
    requires Indexable(omitted, all) && LeftOver(omitted, all, done, buffer + [api])
    ensures Indexable(omitted, buffer + [api]) && api in all
    ensures forall a | a in all :: SUFFIX_BOUNDARY !in OmittedPath(omitted, a.path)
    ensures SUFFIX_BOUNDARY !in OmittedPath(omitted, api.path)
  {
    hide OmittedPath, EqIgnoreCase, With;
    assert api in buffer + [api];
  }

  /** The keys of the index are what some API serves. */
  lemma IndexKeys(omitted: set<string>, all: seq<Api>, key: string)
    ensures key in IndexOf(omitted, all) <==> exists api | api in all :: Serves(omitted, api, key)
    ensures key in IndexOf(omitted, all) ==> IndexOf(omitted, all)[key] == Serving(omitted, all, key)
  {
    hide OmittedPath, SuffixPath, Serving;
    if api :| api in all && Serves(omitted, api, key) {
      var s :| s in api.suffixes && SuffixPath(OmittedPath(omitted, api.path), s) == key;
      assert key in ServedKeys(omitted, all);
    }
  }

  /** When every group is stored, the mapping is the index of all APIs. */
  lemma AllDone(omitted: set<string>, all: seq<Api>, done: set<string>, mapping: map<string, seq<Api>>)
    requires IndexedUpTo(omitted, all, done, mapping) && LeftOver(omitted, all, done, [])
    ensures mapping == IndexOf(omitted, all)
  {
    hide OmittedPath, SuffixPath, Serving, With;
    forall key ensures key in mapping <==> key in IndexOf(omitted, all) {
      IndexKeys(omitted, all, key);
    }
    forall key | key in mapping ensures mapping[key] == IndexOf(omitted, all)[key] {
      assert mapping[key] == Serving(omitted, all, key);
    }
  }

  // ----- the router -----

  class Router {
    const apisTree: ATree
    var apiBuffer: seq<Api>
    var rawOmittedPaths: set<string>
    var idApiMapping: map<string, Api>
    var apisMapping: map<string, seq<Api>>
    ghost var nodes: Nodes

    /** Before closing: the buffer holds every API pushed, the tree only its root. */
    ghost predicate Collecting()
      reads this, nodes.Values
    {
      && IsTree(nodes) && nodes.Keys == {[]} && nodes[[]] == apisTree
      && Unwired(apisTree) && apisTree.element == NewBranch([], [])
      && rawOmittedPaths == RawOmitted(apiBuffer) && IdsOk(apiBuffer, idApiMapping)
      && apisMapping == map[]
    }

    /** After closing: tree, index and ids are those of the APIs. */
    ghost predicate Closed(apis: seq<Api>)
      reads this, nodes.Values
    {
      && Searchable(TrieOf(apis)) && [] in nodes && nodes[[]] == apisTree && apisTree.keys == []
      && Holds(nodes, TrieOf(apis))
      && rawOmittedPaths == RawOmitted(apis) && IdsOk(apis, idApiMapping)
      && apisMapping == IndexOf(rawOmittedPaths, apis)
    }

    constructor ()
      ensures Collecting() && apiBuffer == [] && idApiMapping == map[] && fresh(apisTree)
    {
      var root := new ATree(NewBranch([], []), null, []);
      apisTree := root;
      apiBuffer, rawOmittedPaths, idApiMapping, apisMapping := [], {}, map[], map[];
      nodes := map[[] := root];
      NoIds();
    }

    /** `push`. */
    method Push(api: Api)
      requires Collecting()
      modifies this
      ensures Collecting() && apiBuffer == old(apiBuffer) + [api]
      ensures idApiMapping == if api.id == [] then old(idApiMapping) else old(idApiMapping)[api.id := api]
      ensures nodes == old(nodes)
    {
      hide IsTree, NewBranch, Unwired, IdsOk;
      OneMoreId(apiBuffer, idApiMapping, api);
      if api.omission {
        rawOmittedPaths := rawOmittedPaths + {api.path};
      }
      if api.id != [] {
        idApiMapping := idApiMapping[api.id := api];
      }
      apiBuffer := apiBuffer + [api];
    }

    /** `build_tree`. False stands for the panic on a `?`, `*` or `+` variable in the middle. */
    method BuildTree() returns (ok: bool)
      requires Collecting() && Registrable(apiBuffer)
      modifies this`nodes, apisTree
      ensures ok <==> Unambiguous(apiBuffer)
      ensures [] in nodes && nodes[[]] == apisTree && apisTree.keys == []
      ensures ok ==> Holds(nodes, TrieOf(apiBuffer))
    {
      hide Registrable, Unambiguous, TrieOf, Contents, Wired, View, IsTree, IsAmbiguous, Plain, Passing, Elements,
           AllInside, TreePath,
           RawOmitted, IdsOk;
      RegistrablePaths(apiBuffer);
      nodes := BuildContents(apisTree, apiBuffer, nodes);
      StartPassing(apiBuffer, nodes);
      RootOk(nodes);
      ok := WireTree(apisTree, Contents(apiBuffer), nodes);
      AmbiguousApis(apiBuffer);
      if ok { ClosedTree(apiBuffer, nodes); }
    }

    /** `closing`: the tree is built, and the buffer emptied into the index. It fails when the
        tree cannot be built. */
    method Closing() returns (ok: bool)
      requires Collecting() && Registrable(apiBuffer) && Indexable(rawOmittedPaths, apiBuffer)
      requires forall api | api in apiBuffer :: IsSuffixSet(api.suffixes)
      modifies this`apiBuffer, this`apisMapping, this`nodes, apisTree
      ensures ok <==> Unambiguous(old(apiBuffer))
      ensures ok ==> Closed(old(apiBuffer)) && apiBuffer == []
    {
      hide Registrable, Indexable, Unambiguous, OmittedPath, IndexOf, With, Without, TrieOf, LeftOver, IndexedUpTo,
           SuffixesOf, IsSuffixSet,
           RawOmitted, Holds, Searchable, IdsOk;
      ghost var all := apiBuffer;
      ok := BuildTree();
      if !ok { return; }
      assert Searchable(TrieOf(all)) by { TrieIsSearchable(all); }
      ghost var done: set<string> := {};
      NothingDone(rawOmittedPaths, all);
      while apiBuffer != []
        invariant IndexedUpTo(rawOmittedPaths, all, done, apisMapping)
        invariant LeftOver(rawOmittedPaths, all, done, apiBuffer)
        decreases |apiBuffer|
        modifies this`apiBuffer, this`apisMapping
      {
        var api, buffer := Last(apiBuffer), Front(apiBuffer);
        assert apiBuffer == buffer + [api];
        LeftIsIndexable(rawOmittedPaths, all, done, buffer, api);
        var rest, apis, suffixes := TakeGroup(rawOmittedPaths, buffer, api);
        var path := OmittedPath(rawOmittedPaths, api.path);
        StillLeft(rawOmittedPaths, all, done, buffer, api);
        apisMapping := StoreGroup(rawOmittedPaths, all, done, path, apis, suffixes, apisMapping);
        done := done + {path};
        apiBuffer := rest;
      }
      AllDone(rawOmittedPaths, all, done, apisMapping);
    }

    /** The search from the root. */
    method MatchVarPath(path: string, ghost apis: seq<Api>) returns (r: MatchResult, ghost rounds: nat)
      requires Closed(apis)
      ensures r == ResultOf(TrieOf(apis), Search.MatchVarPath(TrieOf(apis), Keys(path)))
      ensures rounds <= |TrieOf(apis).Keys|
    {
      hide Holds, TrieOf, IndexOf, Searchable, IdsOk;
      r, rounds := MatchPath(apisTree, path, nodes, TrieOf(apis));
    }

    /** `locate`, for a request whose redirects come to an end. */
    method Locate(requestPath: string, accept: Api -> bool, ghost apis: seq<Api>, ghost n: nat) returns (r: Located)
      requires Closed(apis) && RedirectsEnd(RoutesOf(apis), accept, requestPath, n)
      ensures r == LocateFrom(RoutesOf(apis), accept, requestPath, map[], None, n)
    {
      hide Searchable, TrieOf, IndexOf, RawOmitted, Holds, SuffixPath, OmittedPath, IdsOk;
      ghost var rs := RoutesOf(apis);
      var path := requestPath;
      var args: map<string, PathParam>, suffix: Option<string> := map[], None;
      ghost var left := n;
      while true
        invariant RedirectsEnd(rs, accept, path, left)
        invariant LocateFrom(rs, accept, path, args, suffix, left)
            == LocateFrom(rs, accept, requestPath, map[], None, n)
        decreases left
      {
        var found := if path in apisMapping then Some(apisMapping[path]) else None;
        if found.None? {
          var matched, _ := MatchVarPath(path, apis);
          match matched {
            case Crashed => return Broken;
            case Unmatched =>
            case Matched(branchPath, pathArgs, s) =>
              var key := SuffixPath(OmittedPath(rawOmittedPaths, branchPath), s);
              found := if key in apisMapping then Some(apisMapping[key]) else None;
              args, suffix := pathArgs, Some(s);
          }
        }
        if found.None? { return Unrouted; }
        var api := FirstAccepted(found.value, accept);
        if api.None? { return Unrouted; }
        if api.value.redirect == [] { return Routed(api.value, args, suffix); }
        path, left := api.value.redirect, left - 1;
      }
    }

    /** `id_locate`: the last API pushed with the id, with nothing bound; no API has the empty id. */
    method IdLocate(id: string, ghost apis: seq<Api>) returns (r: Located)
      requires Closed(apis)
      ensures r.Routed? <==> HasId(apis, id)
      ensures r.Routed? ==> IsLatest(apis, id, r.api) && r.args == map[] && r.suffix == None
      ensures !r.Broken?
    {
      hide Holds, TrieOf, IndexOf, Searchable, HasId, IsLatest;
      if id !in idApiMapping { return Unrouted; }
      r := Routed(idApiMapping[id], map[], None);
    }
  }
}
