/** The hash index: what `closing` has to store, and why no group overwrites another. */
module Index {
  import opened Text
  import opened Apis
  import opened Branches

  // ----- omitted paths -----

  /** The keys among the first `n` whose prefix is not omitted. */
  function KeptKeys(omitted: set<string>, keys: Path, n: nat): Path
    requires n <= |keys|
  {
    if n == 0 then []
    else KeptKeys(omitted, keys, n - 1) + (if PathOf(keys[..n]) in omitted then [] else [keys[n - 1]])
  }

  /** `omitted_path`. */
  function OmittedPath(omitted: set<string>, path: string): string
  {
    PathOf(KeptKeys(omitted, Keys(path), |Keys(path)|))
  }

  /** `raw_omitted_paths` after every API was pushed. */
  function RawOmitted(apis: seq<Api>): set<string>
  {
    set api | api in apis && api.omission :: api.path
  }

  lemma {:induction false} KeptWithoutOmissions(keys: Path, n: nat)
    requires n <= |keys|
    ensures KeptKeys({}, keys, n) == keys[..n]
  {
    if n > 0 {
      KeptWithoutOmissions(keys, n - 1);
    }
  }

  /** The prefix that ends with this key is not omitted. */
  predicate IsKept(omitted: set<string>, keys: Path, i: nat)
  {
    i < |keys| && PathOf(keys[..i + 1]) !in omitted
  }

  /** A key whose prefix is not omitted is kept, after all kept keys before it. */
  lemma {:induction false} KeptInOrder(omitted: set<string>, keys: Path, i: nat, n: nat)
    requires i < n <= |keys| && IsKept(omitted, keys, i)
    ensures |KeptKeys(omitted, keys, i)| < |KeptKeys(omitted, keys, n)|
    ensures KeptKeys(omitted, keys, n)[|KeptKeys(omitted, keys, i)|] == keys[i]
  {
    if i + 1 < n {
      KeptInOrder(omitted, keys, i, n - 1);
    }
  }

  /** As many keys are kept as have a prefix that is not omitted. */
  lemma {:induction false} KeptCount(omitted: set<string>, keys: Path, n: nat)
    requires n <= |keys|
    ensures |KeptKeys(omitted, keys, n)| == |set i | 0 <= i < n && IsKept(omitted, keys, i)|
  {
    hide PathOf;
    if n > 0 {
      KeptCount(omitted, keys, n - 1);
      assert (set i | 0 <= i < n && IsKept(omitted, keys, i))
          == (set i | 0 <= i < n - 1 && IsKept(omitted, keys, i))
              + (if IsKept(omitted, keys, n - 1) then {n - 1} else {});
    }
  }

  /** The sequence lists the positions in order. */
  ghost predicate Lists(keep: seq<nat>, positions: set<nat>)
  {
    && (forall i, j | 0 <= i < j < |keep| :: keep[i] < keep[j])
    && (forall j | 0 <= j < |keep| :: keep[j] in positions)
    && (forall i | i in positions :: i in keep)
  }

  /** The keys at these positions. */
  function Picked(keys: Path, keep: seq<nat>): (r: Path)
    requires forall j | 0 <= j < |keep| :: keep[j] < |keys|
    ensures |r| == |keep| && forall j | 0 <= j < |r| :: r[j] == keys[keep[j]]
  {
    seq(|keep|, j requires 0 <= j < |keep| => keys[keep[j]])
  }

  /** The positions of the keys whose prefix is not omitted. */
  function KeptAt(omitted: set<string>, keys: Path, n: nat): (r: set<nat>)
    ensures forall i | i in r :: i < |keys|
  {
    set i: nat | i < |keys| && i < n && IsKept(omitted, keys, i)
  }

  lemma LastListed(keep: seq<nat>, positions: set<nat>, n: nat)
    requires Lists(keep, positions) && n in positions && forall i | i in positions :: i <= n
    ensures keep != [] && Last(keep) == n && Lists(Front(keep), positions - {n})
  {
    var at :| 0 <= at < |keep| && keep[at] == n;
    assert Last(keep) in positions;
    assert keep == Front(keep) + [Last(keep)];
  }

  lemma {:induction false} KeptArePicked(omitted: set<string>, keys: Path, n: nat, keep: seq<nat>)
    requires n <= |keys| && Lists(keep, KeptAt(omitted, keys, n))
    ensures KeptKeys(omitted, keys, n) == Picked(keys, keep)
  {
    if n > 0 {
      var before := KeptAt(omitted, keys, n - 1);
      if IsKept(omitted, keys, n - 1) {
        LastListed(keep, KeptAt(omitted, keys, n), n - 1);
        assert KeptAt(omitted, keys, n) - {n - 1} == before;
        KeptArePicked(omitted, keys, n - 1, Front(keep));
        assert Picked(keys, keep) == Picked(keys, Front(keep)) + [keys[n - 1]];
      } else {
        assert KeptAt(omitted, keys, n) == before;
        KeptArePicked(omitted, keys, n - 1, keep);
      }
    }
  }

  /** The keys of an omitted path are just those whose prefix is not omitted, in their order; with
      none of them left it is the empty text. */
  lemma OmittedPathKeeps(omitted: set<string>, path: string, keep: seq<nat>)
    requires Lists(keep, KeptAt(omitted, Keys(path), |Keys(path)|))
    ensures OmittedPath(omitted, path) == PathOf(Picked(Keys(path), keep))
    ensures keep == [] ==> OmittedPath(omitted, path) == ""
    ensures keep != [] ==> Keys(OmittedPath(omitted, path)) == Picked(Keys(path), keep)
  {
    hide Keys, KeptAt;
    KeptArePicked(omitted, Keys(path), |Keys(path)|, keep);
    PathOfKeys(path);
    if keep != [] { KeysOfPathOf(Picked(Keys(path), keep)); }
  }

  /** With nothing omitted, the omitted path is the path. */
  lemma OmittedPathOfNone(path: string)
    ensures OmittedPath({}, path) == path
  {
    KeptWithoutOmissions(Keys(path), |Keys(path)|);
    assert Keys(path)[..|Keys(path)|] == Keys(path);
    PathOfKeys(path);
  }

  lemma {:induction false} KeptAreKeys(omitted: set<string>, keys: Path, n: nat)
    requires n <= |keys|
    ensures forall k | k in KeptKeys(omitted, keys, n) :: k in keys
  {
    if n > 0 {
      KeptAreKeys(omitted, keys, n - 1);
    }
  }

  /** Omitting parts brings no boundary into a path. */
  lemma OmittedPathDotFree(omitted: set<string>, path: string)
    requires SUFFIX_BOUNDARY !in path
    ensures SUFFIX_BOUNDARY !in OmittedPath(omitted, path)
  {
    hide Split, Join;
    SplitKeepsOut(path, PATH_PART_SEPARATOR, SUFFIX_BOUNDARY);
    KeptAreKeys(omitted, Keys(path), |Keys(path)|);
    var kept := KeptKeys(omitted, Keys(path), |Keys(path)|);
    assert forall i | 0 <= i < |kept| :: kept[i] in kept;
    JoinKeepsOut(KeptKeys(omitted, Keys(path), |Keys(path)|), PATH_PART_SEPARATOR, SUFFIX_BOUNDARY);
  }

  // ----- what the index holds -----

  /** The API answers requests for `key`: one of its suffixes makes the key. */
  predicate Serves(omitted: set<string>, api: Api, key: string)
  {
    exists s | s in api.suffixes :: SuffixPath(OmittedPath(omitted, api.path), s) == key
  }

  /** The APIs that answer `key`, in push order. */
  function Serving(omitted: set<string>, apis: seq<Api>, key: string): (r: seq<Api>)
    ensures forall api :: api in r <==> api in apis && Serves(omitted, api, key)
  {
    if apis == [] then []
    else if Serves(omitted, apis[0], key) then [apis[0]] + Serving(omitted, apis[1..], key)
    else Serving(omitted, apis[1..], key)
  }

  /** In push order, each once: one API more comes last. */
  lemma {:induction false} ServingSnoc(omitted: set<string>, apis: seq<Api>, api: Api, key: string)
    ensures Serving(omitted, apis + [api], key)
         == Serving(omitted, apis, key) + (if Serves(omitted, api, key) then [api] else [])
  {
    hide Serves;
    if apis == [] {
      assert apis + [api] == [api] && [api][1..] == [];
    } else {
      assert (apis + [api])[1..] == apis[1..] + [api];
      ServingSnoc(omitted, apis[1..], api, key);
    }
  }

  /** Every omitted path followed by every suffix of its APIs. */
  function ServedKeys(omitted: set<string>, apis: seq<Api>): set<string>
  {
    set api, s | api in apis && s in api.suffixes :: SuffixPath(OmittedPath(omitted, api.path), s)
  }

  /** The index that `closing` must leave behind. */
  function IndexOf(omitted: set<string>, apis: seq<Api>): map<string, seq<Api>>
  {
    map key | key in ServedKeys(omitted, apis) :: Serving(omitted, apis, key)
  }

  // ----- keys tell paths and suffixes apart -----

  /** A key splits at its first boundary: path and suffix can be read off it. */
  lemma SuffixPathInjective(p1: string, s1: string, p2: string, s2: string)
    requires SUFFIX_BOUNDARY !in p1 && SUFFIX_BOUNDARY !in p2
    requires SuffixPath(p1, s1) == SuffixPath(p2, s2)
    ensures p1 == p2 && s1 == s2
  {
    var k := SuffixPath(p1, s1);
    assert k[..|p1|] == p1 && k[..|p2|] == p2;
    if s1 != [] { assert k[|p1|] == SUFFIX_BOUNDARY && k[|p1| + 1..] == s1; }
    if s2 != [] { assert k[|p2|] == SUFFIX_BOUNDARY && k[|p2| + 1..] == s2; }
    assert |p1| == |p2|;
  }

  function AsciiLower(c: char): char
  {
    if 'A' <= c <= 'Z' then (c as int + 32) as char else c
  }

  /** `eq_ignore_ascii_case`. */
  predicate EqIgnoreCase(a: string, b: string)
  {
    |a| == |b| && forall i | 0 <= i < |a| :: AsciiLower(a[i]) == AsciiLower(b[i])
  }

  /** What the index relies on: no boundary in a registered path, and omitted paths that are
      equal ignoring case are equal. */
  ghost predicate Indexable(omitted: set<string>, apis: seq<Api>)
  {
    && (forall api | api in apis :: SUFFIX_BOUNDARY !in OmittedPath(omitted, api.path))
    && (forall a, b | a in apis && b in apis ::
          EqIgnoreCase(OmittedPath(omitted, a.path), OmittedPath(omitted, b.path))
          ==> OmittedPath(omitted, a.path) == OmittedPath(omitted, b.path))
  }

  // ----- groups by omitted path -----

  /** The APIs with this omitted path, in push order. */
  function With(omitted: set<string>, apis: seq<Api>, path: string): (r: seq<Api>)
    ensures forall api :: api in r <==> api in apis && OmittedPath(omitted, api.path) == path
  {
    if apis == [] then []
    else if OmittedPath(omitted, apis[0].path) == path then [apis[0]] + With(omitted, apis[1..], path)
    else With(omitted, apis[1..], path)
  }

  /** The APIs with another omitted path, in push order. */
  function Without(omitted: set<string>, apis: seq<Api>, path: string): (r: seq<Api>)
    ensures forall api :: api in r <==> api in apis && OmittedPath(omitted, api.path) != path
    ensures |r| <= |apis|
  {
    if apis == [] then []
    else if OmittedPath(omitted, apis[0].path) != path then [apis[0]] + Without(omitted, apis[1..], path)
    else Without(omitted, apis[1..], path)
  }

  /** `apis.iter().filter(|api| api.suffixes().contains(suffix))`. */
  function WithSuffix(apis: seq<Api>, suffix: string): seq<Api>
  {
    if apis == [] then []
    else if suffix in apis[0].suffixes then [apis[0]] + WithSuffix(apis[1..], suffix)
    else WithSuffix(apis[1..], suffix)
  }

  lemma {:induction false} WithConcat(omitted: set<string>, a: seq<Api>, b: seq<Api>, path: string)
    ensures With(omitted, a + b, path) == With(omitted, a, path) + With(omitted, b, path)
  {
    hide OmittedPath;
    if a == [] {
      assert a + b == b;
    } else {
      assert (a + b)[1..] == a[1..] + b;
      WithConcat(omitted, a[1..], b, path);
    }
  }

  lemma {:induction false} WithoutConcat(omitted: set<string>, a: seq<Api>, b: seq<Api>, path: string)
    ensures Without(omitted, a + b, path) == Without(omitted, a, path) + Without(omitted, b, path)
  {
    hide OmittedPath;
    if a == [] {
      assert a + b == b;
    } else {
      assert (a + b)[1..] == a[1..] + b;
      WithoutConcat(omitted, a[1..], b, path);
    }
  }

  /** Taking one group away leaves every other group as it was. */
  lemma {:induction false} OtherGroupsStay(omitted: set<string>, apis: seq<Api>, gone: string, path: string)
    requires gone != path
    ensures With(omitted, Without(omitted, apis, gone), path) == With(omitted, apis, path)
  {
    hide OmittedPath;
    if apis != [] {
      OtherGroupsStay(omitted, apis[1..], gone, path);
      var rest := Without(omitted, apis[1..], gone);
      assert ([apis[0]] + rest)[1..] == rest;
    }
  }

  /** Where serving a key is declaring its suffix within one group, the APIs that serve it are
      those of the group that declare the suffix. */
  lemma {:induction false} ServingInGroup(omitted: set<string>, apis: seq<Api>, path: string, suffix: string)
    requires forall api | api in apis ::
               Serves(omitted, api, SuffixPath(path, suffix))
               <==> OmittedPath(omitted, api.path) == path && suffix in api.suffixes
    ensures WithSuffix(With(omitted, apis, path), suffix) == Serving(omitted, apis, SuffixPath(path, suffix))
  {
    hide OmittedPath, SuffixPath, Serves;
    if apis != [] {
      assert forall api | api in apis[1..] :: api in apis;
      ServingInGroup(omitted, apis[1..], path, suffix);
      var rest := With(omitted, apis[1..], path);
      assert ([apis[0]] + rest)[1..] == rest;
    }
  }

  /** Within a group, serving a key is declaring its suffix. */
  lemma ServesInGroup(omitted: set<string>, api: Api, path: string, suffix: string)
    requires SUFFIX_BOUNDARY !in OmittedPath(omitted, api.path) && SUFFIX_BOUNDARY !in path
    ensures Serves(omitted, api, SuffixPath(path, suffix))
       <==> OmittedPath(omitted, api.path) == path && suffix in api.suffixes
  {
    hide OmittedPath, SuffixPath;
    if Serves(omitted, api, SuffixPath(path, suffix)) {
      var s :| s in api.suffixes && SuffixPath(OmittedPath(omitted, api.path), s) == SuffixPath(path, suffix);
      SuffixPathInjective(OmittedPath(omitted, api.path), s, path, suffix);
    }
  }

  /** The list stored for a suffix of a group is the list of all APIs that serve the key. */
  lemma GroupServes(omitted: set<string>, apis: seq<Api>, path: string, suffix: string)
    requires forall api | api in apis :: SUFFIX_BOUNDARY !in OmittedPath(omitted, api.path)
    requires SUFFIX_BOUNDARY !in path
    ensures WithSuffix(With(omitted, apis, path), suffix) == Serving(omitted, apis, SuffixPath(path, suffix))
  {
    hide OmittedPath, SuffixPath, Serves;
    forall api | api in apis
      ensures Serves(omitted, api, SuffixPath(path, suffix))
         <==> OmittedPath(omitted, api.path) == path && suffix in api.suffixes
    {
      ServesInGroup(omitted, api, path, suffix);
    }
    ServingInGroup(omitted, apis, path, suffix);
  }

  // ----- looking up what a match leads to -----

  /** The key of an API and a suffix. */
  function KeyOf(omitted: set<string>, api: Api, suffix: string): string
  {
    SuffixPath(OmittedPath(omitted, api.path), suffix)
  }

  /** No key of a group is what the search makes of another one: it looks up declared suffixes and
      the empty one. */
  ghost predicate KeysTold(omitted: set<string>, apis: seq<Api>)
  {
    forall a, s, b, other | a in apis && b in apis && (s == [] || s in a.suffixes) && other in b.suffixes ::
      KeyOf(omitted, a, s) == KeyOf(omitted, b, other)
      ==> OmittedPath(omitted, a.path) == OmittedPath(omitted, b.path)
  }

  lemma IndexableIsTold(omitted: set<string>, apis: seq<Api>)
    requires forall api | api in apis :: SUFFIX_BOUNDARY !in OmittedPath(omitted, api.path)
    ensures KeysTold(omitted, apis)
  {
    hide OmittedPath, SuffixPath;
    forall a, s, b, other | a in apis && b in apis && KeyOf(omitted, a, s) == KeyOf(omitted, b, other)
      ensures OmittedPath(omitted, a.path) == OmittedPath(omitted, b.path)
    {
      SuffixPathInjective(OmittedPath(omitted, a.path), s, OmittedPath(omitted, b.path), other);
    }
  }

  lemma LastPartOfKey(path: string, suffix: string)
    requires PATH_PART_SEPARATOR !in suffix
    ensures LastPartFrom(SuffixPath(path, suffix)) == LastPartFrom(path)
    ensures LastPart(SuffixPath(path, suffix)) == SuffixPath(LastPart(path), suffix)
  {
    var key, from := SuffixPath(path, suffix), LastPartFrom(path);
    assert forall i | from <= i < |path| :: key[i] == path[from..][i - from];
    assert forall i | |path| < i < |key| :: key[i] == suffix[i - |path| - 1];
    assert from > 0 ==> key[from - 1] == path[from - 1];
    assert forall i | 0 <= i < from :: key[i..][from - 1 - i] == key[from - 1];
    assert key[from..] == SuffixPath(path[from..], suffix);
  }

  lemma SamePath(a: string, b: string, suffix: string)
    requires SuffixPath(a, suffix) == SuffixPath(b, suffix)
    ensures a == b
  {
    var key := SuffixPath(a, suffix);
    assert |a| == |b| && key[..|a|] == a && key[..|a|] == b;
  }

  /** What is constructed can be told by its last part, which holds no boundary before the suffix. */
  lemma ConstructedKey(a: Api, s: string, b: Api, other: string)
    requires IsConstructed(a) && IsConstructed(b) && (s == [] || s in a.suffixes) && other in b.suffixes
    requires SuffixPath(a.path, s) == SuffixPath(b.path, other)
    ensures a.path == b.path && s == other
  {
    hide SuffixPath, LastPart;
    LastPartOfKey(a.path, s);
    LastPartOfKey(b.path, other);
    SuffixPathInjective(LastPart(a.path), s, LastPart(b.path), other);
    SamePath(a.path, b.path, s);
  }

  lemma SameSuffix(path: string, s: string, other: string)
    requires SuffixPath(path, s) == SuffixPath(path, other)
    ensures s == other
  {
    var key := SuffixPath(path, s);
    assert s != [] ==> key[|path| + 1..] == s;
    assert other != [] ==> key[|path| + 1..] == other;
  }

  ghost predicate AllConstructed(apis: seq<Api>)
  {
    forall api | api in apis :: IsConstructed(api)
  }

  lemma ConstructedIsTold(apis: seq<Api>)
    requires AllConstructed(apis)
    ensures KeysTold({}, apis)
  {
    hide OmittedPath, SuffixPath, IsConstructed;
    forall a, s, b, other | a in apis && b in apis && (s == [] || s in a.suffixes) && other in b.suffixes
        && KeyOf({}, a, s) == KeyOf({}, b, other)
      ensures OmittedPath({}, a.path) == OmittedPath({}, b.path)
    {
      OmittedPathOfNone(a.path);
      OmittedPathOfNone(b.path);
      ConstructedKey(a, s, b, other);
    }
  }

  /** Looking up what the search found: the index holds the key exactly when some API with the
      omitted path declares the suffix, and then just these APIs, in push order. */
  lemma KeyIsIndexed(omitted: set<string>, apis: seq<Api>, api: Api, suffix: string)
    requires KeysTold(omitted, apis) && api in apis && (suffix == [] || suffix in api.suffixes)
    ensures
      var group := WithSuffix(With(omitted, apis, OmittedPath(omitted, api.path)), suffix);
      var key := KeyOf(omitted, api, suffix);
      && (key in IndexOf(omitted, apis) <==> group != [])
      && (key in IndexOf(omitted, apis) ==> IndexOf(omitted, apis)[key] == group)
  {
    hide OmittedPath, SuffixPath;
    var path := OmittedPath(omitted, api.path);
    forall b | b in apis
      ensures Serves(omitted, b, SuffixPath(path, suffix))
         <==> OmittedPath(omitted, b.path) == path && suffix in b.suffixes
    {
      if Serves(omitted, b, SuffixPath(path, suffix)) {
        var s :| s in b.suffixes && SuffixPath(OmittedPath(omitted, b.path), s) == SuffixPath(path, suffix);
        assert KeyOf(omitted, api, suffix) == KeyOf(omitted, b, s);
        SameSuffix(path, suffix, s);
      }
    }
    ServingInGroup(omitted, apis, path, suffix);
    var serving := Serving(omitted, apis, KeyOf(omitted, api, suffix));
    assert serving != [] ==> serving[0] in serving;
  }

  // ----- omitted paths in the index -----

  /** An omissible API is registered under the keys up to this one. */
  predicate IsOmittedAt(apis: seq<Api>, keys: Path, i: nat)
    requires i < |keys|
  {
    exists api | api in apis && api.omission :: api.path == PathOf(keys[..i + 1])
  }

  /** The positions of the keys at which none is. */
  function StaysAt(apis: seq<Api>, keys: Path): (r: set<nat>)
    ensures forall i | i in r :: i < |keys|
  {
    set i: nat | i < |keys| && !IsOmittedAt(apis, keys, i)
  }

  lemma StaysIsKept(apis: seq<Api>, keys: Path)
    ensures StaysAt(apis, keys) == KeptAt(RawOmitted(apis), keys, |keys|)
  {
    hide PathOf;
  }

  lemma ServedIsIndexed(omitted: set<string>, apis: seq<Api>, api: Api, s: string)
    requires api in apis && s in api.suffixes
    ensures
      var key := KeyOf(omitted, api, s);
      key in IndexOf(omitted, apis) && api in IndexOf(omitted, apis)[key]
  {
    hide OmittedPath, SuffixPath;
  }

  /** An API is indexed under the keys of its path at which no omissible API is registered, followed
      by each of its suffixes. */
  lemma IndexedWithoutOmitted(apis: seq<Api>, api: Api, s: string, keep: seq<nat>)
    requires api in apis && s in api.suffixes && Lists(keep, StaysAt(apis, Keys(api.path)))
    ensures
      var index := IndexOf(RawOmitted(apis), apis);
      var key := SuffixPath(PathOf(Picked(Keys(api.path), keep)), s);
      key in index && api in index[key]
  {
    hide OmittedPath, SuffixPath, Keys, Picked, PathOf, IndexOf, StaysAt, KeptAt, RawOmitted;
    StaysIsKept(apis, Keys(api.path));
    OmittedPathKeeps(RawOmitted(apis), api.path, keep);
    ServedIsIndexed(RawOmitted(apis), apis, api, s);
  }

  lemma KeysOfOne(key: string)
    requires PATH_PART_SEPARATOR !in key
    ensures Keys(key) == [key] && PathOf([key]) == key
  {
    SplitOfPart(key, PATH_PART_SEPARATOR);
  }

  lemma KeysOfTwo(a: string, b: string)
    requires PATH_PART_SEPARATOR !in a && PATH_PART_SEPARATOR !in b
    ensures Keys(a + [PATH_PART_SEPARATOR] + b) == [a, b] && PathOf([a, b]) == a + [PATH_PART_SEPARATOR] + b
  {
    SplitAtSeparator(a, b, PATH_PART_SEPARATOR);
    SplitOfPart(b, PATH_PART_SEPARATOR);
    JoinSnoc([a], b, PATH_PART_SEPARATOR);
    assert [a] + [b] == [a, b];
  }

  /** An omissible API at a path of one key is indexed under the empty key. */
  lemma OmittedIsEmpty(apis: seq<Api>, home: Api)
    requires home in apis && home.omission && PATH_PART_SEPARATOR !in home.path && "" in home.suffixes
    ensures
      var all := IndexOf(RawOmitted(apis), apis);
      "" in all && home in all[""]
  {
    KeysOfOne(home.path);
    hide Keys, IndexOf;
    var keys := Keys(home.path);
    assert keys[..1] == keys;
    assert IsOmittedAt(apis, keys, 0);
    IndexedWithoutOmitted(apis, home, "", []);
    assert Picked(keys, []) == [];
  }

  /** What is below it is indexed under its own key. */
  lemma BelowOmitted(apis: seq<Api>, home: Api, key: string, api: Api)
    requires home in apis && home.omission && PATH_PART_SEPARATOR !in home.path && PATH_PART_SEPARATOR !in key
    requires api in apis && api.path == home.path + [PATH_PART_SEPARATOR] + key && "" in api.suffixes
    requires forall other | other in apis && other.path == api.path :: !other.omission
    ensures
      var all := IndexOf(RawOmitted(apis), apis);
      key in all && api in all[key]
  {
    KeysOfOne(key);
    KeysOfOne(home.path);
    KeysOfTwo(home.path, key);
    hide Keys, IndexOf, PathOf;
    var keys := [home.path, key];
    assert keys[..1] == [home.path] && keys[..2] == keys;
    assert IsOmittedAt(apis, keys, 0) && !IsOmittedAt(apis, keys, 1);
    IndexedWithoutOmitted(apis, api, "", [1]);
    assert Picked(keys, [1]) == [key];
  }
}
