/** The routed part of a request's context. */
module Requests {
  import opened Text
  import opened Apis
  import opened Matching
  import opened Index

  /** The suffix a context reports: the one routing found, or the first declared dotted tail of
      the request path. */
  function SuffixOf(api: Option<Api>, routed: Option<string>, path: string): (s: string)
    ensures routed.Some? ==> routed == Some(s)
    ensures routed.None? && s != [] ==> api.Some? && s in api.value.suffixes && IsDottedTail(path, s)
  {
    if routed.Some? then routed.value
    else if api.None? then []
    else
      match FirstTail(api.value.suffixes, path)
      case Some(s) => s
      case None => []
  }

  /** Without a routed suffix, the longest declared one that the request path ends with. */
  lemma ReportedIsLongest(api: Api, path: string, tail: string)
    requires IsSuffixSet(api.suffixes) && tail in api.suffixes && IsDottedTail(path, tail)
    ensures
      var s := SuffixOf(Some(api), None, path);
      s in api.suffixes && IsDottedTail(path, s) && |tail| <= |s|
  {
    LongestSuffixWins(api.suffixes, path, tail);
  }

  class Context {
    const path: string
    var api: Option<Api>
    var pathParams: Args
    var suffix: Option<string>

    constructor (path: string)
      ensures this.path == path && api == None && pathParams == map[] && suffix == None
    {
      this.path := path;
      api, pathParams, suffix := None, map[], None;
    }

    /** `set_routed_info`: a suffix reported before is forgotten. */
    method SetRoutedInfo(api: Api, params: Args, suffix: Option<string>)
      modifies this
      ensures this.api == Some(api) && pathParams == params && this.suffix == suffix
    {
      this.api, pathParams, this.suffix := Some(api), params, suffix;
    }

    /** `suffix`: looked for once, then remembered. */
    method Suffix() returns (s: string)
      modifies this`suffix
      ensures s == SuffixOf(api, old(suffix), path) && suffix == Some(s)
    {
      if suffix.None? {
        if api.Some? {
          suffix := FirstTail(api.value.suffixes, path);
        }
        if suffix.None? {
          suffix := Some([]);
        }
      }
      s := suffix.value;
    }
  }

  /** A dotted tail of a path with one suffix appended starts inside the suffix. */
  lemma TailInsideSuffix(path: string, s: string, tail: string)
    requires SUFFIX_BOUNDARY !in path && IsDottedTail(SuffixPath(path, s), tail)
    ensures s != [] && |tail| <= |s|
  {
    var key := SuffixPath(path, s);
    var at := |key| - |tail| - 1;
    assert key[at..][0] == SUFFIX_BOUNDARY;
    assert forall i | 0 <= i < |path| :: key[i] == path[i];
  }

  /** On a direct hit, the suffix reported is the one that made the key of the index. */
  lemma DirectHitSuffix(omitted: set<string>, api: Api, key: string)
    requires IsSuffixSet(api.suffixes) && SUFFIX_BOUNDARY !in OmittedPath(omitted, api.path)
    requires Serves(omitted, api, key)
    ensures
      var s := SuffixOf(Some(api), None, key);
      s in api.suffixes && SuffixPath(OmittedPath(omitted, api.path), s) == key
  {
    hide OmittedPath, IsSuffixSet;
    var path := OmittedPath(omitted, api.path);
    var s :| s in api.suffixes && SuffixPath(path, s) == key;
    var found := FirstTail(api.suffixes, key);
    if found.Some? {
      TailInsideSuffix(path, s, found.value);
    }
    if s != [] {
      assert key[|path|..] == [SUFFIX_BOUNDARY] + s;
      assert IsDottedTail(key, s);
      LongestSuffixWins(api.suffixes, key, s);
    }
  }
}
