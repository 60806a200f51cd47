/** `locate` as a function of the tree and the index: the index first, the search second, and
    redirects followed from path to path. */
module Routing {
  import opened Text
  import opened Apis
  import opened Branches
  import opened Frontier
  import opened Wiring
  import opened Search
  import opened Matching
  import opened Soundness
  import opened Index
  import opened Matchers

  /** What a closed router looks paths up in. */
  datatype Routes = Routes(trie: Trie, omitted: set<string>, index: map<string, seq<Api>>)

  /** `bound` is what the search bound; a direct hit binds nothing. */
  datatype LookUpResult = Hit(apis: seq<Api>, bound: Option<(Args, string)>) | Miss | Crash

  /** The result of `locate`. `Broken` is the panic of the search. */
  datatype Located = Routed(api: Api, args: Args, suffix: Option<string>) | Unrouted | Broken

  ghost function RoutesOf(apis: seq<Api>): Routes
  {
    Routes(TrieOf(apis), RawOmitted(apis), IndexOf(RawOmitted(apis), apis))
  }

  /** One look-up: the index, or the search and then the index. */
  ghost function LookUpPath(rs: Routes, path: string): LookUpResult
    requires Searchable(rs.trie)
  {
    if path in rs.index then Hit(rs.index[path], None)
    else
      match ResultOf(rs.trie, MatchVarPath(rs.trie, Keys(path)))
      case Unmatched => Miss
      case Crashed => Crash
      case Matched(branchPath, args, suffix) =>
        var key := SuffixPath(OmittedPath(rs.omitted, branchPath), suffix);
        if key in rs.index then Hit(rs.index[key], Some((args, suffix))) else Miss
  }

  /** `api_match`: the first API whose method accepts the request. */
  function FirstAccepted(apis: seq<Api>, accept: Api -> bool): (r: Option<Api>)
    ensures r.Some? ==> r.value in apis && accept(r.value)
    ensures r.None? ==> forall api | api in apis :: !accept(api)
  {
    if apis == [] then None
    else if accept(apis[0]) then Some(apis[0])
    else FirstAccepted(apis[1..], accept)
  }

  /** It is the first to accept the request. */
  lemma {:induction false} FirstComesFirst(apis: seq<Api>, accept: Api -> bool) returns (i: nat)
    requires FirstAccepted(apis, accept).Some?
    ensures i < |apis| && apis[i] == FirstAccepted(apis, accept).value
    ensures forall j | 0 <= j < i :: !accept(apis[j])
  {
    if accept(apis[0]) {
      i := 0;
    } else {
      i := FirstComesFirst(apis[1..], accept);
      assert forall j | 0 < j < |apis| :: apis[j] == apis[1..][j - 1];
      i := i + 1;
    }
  }

  /** Where the look-up of a path is redirected to. */
  ghost function Redirect(rs: Routes, accept: Api -> bool, path: string): Option<string>
    requires Searchable(rs.trie)
  {
    match LookUpPath(rs, path)
    case Hit(apis, _) =>
      (match FirstAccepted(apis, accept)
       case Some(api) => if api.redirect == [] then None else Some(api.redirect)
       case None => None)
    case _ => None
  }

  /** At most `n` redirects follow one another from `path` on. */
  ghost predicate RedirectsEnd(rs: Routes, accept: Api -> bool, path: string, n: nat)
    requires Searchable(rs.trie)
    decreases n
  {
    var next := Redirect(rs, accept, path);
    next.None? || (n > 0 && RedirectsEnd(rs, accept, next.value, n - 1))
  }

  lemma NextEnds(rs: Routes, accept: Api -> bool, path: string, n: nat)
    requires Searchable(rs.trie) && RedirectsEnd(rs, accept, path, n)
    ensures Redirect(rs, accept, path).Some?
        ==> n > 0 && RedirectsEnd(rs, accept, Redirect(rs, accept, path).value, n - 1)
  {
    hide Searchable, Redirect;
  }

  /** `locate`: bindings and suffix of an earlier search stay when a redirect hits the index. */
  ghost function LocateFrom(rs: Routes, accept: Api -> bool, path: string, args: Args, suffix: Option<string>,
                            n: nat): Located
    requires Searchable(rs.trie) && RedirectsEnd(rs, accept, path, n)
    decreases n
  {
    match LookUpPath(rs, path)
    case Miss => Unrouted
    case Crash => Broken
    case Hit(apis, bound) =>
      var args' := if bound.Some? then bound.value.0 else args;
      var suffix' := if bound.Some? then Some(bound.value.1) else suffix;
      match FirstAccepted(apis, accept)
      case None => Unrouted
      case Some(api) =>
        if api.redirect == [] then Routed(api, args', suffix')
        else
          NextEnds(rs, accept, path, n);
          LocateFrom(rs, accept, api.redirect, args', suffix', n - 1)
  }

  /** The bound on the redirects does not show in the result. */
  lemma {:induction false} BoundIsIrrelevant(rs: Routes, accept: Api -> bool, path: string, args: Args,
                                             suffix: Option<string>, n: nat, m: nat)
    requires Searchable(rs.trie) && RedirectsEnd(rs, accept, path, n) && RedirectsEnd(rs, accept, path, m)
    ensures LocateFrom(rs, accept, path, args, suffix, n) == LocateFrom(rs, accept, path, args, suffix, m)
    decreases n
  {
    hide Searchable, LookUpPath;
    var found := LookUpPath(rs, path);
    if found.Hit? && Redirect(rs, accept, path).Some? {
      var args' := if found.bound.Some? then found.bound.value.0 else args;
      var suffix' := if found.bound.Some? then Some(found.bound.value.1) else suffix;
      BoundIsIrrelevant(rs, accept, Redirect(rs, accept, path).value, args', suffix', n - 1, m - 1);
    }
  }

  /** The path after `n` redirects, if there are that many. */
  ghost function After(rs: Routes, accept: Api -> bool, path: string, n: nat): Option<string>
    requires Searchable(rs.trie)
    decreases n
  {
    if n == 0 then Some(path)
    else
      match Redirect(rs, accept, path)
      case None => None
      case Some(next) => After(rs, accept, next, n - 1)
  }

  lemma {:induction false} AfterAdds(rs: Routes, accept: Api -> bool, path: string, n: nat, m: nat)
    requires Searchable(rs.trie) && After(rs, accept, path, n).Some?
    ensures After(rs, accept, path, n + m) == After(rs, accept, After(rs, accept, path, n).value, m)
    decreases n
  {
    hide Searchable, Redirect;
    if n > 0 {
      AfterAdds(rs, accept, Redirect(rs, accept, path).value, n - 1, m);
    }
  }

  /** Redirects that lead back never end: `locate` loops. */
  lemma {:induction false} CyclesNeverEnd(rs: Routes, accept: Api -> bool, path: string, cycle: nat, n: nat)
    requires Searchable(rs.trie) && cycle > 0 && After(rs, accept, path, cycle) == Some(path)
    ensures !RedirectsEnd(rs, accept, path, n)
    decreases n
  {
    hide Searchable, Redirect;
    var next := Redirect(rs, accept, path).value;
    if n > 0 {
      // the next path is on the same cycle
      AfterAdds(rs, accept, path, cycle, 1);
      AfterAdds(rs, accept, path, 1, cycle);
      assert After(rs, accept, path, 1) == Some(next);
      CyclesNeverEnd(rs, accept, next, cycle, n - 1);
    }
  }

  /** What is routed takes the request, and redirects nowhere. */
  lemma {:induction false} RoutedIsFinal(rs: Routes, accept: Api -> bool, path: string, args: Args,
                                         suffix: Option<string>, n: nat)
    requires Searchable(rs.trie) && RedirectsEnd(rs, accept, path, n)
    ensures
      var r := LocateFrom(rs, accept, path, args, suffix, n);
      r.Routed? ==> r.api.redirect == [] && accept(r.api)
    decreases n
  {
    hide Searchable, LookUpPath;
    var found := LookUpPath(rs, path);
    if found.Hit? && Redirect(rs, accept, path).Some? {
      var args' := if found.bound.Some? then found.bound.value.0 else args;
      var suffix' := if found.bound.Some? then Some(found.bound.value.1) else suffix;
      RoutedIsFinal(rs, accept, Redirect(rs, accept, path).value, args', suffix', n - 1);
    }
  }

  // ----- whether the redirects end -----

  /** Where indexed APIs redirect to. */
  ghost function Targets(index: map<string, seq<Api>>): set<string>
  {
    set key, api | key in index && api in index[key] && api.redirect != [] :: api.redirect
  }

  lemma RedirectIsTarget(rs: Routes, accept: Api -> bool, path: string)
    requires Searchable(rs.trie)
    ensures Redirect(rs, accept, path).Some? ==> Redirect(rs, accept, path).value in Targets(rs.index)
  {
    hide Searchable, MatchVarPath, ResultOf, SuffixPath, OmittedPath;
  }

  lemma {:induction false} AfterIsTarget(rs: Routes, accept: Api -> bool, path: string, n: nat)
    requires Searchable(rs.trie) && n > 0
    ensures After(rs, accept, path, n).Some? ==> After(rs, accept, path, n).value in Targets(rs.index)
    decreases n
  {
    hide Searchable, Redirect, Targets;
    RedirectIsTarget(rs, accept, path);
    if Redirect(rs, accept, path).Some? {
      if n > 1 {
        AfterIsTarget(rs, accept, Redirect(rs, accept, path).value, n - 1);
      } else {
        assert After(rs, accept, Redirect(rs, accept, path).value, 0) == Redirect(rs, accept, path);
      }
    }
  }

  /** The redirects end within `n` exactly when there are no more than `n`. */
  lemma {:induction false} EndsMeans(rs: Routes, accept: Api -> bool, path: string, n: nat)
    requires Searchable(rs.trie)
    ensures RedirectsEnd(rs, accept, path, n) <==> After(rs, accept, path, n + 1).None?
    decreases n
  {
    hide Searchable, Redirect;
    var next := Redirect(rs, accept, path);
    if next.Some? {
      if n > 0 {
        EndsMeans(rs, accept, next.value, n - 1);
      } else {
        assert After(rs, accept, next.value, 0) == next;
      }
    }
  }

  lemma {:induction false} AfterBefore(rs: Routes, accept: Api -> bool, path: string, n: nat, m: nat)
    requires Searchable(rs.trie) && m <= n && After(rs, accept, path, n).Some?
    ensures After(rs, accept, path, m).Some?
    decreases m
  {
    hide Searchable, Redirect;
    if m > 0 {
      AfterBefore(rs, accept, Redirect(rs, accept, path).value, n - 1, m - 1);
    }
  }

  /** Some path comes twice. */
  ghost predicate ComesTwice(rs: Routes, accept: Api -> bool, path: string)
    requires Searchable(rs.trie)
  {
    exists i: nat, j: nat | i < j ::
      After(rs, accept, path, i).Some? && After(rs, accept, path, j) == After(rs, accept, path, i)
  }

  /** The paths after 1 to `n` redirects. */
  ghost function PathsAfter(rs: Routes, accept: Api -> bool, path: string, n: nat): (r: seq<string>)
    requires Searchable(rs.trie) && After(rs, accept, path, n).Some?
    ensures |r| == n
    ensures forall i: nat | i < n :: After(rs, accept, path, i + 1) == Some(r[i])
  {
    if n == 0 then []
    else
      AfterBefore(rs, accept, path, n, n - 1);
      PathsAfter(rs, accept, path, n - 1) + [After(rs, accept, path, n).value]
  }

  /** More redirects than there are targets lead to some path twice. */
  lemma TooManyRepeat(rs: Routes, accept: Api -> bool, path: string)
    requires Searchable(rs.trie) && After(rs, accept, path, |Targets(rs.index)| + 1).Some?
    ensures ComesTwice(rs, accept, path)
  {
    hide Searchable, Targets, After;
    var targets := Targets(rs.index);
    var n := |targets| + 1;
    var paths := PathsAfter(rs, accept, path, n);
    forall p | p in paths ensures p in targets {
      var i :| 0 <= i < n && paths[i] == p;
      AfterIsTarget(rs, accept, path, i + 1);
    }
    if Distinct(paths) { DistinctFits(paths, targets); }
    var i, j :| 0 <= i < j < n && paths[i] == paths[j];
    assert After(rs, accept, path, i + 1) == After(rs, accept, path, j + 1);
  }

  /** A path that comes twice comes for ever. */
  lemma TwiceNeverEnds(rs: Routes, accept: Api -> bool, path: string, n: nat)
    requires Searchable(rs.trie) && ComesTwice(rs, accept, path)
    ensures !RedirectsEnd(rs, accept, path, n)
  {
    hide Searchable, Redirect, After, RedirectsEnd;
    var i: nat, j: nat :| i < j && After(rs, accept, path, i).Some?
        && After(rs, accept, path, j) == After(rs, accept, path, i);
    var start := After(rs, accept, path, i).value;
    AfterAdds(rs, accept, path, i, j - i);
    CyclesNeverEnd(rs, accept, start, j - i, n);
    EndsMeans(rs, accept, start, n);
    AfterAdds(rs, accept, path, i, n + 1);
    AfterBefore(rs, accept, path, i + (n + 1), n + 1);
    EndsMeans(rs, accept, path, n);
  }

  /** `locate` ends exactly when no path comes twice, and then within as many redirects as the
      indexed APIs have targets. */
  lemma RedirectsEndExactly(rs: Routes, accept: Api -> bool, path: string)
    requires Searchable(rs.trie)
    ensures (exists n :: RedirectsEnd(rs, accept, path, n)) <==> !ComesTwice(rs, accept, path)
    ensures !ComesTwice(rs, accept, path) ==> RedirectsEnd(rs, accept, path, |Targets(rs.index)|)
  {
    hide Searchable, After, RedirectsEnd, ComesTwice, Targets;
    EndsMeans(rs, accept, path, |Targets(rs.index)|);
    if After(rs, accept, path, |Targets(rs.index)| + 1).Some? {
      TooManyRepeat(rs, accept, path);
    }
    if ComesTwice(rs, accept, path) {
      forall n ensures !RedirectsEnd(rs, accept, path, n) { TwiceNeverEnds(rs, accept, path, n); }
    }
  }

  // ----- what is routed, and what panics -----

  /** The look-up of the path finds an API that takes the request. */
  ghost predicate Answers(rs: Routes, accept: Api -> bool, path: string)
    requires Searchable(rs.trie)
  {
    var found := LookUpPath(rs, path);
    found.Hit? && FirstAccepted(found.apis, accept).Some?
  }

  /** Every path on the way answers. */
  ghost predicate AllAnswer(rs: Routes, accept: Api -> bool, path: string)
    requires Searchable(rs.trie)
  {
    forall i: nat | After(rs, accept, path, i).Some? :: Answers(rs, accept, After(rs, accept, path, i).value)
  }

  /** Some path on the way makes the search panic. */
  ghost predicate SomeCrashes(rs: Routes, accept: Api -> bool, path: string)
    requires Searchable(rs.trie)
  {
    exists i: nat | After(rs, accept, path, i).Some? :: LookUpPath(rs, After(rs, accept, path, i).value).Crash?
  }

  /** Every path on the way is a key of the index. */
  ghost predicate AllKeys(rs: Routes, accept: Api -> bool, path: string)
    requires Searchable(rs.trie)
  {
    forall i: nat | After(rs, accept, path, i).Some? :: After(rs, accept, path, i).value in rs.index
  }

  /** What holds along the way holds at its start and along the rest. */
  lemma AlongTheWay(rs: Routes, accept: Api -> bool, path: string)
    requires Searchable(rs.trie)
    ensures
      var next := Redirect(rs, accept, path);
      && (AllAnswer(rs, accept, path)
          <==> Answers(rs, accept, path) && (next.Some? ==> AllAnswer(rs, accept, next.value)))
      && (SomeCrashes(rs, accept, path)
          <==> LookUpPath(rs, path).Crash? || (next.Some? && SomeCrashes(rs, accept, next.value)))
      && (AllKeys(rs, accept, path) <==> path in rs.index && (next.Some? ==> AllKeys(rs, accept, next.value)))
  {
    hide Searchable, LookUpPath, Redirect, Answers;
    var next := Redirect(rs, accept, path);
    assert After(rs, accept, path, 0) == Some(path);
    assert next.Some? ==> forall i: nat :: After(rs, accept, path, i + 1) == After(rs, accept, next.value, i);
    assert next.None? ==> forall i: nat | i > 0 :: After(rs, accept, path, i).None?;
    forall i: nat | i > 0 && next.Some? ensures After(rs, accept, path, i) == After(rs, accept, next.value, i - 1) {}
  }

  lemma KeyIsHit(rs: Routes, path: string)
    requires Searchable(rs.trie)
    ensures path in rs.index ==> LookUpPath(rs, path) == Hit(rs.index[path], None)
    ensures LookUpPath(rs, path).Crash? <==> path !in rs.index && MatchVarPath(rs.trie, Keys(path)) == Panicked
  {
    hide Searchable, MatchVarPath, OmittedPath, SuffixPath;
  }

  /** `locate` routes a request exactly when every path on the way finds an API that takes it, and
      panics exactly when some path on the way makes the search panic. As long as only keys of the
      index are on the way, nothing is bound. */
  lemma {:induction false} LocatedExactly(rs: Routes, accept: Api -> bool, path: string, args: Args,
                                          suffix: Option<string>, n: nat)
    requires Searchable(rs.trie) && RedirectsEnd(rs, accept, path, n)
    ensures
      var r := LocateFrom(rs, accept, path, args, suffix, n);
      && (r.Routed? <==> AllAnswer(rs, accept, path))
      && (r.Broken? <==> SomeCrashes(rs, accept, path))
      && (r.Routed? && AllKeys(rs, accept, path) ==> r.args == args && r.suffix == suffix)
    decreases n
  {
    hide Searchable, LookUpPath, AllAnswer, SomeCrashes, AllKeys;
    AlongTheWay(rs, accept, path);
    KeyIsHit(rs, path);
    var found := LookUpPath(rs, path);
    if found.Hit? && Redirect(rs, accept, path).Some? {
      var args' := if found.bound.Some? then found.bound.value.0 else args;
      var suffix' := if found.bound.Some? then Some(found.bound.value.1) else suffix;
      LocatedExactly(rs, accept, Redirect(rs, accept, path).value, args', suffix', n - 1);
    }
  }

  /** What the path after `i` redirects is looked up to. */
  ghost function FoundAfter(rs: Routes, accept: Api -> bool, path: string, i: nat): Option<seq<Api>>
    requires Searchable(rs.trie)
  {
    match After(rs, accept, path, i)
    case None => None
    case Some(p) => if LookUpPath(rs, p).Hit? then Some(LookUpPath(rs, p).apis) else None
  }

  /** What the search binds for it, if it is left to the search. */
  ghost function BoundAfter(rs: Routes, accept: Api -> bool, path: string, i: nat): Option<(Args, string)>
    requires Searchable(rs.trie)
  {
    match After(rs, accept, path, i)
    case None => None
    case Some(p) => if LookUpPath(rs, p).Hit? then LookUpPath(rs, p).bound else None
  }

  lemma FoundLater(rs: Routes, accept: Api -> bool, path: string, i: nat)
    requires Searchable(rs.trie) && Redirect(rs, accept, path).Some?
    ensures
      var next := Redirect(rs, accept, path).value;
      && After(rs, accept, path, i + 1) == After(rs, accept, next, i)
      && FoundAfter(rs, accept, path, i + 1) == FoundAfter(rs, accept, next, i)
      && BoundAfter(rs, accept, path, i + 1) == BoundAfter(rs, accept, next, i)
  {
    hide Searchable, LookUpPath, Redirect;
  }

  /** The last search on the way up to `last` was that of the path after `from` redirects, and its
      arguments and suffix are those of the result. */
  ghost predicate BoundFrom(rs: Routes, accept: Api -> bool, path: string, from: nat, last: nat, r: Located)
    requires Searchable(rs.trie) && r.Routed?
  {
    && from <= last && r.suffix.Some? && BoundAfter(rs, accept, path, from) == Some((r.args, r.suffix.value))
    && forall i | from < i <= last :: BoundAfter(rs, accept, path, i).None?
  }

  /** The arguments and the suffix are those of the last search on the way, and the given ones without
      any search. */
  ghost predicate BoundLast(rs: Routes, accept: Api -> bool, path: string, args: Args, suffix: Option<string>,
                            last: nat, r: Located)
    requires Searchable(rs.trie) && r.Routed?
  {
    || (r.args == args && r.suffix == suffix && forall i | 0 <= i <= last :: BoundAfter(rs, accept, path, i).None?)
    || exists from: nat :: BoundFrom(rs, accept, path, from, last, r)
  }

  lemma NoRedirect(rs: Routes, accept: Api -> bool, path: string, args: Args, suffix: Option<string>, n: nat)
    requires Searchable(rs.trie) && RedirectsEnd(rs, accept, path, n) && Redirect(rs, accept, path).None?
    requires LocateFrom(rs, accept, path, args, suffix, n).Routed?
    ensures LookUpPath(rs, path).Hit?
    ensures
      var r, found := LocateFrom(rs, accept, path, args, suffix, n), LookUpPath(rs, path);
      && FirstAccepted(found.apis, accept) == Some(r.api)
      && (r.args, r.suffix) == if found.bound.Some? then (found.bound.value.0, Some(found.bound.value.1))
                               else (args, suffix)
  {
    hide Searchable, LookUpPath;
  }

  lemma LocateNext(rs: Routes, accept: Api -> bool, path: string, args: Args, suffix: Option<string>, n: nat)
    requires Searchable(rs.trie) && RedirectsEnd(rs, accept, path, n) && Redirect(rs, accept, path).Some?
    ensures n > 0 && LookUpPath(rs, path).Hit? && RedirectsEnd(rs, accept, Redirect(rs, accept, path).value, n - 1)
    ensures
      var next, bound := Redirect(rs, accept, path).value, LookUpPath(rs, path).bound;
      LocateFrom(rs, accept, path, args, suffix, n)
      == LocateFrom(rs, accept, next, if bound.Some? then bound.value.0 else args,
                    if bound.Some? then Some(bound.value.1) else suffix, n - 1)
  {
    hide Searchable, LookUpPath;
  }

  lemma BoundFirst(rs: Routes, accept: Api -> bool, path: string, args: Args, suffix: Option<string>, r: Located)
    requires Searchable(rs.trie) && r.Routed? && LookUpPath(rs, path).Hit?
    requires
      var bound := LookUpPath(rs, path).bound;
      (r.args, r.suffix) == if bound.Some? then (bound.value.0, Some(bound.value.1)) else (args, suffix)
    ensures BoundLast(rs, accept, path, args, suffix, 0, r)
  {
    hide Searchable, LookUpPath, Redirect;
    assert BoundAfter(rs, accept, path, 0) == LookUpPath(rs, path).bound;
    if LookUpPath(rs, path).bound.Some? { assert BoundFrom(rs, accept, path, 0, 0, r); }
  }

  lemma BoundLater(rs: Routes, accept: Api -> bool, path: string, args: Args, suffix: Option<string>, last: nat,
                   r: Located)
    requires Searchable(rs.trie) && r.Routed? && LookUpPath(rs, path).Hit? && Redirect(rs, accept, path).Some?
    requires
      var next, bound := Redirect(rs, accept, path).value, LookUpPath(rs, path).bound;
      BoundLast(rs, accept, next, if bound.Some? then bound.value.0 else args,
                if bound.Some? then Some(bound.value.1) else suffix, last, r)
    ensures BoundLast(rs, accept, path, args, suffix, last + 1, r)
  {
    hide Searchable, LookUpPath, Redirect;
    var next, bound := Redirect(rs, accept, path).value, LookUpPath(rs, path).bound;
    assert BoundAfter(rs, accept, path, 0) == bound;
    forall i | 0 < i <= last + 1 ensures BoundAfter(rs, accept, path, i) == BoundAfter(rs, accept, next, i - 1) {
      FoundLater(rs, accept, path, i - 1);
    }
    hide BoundAfter;
    if from: nat :| BoundFrom(rs, accept, next, from, last, r) {
      assert BoundFrom(rs, accept, path, from + 1, last + 1, r);
    } else if bound.Some? {
      assert BoundFrom(rs, accept, path, 0, last + 1, r);
    }
  }

  /** What is routed is the first API to take the request of those found for the last path on the way.
      Its bindings and suffix are those of the last search on the way, and the first ones without any. */
  lemma {:induction false} RoutedByLast(rs: Routes, accept: Api -> bool, path: string, args: Args,
                                        suffix: Option<string>, n: nat) returns (last: nat)
    requires Searchable(rs.trie) && RedirectsEnd(rs, accept, path, n)
    requires LocateFrom(rs, accept, path, args, suffix, n).Routed?
    ensures After(rs, accept, path, last).Some? && After(rs, accept, path, last + 1).None?
    ensures
      var r, found := LocateFrom(rs, accept, path, args, suffix, n), FoundAfter(rs, accept, path, last);
      && found.Some? && FirstAccepted(found.value, accept) == Some(r.api)
      && BoundLast(rs, accept, path, args, suffix, last, r)
    decreases n
  {
    hide Searchable, LookUpPath, Redirect, LocateFrom, RedirectsEnd, BoundLast;
    var next, r := Redirect(rs, accept, path), LocateFrom(rs, accept, path, args, suffix, n);
    assert After(rs, accept, path, 0) == Some(path);
    if next.None? {
      NoRedirect(rs, accept, path, args, suffix, n);
      last := 0;
      BoundFirst(rs, accept, path, args, suffix, r);
    } else {
      LocateNext(rs, accept, path, args, suffix, n);
      var bound := LookUpPath(rs, path).bound;
      last := RoutedByLast(rs, accept, next.value, if bound.Some? then bound.value.0 else args,
                           if bound.Some? then Some(bound.value.1) else suffix, n - 1);
      FoundLater(rs, accept, path, last);
      FoundLater(rs, accept, path, last + 1);
      BoundLater(rs, accept, path, args, suffix, last, r);
      last := last + 1;
    }
  }

  /** A registered key is routed when no path comes twice after it and every path on the way finds
      an API that takes the request; where all of these are keys, the search takes no part in it. */
  lemma KeyIsRouted(rs: Routes, accept: Api -> bool, key: string, args: Args, suffix: Option<string>)
    requires Searchable(rs.trie) && key in rs.index && !ComesTwice(rs, accept, key) && AllAnswer(rs, accept, key)
    ensures RedirectsEnd(rs, accept, key, |Targets(rs.index)|)
    ensures
      var r := LocateFrom(rs, accept, key, args, suffix, |Targets(rs.index)|);
      && r.Routed? && r.api.redirect == [] && accept(r.api)
      && (AllKeys(rs, accept, key) ==> r.args == args && r.suffix == suffix)
  {
    hide Searchable, ComesTwice, AllAnswer, AllKeys, Targets, LocateFrom, RedirectsEnd;
    RedirectsEndExactly(rs, accept, key);
    LocatedExactly(rs, accept, key, args, suffix, |Targets(rs.index)|);
    RoutedIsFinal(rs, accept, key, args, suffix, |Targets(rs.index)|);
  }

  // ----- the APIs a match leads to -----

  /** A branch found with a declared suffix has its APIs in the index: the look-up after the
      search hits. */
  lemma MatchIsIndexed(apis: seq<Api>, q: Path, suffix: string)
    requires q in Prefixes(apis) && q != [] && Declared(BranchAt(apis, q).apis, suffix)
    ensures
      var key := SuffixPath(OmittedPath(RawOmitted(apis), PathOf(q)), suffix);
      && key in IndexOf(RawOmitted(apis), apis)
      && forall api | api in BranchAt(apis, q).apis && suffix in api.suffixes ::
           api in IndexOf(RawOmitted(apis), apis)[key]
  {
    hide OmittedPath, SuffixPath, RawOmitted;
    var omitted := RawOmitted(apis);
    forall api | api in BranchAt(apis, q).apis && suffix in api.suffixes
      ensures api in apis && SuffixPath(OmittedPath(omitted, PathOf(q)), suffix) in ServedKeys(omitted, apis)
      ensures Serves(omitted, api, SuffixPath(OmittedPath(omitted, PathOf(q)), suffix))
    {
      assert api in apis && api.path == PathOf(q);
    }
  }

  lemma {:induction false} WithSuffixMeans(apis: seq<Api>, suffix: string)
    ensures forall api :: api in WithSuffix(apis, suffix) <==> api in apis && suffix in api.suffixes
  {
    if apis != [] {
      WithSuffixMeans(apis[1..], suffix);
      assert apis == [apis[0]] + apis[1..];
    }
  }

  /** The search returns the empty suffix or one that the branch found declares. */
  lemma FoundSuffix(t: Trie, parts: seq<string>)
    requires Searchable(t) && parts != [] && MatchVarPath(t, parts).Found?
    ensures
      var Found(q, _, suffix) := MatchVarPath(t, parts);
      && q in t && q != [] && t[q].branch.apis != []
      && (suffix == [] || Declared(t[q].branch.apis, suffix))
  {
    hide Searchable, MatchVarPath, Spelled, TakesParts;
    SearchIsSound(t, parts);
  }

  /** The group of a match: the APIs whose omitted path is that of the branch found. */
  ghost function MatchedGroup(apis: seq<Api>, q: Path): seq<Api>
  {
    With(RawOmitted(apis), apis, OmittedPath(RawOmitted(apis), PathOf(q)))
  }

  lemma MatchedKey(apis: seq<Api>, q: Path, suffix: string)
    requires KeysTold(RawOmitted(apis), apis) && BranchAt(apis, q).apis != [] && q != []
    requires suffix == [] || Declared(BranchAt(apis, q).apis, suffix)
    ensures
      var key, index := SuffixPath(OmittedPath(RawOmitted(apis), PathOf(q)), suffix), IndexOf(RawOmitted(apis), apis);
      && (key in index <==> WithSuffix(MatchedGroup(apis, q), suffix) != [])
      && (key in index ==> index[key] == WithSuffix(MatchedGroup(apis, q), suffix))
  {
    hide OmittedPath, SuffixPath, KeysTold, IndexOf, RawOmitted;
    var group := BranchAt(apis, q).apis;
    assert group == GroupOf(apis, PathOf(q)) && group[0] in group;
    var api :| api in group && (suffix == [] || suffix in api.suffixes);
    KeyIsIndexed(RawOmitted(apis), apis, api, suffix);
  }

  lemma GroupIsMatched(apis: seq<Api>, q: Path)
    requires q != []
    ensures forall api | api in BranchAt(apis, q).apis :: api in MatchedGroup(apis, q)
  {
    hide OmittedPath, RawOmitted;
  }

  /** After a match the look-up hits the APIs with the omitted path of the branch that declare the
      suffix found. It misses exactly when nothing was cut off and none of them declares the empty
      suffix. */
  lemma MatchMissesExactly(apis: seq<Api>, path: string)
    requires Registrable(apis) && Unambiguous(apis) && KeysTold(RawOmitted(apis), apis)
    requires path !in IndexOf(RawOmitted(apis), apis)
    ensures Searchable(TrieOf(apis))
    ensures MatchVarPath(TrieOf(apis), Keys(path)).Found? ==>
              var Found(q, args, suffix) := MatchVarPath(TrieOf(apis), Keys(path));
              var r := LookUpPath(RoutesOf(apis), path);
              && (r == Miss <==> suffix == [] && forall api | api in MatchedGroup(apis, q) :: [] !in api.suffixes)
              && (r != Miss ==> r == Hit(WithSuffix(MatchedGroup(apis, q), suffix), Some((args, suffix))))
  {
    hide Registrable, Unambiguous, TrieOf, Searchable, Prefixes, BranchAt, OmittedPath, SuffixPath, KeysTold, IndexOf,
         RawOmitted, MatchVarPath, Keys, MatchedGroup;
    TrieIsSearchable(apis);
    var t := TrieOf(apis);
    if MatchVarPath(t, Keys(path)).Found? {
      var Found(q, args, suffix) := MatchVarPath(t, Keys(path));
      FoundSuffix(t, Keys(path));
      MatchedKey(apis, q, suffix);
      PathOfBranch(t, q);
      WithSuffixMeans(MatchedGroup(apis, q), suffix);
      GroupIsMatched(apis, q);
      assert WithSuffix(MatchedGroup(apis, q), suffix) != [] ==>
          WithSuffix(MatchedGroup(apis, q), suffix)[0] in WithSuffix(MatchedGroup(apis, q), suffix);
    }
  }

  /** A middle variable never has a suffix cut off. So its APIs that declare only others cannot be
      reached through it. */
  lemma MiddleHasNoSuffix(t: Trie, parts: seq<string>)
    requires Searchable(t) && parts != [] && KeyFree(t, parts)
    ensures
      var outcome := MatchVarPath(t, parts);
      outcome.Found? && outcome.branch in t && t[outcome.branch].branch.isMidVar ==> outcome.suffix == []
  {
    SearchIsSound(t, parts);
    var outcome := MatchVarPath(t, parts);
    hide MatchVarPath, Spelled, TakesParts, LongestCut, LinksOk, LinksComplete, Rooted;
    if outcome.Found? && outcome.branch in t && t[outcome.branch].branch.isMidVar {
      MidVarIsRequired(t, outcome.branch);
      assert IsVar(t, outcome.branch) ==> !TakenAsKey(t, outcome.branch, parts, |parts| - 1);
    }
  }

  /** A route that ends on a middle variable, with declared suffixes but not the empty one, is out of
      reach: whatever the search sends there is not found. */
  lemma SuffixedMiddleIsLost(apis: seq<Api>, q: Path, path: string)
    requires Registrable(apis) && Unambiguous(apis) && KeysTold(RawOmitted(apis), apis)
    requires q in TrieOf(apis) && TrieOf(apis)[q].branch.isMidVar
    requires forall api | api in MatchedGroup(apis, q) :: [] !in api.suffixes
    requires KeyFree(TrieOf(apis), Keys(path)) && path !in IndexOf(RawOmitted(apis), apis)
    ensures Searchable(TrieOf(apis))
    ensures
      var outcome := MatchVarPath(TrieOf(apis), Keys(path));
      outcome.Found? && outcome.branch == q ==> LookUpPath(RoutesOf(apis), path) == Miss
  {
    hide Registrable, Unambiguous, TrieOf, KeyFree, KeysTold, MatchedGroup, IndexOf, RawOmitted, MatchVarPath, Keys,
         LookUpPath, Searchable, RoutesOf;
    TrieIsSearchable(apis);
    MiddleHasNoSuffix(TrieOf(apis), Keys(path));
    MatchMissesExactly(apis, path);
  }

  /** A request that the search routes without a redirect matches the branch, with every
      variable bound to its own parts, and the API is one of those indexed under the branch. */
  lemma RoutedBySearch(rs: Routes, accept: Api -> bool, path: string, n: nat)
    requires Searchable(rs.trie) && RedirectsEnd(rs, accept, path, n) && Strict(rs.trie, Keys(path))
    requires path !in rs.index && Redirect(rs, accept, path).None?
    requires LocateFrom(rs, accept, path, map[], None, n).Routed?
    ensures
      var Routed(api, args, suffix) := LocateFrom(rs, accept, path, map[], None, n);
      && suffix.Some?
      && exists q ::
           && Matches(rs.trie, q, Keys(path), suffix.value, Some(args))
           && var key := SuffixPath(OmittedPath(rs.omitted, PathOf(q)), suffix.value);
              key in rs.index && api in rs.index[key]
  {
    SearchBindsCorrectly(rs.trie, Keys(path));
    var outcome := MatchVarPath(rs.trie, Keys(path));
    hide Searchable, MatchesFixed, MatchesVar;
    assert outcome.Found?;
    assert Matches(rs.trie, outcome.branch, Keys(path), outcome.suffix, Some(outcome.args));
    PathOfBranch(rs.trie, outcome.branch);
  }
}
