/** What it means for a request to match a branch, and the proof that the search only returns
    branches the request matches, with every variable bound to its own parts. */
module Matching {
  import opened Text
  import opened Apis
  import opened Branches
  import opened Frontier
  import opened Wiring
  import opened Search

  type Args = map<string, PathParam>

  // ----- a request spells a branch -----

  /** Part `part` is used for node `b`: a fixed key, or a middle variable. With bindings given,
      the variable must be bound to the part; without, spelling out its key counts too. */
  ghost predicate Uses(t: Trie, b: Path, part: string, bind: Option<Args>)
    requires b in t && b != []
  {
    var v := t[b].branch.varType;
    || (part == Last(b) && (bind.None? || v.NotVar?))
    || (t[b].branch.isMidVar && v.Required?
        && (bind.Some? ==> v.name in bind.value && bind.value[v.name] == RequiredParam(part)))
  }

  /** The first `n` parts spell the keys of `b`, where omitted keys may be dropped. */
  ghost predicate Spelled(t: Trie, b: Path, parts: seq<string>, n: nat, bind: Option<Args>)
    decreases |b|, 1
  {
    || Stepped(t, b, parts, n, bind)
    || (Rooted(t.Keys) && b in t && b != [] && t[b].branch.isOmission && Spelled(t, Front(b), parts, n, bind))
  }

  /** The first `n` parts spell the keys of `b`, the last one used for `b` itself. */
  ghost predicate Stepped(t: Trie, b: Path, parts: seq<string>, n: nat, bind: Option<Args>)
    decreases |b|, 0
  {
    && Rooted(t.Keys) && b in t && n <= |parts|
    && if b == [] then n == 0
       else n > 0 && Uses(t, b, parts[n - 1], bind) && Spelled(t, Front(b), parts, n - 1, bind)
  }

  /** How many parts a variable may take. */
  predicate TakesParts(v: VarType, k: int)
  {
    match v
    case Required(_) => k == 1
    case Optional(_) => 0 <= k <= 1
    case EmptableVector(_) => 0 <= k
    case Vector(_) => 1 <= k
    case NotVar => false
  }

  /** The suffix cut from a part: the longest declared dotted tail, if there is one. */
  ghost predicate LongestCut(apis: seq<Api>, part: string, cut: Option<string>)
  {
    match cut
    case None => forall s | Declared(apis, s) :: !IsDottedTail(part, s)
    case Some(s) =>
      && Declared(apis, s) && IsDottedTail(part, s)
      && forall other | Declared(apis, other) && IsDottedTail(part, other) :: |other| <= |s|
  }

  /** The texts a variable takes from part `n` on, the suffix cut off the last one. */
  function Texts(parts: seq<string>, n: nat, cut: Option<string>): seq<string>
    requires n <= |parts|
    requires cut.Some? ==> n < |parts| && IsDottedTail(Last(parts), cut.value)
  {
    if cut.None? then parts[n..] else Front(parts)[n..] + [CutTail(Last(parts), cut.value)]
  }

  /** The parameter that holds the texts. */
  function ParamOf(v: VarType, texts: seq<string>): PathParam
    requires TakesParts(v, |texts|)
  {
    match v
    case Required(_) => RequiredParam(texts[0])
    case Optional(_) => OptionParam(if texts == [] then None else Some(texts[0]))
    case EmptableVector(_) => VectorParam(texts)
    case Vector(_) => VectorParam(texts)
  }

  /** A fixed end: the last part is the key, possibly followed by a declared suffix. */
  ghost predicate MatchesFixed(t: Trie, q: Path, parts: seq<string>, suffix: string, bind: Option<Args>)
    requires q in t && q != []
  {
    && parts != []
    && Spelled(t, Front(q), parts, |parts| - 1, bind)
    && (bind.None? || t[q].branch.varType.NotVar?)
    && ((Last(parts) == Last(q) && suffix == [])
        || (Last(parts) == Last(q) + [SUFFIX_BOUNDARY] + suffix && Declared(t[q].branch.apis, suffix)))
  }

  /** A variable end that takes the parts from `n` on. */
  ghost predicate MatchesVar(t: Trie, q: Path, parts: seq<string>, n: nat, cut: Option<string>, suffix: string,
                             bind: Option<Args>)
    requires q in t && q != []
  {
    var v := t[q].branch.varType;
    && n <= |parts|
    && Spelled(t, Front(q), parts, n, bind)
    && TakesParts(v, |parts| - n)
    && (if n == |parts| || t[q].branch.isMidVar then cut.None? else LongestCut(t[q].branch.apis, Last(parts), cut))
    && suffix == (if cut.Some? then cut.value else [])
    && (bind.Some? ==> v.name in bind.value && bind.value[v.name] == ParamOf(v, Texts(parts, n, cut)))
  }

  /** The request parts line up with the keys of `q`, and `q` carries APIs. */
  ghost predicate Matches(t: Trie, q: Path, parts: seq<string>, suffix: string, bind: Option<Args>)
  {
    && q in t && q != [] && t[q].branch.apis != []
    && (MatchesFixed(t, q, parts, suffix, bind)
        || exists n: nat, cut :: MatchesVar(t, q, parts, n, cut, suffix, bind))
  }

  // ----- dropping omitted keys -----

  lemma {:induction false} DropOmitted(t: Trie, b: Path, p: Path, parts: seq<string>, n: nat, bind: Option<Args>)
    requires Rooted(t.Keys) && b <= p && p in t
    requires Spelled(t, b, parts, n, bind)
    requires forall m | |b| < m <= |p| :: p[..m] in Omissions(t)
    ensures Spelled(t, p, parts, n, bind)
    decreases |p|
  {
    if b != p {
      assert p[..|p|] == p;
      assert forall m | |b| < m <= |Front(p)| :: Front(p)[..m] == p[..m];
      DropOmitted(t, b, Front(p), parts, n, bind);
    }
  }

  /** Reaching the anchor is reaching the parent. */
  lemma AnchorSpellsParent(t: Trie, b: Path, q: Path, parts: seq<string>, n: nat, bind: Option<Args>)
    requires Rooted(t.Keys) && q in t && q != []
    requires b == Front(q) || Anchor(Omissions(t), q) == b
    requires Spelled(t, b, parts, n, bind)
    ensures Spelled(t, Front(q), parts, n, bind)
  {
    if b != Front(q) {
      assert forall m | |b| < m <= |Front(q)| :: Front(q)[..m] == q[..m];
      DropOmitted(t, b, Front(q), parts, n, bind);
    }
  }

  // ----- bindings survive later ones -----

  ghost predicate IsVar(t: Trie, p: Path)
  {
    p in t && p != [] && !t[p].branch.varType.NotVar?
  }

  ghost predicate HasName(t: Trie, p: Path, name: string)
  {
    IsVar(t, p) && t[p].branch.varType.name == name
  }

  ghost predicate SameName(t: Trie, v: Path, w: Path)
  {
    IsVar(t, w) && HasName(t, v, t[w].branch.varType.name)
  }

  /** A binding of `v` may still count when `w` is bound: `w` is below `v`, or below another
      variable that was put on the list together with `v`. */
  ghost predicate Meet(t: Trie, v: Path, w: Path)
  {
    v < w || exists u | IsVar(t, u) && u != v && u < w :: Anchor(Omissions(t), u) == Anchor(Omissions(t), v)
  }

  /** No two variables of one name meet in a search. */
  ghost predicate NamesApart(t: Trie)
  {
    forall v, w | SameName(t, v, w) && v != w :: !Meet(t, v, w)
  }

  /** No variable on the way to `b`, itself included, has the name. */
  ghost predicate NameFree(t: Trie, b: Path, name: string)
  {
    forall m | 0 < m <= |b| :: !HasName(t, b[..m], name)
  }

  lemma NameFreeFront(t: Trie, b: Path, name: string)
    requires b != [] && NameFree(t, b, name)
    ensures NameFree(t, Front(b), name)
    ensures !HasName(t, b, name)
  {
    hide HasName;
    assert b[..|b|] == b;
    assert forall m | 0 < m <= |Front(b)| :: Front(b)[..m] == b[..m];
  }

  lemma UsesSurvives(t: Trie, b: Path, part: string, args: Args, name: string, param: PathParam)
    requires b in t && b != [] && Uses(t, b, part, Some(args))
    requires HasName(t, b, name) ==> param == RequiredParam(part)
    ensures Uses(t, b, part, Some(args[name := param]))
  {
  }

  /** The last variable may even have the name, when it is bound to the same part again. */
  lemma {:induction false} SteppedSurvives(t: Trie, b: Path, parts: seq<string>, n: nat, args: Args,
                                           name: string, param: PathParam)
    requires b != [] ==> NameFree(t, Front(b), name)
    requires Stepped(t, b, parts, n, Some(args))
    requires HasName(t, b, name) ==> param == RequiredParam(parts[n - 1])
    ensures Stepped(t, b, parts, n, Some(args[name := param]))
    decreases |b|, 0
  {
    hide NameFree;
    if b != [] {
      UsesSurvives(t, b, parts[n - 1], args, name, param);
      SpelledSurvives(t, Front(b), parts, n - 1, args, name, param);
    }
  }

  /** Binding a name leaves a route whose variables have other names bound as it was. */
  lemma {:induction false} SpelledSurvives(t: Trie, b: Path, parts: seq<string>, n: nat, args: Args,
                                           name: string, param: PathParam)
    requires NameFree(t, b, name) && Spelled(t, b, parts, n, Some(args))
    ensures Spelled(t, b, parts, n, Some(args[name := param]))
    decreases |b|, 1
  {
    hide NameFree;
    if b != [] { NameFreeFront(t, b, name); }
    if Stepped(t, b, parts, n, Some(args)) {
      SteppedSurvives(t, b, parts, n, args, name, param);
    } else {
      SpelledSurvives(t, Front(b), parts, n, args, name, param);
    }
  }
}
