/** Filling the variables of a route gives a request that leads back to the route, with the
    same values. */
module Reversal {
  import opened Text
  import opened Apis
  import opened Branches
  import opened Frontier
  import opened Wiring
  import opened Search
  import opened Matching
  import opened Soundness
  import opened Index
  import opened Routing
  import opened Walking
  import opened OneWay

  // ----- filling a route -----

  /** The texts a node contributes to a request. */
  function TextsFor(v: VarType, key: string, env: Args): seq<string>
  {
    if v.NotVar? then [key]
    else if v.name !in env then []
    else
      match env[v.name]
      case RequiredParam(text) => [text]
      case OptionParam(None) => []
      case OptionParam(Some(text)) => [text]
      case VectorParam(texts) => texts
  }

  /** The request parts of the route `q` with its variables filled in. */
  ghost function Fill(t: Trie, q: Path, env: Args): seq<string>
  {
    if q == [] || q !in t then [] else Fill(t, Front(q), env) + TextsFor(t[q].branch.varType, Last(q), env)
  }

  /** The bindings of the variables on the way to `q`. */
  ghost function ArgsUpTo(t: Trie, q: Path, env: Args): Args
  {
    if q == [] || q !in t then map[]
    else
      var v := t[q].branch.varType;
      var before := ArgsUpTo(t, Front(q), env);
      if v.NotVar? || v.name !in env then before else before[v.name := env[v.name]]
  }

  /** A value of the variable's kind. */
  predicate Fits(v: VarType, param: PathParam)
  {
    match v
    case Required(_) => param.RequiredParam?
    case Optional(_) => param.OptionParam?
    case EmptableVector(_) => param.VectorParam?
    case Vector(_) => param.VectorParam? && param.texts != []
    case NotVar => false
  }

  /** A text that can be a part, and that no variable key equals. */
  ghost predicate Clean(text: string)
  {
    PATH_PART_SEPARATOR !in text && (text == [] || text[0] != VARIABLE_OPENER)
  }

  /** Every variable on the way has a fitting value of clean texts. */
  ghost predicate Fills(t: Trie, q: Path, env: Args)
  {
    q == []
    || (q in t && Fills(t, Front(q), env)
        && var v := t[q].branch.varType;
           v.NotVar?
           || (v.name in env && Fits(v, env[v.name])
               && forall i | 0 <= i < |TextsFor(v, Last(q), env)| :: Clean(TextsFor(v, Last(q), env)[i])))
  }

  // ----- the walk along a filled route -----

  lemma FillsUnfold(t: Trie, q: Path, env: Args)
    requires q in t && q != [] && Fills(t, q, env)
    ensures Fills(t, Front(q), env)
    ensures Fill(t, q, env) == Fill(t, Front(q), env) + TextsFor(t[q].branch.varType, Last(q), env)
    ensures
      var v := t[q].branch.varType;
      !v.NotVar? ==>
        && v.name in env && Fits(v, env[v.name])
        && forall i | 0 <= i < |TextsFor(v, Last(q), env)| :: Clean(TextsFor(v, Last(q), env)[i])
  {
  }

  lemma FillOfRoot(t: Trie, env: Args)
    ensures Fill(t, [], env) == [] && ArgsUpTo(t, [], env) == map[]
  {
  }

  /** A prefix of a route takes as many parts as it has keys. */
  lemma {:induction false} FillOfPrefix(t: Trie, q: Path, env: Args)
    requires Searchable(t) && q in t && HasKid(t.Keys, q) && Fills(t, q, env)
    ensures |Fill(t, q, env)| == |q|
  {
    hide Searchable, HasKid, Clean, Fills, Fill;
    if q != [] {
      InnerNode(t, q);
      FillsUnfold(t, q, env);
      FillOfPrefix(t, Front(q), env);
    } else {
      FillOfRoot(t, env);
    }
  }

  /** The part an inner node is filled with. */
  lemma PartOfNode(t: Trie, q: Path, env: Args, parts: seq<string>)
    requires Searchable(t) && q in t && q != [] && HasKid(t.Keys, q) && Fills(t, q, env)
    requires Fill(t, q, env) <= parts
    ensures Front(q) in t && HasKid(t.Keys, Front(q)) && Fills(t, Front(q), env) && Fill(t, Front(q), env) <= parts
    ensures |q| <= |parts|
    ensures
      var v := t[q].branch.varType;
      && (v.NotVar? ==> parts[|q| - 1] == Last(q))
      && (!v.NotVar? ==>
            && t[q].branch.isMidVar && Clean(parts[|q| - 1])
            && v.name in env && env[v.name] == RequiredParam(parts[|q| - 1]))
  {
    hide Searchable, HasKid, Clean, Fills, Fill;
    InnerNode(t, q);
    FillsUnfold(t, q, env);
    FillOfPrefix(t, q, env);
    FillOfPrefix(t, Front(q), env);
    var own := TextsFor(t[q].branch.varType, Last(q), env);
    assert parts[..|q|] == Fill(t, q, env);
    assert parts[|q| - 1] == own[0];
  }

  /** A text that does not open a variable is not taken for a variable's key. */
  lemma CleanIsFree(t: Trie, p: Path, parts: seq<string>, n: nat)
    requires Searchable(t) && IsVar(t, p)
    requires n < |parts| && (parts[n] == [] || parts[n][0] != VARIABLE_OPENER)
    ensures !TakenAsKey(t, p, parts, n)
  {
    assert CellOk(t, p);
  }

  lemma CleanFits(t: Trie, q: Path, parts: seq<string>)
    requires Searchable(t) && q in t && q != [] && |q| <= |parts|
    requires if t[q].branch.varType.NotVar? then parts[|q| - 1] == Last(q) else Clean(parts[|q| - 1])
    ensures Fitting(t, q, parts)
  {
    hide Searchable, TakenAsKey;
    if IsVar(t, q) { CleanIsFree(t, q, parts, |q| - 1); }
  }

  lemma ArgsUnfold(t: Trie, q: Path, env: Args)
    requires q in t && q != []
    ensures
      var v := t[q].branch.varType;
      ArgsUpTo(t, q, env)
      == if v.NotVar? || v.name !in env then ArgsUpTo(t, Front(q), env)
         else ArgsUpTo(t, Front(q), env)[v.name := env[v.name]]
  {
  }

  lemma StartsAtRoot(t: Trie, env: Args, parts: seq<string>)
    requires Searchable(t) && parts != []
    ensures Live(t, At([], 0, ArgsUpTo(t, [], env)))
    ensures MatchVarPath(t, parts) == Run(t, parts, At([], 0, ArgsUpTo(t, [], env)))
  {
    StartIsLive(t);
    FillOfRoot(t, env);
    hide Searchable, Run, Live;
  }

  /** The search follows a filled route through its inner nodes. */
  lemma {:induction false} FillWalk(t: Trie, q: Path, env: Args, parts: seq<string>)
    requires Straight(t) && q in t && HasKid(t.Keys, q) && Fills(t, q, env)
    requires parts != [] && Fill(t, q, env) <= parts
    ensures Searchable(t) && Live(t, At(q, |q|, ArgsUpTo(t, q, env)))
    ensures MatchVarPath(t, parts) == Run(t, parts, At(q, |q|, ArgsUpTo(t, q, env)))
  {
    SearchableOf(t);
    hide Straight, Searchable, Live, Run, HasKid, ArgsUpTo, Fill, Fills, Clean, MatchVarPath, At;
    if q == [] {
      StartsAtRoot(t, env, parts);
    } else {
      PartOfNode(t, q, env, parts);
      FillWalk(t, Front(q), env, parts);
      ArgsUnfold(t, q, env);
      CleanFits(t, q, parts);
      WalkOn(t, q, parts, ArgsUpTo(t, Front(q), env));
    }
  }

  // ----- where a filled route ends -----

  /** The texts, the last one followed by the suffix. */
  function Suffixed(texts: seq<string>, suffix: string): (r: seq<string>)
    ensures |r| == |texts|
  {
    if texts == [] then [] else Front(texts) + [SuffixPath(Last(texts), suffix)]
  }

  /** The parts of the request for a filled route and a suffix. */
  ghost function RequestFor(t: Trie, q: Path, env: Args, suffix: string): seq<string>
  {
    Suffixed(Fill(t, q, env), suffix)
  }

  /** The suffix can be told from the last text: after a fixed key it is empty or declared, and no
      sibling is meant; the text of an end variable together with the suffix has that for its
      longest declared suffix. A middle variable, or one left empty, takes none. */
  ghost predicate SuffixFits(t: Trie, q: Path, env: Args, suffix: string)
    requires q in t && q != []
  {
    var b := t[q].branch;
    var texts := TextsFor(b.varType, Last(q), env);
    if b.varType.NotVar? then suffix != [] ==> Declared(b.apis, suffix) && ToldApart(t, Front(q), Last(q), suffix)
    else if b.isMidVar || texts == [] then suffix == []
    else LongestCut(b.apis, SuffixPath(Last(texts), suffix), if suffix == [] then None else Some(suffix))
  }

  /** A registered route, its variables filled with clean texts, nothing else bound, and a suffix
      that fits. */
  ghost predicate Fillable(t: Trie, q: Path, env: Args, suffix: string)
  {
    && q in t && q != [] && t[q].branch.apis != []
    && Fills(t, q, env) && env == ArgsUpTo(t, q, env) && SuffixFits(t, q, env, suffix)
  }

  lemma LongestCutUnique(apis: seq<Api>, part: string, a: Option<string>, b: Option<string>)
    requires LongestCut(apis, part, a) && LongestCut(apis, part, b)
    ensures a == b
  {
    if a.Some? && b.Some? {
      assert ([SUFFIX_BOUNDARY] + a.value)[1..] == a.value && ([SUFFIX_BOUNDARY] + b.value)[1..] == b.value;
    }
  }

  /** What is cut off the last part is the suffix again. */
  lemma CutsSuffix(apis: seq<Api>, head: seq<string>, text: string, suffix: string)
    requires LongestCut(apis, SuffixPath(text, suffix), if suffix == [] then None else Some(suffix))
    ensures Extract(apis, head + [SuffixPath(text, suffix)], []) == (head + [text], suffix)
  {
    var part := SuffixPath(text, suffix);
    FirstTailIsLongestCut(apis, part);
    LongestCutUnique(apis, part, FirstTail(CollectSuffixes(AllSuffixes(apis)), part),
        if suffix == [] then None else Some(suffix));
    assert Front(head + [part]) == head;
    if suffix != [] { assert part[..|text|] == text; }
  }

  /** A filled end variable is bound to its value again. */
  lemma EndMatchFits(v: VarType, apis: seq<Api>, head: seq<string>, key: string, env: Args, suffix: string)
    requires !v.NotVar? && v.name in env && Fits(v, env[v.name])
    requires
      var texts := TextsFor(v, key, env);
      if texts == [] then head != [] && suffix == []
      else LongestCut(apis, SuffixPath(Last(texts), suffix), if suffix == [] then None else Some(suffix))
    ensures EndMatch(v, apis, head + Suffixed(TextsFor(v, key, env), suffix), |head|, [])
         == Some((env[v.name], suffix))
  {
    hide Extract, LongestCut;
    var texts := TextsFor(v, key, env);
    var parts := head + Suffixed(texts, suffix);
    if texts != [] {
      CutsSuffix(apis, head + Front(texts), Last(texts), suffix);
      assert parts == head + Front(texts) + [SuffixPath(Last(texts), suffix)];
      assert head + Front(texts) + [Last(texts)] == head + texts;
      assert (head + texts)[|head|..] == texts;
      assert |texts| == 1 ==> (head + texts)[|head|] == texts[0];
    }
  }

  lemma SuffixedTail(head: seq<string>, texts: seq<string>, suffix: string)
    requires texts == [] ==> suffix == []
    ensures Suffixed(head + texts, suffix) == head + Suffixed(texts, suffix)
  {
    if texts != [] {
      assert Front(head + texts) == head + Front(texts);
    } else {
      assert head + texts == head;
    }
  }

  lemma FillableMeans(t: Trie, q: Path, env: Args, suffix: string)
    requires Fillable(t, q, env, suffix)
    ensures q in t && q != [] && t[q].branch.apis != [] && Fills(t, q, env) && env == ArgsUpTo(t, q, env)
    ensures
      var v := t[q].branch.varType;
      !v.NotVar? && (TextsFor(v, Last(q), env) == [] || t[q].branch.isMidVar) ==> suffix == []
    ensures t[q].branch.varType.NotVar? && suffix != [] ==>
              Declared(t[q].branch.apis, suffix) && ToldApart(t, Front(q), Last(q), suffix)
  {
    hide LongestCut, ToldApart, Declared, Fills, ArgsUpTo;
  }

  /** What the last node of a route contributes. */
  lemma LastTexts(t: Trie, q: Path, env: Args, suffix: string, parts: seq<string>)
    requires Straight(t) && Fillable(t, q, env, suffix) && parts == RequestFor(t, q, env, suffix)
    ensures
      var b, v := Front(q), t[q].branch.varType;
      var texts := TextsFor(v, Last(q), env);
      && b in t && HasKid(t.Keys, b) && Fills(t, b, env)
      && |Fill(t, b, env)| == |b| && parts == Fill(t, b, env) + Suffixed(texts, suffix)
      && Fill(t, q, env) == Fill(t, b, env) + texts
      && (v.NotVar? ==> ArgsUpTo(t, b, env) == env)
      && (!v.NotVar? ==>
            && v.name in env && Fits(v, env[v.name]) && ArgsUpTo(t, b, env)[v.name := env[v.name]] == env
            && (texts != [] ==> Clean(texts[0])))
  {
    SearchableOf(t);
    ParentHasKid(t, q);
    FillableMeans(t, q, env, suffix);
    hide Straight, Searchable, Fillable, HasKid, LongestCut;
    FillsUnfold(t, q, env);
    ArgsUnfold(t, q, env);
    hide Fills, Fill, Clean, ArgsUpTo, Suffixed;
    FillOfPrefix(t, Front(q), env);
    SuffixedTail(Fill(t, Front(q), env), TextsFor(t[q].branch.varType, Last(q), env), suffix);
  }

  lemma MidVarIsRequired'(t: Trie, p: Path)
    requires Searchable(t) && p in t
    ensures t[p].branch.isMidVar ==> t[p].branch.varType.Required?
  {
    if t[p].branch.isMidVar { MidVarIsRequired(t, p); }
  }

  /** The route ends on a fixed node or a middle variable, without a suffix. */
  lemma EndsOnInner(t: Trie, q: Path, env: Args, parts: seq<string>)
    requires Straight(t) && Fillable(t, q, env, []) && parts == RequestFor(t, q, env, []) && parts != []
    requires t[q].branch.varType.NotVar? || t[q].branch.isMidVar
    ensures Searchable(t) && MatchVarPath(t, parts) == Found(q, env, [])
  {
    hide Searchable, OneKind, Live, Run, HasKid, ArgsUpTo, Fill, Fills, Clean, MatchVarPath, SuffixFits, RequestFor,
         Fitting;
    SearchableOf(t);
    LastTexts(t, q, env, [], parts);
    MidVarIsRequired'(t, q);
    FillWalk(t, Front(q), env, parts);
    CleanFits(t, q, parts);
    WalkOn(t, q, parts, ArgsUpTo(t, Front(q), env));
    EndsAt(t, parts, q, env, []);
  }

  /** The route ends on a fixed node, followed by a suffix. */
  lemma EndsOnSuffix(t: Trie, q: Path, env: Args, suffix: string, parts: seq<string>)
    requires Straight(t) && Fillable(t, q, env, suffix) && parts == RequestFor(t, q, env, suffix)
    requires t[q].branch.varType.NotVar? && suffix != []
    ensures Searchable(t) && parts != [] && MatchVarPath(t, parts) == Found(q, env, suffix)
  {
    SearchableOf(t);
    FillableMeans(t, q, env, suffix);
    hide Fillable, RequestFor;
    LastTexts(t, q, env, suffix, parts);
    hide Searchable, Live, Run, HasKid, ArgsUpTo, Fill, Fills, MatchVarPath, ToldApart, FindFixed, OneKind, Declared;
    NothingPassed(t, Front(q));
    FillWalk(t, Front(q), env, parts);
    DottedRound(t, q, parts, suffix);
    EndsOnFound(t, parts, Front(q), q, env, suffix);
  }

  lemma CleanSuffixed(texts: seq<string>, suffix: string)
    requires texts != [] && Clean(texts[0])
    ensures Suffixed(texts, suffix)[0] == [] || Suffixed(texts, suffix)[0][0] != VARIABLE_OPENER
  {
  }

  lemma PastTheEnd(t: Trie, p: Path, parts: seq<string>, n: int)
    requires n >= |parts|
    ensures !TakenAsKey(t, p, parts, n)
  {
  }

  /** The route ends on an end variable, which gets some text or has a bare parent. */
  lemma EndsOnEndVariable(t: Trie, q: Path, env: Args, suffix: string, parts: seq<string>)
    requires Straight(t) && Fillable(t, q, env, suffix) && parts == RequestFor(t, q, env, suffix) && parts != []
    requires !t[q].branch.varType.NotVar? && !t[q].branch.isMidVar
    requires |parts| < |q| ==> Front(q) in t && t[Front(q)].branch.apis == []
    ensures Searchable(t) && MatchVarPath(t, parts) == Found(q, env, suffix)
  {
    hide Searchable, OneKind, Live, Run, HasKid, ArgsUpTo, Fill, Fills, Clean, MatchVarPath, LongestCut, RequestFor,
         Suffixed, EndMatch, TakenAsKey, Fits;
    SearchableOf(t);
    LastTexts(t, q, env, suffix, parts);
    var v, b := t[q].branch.varType, Front(q);
    var texts := TextsFor(v, Last(q), env);
    FillWalk(t, b, env, parts);
    if texts != [] {
      CleanSuffixed(texts, suffix);
      assert parts[|b|] == Suffixed(texts, suffix)[0];
      CleanIsFree(t, q, parts, |b|);
    } else {
      PastTheEnd(t, q, parts, |b|);
    }
    EndMatchFits(v, t[q].branch.apis, Fill(t, b, env), Last(q), env, suffix);
    EndsOnVariable(t, q, parts, |b|, ArgsUpTo(t, b, env), env[v.name], suffix);
  }

  /** The parent takes the request when the variable is left empty. */
  lemma EndsOnParent(t: Trie, q: Path, env: Args, suffix: string, parts: seq<string>)
    requires Straight(t) && Fillable(t, q, env, suffix) && parts == RequestFor(t, q, env, suffix) && parts != []
    requires |parts| < |q| && Front(q) in t && t[Front(q)].branch.apis != []
    ensures Searchable(t) && MatchVarPath(t, parts) == Found(Front(q), ArgsUpTo(t, Front(q), env), [])
  {
    hide Searchable, OneKind, Live, Run, HasKid, ArgsUpTo, Fill, Fills, Clean, MatchVarPath, SuffixFits, RequestFor;
    SearchableOf(t);
    LastTexts(t, q, env, suffix, parts);
    FillWalk(t, Front(q), env, parts);
    EndsAt(t, parts, Front(q), ArgsUpTo(t, Front(q), env), []);
  }

  /** Searching for a filled route leads back to it with the same values and suffix; a `?` or `*`
      variable may stay empty exactly when its parent has no APIs of its own. */
  lemma SearchReverses(t: Trie, q: Path, env: Args, suffix: string)
    requires Straight(t) && Fillable(t, q, env, suffix) && Fill(t, q, env) != []
    ensures Searchable(t) && Front(q) in t
    ensures
      var parts := RequestFor(t, q, env, suffix);
      if |parts| < |q| && t[Front(q)].branch.apis != []
      then MatchVarPath(t, parts) == Found(Front(q), ArgsUpTo(t, Front(q), env), [])
      else MatchVarPath(t, parts) == Found(q, env, suffix)
  {
    hide Straight, Searchable, OneKind, MatchVarPath, HasKid, ArgsUpTo, Fill, Fills, Clean, LongestCut, ToldApart,
         Declared;
    var parts := RequestFor(t, q, env, suffix);
    SearchableOf(t);
    LastTexts(t, q, env, suffix, parts);
    MidVarIsRequired'(t, q);
    if |parts| < |q| && t[Front(q)].branch.apis != [] {
      EndsOnParent(t, q, env, suffix, parts);
    } else if t[q].branch.varType.NotVar? && suffix != [] {
      EndsOnSuffix(t, q, env, suffix, parts);
    } else if t[q].branch.varType.NotVar? || t[q].branch.isMidVar {
      EndsOnInner(t, q, env, parts);
    } else {
      EndsOnEndVariable(t, q, env, suffix, parts);
    }
  }

  // ----- the index does not get in the way -----

  /** No variable on the way to `q`. */
  ghost predicate AllFixed(t: Trie, q: Path)
  {
    q == [] || (q in t && t[q].branch.varType.NotVar? && AllFixed(t, Front(q)))
  }

  lemma {:induction false} FixedBindsNothing(t: Trie, q: Path, env: Args)
    requires AllFixed(t, q)
    ensures ArgsUpTo(t, q, env) == map[] && Fill(t, q, env) == q
  {
    if q != [] {
      FixedBindsNothing(t, Front(q), env);
      assert q == Front(q) + [Last(q)];
    }
  }

  lemma {:induction false} BindsSomething(t: Trie, q: Path, env: Args)
    requires Fills(t, q, env) && !AllFixed(t, q)
    ensures env != map[]
  {
    if t[q].branch.varType.NotVar? {
      BindsSomething(t, Front(q), env);
    }
  }

  lemma PrefixInTree(t: Trie, p: Path, n: nat)
    requires Searchable(t) && p in t && n <= |p|
    ensures p[..n] in t
  {
    RootedPrefix(t.Keys, p, n);
  }

  lemma FixedRoot(t: Trie)
    ensures AllFixed(t, [])
  {
  }

  lemma OnlyChildUnclean(t: Trie, q: Path, k: string)
    requires Straight(t) && q in t && q != [] && Front(q) + [k] in t
    ensures Clean(k) ==> t[q].branch.varType.NotVar?
  {
    if !t[q].branch.varType.NotVar? { OnlyChild(t, q, k); }
  }

  /** A clean part that leads to a node is the key of a fixed one. */
  lemma SameFixed(t: Trie, q: Path, k: string)
    requires Straight(t) && q in t && q != [] && Front(q) + [k] in t && AllFixed(t, Front(q))
    requires if t[q].branch.varType.NotVar? then k == Last(q) else Clean(k)
    ensures Front(q) + [k] == q && AllFixed(t, q)
  {
    hide Straight, Clean;
    OnlyChildUnclean(t, q, k);
    assert q == Front(q) + [Last(q)];
  }

  /** Filled inner nodes are nodes of the tree only when there was nothing to fill. */
  lemma {:induction false} FilledInTree(t: Trie, q: Path, env: Args, parts: seq<string>)
    requires Straight(t) && q in t && HasKid(t.Keys, q) && Fills(t, q, env) && Fill(t, q, env) <= parts
    requires |q| <= |parts| && parts[..|q|] in t
    ensures parts[..|q|] == q && AllFixed(t, q)
  {
    hide Straight, Searchable, HasKid, Fill, Fills, Clean, AllFixed;
    SearchableOf(t);
    if q == [] {
      FixedRoot(t);
    } else {
      PartOfNode(t, q, env, parts);
      PrefixInTree(t, parts[..|q|], |q| - 1);
      assert parts[..|q|][..|q| - 1] == parts[..|q| - 1];
      FilledInTree(t, Front(q), env, parts);
      assert parts[..|q|] == Front(q) + [parts[|q| - 1]];
      SameFixed(t, q, parts[|q| - 1]);
    }
  }

  /** Something of the tree, its last key followed by a suffix, is spelled by these parts. */
  ghost predicate SpellsKey(t: Trie, p: Path, suffix: string, parts: seq<string>)
  {
    p in t && p != [] && t[p].branch.apis != [] && Declared(t[p].branch.apis, suffix) && parts == Suffixed(p, suffix)
  }

  lemma SpelledKey(t: Trie, p: Path, s: string, parts: seq<string>)
    requires SpellsKey(t, p, s, parts)
    ensures p in t && p != [] && |parts| == |p| && Front(parts) == Front(p)
    ensures forall i | 0 <= i < |p| :: p[i] <= parts[i]
  {
  }

  /** The key of a bare node is not that of a sibling with a suffix. */
  lemma BareIsNoSibling(t: Trie, b: Path, p: Path, s: string)
    requires KeysApart(t) && b in t && b != [] && t[b].branch.apis == []
    requires p in t && p != [] && Front(p) == Front(b) && t[p].branch.apis != [] && Declared(t[p].branch.apis, s)
    ensures Last(b) != SuffixPath(Last(p), s)
  {
    hide Declared;
    assert p == Front(p) + [Last(p)] && b == Front(p) + [Last(b)];
    if s != [] {
      assert ToldApart(t, Front(p), Last(p), s);
      var part := Last(p) + [SUFFIX_BOUNDARY] + s;
      assert Last(p) + [SUFFIX_BOUNDARY] <= part;
      assert !ReadsAs(part, Last(b)) || !(Last(p) + [SUFFIX_BOUNDARY] <= Last(b));
    }
  }

  /** The part that fills an inner node is not that of a sibling with a suffix. */
  lemma NotSibling(t: Trie, b: Path, p: Path, s: string, part: string)
    requires Straight(t) && KeysApart(t) && b in t && b != [] && t[b].branch.apis == []
    requires p in t && p != [] && Front(p) == Front(b) && t[p].branch.apis != [] && Declared(t[p].branch.apis, s)
    requires if t[b].branch.varType.NotVar? then part == Last(b) else Clean(part)
    ensures part != SuffixPath(Last(p), s)
  {
    hide Straight, Searchable, KeysApart, Declared;
    if t[b].branch.varType.NotVar? {
      BareIsNoSibling(t, b, p, s);
    } else {
      assert p == Front(b) + [Last(p)];
      OnlyChild(t, b, Last(p));
      assert SuffixPath(Last(p), s)[0] == Last(p)[0];
    }
  }

  /** A variable left empty: its parent would have to be a fixed node with APIs, or a variable. */
  lemma EmptyIsNoKey(t: Trie, b: Path, env: Args, p: Path, s: string)
    requires Straight(t) && KeysApart(t) && b in t && b != [] && HasKid(t.Keys, b) && Fills(t, b, env)
    requires t[b].branch.apis == []
    ensures !SpellsKey(t, p, s, Fill(t, b, env))
  {
    hide Straight, Searchable, KeysApart, HasKid, Fill, Fills, AllFixed, Declared;
    SearchableOf(t);
    var parts := Fill(t, b, env);
    if SpellsKey(t, p, s, parts) {
      PartOfNode(t, b, env, parts);
      FillOfPrefix(t, b, env);
      RootedParent(t, p);
      assert parts[..|b| - 1] == Front(p);
      FilledInTree(t, Front(b), env, parts);
      assert p == Front(b) + [Last(p)] && b == Front(b) + [Last(b)];
      NotSibling(t, b, p, s, Last(parts));
    }
  }

  lemma SameHead(p: Path, parts: seq<string>, b: Path)
    requires p != [] && parts != [] && Front(parts) == Front(p) && b <= parts && |b| < |parts|
    ensures p[..|b| + 1] == b + [p[|b|]]
  {
    assert Front(p)[..|b|] == p[..|b|] && Front(parts)[..|b|] == b;
  }

  /** The parts of a filled end variable lead nowhere in the tree. */
  lemma FilledIsNoKey(t: Trie, q: Path, texts: seq<string>, suffix: string, p: Path, s: string)
    requires Straight(t) && IsVar(t, q) && texts != [] && Clean(texts[0])
    ensures !SpellsKey(t, p, s, Front(q) + Suffixed(texts, suffix))
  {
    CleanSuffixed(texts, suffix);
    hide Straight, Searchable, Suffixed, Declared, Clean, SpellsKey;
    SearchableOf(t);
    var parts := Front(q) + Suffixed(texts, suffix);
    assert parts[|q| - 1] == Suffixed(texts, suffix)[0];
    if SpellsKey(t, p, s, parts) {
      SpelledKey(t, p, s, parts);
      SameHead(p, parts, Front(q));
      PrefixInTree(t, p, |q|);
      OnlyChild(t, q, p[|q| - 1]);
    }
  }

  lemma OneMoreFixed(t: Trie, q: Path)
    requires q in t && q != [] && AllFixed(t, Front(q)) && t[q].branch.varType.NotVar?
    ensures AllFixed(t, q)
  {
  }

  /** A filled route is spelled by a registered key only when there was nothing to fill. */
  lemma FilledIsRegistered(t: Trie, q: Path, env: Args, suffix: string, p: Path, s: string)
    requires Straight(t) && KeysApart(t) && Fillable(t, q, env, suffix) && Fill(t, q, env) != []
    requires Front(q) in t ==> |Fill(t, q, env)| >= |q| || t[Front(q)].branch.apis == []
    requires SpellsKey(t, p, s, RequestFor(t, q, env, suffix))
    ensures AllFixed(t, q)
  {
    hide Straight, KeysApart, Searchable, HasKid, Fill, Fills, Clean, ArgsUpTo, Suffixed, Declared, SpellsKey, Fits,
         AllFixed, TextsFor, SuffixFits;
    var parts, b := RequestFor(t, q, env, suffix), Front(q);
    SearchableOf(t);
    LastTexts(t, q, env, suffix, parts);
    var texts := TextsFor(t[q].branch.varType, Last(q), env);
    SpelledKey(t, p, s, parts);
    if texts == [] {
      assert parts == Fill(t, b, env);
      EmptyIsNoKey(t, b, env, p, s);
    } else {
      PrefixInTree(t, p, |b|);
      assert parts[..|b|] == p[..|b|];
      FilledInTree(t, b, env, parts);
      if t[q].branch.varType.NotVar? {
        OneMoreFixed(t, q);
      } else {
        assert parts == b + Suffixed(texts, suffix);
        FilledIsNoKey(t, q, texts, suffix, p, s);
      }
    }
  }

  // ----- route reversal -----

  /** Constructed APIs without omissions, keys that can be told apart, and branches of one kind. */
  ghost predicate ReversibleApis(apis: seq<Api>)
  {
    && Registrable(apis) && Unambiguous(apis) && NoneOmitted(apis) && AllConstructed(apis)
    && OneKind(TrieOf(apis)) && KeysApart(TrieOf(apis))
  }

  lemma ApisAreReversible(apis: seq<Api>)
    requires ReversibleApis(apis)
    ensures Straight(TrieOf(apis)) && RawOmitted(apis) == {} && TrieOf(apis).Keys == Prefixes(apis)
    ensures KeysApart(TrieOf(apis)) && AllConstructed(apis)
    ensures forall p | p in TrieOf(apis) && p != [] :: TrieOf(apis)[p].branch.apis == GroupOf(apis, PathOf(p))
  {
    hide Registrable, Unambiguous, TrieOf, Searchable, OneKind, Prefixes, KeysApart, AllConstructed;
    TrieIsSearchable(apis);
    NothingOmitted(apis);
    var t := TrieOf(apis);
    forall p | p in t ensures t[p].branch.apis == (if p == [] then [] else GroupOf(apis, PathOf(p))) {
      assert t[p].branch.apis == BranchAt(apis, p).apis;
    }
  }

  lemma {:induction false} GroupWithoutOmissions(apis: seq<Api>, path: string)
    ensures With({}, apis, path) == GroupOf(apis, path)
  {
    hide OmittedPath;
    if apis != [] {
      GroupWithoutOmissions(apis[1..], path);
      OmittedPathOfNone(apis[0].path);
    }
  }

  /** The parts of a filled route are its own: they can be joined and split again. */
  lemma {:induction false} FillIsSeparatorFree(t: Trie, q: Path, env: Args)
    requires Fills(t, q, env) && SeparatorFree(q)
    ensures SeparatorFree(Fill(t, q, env))
  {
    if q != [] {
      FillIsSeparatorFree(t, Front(q), env);
      var own := TextsFor(t[q].branch.varType, Last(q), env);
      assert forall i | 0 <= i < |own| :: PATH_PART_SEPARATOR !in own[i];
    }
  }

  lemma SuffixIsSeparatorFree(apis: seq<Api>, group: seq<Api>, suffix: string)
    requires AllConstructed(apis) && (forall api | api in group :: api in apis)
    ensures Declared(group, suffix) ==> PATH_PART_SEPARATOR !in suffix
  {
    if Declared(group, suffix) {
      var api :| api in group && suffix in api.suffixes;
      assert IsConstructed(api);
    }
  }

  lemma FittingSuffix(t: Trie, q: Path, env: Args, suffix: string)
    requires Fillable(t, q, env, suffix)
    ensures suffix == [] || Declared(t[q].branch.apis, suffix)
  {
    hide Declared, ToldApart;
  }

  lemma SuffixedIsSeparatorFree(parts: seq<string>, suffix: string)
    requires SeparatorFree(parts) && PATH_PART_SEPARATOR !in suffix
    ensures SeparatorFree(Suffixed(parts, suffix))
  {
  }

  lemma RequestIsSeparatorFree(apis: seq<Api>, q: Path, env: Args, suffix: string)
    requires ReversibleApis(apis) && Fillable(TrieOf(apis), q, env, suffix)
    ensures SeparatorFree(q) && SeparatorFree(RequestFor(TrieOf(apis), q, env, suffix))
    ensures PATH_PART_SEPARATOR !in suffix
  {
    ApisAreReversible(apis);
    hide ReversibleApis, TrieOf, Fill, SuffixFits, Fills, ArgsUpTo, Straight, KeysApart, AllConstructed, Declared,
         Prefixes, GroupOf;
    PrefixesShape(apis, q);
    FillIsSeparatorFree(TrieOf(apis), q, env);
    FittingSuffix(TrieOf(apis), q, env, suffix);
    SuffixIsSeparatorFree(apis, TrieOf(apis)[q].branch.apis, suffix);
    SuffixedIsSeparatorFree(Fill(TrieOf(apis), q, env), suffix);
  }

  lemma PathOfSuffixed(keys: Path, suffix: string)
    requires keys != [] && SeparatorFree(keys) && PATH_PART_SEPARATOR !in suffix
    ensures Keys(SuffixPath(PathOf(keys), suffix)) == Suffixed(keys, suffix)
    ensures PathOf(Suffixed(keys, suffix)) == SuffixPath(PathOf(keys), suffix)
  {
    hide PathOf, Keys, SuffixPath;
    KeysOfSuffixPath(keys, suffix);
    PathOfKeys(SuffixPath(PathOf(keys), suffix));
  }

  /** A key of the index is spelled by the parts of a registered path and a declared suffix. */
  lemma KeyIsSpelled(apis: seq<Api>, parts: seq<string>) returns (p: Path, s: string)
    requires ReversibleApis(apis) && parts != [] && SeparatorFree(parts) && PathOf(parts) in IndexOf({}, apis)
    ensures SpellsKey(TrieOf(apis), p, s, parts)
  {
    ApisAreReversible(apis);
    hide ReversibleApis, TrieOf, SuffixPath, OmittedPath, Straight, KeysApart, Prefixes, GroupOf, Keys, PathOf,
         Suffixed;
    var api; api, s :| api in apis && s in api.suffixes && PathOf(parts) == SuffixPath(OmittedPath({}, api.path), s);
    OmittedPathOfNone(api.path);
    p := Keys(api.path);
    RegisteredBranch(apis, api, s);
    assert IsConstructed(api);
    PathOfSuffixed(p, s);
    KeysOfPathOf(parts);
    assert api in GroupOf(apis, PathOf(p));
  }

  /** The APIs of a branch that declare the suffix are just those that the index holds for it. */
  lemma IndexedBranch(apis: seq<Api>, q: Path, suffix: string)
    requires ReversibleApis(apis) && q in TrieOf(apis) && q != [] && TrieOf(apis)[q].branch.apis != []
    requires suffix == [] || Declared(TrieOf(apis)[q].branch.apis, suffix)
    ensures
      var key, group := SuffixPath(PathOf(q), suffix), WithSuffix(GroupOf(apis, PathOf(q)), suffix);
      && (key in IndexOf({}, apis) <==> group != [])
      && (key in IndexOf({}, apis) ==> IndexOf({}, apis)[key] == group)
  {
    ApisAreReversible(apis);
    hide ReversibleApis, TrieOf, SuffixPath, OmittedPath, Straight, KeysApart, Prefixes, PathOf, IndexOf, KeysTold,
         Declared;
    ConstructedIsTold(apis);
    OmittedPathOfNone(PathOf(q));
    GroupWithoutOmissions(apis, PathOf(q));
    MatchedKey(apis, q, suffix);
  }

  /** A filled route is a key of the index exactly when there was nothing to fill and the suffix is
      declared. */
  lemma FilledInIndex(apis: seq<Api>, q: Path, env: Args, suffix: string)
    requires ReversibleApis(apis) && Fillable(TrieOf(apis), q, env, suffix)
    requires
      var t := TrieOf(apis);
      Fill(t, q, env) != [] && (Front(q) in t ==> |Fill(t, q, env)| >= |q| || t[Front(q)].branch.apis == [])
    ensures PathOf(RequestFor(TrieOf(apis), q, env, suffix)) in IndexOf({}, apis)
       <==> env == map[] && WithSuffix(GroupOf(apis, PathOf(q)), suffix) != []
    ensures env == map[] ==>
              PathOf(RequestFor(TrieOf(apis), q, env, suffix)) == SuffixPath(PathOf(q), suffix)
  {
    ApisAreReversible(apis);
    hide ReversibleApis, TrieOf, Straight, KeysApart, Fill, ArgsUpTo, Fills, SuffixFits, IndexOf, Prefixes, AllFixed,
         PathOf, SuffixPath, Suffixed, SpellsKey, Declared;
    var t := TrieOf(apis);
    var parts := RequestFor(t, q, env, suffix);
    RequestIsSeparatorFree(apis, q, env, suffix);
    if PathOf(parts) in IndexOf({}, apis) {
      var p, s := KeyIsSpelled(apis, parts);
      FilledIsRegistered(t, q, env, suffix, p, s);
    }
    if AllFixed(t, q) {
      FixedBindsNothing(t, q, env);
      FittingSuffix(t, q, env, suffix);
      PathOfSuffixed(q, suffix);
      IndexedBranch(apis, q, suffix);
    } else {
      BindsSomething(t, q, env);
    }
  }

  lemma FillableBranch(t: Trie, q: Path, env: Args, suffix: string)
    requires Fillable(t, q, env, suffix)
    ensures q in t && q != [] && t[q].branch.apis != []
  {
  }

  /** Route reversal: looking up a filled route and a suffix leads to exactly the APIs of the route
      that declare the suffix, with exactly the values it was filled with. It misses exactly when
      none of them declares it, which can only be the empty one. */
  lemma RouteReversal(apis: seq<Api>, q: Path, env: Args, suffix: string)
    requires ReversibleApis(apis) && Fillable(TrieOf(apis), q, env, suffix)
    requires
      var t := TrieOf(apis);
      Fill(t, q, env) != [] && (Front(q) in t ==> |Fill(t, q, env)| >= |q| || t[Front(q)].branch.apis == [])
    ensures Searchable(TrieOf(apis))
    ensures
      var group := WithSuffix(GroupOf(apis, PathOf(q)), suffix);
      LookUpPath(RoutesOf(apis), PathOf(RequestFor(TrieOf(apis), q, env, suffix)))
      == if group == [] then Miss else Hit(group, if env == map[] then None else Some((env, suffix)))
  {
    ApisAreReversible(apis);
    hide ReversibleApis, TrieOf, Straight, KeysApart, Fill, ArgsUpTo, Fills, IndexOf, Prefixes, PathOf, SuffixPath,
         Suffixed, Declared, Searchable, MatchVarPath, Keys, Fillable, OmittedPath;
    var t := TrieOf(apis);
    var parts := RequestFor(t, q, env, suffix);
    SearchableOf(t);
    FilledInIndex(apis, q, env, suffix);
    FillableBranch(t, q, env, suffix);
    FittingSuffix(t, q, env, suffix);
    IndexedBranch(apis, q, suffix);
    SearchReverses(t, q, env, suffix);
    RequestIsSeparatorFree(apis, q, env, suffix);
    KeysOfPathOf(parts);
    PathOfBranch(t, q);
    OmittedPathOfNone(PathOf(q));
  }

  lemma SameTrie(apis: seq<Api>)
    ensures RoutesOf(apis).trie == TrieOf(apis)
  {
  }

  /** `locate` sends a filled route to the first of its APIs that declares the suffix and takes the
      request, if that one redirects nowhere. */
  lemma LocateReverses(apis: seq<Api>, q: Path, env: Args, suffix: string, accept: Api -> bool)
    requires ReversibleApis(apis) && Fillable(TrieOf(apis), q, env, suffix)
    requires
      var t := TrieOf(apis);
      Fill(t, q, env) != [] && (Front(q) in t ==> |Fill(t, q, env)| >= |q| || t[Front(q)].branch.apis == [])
    requires
      var first := FirstAccepted(WithSuffix(GroupOf(apis, PathOf(q)), suffix), accept);
      first.Some? && first.value.redirect == []
    ensures Searchable(TrieOf(apis))
    ensures
      var path := PathOf(RequestFor(TrieOf(apis), q, env, suffix));
      && RedirectsEnd(RoutesOf(apis), accept, path, 0)
      && LocateFrom(RoutesOf(apis), accept, path, map[], None, 0)
         == Routed(FirstAccepted(WithSuffix(GroupOf(apis, PathOf(q)), suffix), accept).value, env,
                   if env == map[] then None else Some(suffix))
  {
    hide ReversibleApis, TrieOf, Fillable, LookUpPath, RoutesOf, Fill, Searchable, GroupOf, FirstAccepted, RequestFor,
         WithSuffix;
    RouteReversal(apis, q, env, suffix);
    SameTrie(apis);
  }

  /** A `?` variable below the root cannot stay empty: the empty request has one, empty, part. */
  lemma EmptyRootVariable(t: Trie, k: string)
    requires Straight(t) && [k] in t && t[[k]].branch.varType.Optional? && t[[k]].branch.apis != []
    ensures Searchable(t)
    ensures MatchVarPath(t, Keys([])) == Found([k], map[t[[k]].branch.varType.name := OptionParam(Some([]))], [])
  {
    SearchableOf(t);
    assert CellOk(t, [k]);
    var name := t[[k]].branch.varType.name;
    var env: Args := map[name := OptionParam(Some([]))];
    assert Front([k]) == [] && Last([k]) == k;
    assert Fills(t, [], env) && Fill(t, [], env) == [] && ArgsUpTo(t, [], env) == map[];
    assert TextsFor(t[[k]].branch.varType, k, env) == [[]];
    assert Fill(t, [k], env) == [[]];
    hide Straight, Searchable, MatchVarPath, Declared;
    assert SuffixFits(t, [k], env, []);
    SearchReverses(t, [k], env, []);
  }
}
