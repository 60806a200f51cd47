/** What is written between the braces of a key: which texts are variables, of which kind, and how
    many parts a registered route takes for them. */
module Variables {
  import opened Text
  import opened Apis
  import opened Branches
  import opened Wiring
  import opened Search
  import opened Matching
  import opened Soundness
  import opened OneWay
  import opened Decided

  // ----- keys of variables -----

  ghost predicate IsBlank(s: string)
  {
    forall i | 0 <= i < |s| :: IsSpace(s[i])
  }

  ghost predicate IsTrimmed(s: string)
  {
    s == [] || (!IsSpace(s[0]) && !IsSpace(s[|s| - 1]))
  }

  lemma {:induction false} TrimStartOf(a: string, s: string)
    requires IsBlank(a) && (s == [] || !IsSpace(s[0]))
    ensures TrimStart(a + s) == s
  {
    if a == [] {
      assert a + s == s;
    } else {
      assert (a + s)[1..] == a[1..] + s;
      TrimStartOf(a[1..], s);
    }
  }

  lemma {:induction false} TrimEndOf(s: string, b: string)
    requires IsBlank(b) && (s == [] || !IsSpace(s[|s| - 1]))
    ensures TrimEnd(s + b) == s
  {
    if b == [] {
      assert s + b == s;
    } else {
      var short := b[..|b| - 1];
      assert (s + b)[..|s + b| - 1] == s + short;
      TrimEndOf(s, short);
    }
  }

  lemma TrimOf(a: string, s: string, b: string)
    requires IsBlank(a) && IsTrimmed(s) && IsBlank(b)
    ensures Trim(a + s + b) == s
  {
    hide IsSpace;
    if s == [] {
      assert a + s + b == (a + b) + [];
      TrimStartOf(a + b, []);
      assert TrimEnd([]) == [];
    } else {
      assert a + s + b == a + (s + b);
      TrimStartOf(a, s + b);
      TrimEndOf(s, b);
    }
  }

  /** The name and its mark, with white space between and around them. */
  function Marked(a: string, name: string, b: string, mark: string, c: string): string
  {
    "{" + a + name + b + mark + c + "}"
  }

  /** What is left of the name and the mark when the braces and the white space are off. */
  lemma Unmarked(a: string, name: string, b: string, mark: char, c: string)
    requires IsBlank(a) && IsTrimmed(name) && IsBlank(b) && !IsSpace(mark) && IsBlank(c)
    ensures
      var key := Marked(a, name, b, [mark], c);
      && IsVarKey(key) && Trim(key[1..|key| - 1]) != [] && Last(Trim(key[1..|key| - 1])) == mark
      && TrimEnd(Front(Trim(key[1..|key| - 1]))) == name
  {
    hide IsSpace, Trim, TrimEnd;
    var key := Marked(a, name, b, [mark], c);
    if name == [] {
      assert key[1..|key| - 1] == (a + b) + [mark] + c;
      TrimOf(a + b, [mark], c);
      TrimEndOf([], []);
      assert Front([mark]) == [] + [];
    } else {
      var core := name + b + [mark];
      assert key[1..|key| - 1] == a + core + c;
      TrimOf(a, core, c);
      TrimEndOf(name, b);
      assert Front(core) == name + b;
    }
  }

  lemma UnmarkedName(a: string, name: string, b: string)
    requires IsBlank(a) && IsTrimmed(name) && IsBlank(b)
    ensures
      var key := Marked(a, name, b, [], []);
      IsVarKey(key) && Trim(key[1..|key| - 1]) == name
  {
    hide Trim;
    var key := Marked(a, name, b, [], []);
    assert key[1..|key| - 1] == a + name + b;
    TrimOf(a, name, b);
  }

  predicate EndsOnMark(name: string)
  {
    name != [] && (Last(name) == '?' || Last(name) == '*' || Last(name) == '+')
  }

  lemma MarksAreBlack()
    ensures !IsSpace('?') && !IsSpace('*') && !IsSpace('+')
  {
  }

  /** The mark tells the kind of the variable, and what is before it is its name. */
  lemma MarkedKeys(a: string, name: string, b: string, c: string)
    requires IsBlank(a) && IsTrimmed(name) && IsBlank(b) && IsBlank(c)
    ensures VarTypeOf(Marked(a, name, b, "?", c)) == Optional(name)
    ensures VarTypeOf(Marked(a, name, b, "*", c)) == EmptableVector(name)
    ensures VarTypeOf(Marked(a, name, b, "+", c)) == Vector(name)
    ensures !EndsOnMark(name) ==> VarTypeOf(Marked(a, name, b, "", "")) == Required(name)
  {
    MarksAreBlack();
    hide IsSpace, Trim, TrimEnd, Marked, IsVarKey;
    Unmarked(a, name, b, '?', c);
    Unmarked(a, name, b, '*', c);
    Unmarked(a, name, b, '+', c);
    UnmarkedName(a, name, b);
  }

  lemma BlankEmpty()
    ensures IsBlank([])
  {
  }

  lemma WithinBlanks(inner: string) returns (a: string, core: string, c: string)
    ensures IsBlank(a) && IsTrimmed(core) && IsBlank(c) && inner == a + core + c
  {
    core := Trim(inner);
    TrimParts(inner);
    TrimStarts(inner);
    TrimEndEnds(TrimStart(inner));
    hide IsSpace, TrimStart, TrimEnd, LeadingSpace;
    var k := |LeadingSpace(inner)|;
    a, c := inner[..k], inner[k + |core|..];
    hide Trim;
    assert inner == a + core + c;
  }

  lemma BeforeMark(core: string) returns (name: string, b: string)
    requires IsTrimmed(core) && core != []
    ensures IsTrimmed(name) && IsBlank(b) && core == name + b + [Last(core)]
  {
    var front := Front(core);
    TrimEndCuts(front);
    TrimEndEnds(front);
    hide IsSpace, TrimEnd;
    name := TrimEnd(front);
    b := front[|name|..];
    assert front == name + b;
    assert name != [] ==> name[0] == core[0];
  }

  /** Every key in braces is written in one of these forms. */
  lemma EveryVariable(key: string) returns (a: string, name: string, b: string, mark: string, c: string)
    requires |key| >= 2 && key[0] == '{' && key[|key| - 1] == '}'
    ensures IsBlank(a) && IsTrimmed(name) && IsBlank(b) && IsBlank(c) && key == Marked(a, name, b, mark, c)
    ensures mark == "?" || mark == "*" || mark == "+" || (mark == "" && c == "" && !EndsOnMark(name))
  {
    hide IsBlank, IsTrimmed;
    var core;
    a, core, c := WithinBlanks(key[1..|key| - 1]);
    assert key == "{" + key[1..|key| - 1] + "}";
    if EndsOnMark(core) {
      name, b := BeforeMark(core);
      mark := [Last(core)];
    } else {
      assert IsBlank([]) by { BlankEmpty(); }
      name, b, mark, c := core, c, "", "";
    }
  }

  /** What is not opened and closed by braces is no variable. */
  lemma OnlyInBraces(key: string)
    ensures VarTypeOf(key).NotVar? <==> !(|key| >= 2 && key[0] == '{' && key[|key| - 1] == '}')
  {
  }

  // ----- the parts a route takes -----

  /** What matches a variable without its key takes as many parts as the variable may. */
  lemma MatchTakes(t: Trie, q: Path, parts: seq<string>, suffix: string)
    requires Straight(t) && IsVar(t, q) && !TakenAsKey(t, q, parts, |q| - 1) && Matches(t, q, parts, suffix, None)
    ensures TakesParts(t[q].branch.varType, |parts| - (|q| - 1))
  {
    hide Searchable, Spelled, LongestCut, Declared, OneKind, TakesParts;
    if MatchesFixed(t, q, parts, suffix, None) {
      DepthIsCount(t, Front(q), parts, |parts| - 1, None);
    } else {
      var n: nat, cut :| MatchesVar(t, q, parts, n, cut, suffix, None);
      DepthIsCount(t, Front(q), parts, n, None);
    }
  }

  lemma SpelledLength(t: Trie, b: Path, parts: seq<string>)
    requires SpellsOut(t, b, parts)
    ensures |b| <= |parts|
  {
  }

  /** Behind the parts that spell its parent, a registered variable takes exactly what it may. */
  lemma VariableTakes(t: Trie, q: Path, parts: seq<string>)
    requires Straight(t) && IsVar(t, q) && t[q].branch.apis != [] && parts != []
    requires SpellsOut(t, Front(q), parts) && !TakenAsKey(t, q, parts, |q| - 1)
    requires |q| - 1 == |parts| ==> Front(q) in t && t[Front(q)].branch.apis == []
    ensures Searchable(t)
    ensures MatchVarPath(t, parts).Found? && MatchVarPath(t, parts).branch == q
       <==> TakesParts(t[q].branch.varType, |parts| - (|q| - 1))
  {
    SearchableOf(t);
    hide Straight, Searchable, MatchVarPath, SpellsOut, TakenAsKey, TakesParts, Matches;
    SearchIsSound(t, parts);
    if MatchVarPath(t, parts).Found? && MatchVarPath(t, parts).branch == q {
      MatchTakes(t, q, parts, MatchVarPath(t, parts).suffix);
    }
    if TakesParts(t[q].branch.varType, |parts| - (|q| - 1)) {
      assert |q| - 1 <= |parts| by { SpelledLength(t, Front(q), parts); }
      VariableIsFound(t, q, parts);
    }
  }

  /** Without a mark one part, with `?` one or none, with `*` any number, with `+` at least one. */
  predicate MarkTakes(mark: string, k: int)
  {
    if mark == "?" then 0 <= k <= 1 else if mark == "*" then 0 <= k else if mark == "+" then 1 <= k else k == 1
  }

  /** A key in one of the four forms of a variable. */
  ghost predicate IsForm(a: string, name: string, b: string, mark: string, c: string)
  {
    && IsBlank(a) && IsTrimmed(name) && IsBlank(b) && IsBlank(c)
    && (mark == "?" || mark == "*" || mark == "+" || (mark == "" && c == "" && !EndsOnMark(name)))
  }

  lemma FormTakes(a: string, name: string, b: string, mark: string, c: string, k: int)
    requires IsForm(a, name, b, mark, c)
    ensures
      var v := VarTypeOf(Marked(a, name, b, mark, c));
      !v.NotVar? && v.name == name && (TakesParts(v, k) <==> MarkTakes(mark, k))
  {
    hide IsBlank, IsTrimmed, VarTypeOf, Marked;
    MarkedKeys(a, name, b, c);
  }

  lemma CellOfSearchable(t: Trie, p: Path)
    requires Searchable(t) && p in t
    ensures CellOk(t, p)
  {
  }

  /** A registered variable takes what its mark says. */
  lemma NodeTakes(t: Trie, q: Path, a: string, name: string, b: string, mark: string, c: string, parts: seq<string>)
    requires Straight(t) && q in t && q != [] && t[q].branch.apis != [] && parts != []
    requires IsForm(a, name, b, mark, c) && Last(q) == Marked(a, name, b, mark, c)
    requires SpellsOut(t, Front(q), parts) && !TakenAsKey(t, q, parts, |q| - 1)
    requires |q| - 1 == |parts| ==> Front(q) in t && t[Front(q)].branch.apis == []
    ensures Searchable(t)
    ensures MatchVarPath(t, parts).Found? && MatchVarPath(t, parts).branch == q
       <==> MarkTakes(mark, |parts| - (|q| - 1))
  {
    SearchableOf(t);
    CellOfSearchable(t, q);
    FormTakes(a, name, b, mark, c, |parts| - (|q| - 1));
    hide Searchable, Straight, MatchVarPath, SpellsOut, TakenAsKey, TakesParts, Marked, VarTypeOf, IsForm, MarkTakes;
    VariableTakes(t, q, parts);
  }

  lemma RegisteredNode(apis: seq<Api>, api: Api)
    requires Registrable(apis) && Unambiguous(apis) && api in apis
    ensures
      var t, q := TrieOf(apis), Keys(api.path);
      Searchable(t) && q in t && t[q].branch.apis != []
  {
    hide Searchable, Registrable, Unambiguous, TrieOf;
    TrieIsSearchable(apis);
    PathOfKeys(api.path);
    var root: Path := [];
    assert root in Prefixes(apis);
    PrefixesShape(apis, root);
    assert api in GroupOf(apis, api.path);
  }

  lemma NoGroup(apis: seq<Api>, path: string)
    requires forall api | api in apis :: api.path != path
    ensures GroupOf(apis, path) == []
  {
  }

  /** A parent with no API of its own has none in the tree. */
  lemma BareParent(apis: seq<Api>, q: Path)
    requires Registrable(apis) && Unambiguous(apis) && q != [] && q in TrieOf(apis)
    requires forall other | other in apis :: Keys(other.path) != Front(q)
    ensures Front(q) in TrieOf(apis) && TrieOf(apis)[Front(q)].branch.apis == []
  {
    hide Searchable, Registrable, Unambiguous, TrieOf;
    TrieIsSearchable(apis);
    PrefixesShape(apis, q);
    var p := Front(q);
    if p != [] {
      PrefixesShape(apis, p);
      KeysOfPathOf(p);
      forall other | other in apis ensures other.path != PathOf(p) { assert Keys(other.path) != p; }
      NoGroup(apis, PathOf(p));
    }
  }

  /** How many parts a registered route takes for the variable it ends with, by its mark. */
  lemma RouteTakes(apis: seq<Api>, api: Api, prefix: Path, a: string, name: string, b: string, mark: string, c: string,
                   parts: seq<string>)
    requires Registrable(apis) && Unambiguous(apis) && Straight(TrieOf(apis)) && parts != []
    requires IsForm(a, name, b, mark, c)
    requires api in apis && Keys(api.path) == prefix + [Marked(a, name, b, mark, c)]
    requires SpellsOut(TrieOf(apis), prefix, parts)
    requires !TakenAsKey(TrieOf(apis), Keys(api.path), parts, |prefix|)
    requires |parts| == |prefix| ==> forall other | other in apis :: Keys(other.path) != prefix
    ensures Searchable(TrieOf(apis))
    ensures
      var outcome := MatchVarPath(TrieOf(apis), parts);
      outcome.Found? && outcome.branch == Keys(api.path) <==> MarkTakes(mark, |parts| - |prefix|)
  {
    hide Searchable, Registrable, Unambiguous, Straight, TrieOf, MatchVarPath, SpellsOut, TakenAsKey, Marked, IsForm,
         MarkTakes, Keys;
    var q := Keys(api.path);
    RegisteredNode(apis, api);
    assert Front(q) == prefix && Last(q) == Marked(a, name, b, mark, c);
    if |parts| == |prefix| { BareParent(apis, q); }
    NodeTakes(TrieOf(apis), q, a, name, b, mark, c, parts);
  }
}
