/** APIs and their declared suffixes: the split of a declared path into path and
    suffixes, and the order in which suffixes are tried. */
module Apis {
  import opened Text

  const PATH_PART_SEPARATOR: char := '/'
  const SUFFIX_BOUNDARY: char := '.'
  const SUFFIX_SEPARATOR: char := '|'

  /** A registered API. `suffixes` is a `BTreeSet<Suffix>`: its elements in order, each once.
      `name` stands for everything routing does not look at. */
  datatype Api = Api(path: string, suffixes: seq<string>, id: string, omission: bool, redirect: string, name: string)

  // ----- the order of suffixes -----

  function Boundaries(s: string): nat
  {
    if s == [] then 0 else (if s[0] == SUFFIX_BOUNDARY then 1 else 0) + Boundaries(s[1..])
  }

  /** `Suffix::cmp` is Less: more boundaries first, then the order of the texts. */
  predicate SuffixLess(a: string, b: string)
  {
    Boundaries(a) > Boundaries(b) || (Boundaries(a) == Boundaries(b) && a != b && StrLeq(a, b))
  }

  /** The order is total, and two suffixes compare equal only when they are equal. */
  lemma SuffixOrderTotal(a: string, b: string)
    ensures SuffixLess(a, b) || SuffixLess(b, a) || a == b
    ensures !(SuffixLess(a, b) && SuffixLess(b, a))
    ensures !SuffixLess(a, a)
  {
    StrLeqTotal(a, b);
    if StrLeq(a, b) && StrLeq(b, a) {
      StrLeqAntisymmetric(a, b);
    }
  }

  lemma SuffixOrderTransitive(a: string, b: string, c: string)
    requires SuffixLess(a, b) && SuffixLess(b, c)
    ensures SuffixLess(a, c)
  {
    if Boundaries(a) == Boundaries(c) {
      StrLeqTransitive(a, b, c);
      if a == c {
        StrLeqAntisymmetric(a, b);
      }
    }
  }

  /** A `BTreeSet<Suffix>` as the sequence it iterates over. */
  ghost predicate IsSuffixSet(s: seq<string>)
  {
    forall i, j | 0 <= i < j < |s| :: SuffixLess(s[i], s[j])
  }

  /** `BTreeSet::insert`. */
  function InsertSuffix(x: string, s: seq<string>): (r: seq<string>)
    requires IsSuffixSet(s)
    ensures IsSuffixSet(r)
    ensures forall y :: y in r <==> y == x || y in s
  {
    if s == [] then [x]
    else if x == s[0] then s
    else if SuffixLess(x, s[0]) then
      assert IsSuffixSet([x] + s) by {
        forall j | 0 <= j < |s| ensures SuffixLess(x, s[j]) {
          if j > 0 { SuffixOrderTransitive(x, s[0], s[j]); }
        }
      }
      [x] + s
    else
      SuffixOrderTotal(x, s[0]);
      var rest := InsertSuffix(x, s[1..]);
      assert IsSuffixSet([s[0]] + rest) by {
        forall j | 0 <= j < |rest| ensures SuffixLess(s[0], rest[j]) {
          assert rest[j] in rest;
          if rest[j] != x { assert rest[j] in s[1..]; }
        }
      }
      [s[0]] + rest
  }

  /** Collecting into a `BTreeSet<Suffix>`. */
  function CollectSuffixes(xs: seq<string>): (r: seq<string>)
    ensures IsSuffixSet(r)
    ensures forall y :: y in r <==> y in xs
  {
    if xs == [] then [] else
      var r := InsertSuffix(xs[0], CollectSuffixes(xs[1..]));
      assert xs == [xs[0]] + xs[1..];
      r
  }

  /** A `BTreeSet` is determined by its elements: insertion order leaves no trace. */
  lemma {:induction false} SuffixSetUnique(a: seq<string>, b: seq<string>)
    requires IsSuffixSet(a) && IsSuffixSet(b)
    requires forall y :: y in a <==> y in b
    ensures a == b
  {
    assert a != [] ==> a[0] in a;
    assert b != [] ==> b[0] in b;
    if a != [] {
      var j :| 0 <= j < |b| && b[j] == a[0];
      assert b[0] in a;
      var i :| 0 <= i < |a| && a[i] == b[0];
      SuffixOrderTotal(a[0], b[0]);
      assert i == 0 && j == 0;
      SuffixOrderTotal(a[0], a[0]);
      assert a == [a[0]] + a[1..] && b == [b[0]] + b[1..];
      assert a[0] !in a[1..] && a[0] !in b[1..];
      forall y ensures y in a[1..] <==> y in b[1..] {
        assert y in a <==> y == a[0] || y in a[1..];
        assert y in b <==> y == a[0] || y in b[1..];
      }
      SuffixSetUnique(a[1..], b[1..]);
      assert a == [a[0]] + a[1..] && b == [b[0]] + b[1..];
    }
  }

  // ----- cutting a suffix off -----

  /** `part` ends with the boundary followed by `suffix`. */
  predicate IsDottedTail(part: string, suffix: string)
  {
    EndsWith(part, [SUFFIX_BOUNDARY] + suffix)
  }

  /** `suffixes.iter().find(|s| part.ends_with(boundary + s))`. */
  function FirstTail(suffixes: seq<string>, part: string): (r: Option<string>)
    ensures r.Some? ==> r.value in suffixes && IsDottedTail(part, r.value)
    ensures r.None? ==> forall s | s in suffixes :: !IsDottedTail(part, s)
  {
    if suffixes == [] then None
    else if IsDottedTail(part, suffixes[0]) then Some(suffixes[0])
    else FirstTail(suffixes[1..], part)
  }

  /** The part without its boundary and suffix. */
  function CutTail(part: string, suffix: string): string
    requires IsDottedTail(part, suffix)
  {
    part[..|part| - |suffix| - 1]
  }

  lemma {:induction false} BoundariesConcat(a: string, b: string)
    ensures Boundaries(a + b) == Boundaries(a) + Boundaries(b)
  {
    if a == [] {
      assert a + b == b;
    } else {
      assert (a + b)[1..] == a[1..] + b;
      BoundariesConcat(a[1..], b);
    }
  }

  /** Of two dotted tails of one part, the longer has more boundaries. */
  lemma LongerTailHasMoreBoundaries(part: string, long: string, short: string)
    requires IsDottedTail(part, long) && IsDottedTail(part, short) && |short| < |long|
    ensures Boundaries(long) > Boundaries(short)
  {
    var middle := long[..|long| - |short| - 1];
    var tail := [SUFFIX_BOUNDARY] + short;
    assert long == ([SUFFIX_BOUNDARY] + long)[1..];
    assert long[|middle|..] == part[|part| - |tail|..];
    assert long == middle + tail;
    BoundariesConcat(middle, tail);
    assert tail[1..] == short;
  }

  /** The first match in the order of the set is the longest declared suffix. */
  lemma {:induction false} LongestSuffixWins(suffixes: seq<string>, part: string, s: string)
    requires IsSuffixSet(suffixes) && s in suffixes && IsDottedTail(part, s)
    ensures FirstTail(suffixes, part).Some?
    ensures |s| <= |FirstTail(suffixes, part).value|
    ensures |s| == |FirstTail(suffixes, part).value| ==> s == FirstTail(suffixes, part).value
  {
    if IsDottedTail(part, suffixes[0]) {
      var first := suffixes[0];
      assert first == s || SuffixLess(first, s);
      if |first| < |s| {
        LongerTailHasMoreBoundaries(part, s, first);
      } else if |first| == |s| {
        assert [SUFFIX_BOUNDARY] + first == [SUFFIX_BOUNDARY] + s;
        assert ([SUFFIX_BOUNDARY] + first)[1..] == first && ([SUFFIX_BOUNDARY] + s)[1..] == s;
      }
    } else {
      assert suffixes == [suffixes[0]] + suffixes[1..];
      LongestSuffixWins(suffixes[1..], part, s);
    }
  }

  /** `suffix_path`: the empty suffix adds nothing. */
  function SuffixPath(path: string, suffix: string): string
  {
    if suffix == [] then path else path + [SUFFIX_BOUNDARY] + suffix
  }

  /** Cutting the suffix found and appending it again restores the part. */
  lemma CutTailRestores(part: string, suffix: string)
    requires IsDottedTail(part, suffix)
    ensures CutTail(part, suffix) + [SUFFIX_BOUNDARY] + suffix == part
  {
    assert part == part[..|part| - |suffix| - 1] + part[|part| - |suffix| - 1..];
  }

  // ----- declared paths -----

  /** `trim_matches(PATH_PART_SEPARATOR)`. */
  function TrimSeparators(path: string): (r: string)
    ensures r == [] || (r[0] != PATH_PART_SEPARATOR && r[|r| - 1] != PATH_PART_SEPARATOR)
    decreases |path|
  {
    if path != [] && path[0] == PATH_PART_SEPARATOR then TrimSeparators(path[1..])
    else if path != [] && path[|path| - 1] == PATH_PART_SEPARATOR then TrimSeparators(path[..|path| - 1])
    else path
  }

  /** Nothing but separators is trimmed. */
  lemma {:induction false} TrimmedSeparators(path: string) returns (a: nat, b: nat)
    ensures a <= b <= |path| && TrimSeparators(path) == path[a..b]
    ensures forall i | 0 <= i < a || b <= i < |path| :: path[i] == PATH_PART_SEPARATOR
    decreases |path|
  {
    if path != [] && path[0] == PATH_PART_SEPARATOR {
      a, b := TrimmedSeparators(path[1..]);
      assert forall i | 1 <= i < |path| :: path[i] == path[1..][i - 1];
      a, b := a + 1, b + 1;
    } else if path != [] && path[|path| - 1] == PATH_PART_SEPARATOR {
      a, b := TrimmedSeparators(path[..|path| - 1]);
      assert forall i | 0 <= i < |path| - 1 :: path[i] == path[..|path| - 1][i];
    } else {
      a, b := 0, |path|;
    }
  }

  /** Where the last part of a text starts. */
  function LastPartFrom(text: string): (from: nat)
    ensures from <= |text| && PATH_PART_SEPARATOR !in text[from..]
    ensures from == 0 || text[from - 1] == PATH_PART_SEPARATOR
  {
    match RFind(text, PATH_PART_SEPARATOR) case None => 0 case Some(i) => i + 1
  }

  /** The path and the suffixes a trimmed declaration stands for: the first boundary of the
      last part separates them. */
  function PathAndSuffixes(text: string): (r: (string, seq<string>))
    ensures IsSuffixSet(r.1)
  {
    var from := LastPartFrom(text);
    match Find(text[from..], SUFFIX_BOUNDARY)
    case None => (text, [[]])
    case Some(bound) =>
      (text[..from + bound], CollectSuffixes(Split(text[from + bound + 1..], SUFFIX_SEPARATOR)))
  }

  /** The last part of a path. */
  function LastPart(path: string): string
  {
    path[LastPartFrom(path)..]
  }

  /** Path and suffixes spell the text. */
  ghost predicate Spells(text: string, path: string, suffixes: seq<string>)
  {
    || (text == path && suffixes == [[]])
    || exists listed: seq<string> ::
         && |listed| > 0 && AllFree(listed, SUFFIX_SEPARATOR) && (forall s :: s in listed <==> s in suffixes)
         && text == path + [SUFFIX_BOUNDARY] + Join(listed, SUFFIX_SEPARATOR)
  }

  lemma LastPartOfCut(path: string, from: nat, bound: nat)
    requires from + bound <= |path| && PATH_PART_SEPARATOR !in path[from..]
    requires from == 0 || path[from - 1] == PATH_PART_SEPARATOR
    ensures LastPart(path[..from + bound]) == path[from..][..bound]
  {
    var cut := path[..from + bound];
    assert forall i | from <= i < |cut| :: cut[i] == path[from..][i - from];
    assert from > 0 ==> cut[from - 1] == path[from - 1];
    assert forall i | 0 <= i < from :: cut[i..][from - 1 - i] == cut[from - 1];
  }

  lemma CutSpells(text: string, at: nat)
    requires at < |text| && text[at] == SUFFIX_BOUNDARY
    ensures
      var suffixes := CollectSuffixes(Split(text[at + 1..], SUFFIX_SEPARATOR));
      Spells(text, text[..at], suffixes) && suffixes != []
  {
    var listed := Split(text[at + 1..], SUFFIX_SEPARATOR);
    var suffixes := CollectSuffixes(listed);
    JoinOfSplit(text[at + 1..], SUFFIX_SEPARATOR);
    SplitIsFree(text[at + 1..], SUFFIX_SEPARATOR);
    assert listed[0] in suffixes;
    assert text == text[..at] + [SUFFIX_BOUNDARY] + Join(listed, SUFFIX_SEPARATOR);
  }

  /** Path and suffixes spell the declared text. */
  lemma PathAndSuffixesSpell(text: string)
    ensures PathAndSuffixes(text).0 <= text && PathAndSuffixes(text).1 != []
    ensures Spells(text, PathAndSuffixes(text).0, PathAndSuffixes(text).1)
  {
    hide CollectSuffixes, Split, Join;
    var from := LastPartFrom(text);
    match Find(text[from..], SUFFIX_BOUNDARY)
    case None =>
      assert PathAndSuffixes(text) == (text, [[]]);
    case Some(bound) =>
      CutSpells(text, from + bound);
  }

  /** The last part of a constructed path has no boundary, so its suffixes start at the first one. */
  lemma LastPartHasNoBoundary(text: string)
    ensures SUFFIX_BOUNDARY !in LastPart(PathAndSuffixes(text).0)
  {
    var from := LastPartFrom(text);
    match Find(text[from..], SUFFIX_BOUNDARY)
    case None =>
    case Some(bound) =>
      LastPartOfCut(text, from, bound);
  }

  /** Suffixes come from the last part of a declared path, split: they have neither separator. */
  lemma ConstructedSuffixes(text: string)
    ensures forall s | s in PathAndSuffixes(text).1 :: PATH_PART_SEPARATOR !in s && SUFFIX_SEPARATOR !in s
  {
    hide CollectSuffixes, Split;
    var from := LastPartFrom(text);
    match Find(text[from..], SUFFIX_BOUNDARY) {
      case None =>
        assert PathAndSuffixes(text).1 == [[]];
      case Some(bound) =>
        var tail := text[from + bound + 1..];
        assert forall i | 0 <= i < |tail| :: tail[i] == text[from..][bound + 1 + i];
        SplitKeepsOut(tail, SUFFIX_SEPARATOR, PATH_PART_SEPARATOR);
        SplitIsFree(tail, SUFFIX_SEPARATOR);
    }
  }

  /** What construction leaves behind: no leading separator, no boundary in the last part, and
      suffixes without either separator. */
  ghost predicate IsConstructed(api: Api)
  {
    && (api.path == [] || api.path[0] != PATH_PART_SEPARATOR)
    && SUFFIX_BOUNDARY !in LastPart(api.path)
    && api.suffixes != [] && IsSuffixSet(api.suffixes)
    && forall s | s in api.suffixes :: PATH_PART_SEPARATOR !in s && SUFFIX_SEPARATOR !in s
  }

  /** `Api::new`. */
  function NewApi(declared: string, id: string, omission: bool, redirect: string, name: string): (api: Api)
    ensures IsConstructed(api) && Spells(TrimSeparators(declared), api.path, api.suffixes)
    ensures api.id == id && api.omission == omission && api.redirect == redirect && api.name == name
  {
    PathAndSuffixesSpell(TrimSeparators(declared));
    LastPartHasNoBoundary(TrimSeparators(declared));
    ConstructedSuffixes(TrimSeparators(declared));
    var (path, suffixes) := PathAndSuffixes(TrimSeparators(declared));
    Api(path, suffixes, id, omission, redirect, name)
  }
}
