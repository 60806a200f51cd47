/** The message format: an id and a path on the first line, one head per further line, a
    separator, and the body. Printing and parsing as functions of the text. */
module Messages {
  import opened Text
  import opened Utf8

  const ID_PATH_SEPARATOR: char := ';'
  const HEAD_SEPARATOR: char := ':'
  const HEAD_BODY_SEPARATOR: string := ">BODY>>>"
  const HEAD_ID: string := "$#id#"
  const HEAD_PATH: string := "$#path#"
  type Heads = map<string, string>

  // ----- printing -----

  /** The first line. */
  function FirstLine(id: Option<string>, path: string): string
  {
    if id.Some? then id.value + [ID_PATH_SEPARATOR] + path else path
  }

  function HeadLine(head: (string, string)): string
  {
    head.0 + [HEAD_SEPARATOR] + head.1
  }

  /** The further lines, in the order in which the map of heads is walked. */
  function HeadLines(order: seq<(string, string)>): string
  {
    if order == [] then [] else HeadLines(order[..|order| - 1]) + "\n" + HeadLine(order[|order| - 1])
  }

  /** The heads in this order make up the map. */
  function HeadsOf(order: seq<(string, string)>): Heads
  {
    if order == [] then map[] else HeadsOf(order[..|order| - 1])[order[|order| - 1].0 := order[|order| - 1].1]
  }

  /** Everything before the body. */
  function HeadText(id: Option<string>, path: string, order: seq<(string, string)>): string
  {
    FirstLine(id, path) + HeadLines(order) + "\n" + HEAD_BODY_SEPARATOR + "\n"
  }

  function Printed(id: Option<string>, path: string, order: seq<(string, string)>, body: string): string
  {
    HeadText(id, path, order) + body
  }

  // ----- parsing -----

  predicate OccursAt(s: string, pattern: string, i: nat)
  {
    i + |pattern| <= |s| && s[i..i + |pattern|] == pattern
  }

  /** `str::find(pattern)`. */
  function FindText(s: string, pattern: string, from: nat): (r: Option<nat>)
    requires from <= |s|
    ensures r.Some? ==>
              from <= r.value && OccursAt(s, pattern, r.value)
              && forall j | from <= j < r.value :: !OccursAt(s, pattern, j)
    ensures r.None? ==> forall j: nat | from <= j :: !OccursAt(s, pattern, j)
    decreases |s| - from
  {
    if OccursAt(s, pattern, from) then Some(from)
    else if from == |s| then None
    else FindText(s, pattern, from + 1)
  }

  /** `strip_suffix('\\r')` of a line that a line feed ended. */
  function WithoutReturn(line: string): string
  {
    if line != [] && line[|line| - 1] == '\r' then line[..|line| - 1] else line
  }

  /** `str::lines`: a last line that is empty is none, and only before a line feed is a carriage
      return dropped. */
  function Lines(s: string): seq<string>
  {
    match Find(s, '\n')
    case None => if s == [] then [] else [s]
    case Some(i) => [WithoutReturn(s[..i])] + Lines(s[i + 1..])
  }

  /** `split_once(c)`. */
  function SplitOnce(s: string, c: char): Option<(string, string)>
  {
    match Find(s, c)
    case None => None
    case Some(i) => Some((s[..i], s[i + 1..]))
  }

  /** A head line without a separator is a name with an empty value. */
  function ReadHead(line: string): (string, string)
  {
    match SplitOnce(line, HEAD_SEPARATOR)
    case None => (line, "")
    case Some(head) => head
  }

  /** The heads after reading the lines; a later one replaces an earlier one of the same name. */
  function ReadHeads(lines: seq<string>, heads: Heads): Heads
  {
    if lines == [] then heads
    else
      var (k, v) := ReadHead(lines[|lines| - 1]);
      ReadHeads(lines[..|lines| - 1], heads)[k := v]
  }

  /** What the parser makes of a message: the heads, and where the body starts, counted in bytes.
      `Crashed` is the panic on a message that starts with the separator. */
  datatype Parsed = Parsed(heads: Heads, bodyIndex: nat) | Crashed

  /** The parser on the lines of the head, before the path is written. */
  function ParseHead(lines: seq<string>): (Heads, string)
    requires lines != []
  {
    match SplitOnce(lines[0], ID_PATH_SEPARATOR)
    case None => (ReadHeads(lines[1..], map[]), lines[0])
    case Some((id, path)) => (ReadHeads(lines[1..], map[HEAD_ID := id]), path)
  }

  function ParseText(text: string): Parsed
  {
    match FindText(text, HEAD_BODY_SEPARATOR, 0)
    case None => Parsed(map[HEAD_PATH := text], 0)
    case Some(index) =>
      var lines := Lines(text[..index]);
      if lines == [] then Crashed
      else
        var (heads, path) := ParseHead(lines);
        Parsed(heads[HEAD_PATH := path], |Encode(text[..index])| + |HEAD_BODY_SEPARATOR|)
  }

  /** What is not well-formed UTF-8 is read as an empty text. */
  function ParseBytes(bytes: Bytes): Parsed
  {
    match Decode(bytes)
    case None => ParseText("")
    case Some(text) => ParseText(Trim(text))
  }

  /** `NoText` is an error, `Torn` the panic on an index inside a character or past the end. */
  datatype BodyResult = Body(text: string) | NoText | Torn

  /** The text from the index on. */
  function BodyOf(bytes: Bytes, bodyIndex: nat): BodyResult
  {
    if Decode(bytes).None? then NoText
    else if bodyIndex > |bytes| then Torn
    else
      match Decode(bytes[bodyIndex..])
      case None => Torn
      case Some(text) => Body(text)
  }

  /** Taking the body panics exactly when the index is not between two characters. */
  lemma TornExactly(text: string, bodyIndex: nat)
    ensures BodyOf(Encode(text), bodyIndex) == Torn <==> !IsBoundary(text, bodyIndex)
  {
    DecodeOfEncode(text);
    if bodyIndex <= |Encode(text)| {
      BoundaryExactly(text, bodyIndex);
    } else {
      BoundaryInside(text, bodyIndex);
    }
  }

  /** Between two characters, the body is the rest of the text; of what is no text there is none. */
  lemma BodyIsTheRest(text: string, k: nat)
    requires k <= |text|
    ensures BodyOf(Encode(text), |Encode(text[..k])|) == Body(text[k..])
  {
    DecodeOfEncode(text);
    DecodeOfEncode(text[k..]);
    hide Encode, Decode;
    assert text == text[..k] + text[k..];
    EncodeConcat(text[..k], text[k..]);
  }

  /** There is no body exactly when the bytes are no text. */
  lemma NoTextExactly(bytes: Bytes, bodyIndex: nat)
    ensures BodyOf(bytes, bodyIndex) == NoText <==> forall text :: Encode(text) != bytes
  {
    hide Encode, DecodeChar;
    if Decode(bytes).Some? { EncodeOfDecode(bytes); }
    forall text | Encode(text) == bytes ensures Decode(bytes).Some? { DecodeOfEncode(text); }
  }

  // ----- texts without a pattern -----

  ghost predicate FreeOf(s: string, pattern: string)
  {
    forall i: nat :: !OccursAt(s, pattern, i)
  }

  /** The lines, each ended by a line feed. */
  function Unlines(lines: seq<string>): string
  {
    if lines == [] then [] else lines[0] + "\n" + Unlines(lines[1..])
  }

  ghost predicate LinesOk(lines: seq<string>)
  {
    forall line | line in lines :: '\n' !in line && FreeOf(line, HEAD_BODY_SEPARATOR) && WithoutReturn(line) == line
  }

  /** An occurrence that starts before the line feed would have to end before it. */
  lemma NotInLine(line: string, rest: string, pattern: string, i: nat)
    requires '\n' !in pattern && pattern != [] && FreeOf(line, pattern) && i <= |line|
    ensures !OccursAt(line + "\n" + rest, pattern, i)
  {
    var s := line + "\n" + rest;
    assert s[|line|] == '\n';
    assert OccursAt(s, pattern, i) ==> forall k | i <= k < i + |pattern| :: s[k] == pattern[k - i];
    assert !OccursAt(line, pattern, i);
    assert i + |pattern| <= |line| ==> line[i..i + |pattern|] == s[i..i + |pattern|];
  }

  /** The separator is not met before the lines end. */
  lemma {:induction false} NotInLines(lines: seq<string>, rest: string, i: nat)
    requires LinesOk(lines) && i < |Unlines(lines)|
    ensures !OccursAt(Unlines(lines) + rest, HEAD_BODY_SEPARATOR, i)
  {
    var line, tail := lines[0], Unlines(lines[1..]) + rest;
    assert Unlines(lines) + rest == line + "\n" + tail;
    if i <= |line| {
      NotInLine(line, tail, HEAD_BODY_SEPARATOR, i);
    } else {
      var j := i - |line| - 1;
      NotInLines(lines[1..], rest, j);
      var s := Unlines(lines) + rest;
      assert s[|line| + 1..] == tail;
      assert i + 8 <= |s| ==> tail[j..j + 8] == s[i..i + 8];
    }
  }

  lemma FirstLineFeed(line: string, rest: string)
    requires '\n' !in line
    ensures Find(line + "\n" + rest, '\n') == Some(|line|)
  {
    var s := line + "\n" + rest;
    assert s[|line|] == '\n';
    assert forall i | 0 <= i < |line| :: s[i] == line[i];
  }

  /** Reading printed lines gives the lines. */
  lemma {:induction false} LinesOfUnlines(lines: seq<string>)
    requires LinesOk(lines)
    ensures Lines(Unlines(lines)) == lines
  {
    hide FreeOf;
    if lines != [] {
      var s := Unlines(lines);
      assert s[|lines[0]|] == '\n';
      assert Find(s, '\n') == Some(|lines[0]|) by { FirstLineFeed(lines[0], Unlines(lines[1..])); }
      assert s[..|lines[0]|] == lines[0] && s[|lines[0]| + 1..] == Unlines(lines[1..]);
      LinesOfUnlines(lines[1..]);
      assert lines[0] in lines;
    }
  }

  // ----- trimming -----

  lemma {:induction false} TrimEndKeeps(s: string, n: nat)
    requires 0 < n <= |s| && !IsSpace(s[n - 1])
    ensures n <= |TrimEnd(s)| <= |s| && TrimEnd(s) == s[..|TrimEnd(s)|]
  {
    if IsSpace(s[|s| - 1]) {
      TrimEndKeeps(s[..|s| - 1], n);
    }
  }

  // ----- reading what was printed -----

  /** The lines of a printed head. */
  function PrintedLines(id: Option<string>, path: string, order: seq<(string, string)>): (r: seq<string>)
    ensures |r| == |order| + 1 && r[0] == FirstLine(id, path)
    ensures forall i | 0 <= i < |order| :: r[i + 1] == HeadLine(order[i])
  {
    [FirstLine(id, path)] + seq(|order|, i requires 0 <= i < |order| => HeadLine(order[i]))
  }

  lemma {:induction false} UnlinesSnoc(lines: seq<string>, line: string)
    ensures Unlines(lines + [line]) == Unlines(lines) + line + "\n"
  {
    if lines == [] {
      assert Unlines([line]) == line + "\n" + Unlines([]) by { assert [line][1..] == []; }
    } else {
      assert (lines + [line])[1..] == lines[1..] + [line];
      UnlinesSnoc(lines[1..], line);
    }
  }

  /** A printed head is its lines, each ended by a line feed, and the separator. */
  lemma {:induction false} HeadTextIsLines(id: Option<string>, path: string, order: seq<(string, string)>)
    ensures FirstLine(id, path) + HeadLines(order) + "\n" == Unlines(PrintedLines(id, path, order))
  {
    var lines := PrintedLines(id, path, order);
    if order == [] {
      assert lines == [] + [FirstLine(id, path)];
      UnlinesSnoc([], FirstLine(id, path));
    } else {
      var before := order[..|order| - 1];
      HeadTextIsLines(id, path, before);
      var head := HeadLine(order[|order| - 1]);
      assert lines == PrintedLines(id, path, before) + [head];
      UnlinesSnoc(PrintedLines(id, path, before), head);
      assert FirstLine(id, path) + (HeadLines(before) + "\n" + head) + "\n"
          == (FirstLine(id, path) + HeadLines(before) + "\n") + head + "\n";
    }
  }

  /** A part without a line feed, a final carriage return, or the body separator. */
  ghost predicate PartOk(part: string)
  {
    '\n' !in part && (part == [] || part[|part| - 1] != '\r') && FreeOf(part, HEAD_BODY_SEPARATOR)
  }

  /** What a printed text must be free of: the id of semicolons, the path of them if there is no id,
      head names of colons, every part of line feeds and the body separator, every line of a
      final carriage return. */
  ghost predicate Printable(id: Option<string>, path: string, order: seq<(string, string)>)
  {
    && (id.Some? ==> ID_PATH_SEPARATOR !in id.value)
    && (id.None? ==> ID_PATH_SEPARATOR !in path)
    && (forall head | head in order :: HEAD_SEPARATOR !in head.0 && head.0 != HEAD_ID && head.0 != HEAD_PATH)
    && PartOk(path) && (id.Some? ==> PartOk(id.value))
    && (forall head | head in order :: PartOk(head.0) && PartOk(head.1))
  }

  /** Two parts with a character between that the separator does not have are free of it together. */
  lemma JoinedPartsOk(a: string, c: char, b: string)
    requires PartOk(a) && PartOk(b) && (c == ID_PATH_SEPARATOR || c == HEAD_SEPARATOR)
    ensures PartOk(a + [c] + b)
  {
    var s := a + [c] + b;
    var pattern := HEAD_BODY_SEPARATOR;
    forall i: nat ensures !OccursAt(s, pattern, i) {
      assert |a| < |s| && s[|a|] == c;
      assert OccursAt(s, pattern, i) ==> forall k | i <= k < i + |pattern| :: s[k] == pattern[k - i];
      assert !OccursAt(a, pattern, i);
      assert i + |pattern| <= |a| ==> a[i..i + |pattern|] == s[i..i + |pattern|];
      var j := i - |a| - 1;
      if 0 <= j && i + |pattern| <= |s| {
        assert !OccursAt(b, pattern, j);
        assert b[j..j + |pattern|] == s[i..i + |pattern|];
      }
    }
  }

  lemma PrintedLinesOk(id: Option<string>, path: string, order: seq<(string, string)>)
    requires Printable(id, path, order)
    ensures LinesOk(PrintedLines(id, path, order))
  {
    hide FreeOf;
    if id.Some? { JoinedPartsOk(id.value, ID_PATH_SEPARATOR, path); }
    var lines := PrintedLines(id, path, order);
    forall line | line in lines ensures PartOk(line) {
      var i :| 0 <= i < |lines| && lines[i] == line;
      if i > 0 {
        assert order[i - 1] in order;
        JoinedPartsOk(order[i - 1].0, HEAD_SEPARATOR, order[i - 1].1);
      }
    }
  }

  lemma SplitOnceAt(a: string, c: char, b: string)
    requires c !in a
    ensures SplitOnce(a + [c] + b, c) == Some((a, b))
  {
    var s := a + [c] + b;
    assert s[|a|] == c;
    assert forall i | 0 <= i < |a| :: s[i] == a[i];
    assert s[..|a|] == a && s[|a| + 1..] == b;
  }

  lemma ReadPrintedHead(head: (string, string))
    requires HEAD_SEPARATOR !in head.0
    ensures ReadHead(HeadLine(head)) == head
  {
    hide SplitOnce;
    SplitOnceAt(head.0, HEAD_SEPARATOR, head.1);
  }

  lemma OneMoreHead(heads: Heads, order: seq<(string, string)>)
    requires order != []
    ensures heads + HeadsOf(order)
        == (heads + HeadsOf(order[..|order| - 1]))[order[|order| - 1].0 := order[|order| - 1].1]
  {
  }

  /** The heads that are read from the printed lines. */
  lemma {:induction false} ReadPrintedHeads(lines: seq<string>, order: seq<(string, string)>, heads: Heads)
    requires |lines| == |order| && forall i | 0 <= i < |order| :: lines[i] == HeadLine(order[i])
    requires forall i | 0 <= i < |order| :: HEAD_SEPARATOR !in order[i].0
    ensures ReadHeads(lines, heads) == heads + HeadsOf(order)
  {
    hide HeadLine, ReadHead;
    if order == [] {
      assert heads + map[] == heads;
    } else {
      ReadPrintedHead(order[|order| - 1]);
      ReadPrintedHeads(lines[..|lines| - 1], order[..|order| - 1], heads);
      OneMoreHead(heads, order);
    }
  }

  /** The heads a message carries: those printed, the path, and the id if there is one. */
  function MessageHeads(id: Option<string>, path: string, order: seq<(string, string)>): Heads
  {
    ((if id.Some? then map[HEAD_ID := id.value] else map[]) + HeadsOf(order))[HEAD_PATH := path]
  }

  lemma NoSemicolon(path: string)
    requires ID_PATH_SEPARATOR !in path
    ensures SplitOnce(path, ID_PATH_SEPARATOR) == None
  {
  }

  lemma ReadFirstLine(id: Option<string>, path: string)
    requires id.Some? ==> ID_PATH_SEPARATOR !in id.value
    requires id.None? ==> ID_PATH_SEPARATOR !in path
    ensures SplitOnce(FirstLine(id, path), ID_PATH_SEPARATOR) == if id.Some? then Some((id.value, path)) else None
    ensures id.None? ==> FirstLine(id, path) == path
  {
    if id.Some? { SplitOnceAt(id.value, ID_PATH_SEPARATOR, path); } else { NoSemicolon(path); }
  }

  lemma ParsePrintedHead(id: Option<string>, path: string, order: seq<(string, string)>)
    requires Printable(id, path, order)
    ensures
      var (heads, p) := ParseHead(PrintedLines(id, path, order));
      p == path && heads[HEAD_PATH := p] == MessageHeads(id, path, order)
  {
    hide PartOk, SplitOnce, ReadHeads, FirstLine, HeadLine, HeadsOf;
    var lines := PrintedLines(id, path, order);
    ReadFirstLine(id, path);
    assert forall i | 0 <= i < |order| :: order[i] in order;
    ReadPrintedHeads(lines[1..], order, if id.Some? then map[HEAD_ID := id.value] else map[]);
  }

  /** The first occurrence is the only one without an earlier one. */
  lemma FirstOccurrence(s: string, pattern: string, i: nat)
    requires OccursAt(s, pattern, i) && forall j | 0 <= j < i :: !OccursAt(s, pattern, j)
    ensures FindText(s, pattern, 0) == Some(i)
  {
  }

  /** Where the separator is in a text that starts with printed lines. */
  lemma SeparatorAfterLines(lines: seq<string>, text: string, rest: string)
    requires LinesOk(lines) && text == Unlines(lines) + HEAD_BODY_SEPARATOR + rest
    ensures FindText(text, HEAD_BODY_SEPARATOR, 0) == Some(|Unlines(lines)|)
  {
    hide FreeOf, FindText;
    var at := |Unlines(lines)|;
    assert text[at..at + 8] == HEAD_BODY_SEPARATOR;
    forall j | 0 <= j < at ensures !OccursAt(text, HEAD_BODY_SEPARATOR, j) {
      NotInLines(lines, HEAD_BODY_SEPARATOR + rest, j);
      assert text == Unlines(lines) + (HEAD_BODY_SEPARATOR + rest);
    }
    FirstOccurrence(text, HEAD_BODY_SEPARATOR, at);
  }

  /** Parsing a text that starts with printed lines and the separator. */
  lemma ParseLines(id: Option<string>, path: string, order: seq<(string, string)>, text: string, rest: string)
    requires Printable(id, path, order)
    requires text == Unlines(PrintedLines(id, path, order)) + HEAD_BODY_SEPARATOR + rest
    ensures ParseText(text)
        == Parsed(MessageHeads(id, path, order), |Encode(Unlines(PrintedLines(id, path, order)))| + 8)
  {
    hide FindText, Printable, Unlines, ParseHead, MessageHeads, LinesOk, PrintedLines, Encode, Lines;
    var lines := PrintedLines(id, path, order);
    PrintedLinesOk(id, path, order);
    SeparatorAfterLines(lines, text, rest);
    LinesOfUnlines(lines);
    ParsePrintedHead(id, path, order);
    assert text[..|Unlines(lines)|] == Unlines(lines);
  }

  /** The text does not start with white space. */
  predicate StartsBlack(text: string)
  {
    text != [] && !IsSpace(text[0])
  }

  /** Trimming the end leaves everything up to a black character. */
  lemma TrimEndLeaves(head: string, tail: string) returns (rest: string)
    requires head != [] && !IsSpace(head[|head| - 1])
    ensures TrimEnd(head + tail) == head + rest
  {
    TrimEndKeeps(head + tail, |head|);
    rest := TrimEnd(head + tail)[|head|..];
    assert (head + tail)[..|head|] == head;
  }

  lemma SeparatorIsBlack()
    ensures !IsSpace(HEAD_BODY_SEPARATOR[0]) && !IsSpace(HEAD_BODY_SEPARATOR[7]) && |HEAD_BODY_SEPARATOR| == 8
  {
  }

  /** Trimming a printed message cuts white space before it, and after the separator at most. */
  lemma TrimPrinted(head: string, body: string) returns (rest: string)
    requires StartsBlack(head)
    ensures Trim(head + HEAD_BODY_SEPARATOR + body) == head + HEAD_BODY_SEPARATOR + rest
  {
    var text := head + HEAD_BODY_SEPARATOR + body;
    assert text[0] == head[0];
    assert TrimStart(text) == text;
    hide TrimStart, TrimEnd, IsSpace;
    SeparatorIsBlack();
    rest := TrimEndLeaves(head + HEAD_BODY_SEPARATOR, body);
  }

  /** The text of a printed message, by its lines. */
  lemma PrintedByLines(id: Option<string>, path: string, order: seq<(string, string)>, body: string)
    ensures Printed(id, path, order, body)
        == Unlines(PrintedLines(id, path, order)) + HEAD_BODY_SEPARATOR + ("\n" + body)
    ensures |Unlines(PrintedLines(id, path, order))| > |FirstLine(id, path)|
    ensures FirstLine(id, path) + "\n" <= Unlines(PrintedLines(id, path, order))
  {
    HeadTextIsLines(id, path, order);
    var lines := PrintedLines(id, path, order);
    assert Unlines(lines) == lines[0] + "\n" + Unlines(lines[1..]);
  }

  lemma {:induction false} AsciiBytes(s: string)
    requires forall i | 0 <= i < |s| :: s[i] as int < 128
    ensures |Encode(s)| == |s|
  {
    if s != [] {
      AsciiBytes(s[1..]);
    }
  }

  lemma SeparatorBytes()
    ensures |Encode(HEAD_BODY_SEPARATOR)| == 8
  {
    AsciiBytes(HEAD_BODY_SEPARATOR);
  }

  /** The bytes after the separator are those of the body. */
  lemma BodyAfter(head: string, body: string)
    ensures
      var bytes := Encode(head + HEAD_BODY_SEPARATOR + body);
      BodyOf(bytes, |Encode(head)| + 8) == Body(body)
  {
    hide Encode, Decode;
    EncodeConcat(head + HEAD_BODY_SEPARATOR, body);
    EncodeConcat(head, HEAD_BODY_SEPARATOR);
    SeparatorBytes();
    var bytes := Encode(head + HEAD_BODY_SEPARATOR + body);
    assert bytes[|Encode(head)| + 8..] == Encode(body);
    DecodeOfEncode(body);
    DecodeOfEncode(head + HEAD_BODY_SEPARATOR + body);
  }

  /** Reading a printed message gives back the id, the path and the heads, in whatever order the
      heads were printed; the body comes back behind one line feed. */
  lemma MessageRoundTrip(id: Option<string>, path: string, order: seq<(string, string)>, body: string)
    requires Printable(id, path, order) && StartsBlack(FirstLine(id, path))
    ensures
      var bytes := Encode(Printed(id, path, order, body));
      var parsed := ParseBytes(bytes);
      && parsed.Parsed? && parsed.heads == MessageHeads(id, path, order)
      && BodyOf(bytes, parsed.bodyIndex) == Body("\n" + body)
  {
    hide Printable, Unlines, PrintedLines, Encode, Decode, Printed, Trim, ParseText, FirstLine, MessageHeads;
    var text, head := Printed(id, path, order, body), Unlines(PrintedLines(id, path, order));
    DecodeOfEncode(text);
    PrintedByLines(id, path, order, body);
    assert head[0] == FirstLine(id, path)[0];
    var rest := TrimPrinted(head, "\n" + body);
    ParseLines(id, path, order, Trim(text), rest);
    BodyAfter(head, "\n" + body);
  }

  // ----- a first line that starts with white space -----

  /** White space in front goes, but nothing from the first black character on. */
  lemma TrimStartShifts(head: string, tail: string) returns (k: nat)
    requires head != [] && IsSpace(head[0]) && tail != [] && !IsSpace(tail[0])
    ensures 1 <= k <= |head|
    ensures TrimStart(head + tail) == head[k..] + tail
  {
    var text := head + tail;
    TrimStartCuts(text);
    TrimStartCuts(text[1..]);
    k := |text| - |TrimStart(text)|;
    assert text[0] == head[0] && text[|head|] == tail[0];
    assert TrimStart(text) == TrimStart(text[1..]);
    assert text[k..] == head[k..] + tail;
  }

  /** White space in front is trimmed away, and nothing of the head but that. */
  lemma TrimShifted(head: string, body: string) returns (k: nat, rest: string)
    requires head != [] && IsSpace(head[0])
    ensures 1 <= k <= |head|
    ensures Trim(head + HEAD_BODY_SEPARATOR + body) == head[k..] + HEAD_BODY_SEPARATOR + rest
  {
    hide TrimStart, TrimEnd, IsSpace;
    SeparatorIsBlack();
    assert head + HEAD_BODY_SEPARATOR + body == head + (HEAD_BODY_SEPARATOR + body);
    k := TrimStartShifts(head, HEAD_BODY_SEPARATOR + body);
    assert head[k..] + (HEAD_BODY_SEPARATOR + body) == head[k..] + HEAD_BODY_SEPARATOR + body;
    rest := TrimEndLeaves(head[k..] + HEAD_BODY_SEPARATOR, body);
  }

  lemma ShiftedOccurrence(lines: seq<string>, k: nat, rest: string)
    requires LinesOk(lines) && k <= |Unlines(lines)|
    ensures FindText(Unlines(lines)[k..] + HEAD_BODY_SEPARATOR + rest, HEAD_BODY_SEPARATOR, 0)
        == Some(|Unlines(lines)| - k)
  {
    hide FindText, Unlines;
    var head := Unlines(lines);
    var text, whole := head[k..] + HEAD_BODY_SEPARATOR + rest, head + (HEAD_BODY_SEPARATOR + rest);
    var at := |head| - k;
    assert text[at..at + 8] == HEAD_BODY_SEPARATOR;
    assert whole[k..] == text;
    forall j | 0 <= j < at ensures !OccursAt(text, HEAD_BODY_SEPARATOR, j) {
      NotInLines(lines, HEAD_BODY_SEPARATOR + rest, j + k);
      assert j + 8 <= |text| ==> text[j..j + 8] == whole[j + k..j + k + 8];
    }
    FirstOccurrence(text, HEAD_BODY_SEPARATOR, at);
  }

  /** The bytes from an earlier index are too many for the body. */
  lemma TooEarly(head: string, k: nat, body: string)
    requires 1 <= k <= |head|
    ensures
      var bytes := Encode(head + HEAD_BODY_SEPARATOR + body);
      BodyOf(bytes, |Encode(head[k..])| + 8) != Body(body)
  {
    hide Encode, Decode;
    var bytes := Encode(head + HEAD_BODY_SEPARATOR + body);
    EncodeConcat(head + HEAD_BODY_SEPARATOR, body);
    EncodeConcat(head, HEAD_BODY_SEPARATOR);
    EncodeConcat(head[..k], head[k..]);
    assert head[..k] + head[k..] == head;
    EncodeIsLong(head[..k]);
    SeparatorBytes();
    var index := |Encode(head[k..])| + 8;
    assert |bytes[index..]| > |Encode(body)|;
    if Decode(bytes[index..]).Some? { EncodeOfDecode(bytes[index..]); }
  }

  /** Then the parser takes the start of the body too early, or crashes. */
  lemma LeadingSpaceShifts(id: Option<string>, path: string, order: seq<(string, string)>, body: string)
    requires Printable(id, path, order) && !StartsBlack(FirstLine(id, path))
    ensures
      var bytes := Encode(Printed(id, path, order, body));
      var parsed := ParseBytes(bytes);
      parsed.Crashed? || BodyOf(bytes, parsed.bodyIndex) != Body("\n" + body)
  {
    hide Printable, Unlines, PrintedLines, Encode, Decode, Printed, Trim, FindText, FirstLine, Lines, ParseHead;
    var lines := PrintedLines(id, path, order);
    var text, head := Printed(id, path, order, body), Unlines(lines);
    DecodeOfEncode(text);
    PrintedByLines(id, path, order, body);
    PrintedLinesOk(id, path, order);
    assert head[0] == if FirstLine(id, path) == [] then '\n' else FirstLine(id, path)[0];
    var k, rest := TrimShifted(head, "\n" + body);
    ShiftedOccurrence(lines, k, rest);
    assert (head[k..] + HEAD_BODY_SEPARATOR + rest)[..|head| - k] == head[k..];
    TooEarly(head, k, "\n" + body);
  }

  /** The round trip holds exactly for a first line that is not empty and does not start with
      white space. */
  lemma RoundTripExactly(id: Option<string>, path: string, order: seq<(string, string)>, body: string)
    requires Printable(id, path, order)
    ensures
      var bytes := Encode(Printed(id, path, order, body));
      var parsed := ParseBytes(bytes);
      (parsed.Parsed? && parsed.heads == MessageHeads(id, path, order)
          && BodyOf(bytes, parsed.bodyIndex) == Body("\n" + body))
      <==> StartsBlack(FirstLine(id, path))
  {
    hide Printable, Encode, Printed, ParseBytes, BodyOf, FirstLine, MessageHeads;
    if StartsBlack(FirstLine(id, path)) {
      MessageRoundTrip(id, path, order, body);
    } else {
      LeadingSpaceShifts(id, path, order, body);
    }
  }

  /** The parser panics exactly on a message that starts with the separator, white space aside. */
  lemma CrashesExactly(bytes: Bytes)
    ensures ParseBytes(bytes) == Crashed <==> Decode(bytes).Some? && HEAD_BODY_SEPARATOR <= Trim(Decode(bytes).value)
  {
    hide Decode, Trim;
    if Decode(bytes).Some? {
      var text := Trim(Decode(bytes).value);
      assert HEAD_BODY_SEPARATOR <= text <==> OccursAt(text, HEAD_BODY_SEPARATOR, 0);
      assert forall s :: Lines(s) == [] <==> s == [];
    }
  }

  // ----- a body that cannot be taken -----

  lemma SliceOfSlice(text: string, k: nat, n: nat, i: nat)
    requires k + n <= |text| && i + 8 <= n
    ensures text[k..k + n][i..i + 8] == text[k + i..k + i + 8]
  {
    var slice := text[k..k + n][i..i + 8];
    assert forall x | 0 <= x < 8 :: slice[x] == text[k + i + x];
  }

  /** Trimming touches no occurrence of the separator. */
  lemma OccursTrimmed(text: string, j: nat)
    ensures OccursAt(text, HEAD_BODY_SEPARATOR, j)
       <==> j >= |LeadingSpace(text)| && OccursAt(Trim(text), HEAD_BODY_SEPARATOR, j - |LeadingSpace(text)|)
  {
    TrimParts(text);
    SeparatorIsBlack();
    hide Trim, LeadingSpace, IsSpace;
    var k, trimmed := |LeadingSpace(text)|, Trim(text);
    if OccursAt(text, HEAD_BODY_SEPARATOR, j) {
      assert text[j..j + 8][0] == text[j] && text[j..j + 8][7] == text[j + 7];
      assert k <= j && j + 8 <= k + |trimmed|;
      SliceOfSlice(text, k, |trimmed|, j - k);
    }
    if j >= k && OccursAt(trimmed, HEAD_BODY_SEPARATOR, j - k) {
      SliceOfSlice(text, k, |trimmed|, j - k);
    }
  }

  /** So the parser finds the separator where it is first in the text received. */
  lemma FoundTrimmed(text: string)
    ensures
      var here, there := FindText(text, HEAD_BODY_SEPARATOR, 0), FindText(Trim(text), HEAD_BODY_SEPARATOR, 0);
      && (here.Some? <==> there.Some?)
      && (here.Some? ==> here.value == |LeadingSpace(text)| + there.value)
  {
    hide FindText, Trim, LeadingSpace, OccursAt;
    forall j: nat {
      OccursTrimmed(text, j);
    }
    var k := |LeadingSpace(text)|;
    var here, there := FindText(text, HEAD_BODY_SEPARATOR, 0), FindText(Trim(text), HEAD_BODY_SEPARATOR, 0);
    assert there.Some? ==> OccursAt(text, HEAD_BODY_SEPARATOR, there.value + k);
    assert here.Some? ==> OccursAt(Trim(text), HEAD_BODY_SEPARATOR, here.value - k);
  }

  lemma BytesBetween(text: string, m: nat, j: nat)
    requires m <= j <= |text|
    ensures |Encode(text[..j])| == |Encode(text[..m])| + |Encode(text[m..j])|
    ensures m < j ==> |Encode(text[m..j])| > 0
  {
    hide Encode;
    EncodeConcat(text[..m], text[m..j]);
    assert text[..m] + text[m..j] == text[..j];
    EncodeIsLong(text[m..j]);
  }

  /** Some characters just before `j` have that many bytes. */
  ghost predicate EndsCharacters(text: string, j: nat, bytes: nat)
    requires j <= |text|
  {
    exists m | 0 <= m <= j :: |Encode(text[m..j])| == bytes
  }

  /** Going back over whole characters leads to a boundary, and only that. */
  lemma BoundaryBefore(text: string, j: nat, bytes: nat)
    requires j <= |text| && bytes <= |Encode(text[..j])|
    ensures IsBoundary(text, |Encode(text[..j])| - bytes) <==> EndsCharacters(text, j, bytes)
  {
    hide Encode;
    var index := |Encode(text[..j])| - bytes;
    if m :| 0 <= m <= |text| && |Encode(text[..m])| == index {
      if m <= j {
        BytesBetween(text, m, j);
        assert |Encode(text[m..j])| == bytes;
      } else {
        BytesBetween(text, j, m);
      }
    }
    if m :| 0 <= m <= j && |Encode(text[m..j])| == bytes {
      BytesBetween(text, m, j);
      assert |Encode(text[..m])| == index;
    }
  }

  /** Where the parser takes the body to start: too early by the bytes of the leading white space. */
  lemma IndexIsEarly(text: string)
    ensures
      var parsed, at := ParseBytes(Encode(text)), FindText(text, HEAD_BODY_SEPARATOR, 0);
      && (at.None? ==> parsed.Parsed? && parsed.bodyIndex == 0)
      && (at.Some? && parsed.Parsed? ==>
            parsed.bodyIndex + |Encode(LeadingSpace(text))| == |Encode(text[..at.value + 8])|)
  {
    DecodeOfEncode(text);
    FoundTrimmed(text);
    TrimParts(text);
    hide Encode, Decode, FindText, Trim, LeadingSpace, IsSpace, Lines, ParseHead;
    var k, there := |LeadingSpace(text)|, FindText(Trim(text), HEAD_BODY_SEPARATOR, 0);
    if there.Some? {
      var i := there.value;
      SeparatorBytes();
      EncodeConcat(Trim(text)[..i], HEAD_BODY_SEPARATOR);
      assert Trim(text)[..i] + HEAD_BODY_SEPARATOR == text[k..k + i + 8];
      BytesBetween(text, k, k + i + 8);
      assert text[..k] == LeadingSpace(text);
    }
  }

  lemma StartIsBoundary(text: string)
    ensures IsBoundary(text, 0)
  {
    assert |Encode(text[..0])| == 0;
  }

  /** Taking the body of a message received panics exactly when no whole characters before the body
      have as many bytes as the leading white space. */
  lemma TornOnReceipt(text: string)
    ensures
      var parsed, at := ParseBytes(Encode(text)), FindText(text, HEAD_BODY_SEPARATOR, 0);
      parsed.Parsed? ==>
        (BodyOf(Encode(text), parsed.bodyIndex) == Torn
         <==> at.Some? && !EndsCharacters(text, at.value + 8, |Encode(LeadingSpace(text))|))
  {
    hide Encode, Decode, FindText, LeadingSpace, ParseBytes, BodyOf, EndsCharacters, IsBoundary;
    var parsed, at := ParseBytes(Encode(text)), FindText(text, HEAD_BODY_SEPARATOR, 0);
    IndexIsEarly(text);
    if parsed.Parsed? {
      TornExactly(text, parsed.bodyIndex);
      if at.Some? {
        BoundaryBefore(text, at.value + 8, |Encode(LeadingSpace(text))|);
      } else {
        StartIsBoundary(text);
      }
    }
  }

  /** Up to eight bytes of leading white space do no harm, since the separator is as long. */
  lemma NeverTorn(text: string)
    requires |Encode(LeadingSpace(text))| <= 8
    ensures
      var parsed := ParseBytes(Encode(text));
      parsed.Parsed? ==> BodyOf(Encode(text), parsed.bodyIndex) != Torn
  {
    hide Encode, FindText, LeadingSpace, ParseBytes, BodyOf;
    TornOnReceipt(text);
    var at, bytes := FindText(text, HEAD_BODY_SEPARATOR, 0), |Encode(LeadingSpace(text))|;
    if at.Some? {
      var j := at.value + 8;
      assert text[at.value..j] == HEAD_BODY_SEPARATOR;
      assert text[j - bytes..j] == HEAD_BODY_SEPARATOR[8 - bytes..];
      AsciiBytes(HEAD_BODY_SEPARATOR[8 - bytes..]);
      assert EndsCharacters(text, j, bytes);
    }
  }

  const TORN_MESSAGE: string := "         \U{E9}>BODY>>>"

  lemma TornShape()
    ensures |TORN_MESSAGE| == 18 && TORN_MESSAGE[9] == '\U{E9}' && forall i | 0 <= i < 9 :: TORN_MESSAGE[i] == ' '
    ensures TORN_MESSAGE[10..18] == HEAD_BODY_SEPARATOR
  {
  }

  lemma SpacesLead(text: string, n: nat)
    requires n < |text| && !IsSpace(text[n]) && forall i | 0 <= i < n :: IsSpace(text[i])
    ensures LeadingSpace(text) == text[..n]
  {
    TrimStartCuts(text);
    hide TrimStart, IsSpace;
    var k := |text| - |TrimStart(text)|;
    assert k < |text| ==> TrimStart(text)[0] == text[k];
  }

  lemma FirstHere(text: string, n: nat)
    requires n + 8 <= |text| && text[n..n + 8] == HEAD_BODY_SEPARATOR && forall i | 0 <= i < n :: text[i] != '>'
    ensures FindText(text, HEAD_BODY_SEPARATOR, 0) == Some(n)
  {
    hide FindText;
    forall j | 0 <= j < n ensures !OccursAt(text, HEAD_BODY_SEPARATOR, j) {
      assert j + 8 <= |text| ==> text[j..j + 8][0] == text[j];
    }
    FirstOccurrence(text, HEAD_BODY_SEPARATOR, n);
  }

  lemma TornLeads()
    ensures LeadingSpace(TORN_MESSAGE) == TORN_MESSAGE[..9] && |Encode(TORN_MESSAGE[..9])| == 9
    ensures FindText(TORN_MESSAGE, HEAD_BODY_SEPARATOR, 0) == Some(10)
    ensures !(HEAD_BODY_SEPARATOR <= Trim(TORN_MESSAGE))
  {
    hide FindText, LeadingSpace, Trim, Encode;
    TornShape();
    SpacesLead(TORN_MESSAGE, 9);
    AsciiBytes(TORN_MESSAGE[..9]);
    FirstHere(TORN_MESSAGE, 10);
    FoundTrimmed(TORN_MESSAGE);
    var left := Trim(TORN_MESSAGE);
    assert !OccursAt(left, HEAD_BODY_SEPARATOR, 0);
    assert |left| >= 8 ==> left[0..8] == left[..8];
  }

  lemma SeparatorIsAscii()
    ensures forall i | 0 <= i < 8 :: HEAD_BODY_SEPARATOR[i] as int < 128
  {
  }

  /** Eight one-byte characters follow one of two bytes: none of its ends has nine bytes. */
  lemma BytesFrom(text: string, m: nat)
    requires m <= 18 == |text| && 0x80 <= text[9] as int < 0x800
    requires forall i | 0 <= i < 18 && i != 9 :: text[i] as int < 128
    ensures |Encode(text[m..18])| != 9
  {
    if m >= 10 {
      AsciiBytes(text[m..18]);
    } else {
      var head, last := text[m..9], text[10..18];
      AsciiBytes(head);
      AsciiBytes(last);
      assert |Encode([text[9]])| == |EncodeChar(text[9])| by { assert [text[9]][1..] == []; }
      assert |EncodeChar(text[9])| == 2;
      hide Encode, EncodeChar;
      assert text[m..18] == head + [text[9]] + last;
      EncodeConcat(head + [text[9]], last);
      EncodeConcat(head, [text[9]]);
    }
  }

  /** Nine spaces and a character of two bytes before the separator: the body starts inside it. */
  lemma BodyIsTorn()
    ensures
      var bytes := Encode(TORN_MESSAGE);
      var parsed := ParseBytes(bytes);
      parsed.Parsed? && BodyOf(bytes, parsed.bodyIndex) == Torn
  {
    TornLeads();
    TornShape();
    SeparatorIsAscii();
    hide Encode, Decode, FindText, LeadingSpace, ParseBytes, BodyOf, Trim;
    var text := TORN_MESSAGE;
    assert forall i | 10 <= i < 18 :: text[i] == text[10..18][i - 10];
    DecodeOfEncode(text);
    CrashesExactly(Encode(text));
    TornOnReceipt(text);
    forall m | 0 <= m <= 18 ensures |Encode(text[m..18])| != 9 {
      BytesFrom(text, m);
    }
  }

  // ----- the binary and the text form -----

  datatype Serialized = Str(text: string) | Raw(bytes: Bytes)

  /** The bytes of a body. */
  function BodyBytes(body: Serialized): Bytes
  {
    match body
    case Str(text) => Encode(text)
    case Raw(bytes) => bytes
  }

  /** The text of a body; `repaired` stands for what the library makes of ill-formed bytes. */
  function BodyText(body: Serialized, repaired: string): string
  {
    match body
    case Str(text) => text
    case Raw(bytes) => if Decode(bytes).Some? then Decode(bytes).value else repaired
  }

  /** For a body that is well-formed UTF-8, the binary and the text form have the same bytes. */
  lemma FormsAgree(id: Option<string>, path: string, order: seq<(string, string)>, body: Serialized, repaired: string)
    requires body.Raw? ==> Decode(body.bytes).Some?
    ensures Encode(HeadText(id, path, order)) + BodyBytes(body)
        == Encode(Printed(id, path, order, BodyText(body, repaired)))
  {
    hide Encode, Decode;
    EncodeConcat(HeadText(id, path, order), BodyText(body, repaired));
    if body.Raw? { EncodeOfDecode(body.bytes); }
  }
}
