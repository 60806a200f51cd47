/** What the parser makes of any received message, printed or not. */
module Receiving {
  import opened Text
  import opened Utf8
  import opened Messages

  // ----- the path of a message without the separator -----

  /** From the first to the last character that is no white space; nothing of white space alone. */
  ghost predicate IsCore(text: string, core: string)
  {
    || (core == [] && forall i | 0 <= i < |text| :: IsSpace(text[i]))
    || exists a, b | 0 <= a < b <= |text| && core == text[a..b] && !IsSpace(text[a]) && !IsSpace(text[b - 1]) ::
         forall i | 0 <= i < a || b <= i < |text| :: IsSpace(text[i])
  }

  lemma TrimIsCore(text: string)
    ensures IsCore(text, Trim(text))
  {
    TrimParts(text);
    TrimStarts(text);
    TrimEndEnds(TrimStart(text));
    hide TrimStart, TrimEnd, LeadingSpace, IsSpace;
    var a, core := |LeadingSpace(text)|, Trim(text);
    var b := a + |core|;
    assert text[a..b] == core;
    if core != [] {
      assert core[0] == text[a] && core[|core| - 1] == text[b - 1];
    }
  }

  /** A message without the separator is all path: what it is, but white space around it. */
  lemma AllPath(text: string) returns (path: string)
    requires FreeOf(text, HEAD_BODY_SEPARATOR)
    ensures IsCore(text, path) && ParseBytes(Encode(text)) == Parsed(map[HEAD_PATH := path], 0)
  {
    DecodeOfEncode(text);
    FoundTrimmed(text);
    TrimIsCore(text);
    hide Encode, Decode, Trim, IsCore, LeadingSpace;
    path := Trim(text);
    assert FindText(text, HEAD_BODY_SEPARATOR, 0).None?;
  }

  /** What is no text has an empty path. */
  lemma NoPath(bytes: Bytes)
    requires forall text :: Encode(text) != bytes
    ensures ParseBytes(bytes) == Parsed(map[HEAD_PATH := ""], 0)
  {
    hide Encode, DecodeChar;
    if Decode(bytes).Some? { EncodeOfDecode(bytes); }
  }

  // ----- the lines -----

  function LineEnd(returned: bool): string
  {
    if returned then "\r\n" else "\n"
  }

  /** The lines as they are sent: each ended by a line feed, or by a carriage return and a line feed. */
  function Sent(lines: seq<(string, bool)>): string
  {
    if lines == [] then [] else lines[0].0 + LineEnd(lines[0].1) + Sent(lines[1..])
  }

  function Firsts(lines: seq<(string, bool)>): (r: seq<string>)
    ensures |r| == |lines| && forall i | 0 <= i < |r| :: r[i] == lines[i].0
  {
    seq(|lines|, i requires 0 <= i < |lines| => lines[i].0)
  }

  /** No line feed in a line, and no carriage return before a mere line feed. */
  ghost predicate Sendable(lines: seq<(string, bool)>)
  {
    forall i | 0 <= i < |lines| ::
      '\n' !in lines[i].0 && (lines[i].1 || lines[i].0 == [] || lines[i].0[|lines[i].0| - 1] != '\r')
  }

  /** One line more in front. */
  lemma OneMoreLine(line: string, returned: bool, rest: string)
    requires '\n' !in line && (returned || line == [] || line[|line| - 1] != '\r')
    ensures Lines(line + LineEnd(returned) + rest) == [line] + Lines(rest)
  {
    var head := if returned then line + "\r" else line;
    var s := head + "\n" + rest;
    FirstLineFeed(head, rest);
    hide Find;
    assert s[..|head|] == head && s[|head| + 1..] == rest;
    assert returned ==> head[..|line|] == line;
    assert line + LineEnd(returned) + rest == s;
  }

  lemma SentUnfold(lines: seq<(string, bool)>, tail: string)
    requires lines != []
    ensures Sent(lines) + tail == lines[0].0 + LineEnd(lines[0].1) + (Sent(lines[1..]) + tail)
  {
    hide LineEnd;
  }

  lemma UnendedLine(tail: string)
    requires '\n' !in tail
    ensures Lines(tail) == if tail == [] then [] else [tail]
  {
  }

  lemma FirstsUnfold(lines: seq<(string, bool)>)
    requires lines != [] && Sendable(lines)
    ensures Firsts(lines) == [lines[0].0] + Firsts(lines[1..]) && Sendable(lines[1..])
  {
  }

  /** Lines are read without their ends; what follows the last line feed is a line if there is
      anything, and keeps a carriage return. */
  lemma {:induction false} LinesSent(lines: seq<(string, bool)>, tail: string)
    requires Sendable(lines) && '\n' !in tail
    ensures Lines(Sent(lines) + tail) == Firsts(lines) + (if tail == [] then [] else [tail])
  {
    hide Lines, LineEnd, Firsts;
    if lines == [] {
      UnendedLine(tail);
      assert Sent(lines) + tail == tail;
    } else {
      OneMoreLine(lines[0].0, lines[0].1, Sent(lines[1..]) + tail);
      FirstsUnfold(lines);
      hide Sendable;
      LinesSent(lines[1..], tail);
      SentUnfold(lines, tail);
      hide Sent;
    }
  }

  // ----- the heads -----

  /** The first line is an id and a path, or a path alone. */
  ghost predicate FirstLineIs(line: string, id: Option<string>, path: string)
  {
    match id
    case Some(i) => ID_PATH_SEPARATOR !in i && line == i + [ID_PATH_SEPARATOR] + path
    case None => ID_PATH_SEPARATOR !in line && line == path
  }

  /** The line is a head of this name: up to the first colon, or without one. */
  ghost predicate IsNamed(line: string, k: string)
  {
    HEAD_SEPARATOR !in k && (line == k || k + [HEAD_SEPARATOR] <= line)
  }

  /** The value is what follows the colon, and empty without one. */
  ghost predicate IsHead(line: string, k: string, v: string)
  {
    IsNamed(line, k) && if line == k then v == "" else v == line[|k| + 1..]
  }

  lemma PrefixEnds(line: string, k: string)
    requires k + [HEAD_SEPARATOR] <= line
    ensures line[|k|] == HEAD_SEPARATOR && HEAD_SEPARATOR in line && k == line[..|k|]
  {
    assert (k + [HEAD_SEPARATOR])[|k|] == line[|k|];
  }

  lemma NamedBefore(line: string, k: string)
    ensures IsNamed(line, k) <==>
            k == match Find(line, HEAD_SEPARATOR) case None => line case Some(i) => line[..i]
  {
    var at := Find(line, HEAD_SEPARATOR);
    if k + [HEAD_SEPARATOR] <= line {
      PrefixEnds(line, k);
      assert at.Some?;
      assert at.value < |k| ==> line[at.value] == k[at.value];
    }
    if at.Some? {
      var name := line[..at.value];
      assert name + [HEAD_SEPARATOR] == line[..at.value + 1];
    }
  }

  lemma ReadHeadMeans(line: string, k: string, v: string)
    ensures IsNamed(line, k) <==> ReadHead(line).0 == k
    ensures IsHead(line, k, v) <==> ReadHead(line) == (k, v)
  {
    NamedBefore(line, k);
    hide IsNamed;
  }

  /** The last of the lines with this name has the value. */
  ghost predicate LastHead(lines: seq<string>, k: string, v: string)
  {
    exists i | 0 <= i < |lines| && IsHead(lines[i], k, v) :: forall j | i < j < |lines| :: !IsNamed(lines[j], k)
  }

  ghost predicate SomeNamed(lines: seq<string>, k: string)
  {
    exists i | 0 <= i < |lines| :: IsNamed(lines[i], k)
  }

  lemma HeadIsNamed(line: string, k: string, v: string)
    ensures IsHead(line, k, v) ==> IsNamed(line, k)
  {
  }

  lemma LastOfSnoc(lines: seq<string>, last: string, k: string, v: string)
    ensures SomeNamed(lines + [last], k) <==> SomeNamed(lines, k) || IsNamed(last, k)
    ensures LastHead(lines + [last], k, v)
       <==> if IsNamed(last, k) then IsHead(last, k, v) else LastHead(lines, k, v)
  {
    hide IsNamed, IsHead;
    var all := lines + [last];
    assert all[|lines|] == last;
    assert forall i | 0 <= i < |lines| :: all[i] == lines[i];
    if i :| 0 <= i < |all| && IsHead(all[i], k, v) && forall j | i < j < |all| :: !IsNamed(all[j], k) {
      HeadIsNamed(all[i], k, v);
    }
    HeadIsNamed(last, k, v);
    if !IsNamed(last, k) {
      if i :| 0 <= i < |lines| && IsHead(lines[i], k, v) && forall j | i < j < |lines| :: !IsNamed(lines[j], k) {
        assert IsHead(all[i], k, v) && forall j | i < j < |all| :: !IsNamed(all[j], k);
      }
    }
  }

  predicate Holds(heads: Heads, k: string, v: string)
  {
    k in heads && heads[k] == v
  }

  /** The heads read: for each name the last line that has it, else what was there. */
  lemma {:induction false} ReadHeadsMeans(lines: seq<string>, heads: Heads, k: string, v: string)
    ensures
      Holds(ReadHeads(lines, heads), k, v)
      <==> if SomeNamed(lines, k) then LastHead(lines, k, v) else Holds(heads, k, v)
    decreases |lines|
  {
    hide ReadHead, IsNamed, IsHead, LastHead;
    if lines != [] {
      var before, last := lines[..|lines| - 1], lines[|lines| - 1];
      assert lines == before + [last];
      ReadHeadsMeans(before, heads, k, v);
      LastOfSnoc(before, last, k, v);
      ReadHeadMeans(last, k, v);
    }
  }

  /** The path head is that of the first line, any other that of the last line with its name, and
      the id head that of the first line if there is no such line. */
  ghost predicate HeadHolds(rest: seq<string>, id: Option<string>, path: string, k: string, v: string)
  {
    if k == HEAD_PATH then v == path
    else if SomeNamed(rest, k) then LastHead(rest, k, v)
    else k == HEAD_ID && id == Some(v)
  }

  /** The heads of a message with these lines. */
  ghost predicate HeadsAre(lines: seq<string>, id: Option<string>, path: string, heads: Heads)
    requires lines != []
  {
    && FirstLineIs(lines[0], id, path)
    && forall k, v :: Holds(heads, k, v) <==> HeadHolds(lines[1..], id, path, k, v)
  }

  lemma SplitFirst(first: string) returns (id: Option<string>, path: string)
    ensures FirstLineIs(first, id, path)
    ensures SplitOnce(first, ID_PATH_SEPARATOR) == if id.Some? then Some((id.value, path)) else None
    ensures id.None? ==> path == first
  {
    var at := Find(first, ID_PATH_SEPARATOR);
    if at.Some? {
      id, path := Some(first[..at.value]), first[at.value + 1..];
      assert first == id.value + [ID_PATH_SEPARATOR] + path;
    } else {
      id, path := None, first;
    }
  }

  /** The heads a message has before its lines are read. */
  function StartHeads(id: Option<string>): Heads
  {
    if id.Some? then map[HEAD_ID := id.value] else map[]
  }

  lemma ParseHeadMeans(lines: seq<string>) returns (id: Option<string>, path: string)
    requires lines != []
    ensures ParseHead(lines) == (ReadHeads(lines[1..], StartHeads(id)), path)
    ensures HeadsAre(lines, id, path, ParseHead(lines).0[HEAD_PATH := path])
  {
    hide ReadHeads, LastHead, SomeNamed, SplitOnce, FirstLineIs;
    id, path := SplitFirst(lines[0]);
    var rest, start := lines[1..], StartHeads(id);
    var heads := ReadHeads(rest, start);
    assert ParseHead(lines) == (heads, path);
    var all := heads[HEAD_PATH := path];
    forall k, v ensures Holds(all, k, v) <==> HeadHolds(rest, id, path, k, v) {
      ReadHeadsMeans(rest, start, k, v);
      assert k != HEAD_PATH ==> (Holds(all, k, v) <==> Holds(heads, k, v));
      assert Holds(start, k, v) <==> k == HEAD_ID && id == Some(v);
    }
  }

  /** The lines of the head are those between the white space in front and the separator. */
  lemma HeadReceived(text: string, at: nat)
    requires OccursAt(text, HEAD_BODY_SEPARATOR, at)
    requires forall j | 0 <= j < at :: !OccursAt(text, HEAD_BODY_SEPARATOR, j)
    requires |LeadingSpace(text)| < at
    ensures
      var k := |LeadingSpace(text)|;
      FindText(Trim(text), HEAD_BODY_SEPARATOR, 0) == Some(at - k)
      && Trim(text)[..at - k] == text[k..at] && Lines(text[k..at]) != []
  {
    FirstOccurrence(text, HEAD_BODY_SEPARATOR, at);
    FoundTrimmed(text);
    TrimParts(text);
    var k := |LeadingSpace(text)|;
    assert at - k <= |Trim(text)|;
    hide FindText, Trim, LeadingSpace, IsSpace, WithoutReturn;
    assert forall i | 0 <= i < at - k :: Trim(text)[i] == text[k..k + |Trim(text)|][i];
  }

  /** Whatever text with a separator is received, its heads are read from the lines between the
      white space in front and the first separator. */
  lemma HeadsReceived(text: string, at: nat) returns (id: Option<string>, path: string)
    requires OccursAt(text, HEAD_BODY_SEPARATOR, at)
    requires forall j | 0 <= j < at :: !OccursAt(text, HEAD_BODY_SEPARATOR, j)
    requires |LeadingSpace(text)| < at
    ensures
      var lines := Lines(text[|LeadingSpace(text)|..at]);
      var parsed := ParseBytes(Encode(text));
      lines != [] && parsed.Parsed? && HeadsAre(lines, id, path, parsed.heads)
  {
    DecodeOfEncode(text);
    HeadReceived(text, at);
    hide Encode, Decode, FindText, Trim, LeadingSpace, ParseHead, HeadsAre, Lines;
    var lines := Lines(text[|LeadingSpace(text)|..at]);
    id, path := ParseHeadMeans(lines);
  }
}
