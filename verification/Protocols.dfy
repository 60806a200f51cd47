/** The protocol objects for TCP and WebSocket: reading a message, handing out its body, and
    printing the response. */
module Protocols {
  import opened Text
  import opened Utf8
  import opened Messages

  // ----- reading -----

  /** `From` of both protocols. */
  method ReadMessage(value: Bytes) returns (parsed: Parsed)
    ensures parsed == ParseBytes(value)
  {
    hide Decode, Trim, FindText, Lines, Encode, SplitOnce, ReadHead;
    var bodyIndex: nat := 0;
    var heads: Heads := map[];
    var decoded := Decode(value);
    var path := if decoded.Some? then Trim(decoded.value) else "";
    assert ParseBytes(value) == ParseText(path);
    var found := FindText(path, HEAD_BODY_SEPARATOR, 0);
    if found.Some? {
      var index := found.value;
      var headLines := Lines(path[..index]);
      if headLines == [] { return Crashed; }
      bodyIndex := |Encode(path[..index])| + |HEAD_BODY_SEPARATOR|;
      path := headLines[0];
      ghost var lines := headLines;
      headLines := headLines[1..];
      var split := SplitOnce(path, ID_PATH_SEPARATOR);
      if split.Some? {
        heads := heads[HEAD_ID := split.value.0];
        path := split.value.1;
      }
      ghost var before := heads;
      for i := 0 to |headLines|
        invariant heads == ReadHeads(headLines[..i], before)
      {
        assert headLines[..i + 1][..i] == headLines[..i];
        var (k, v) := ReadHead(headLines[i]);
        heads := heads[k := v];
      }
      assert headLines[..|headLines|] == headLines;
      assert ParseHead(lines) == (heads, path);
    }
    heads := heads[HEAD_PATH := path];
    parsed := Parsed(heads, bodyIndex);
  }

  /** The text is decoded, then sliced. A slice inside a character panics. */
  method ReadBody(bytes: Bytes, bodyIndex: nat) returns (body: BodyResult)
    ensures body == BodyOf(bytes, bodyIndex)
  {
    if Decode(bytes).None? { return NoText; }
    if bodyIndex > |bytes| { return Torn; }
    var rest := Decode(bytes[bodyIndex..]);
    body := if rest.Some? then Body(rest.value) else Torn;
  }

  // ----- printing -----

  /** The heads walked so far. */
  ghost predicate Walked(order: seq<(string, string)>, heads: Heads, todo: set<string>)
  {
    HeadsOf(order) == (map k | k in heads && k !in todo :: heads[k]) && |order| + |todo| == |heads|
  }

  lemma WalkedOneMore(order: seq<(string, string)>, heads: Heads, todo: set<string>, k: string, first: string)
    requires Walked(order, heads, todo) && k in todo && todo <= heads.Keys
    ensures Walked(order + [(k, heads[k])], heads, todo - {k})
    ensures first + HeadLines(order + [(k, heads[k])]) == first + HeadLines(order) + ("\n" + HeadLine((k, heads[k])))
  {
    hide HeadLine;
    assert (order + [(k, heads[k])])[..|order|] == order;
    var left := map f | f in heads && f !in todo :: heads[f];
    assert (map f | f in heads && f !in todo - {k} :: heads[f]) == left[k := heads[k]];
  }

  lemma WalkStarts(heads: Heads, first: string)
    ensures Walked([], heads, heads.Keys) && first + HeadLines([]) == first
  {
    assert |heads.Keys| == |heads|;
  }

  lemma WalkEnds(order: seq<(string, string)>, heads: Heads)
    requires Walked(order, heads, {})
    ensures HeadsOf(order) == heads && |order| == |heads|
  {
  }

  lemma LastLine(id: Option<string>, path: string, order: seq<(string, string)>)
    ensures FirstLine(id, path) + HeadLines(order) + ("\n" + HEAD_BODY_SEPARATOR + "\n") == HeadText(id, path, order)
  {
    hide FirstLine, HeadLines;
  }

  lemma FirstLineBytes(id: Option<string>, path: string)
    ensures Encode(FirstLine(id, path))
         == (if id.Some? then Encode(id.value) + Encode([ID_PATH_SEPARATOR]) else []) + Encode(path)
  {
    hide Encode;
    if id.Some? {
      EncodeConcat(id.value, [ID_PATH_SEPARATOR]);
      EncodeConcat(id.value + [ID_PATH_SEPARATOR], path);
    }
  }

  /** Everything before the body, in bytes, with the heads in the order they came. */
  method PrintHeadBytes(id: Option<string>, path: string, heads: Heads)
    returns (bytes: Bytes, ghost order: seq<(string, string)>)
    ensures HeadsOf(order) == heads && |order| == |heads|
    ensures bytes == Encode(HeadText(id, path, order))
  {
    hide Encode, Walked, HeadLines, HeadLine, FirstLine, HeadText, HeadsOf;
    bytes := [];
    if id.Some? {
      bytes := Encode(id.value) + Encode([ID_PATH_SEPARATOR]);
    }
    bytes := bytes + Encode(path);
    FirstLineBytes(id, path);
    ghost var first := FirstLine(id, path);
    order := [];
    WalkStarts(heads, first);
    var todo := heads.Keys;
    while todo != {}
      invariant todo <= heads.Keys && Walked(order, heads, todo)
      invariant bytes == Encode(first + HeadLines(order))
    {
      var k :| k in todo;
      WalkedOneMore(order, heads, todo, k, first);
      EncodeConcat(first + HeadLines(order), "\n" + HeadLine((k, heads[k])));
      bytes := bytes + Encode("\n" + HeadLine((k, heads[k])));
      order := order + [(k, heads[k])];
      todo := todo - {k};
    }
    WalkEnds(order, heads);
    EncodeConcat(first + HeadLines(order), "\n" + HEAD_BODY_SEPARATOR + "\n");
    LastLine(id, path, order);
    bytes := bytes + Encode("\n" + HEAD_BODY_SEPARATOR + "\n");
  }

  /** Everything before the body, as text. */
  method PrintHeadText(id: Option<string>, path: string, heads: Heads)
    returns (text: string, ghost order: seq<(string, string)>)
    ensures HeadsOf(order) == heads && |order| == |heads|
    ensures text == HeadText(id, path, order)
  {
    text := if id.Some? then id.value + [ID_PATH_SEPARATOR] else "";
    text := text + path;
    ghost var first := FirstLine(id, path);
    assert text == first;
    hide Walked, HeadLines, HeadLine, FirstLine, HeadText, HeadsOf;
    order := [];
    WalkStarts(heads, first);
    var todo := heads.Keys;
    while todo != {}
      invariant todo <= heads.Keys && Walked(order, heads, todo)
      invariant text == first + HeadLines(order)
    {
      var k :| k in todo;
      WalkedOneMore(order, heads, todo, k, first);
      text := text + ("\n" + HeadLine((k, heads[k])));
      order := order + [(k, heads[k])];
      todo := todo - {k};
    }
    WalkEnds(order, heads);
    LastLine(id, path, order);
    text := text + ("\n" + HEAD_BODY_SEPARATOR + "\n");
  }

  // ----- the protocol objects -----

  /** A response: ready to send, or a body still to be packed. */
  datatype Response<M> = Ready(message: M) | Packed(body: Serialized)

  function IdOf(heads: Heads): Option<string>
  {
    if HEAD_ID in heads then Some(heads[HEAD_ID]) else None
  }

  function PathIn(heads: Heads): string
  {
    if HEAD_PATH in heads then heads[HEAD_PATH] else ""
  }

  lemma {:induction false} NamesOfHeads(order: seq<(string, string)>, name: string)
    ensures name in HeadsOf(order) ==> exists head | head in order :: head.0 == name
  {
    if order != [] && name != order[|order| - 1].0 { NamesOfHeads(order[..|order| - 1], name); }
  }

  /** The id and the path that are sent back are those of the message that was read. */
  lemma HeadsGiveBack(id: Option<string>, path: string, order: seq<(string, string)>)
    requires forall head | head in order :: head.0 != HEAD_ID
    ensures IdOf(MessageHeads(id, path, order)) == id && PathIn(MessageHeads(id, path, order)) == path
  {
    NamesOfHeads(order, HEAD_ID);
  }

  class SemiTcpProtocol {
    var req: Option<Bytes>
    var resp: Option<Response<Bytes>>
    var heads: Heads
    var respHeads: Heads
    var bodyIndex: nat

    constructor (value: Bytes, heads: Heads, bodyIndex: nat)
      ensures req == Some(value) && resp == None && this.heads == heads && respHeads == map[]
          && this.bodyIndex == bodyIndex
    {
      req, resp, this.heads, respHeads, this.bodyIndex := Some(value), None, heads, map[], bodyIndex;
    }

    /** `from`: null stands for the panic. */
    static method From(value: Bytes) returns (p: SemiTcpProtocol?)
      ensures p == null <==> ParseBytes(value) == Crashed
      ensures p != null ==>
                fresh(p) && ParseBytes(value) == Parsed(p.heads, p.bodyIndex) && p.req == Some(value)
                    && p.resp == None && p.respHeads == map[]
    {
      var parsed := ReadMessage(value);
      match parsed {
        case Crashed => return null;
        case Parsed(heads, bodyIndex) => p := new SemiTcpProtocol(value, heads, bodyIndex);
      }
    }

    /** `body`: it can be taken once. */
    method Body() returns (body: BodyResult)
      modifies this`req
      ensures req == None
      ensures body == if old(req).Some? then BodyOf(old(req).value, bodyIndex) else NoText
    {
      if req.None? { return NoText; }
      var bytes := req.value;
      req := None;
      body := ReadBody(bytes, bodyIndex);
    }

    /** `into`: the id and path of the request, the heads of the response in some order, and the body. */
    method Into() returns (bytes: Bytes, ghost order: seq<(string, string)>)
      modifies this`resp
      ensures resp == None
      ensures old(resp).Some? && old(resp).value.Ready? ==> bytes == old(resp).value.message
      ensures !(old(resp).Some? && old(resp).value.Ready?) ==>
                && HeadsOf(order) == respHeads
                && bytes == Encode(HeadText(IdOf(heads), PathIn(heads), order))
                          + (if old(resp).Some? then BodyBytes(old(resp).value.body) else [])
    {
      var response := resp;
      resp, order := None, [];
      if response.Some? && response.value.Ready? { return response.value.message, order; }
      bytes, order := PrintHeadBytes(IdOf(heads), PathIn(heads), respHeads);
      if response.Some? {
        bytes := bytes + BodyBytes(response.value.body);
      }
    }
  }

  /** A WebSocket message. */
  datatype Message = TextMessage(text: string) | BinaryMessage(bytes: Bytes)

  /** The bytes that are sent. */
  function MessageBytes(m: Message): Bytes
  {
    match m
    case TextMessage(text) => Encode(text)
    case BinaryMessage(bytes) => bytes
  }

  lemma NoBytes()
    ensures Encode("") == []
  {
  }

  class SemiWebsocketProtocol {
    var req: Option<Message>
    var resp: Option<Response<Message>>
    var heads: Heads
    var respHeads: Heads
    var bodyIndex: nat
    var binaryResponse: bool

    constructor (value: Message, heads: Heads, bodyIndex: nat)
      ensures req == Some(value) && resp == None && this.heads == heads && respHeads == map[]
          && this.bodyIndex == bodyIndex && !binaryResponse
    {
      req, resp, this.heads, respHeads, this.bodyIndex, binaryResponse := Some(value), None, heads, map[], bodyIndex,
          false;
    }

    static method From(value: Message) returns (p: SemiWebsocketProtocol?)
      ensures p == null <==> ParseBytes(MessageBytes(value)) == Crashed
      ensures p != null ==>
                && fresh(p) && ParseBytes(MessageBytes(value)) == Parsed(p.heads, p.bodyIndex)
                && p.req == Some(value) && p.resp == None && p.respHeads == map[] && !p.binaryResponse
    {
      var parsed := ReadMessage(MessageBytes(value));
      match parsed {
        case Crashed => return null;
        case Parsed(heads, bodyIndex) => p := new SemiWebsocketProtocol(value, heads, bodyIndex);
      }
    }

    method Body() returns (body: BodyResult)
      modifies this`req
      ensures req == None
      ensures body == if old(req).Some? then BodyOf(MessageBytes(old(req).value), bodyIndex) else NoText
    {
      if req.None? { return NoText; }
      var bytes := MessageBytes(req.value);
      req := None;
      body := ReadBody(bytes, bodyIndex);
    }

    /** `into`: in either form, a body that is well-formed UTF-8 makes the same bytes. */
    method Into(repaired: string) returns (m: Message, ghost order: seq<(string, string)>)
      modifies this`resp
      ensures resp == None
      ensures old(resp).Some? && old(resp).value.Ready? ==> m == old(resp).value.message
      ensures !(old(resp).Some? && old(resp).value.Ready?) ==>
                var body := if old(resp).Some? then old(resp).value.body else Str("");
                && HeadsOf(order) == respHeads && m.BinaryMessage? == binaryResponse
                && ((body.Raw? ==> Decode(body.bytes).Some?) ==>
                      MessageBytes(m) == Encode(Printed(IdOf(heads), PathIn(heads), order, BodyText(body, repaired))))
                && (binaryResponse ==> m.bytes == Encode(HeadText(IdOf(heads), PathIn(heads), order)) + BodyBytes(body))
                && (!binaryResponse ==> m.text == Printed(IdOf(heads), PathIn(heads), order, BodyText(body, repaired)))
    {
      hide Encode, Decode, HeadText;
      var response := resp;
      resp, order := None, [];
      if response.Some? && response.value.Ready? { return response.value.message, order; }
      ghost var body := if response.Some? then response.value.body else Str("");
      if binaryResponse {
        var bytes;
        bytes, order := PrintHeadBytes(IdOf(heads), PathIn(heads), respHeads);
        if response.Some? {
          bytes := bytes + BodyBytes(response.value.body);
        }
        NoBytes();
        if body.Raw? ==> Decode(body.bytes).Some? {
          FormsAgree(IdOf(heads), PathIn(heads), order, body, repaired);
        }
        assert bytes == Encode(HeadText(IdOf(heads), PathIn(heads), order)) + BodyBytes(body);
        m := BinaryMessage(bytes);
      } else {
        var text;
        text, order := PrintHeadText(IdOf(heads), PathIn(heads), respHeads);
        if response.Some? {
          text := text + BodyText(response.value.body, repaired);
        }
        assert text == Printed(IdOf(heads), PathIn(heads), order, BodyText(body, repaired));
        m := TextMessage(text);
      }
    }
  }
}
