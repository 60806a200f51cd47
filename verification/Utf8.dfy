/** UTF-8: the bytes of a text, and the text of well-formed bytes. */
module Utf8 {
  import opened Text

  type byte = x: int | 0 <= x < 256
  type Bytes = seq<byte>

  function EncodeChar(c: char): (r: Bytes)
    ensures 1 <= |r| <= 4
  {
    var n := c as int;
    if n < 0x80 then [n]
    else if n < 0x800 then [0xC0 + n / 64, 0x80 + n % 64]
    else if n < 0x10000 then [0xE0 + n / 4096, 0x80 + n / 64 % 64, 0x80 + n % 64]
    else [0xF0 + n / 262144, 0x80 + n / 4096 % 64, 0x80 + n / 64 % 64, 0x80 + n % 64]
  }

  predicate IsTail(b: byte)
  {
    0x80 <= b < 0xC0
  }

  /** The number with the six bits of one more byte. */
  function Append(n: int, b: byte): int
  {
    n * 64 + (b as int - 0x80)
  }

  /** The shortest bytes that carry the number: the first byte tells how many follow, and each that
      follows carries six bits (section 3 of RFC 3629). */
  predicate Carries(bytes: Bytes, n: int)
  {
    && bytes != [] && (forall i | 1 <= i < |bytes| :: IsTail(bytes[i]))
    && var b := bytes[0] as int;
       match |bytes|
       case 1 => b < 0x80 && n == b
       case 2 => 0xC0 <= b < 0xE0 && n == Append(b - 0xC0, bytes[1]) && n >= 0x80
       case 3 => 0xE0 <= b < 0xF0 && n == Append(Append(b - 0xE0, bytes[1]), bytes[2]) && n >= 0x800
       case 4 => 0xF0 <= b < 0xF8 && n == Append(Append(Append(b - 0xF0, bytes[1]), bytes[2]), bytes[3]) && n >= 0x10000
       case _ => false
  }

  lemma SixMore(m: nat, b: byte, n: nat)
    requires IsTail(b)
    ensures n == Append(m, b) <==> m == n / 64 && b == 0x80 + n % 64
  {
  }

  lemma AppendIsNat(m: nat, b: byte)
    requires IsTail(b)
    ensures Append(m, b) >= 0
  {
  }

  /** Six bits at a time. */
  lemma SixBits(n: nat)
    ensures n == n / 64 * 64 + n % 64
    ensures n / 64 / 64 == n / 4096 && n / 4096 / 64 == n / 262144
    ensures n == n / 4096 * 4096 + n / 64 % 64 * 64 + n % 64
    ensures n == n / 262144 * 262144 + n / 4096 % 64 * 4096 + n / 64 % 64 * 64 + n % 64
  {
  }

  /** The bytes of a character are the only ones that carry its number. */
  lemma EncodedExactly(c: char, bytes: Bytes)
    ensures bytes == EncodeChar(c) <==> Carries(bytes, c as int)
  {
    var n := c as int;
    SixBits(n);
    hide Append;
    if |bytes| == 2 && IsTail(bytes[1]) && bytes[0] >= 0xC0 {
      SixMore(bytes[0] as int - 0xC0, bytes[1], n);
    }
    if |bytes| == 3 && IsTail(bytes[1]) && IsTail(bytes[2]) && bytes[0] >= 0xE0 {
      SixMore(bytes[0] as int - 0xE0, bytes[1], n / 64);
      AppendIsNat(bytes[0] as int - 0xE0, bytes[1]);
      SixMore(Append(bytes[0] as int - 0xE0, bytes[1]), bytes[2], n);
    }
    if |bytes| == 4 && IsTail(bytes[1]) && IsTail(bytes[2]) && IsTail(bytes[3]) && bytes[0] >= 0xF0 {
      var b := bytes[0] as int - 0xF0;
      SixMore(b, bytes[1], n / 4096);
      AppendIsNat(b, bytes[1]);
      SixMore(Append(b, bytes[1]), bytes[2], n / 64);
      AppendIsNat(Append(b, bytes[1]), bytes[2]);
      SixMore(Append(Append(b, bytes[1]), bytes[2]), bytes[3], n);
    }
  }

  /** `as_bytes`. */
  function Encode(s: string): Bytes
  {
    if s == [] then [] else EncodeChar(s[0]) + Encode(s[1..])
  }

  /** The number the first bytes stand for, and how many they are, as the first byte says. */
  function Candidate(bytes: Bytes): (int, nat)
    requires bytes != []
  {
    var b := bytes[0];
    var at := (i: nat) => if i < |bytes| then bytes[i] - 0x80 else 0;
    if b < 0x80 then (b, 1)
    else if b < 0xE0 then ((b - 0xC0) * 64 + at(1), 2)
    else if b < 0xF0 then ((b - 0xE0) * 4096 + at(1) * 64 + at(2), 3)
    else ((b - 0xF0) * 262144 + at(1) * 4096 + at(2) * 64 + at(3), 4)
  }

  predicate IsScalar(n: int)
  {
    0 <= n < 0xD800 || 0xE000 <= n < 0x110000
  }

  /** The first character, when its bytes are the encoding of it. */
  function DecodeChar(bytes: Bytes): (r: Option<char>)
    ensures r.Some? ==> EncodeChar(r.value) <= bytes
  {
    if bytes == [] then None
    else
      var (n, length) := Candidate(bytes);
      if IsScalar(n) && EncodeChar(n as char) <= bytes then Some(n as char) else None
  }

  /** `String::from_utf8`: nothing but well-formed bytes is accepted. */
  function Decode(bytes: Bytes): (r: Option<string>)
    decreases |bytes|
  {
    if bytes == [] then Some([])
    else
      match DecodeChar(bytes)
      case None => None
      case Some(c) =>
        match Decode(bytes[|EncodeChar(c)|..])
        case None => None
        case Some(rest) => Some([c] + rest)
  }

  lemma CandidateOfEncoded(c: char, rest: Bytes)
    ensures Candidate(EncodeChar(c) + rest).0 == c as int
  {
    var n := c as int;
    SixBits(n);
    var bytes := EncodeChar(c) + rest;
    assert bytes[0] == EncodeChar(c)[0];
    if n < 0x80 {
    } else if n < 0x800 {
      assert bytes[1] == EncodeChar(c)[1];
    } else if n < 0x10000 {
      assert bytes[1] == EncodeChar(c)[1] && bytes[2] == EncodeChar(c)[2];
    } else {
      assert bytes[1] == EncodeChar(c)[1] && bytes[2] == EncodeChar(c)[2] && bytes[3] == EncodeChar(c)[3];
    }
  }

  lemma DecodeCharOfEncoded(c: char, rest: Bytes)
    ensures DecodeChar(EncodeChar(c) + rest) == Some(c)
  {
    CandidateOfEncoded(c, rest);
    hide Candidate, EncodeChar;
  }

  /** Decoding gives the text back, */
  lemma {:induction false} DecodeOfEncode(s: string)
    ensures Decode(Encode(s)) == Some(s)
  {
    hide DecodeChar, EncodeChar;
    if s != [] {
      DecodeOfEncode(s[1..]);
      DecodeCharOfEncoded(s[0], Encode(s[1..]));
      assert Encode(s)[|EncodeChar(s[0])|..] == Encode(s[1..]);
      assert s == [s[0]] + s[1..];
    }
  }

  /** and what can be decoded is the encoding of its text. */
  lemma {:induction false} EncodeOfDecode(bytes: Bytes)
    requires Decode(bytes).Some?
    ensures Encode(Decode(bytes).value) == bytes
    decreases |bytes|
  {
    hide DecodeChar, EncodeChar;
    if bytes != [] {
      var c := DecodeChar(bytes).value;
      var rest := bytes[|EncodeChar(c)|..];
      EncodeOfDecode(rest);
      var s := Decode(bytes).value;
      assert s[0] == c && s[1..] == Decode(rest).value;
      assert bytes == EncodeChar(c) + rest;
    }
  }

  lemma {:induction false} EncodeConcat(a: string, b: string)
    ensures Encode(a + b) == Encode(a) + Encode(b)
  {
    if a == [] {
      assert a + b == b;
    } else {
      assert (a + b)[1..] == a[1..] + b;
      EncodeConcat(a[1..], b);
    }
  }

  /** No text but the empty one has no bytes. */
  lemma EncodeIsLong(s: string)
    ensures |Encode(s)| >= |s|
  {
  }

  // ----- where characters start -----

  /** The index is between two characters of the text, in bytes. */
  ghost predicate IsBoundary(text: string, index: nat)
  {
    exists k | 0 <= k <= |text| :: |Encode(text[..k])| == index
  }

  lemma BoundaryInside(text: string, index: nat)
    ensures IsBoundary(text, index) ==> index <= |Encode(text)|
  {
    if k :| 0 <= k <= |text| && |Encode(text[..k])| == index {
      EncodeConcat(text[..k], text[k..]);
      assert text[..k] + text[k..] == text;
    }
  }

  /** No character starts with a byte that continues one. */
  lemma Continues(c: char, i: nat, rest: Bytes)
    requires 0 < i < |EncodeChar(c)|
    ensures DecodeChar(EncodeChar(c)[i..] + rest) == None
  {
    var bytes := EncodeChar(c)[i..] + rest;
    assert bytes[0] == EncodeChar(c)[i] && 0x80 <= bytes[0] < 0xC0;
    assert forall d: char :: EncodeChar(d)[0] < 0x80 || EncodeChar(d)[0] >= 0xC0;
  }

  lemma BoundaryOfTail(text: string, index: nat)
    requires text != [] && index >= |EncodeChar(text[0])|
    ensures IsBoundary(text, index) <==> IsBoundary(text[1..], index - |EncodeChar(text[0])|)
  {
    var first := |EncodeChar(text[0])|;
    if k :| 0 <= k <= |text| && |Encode(text[..k])| == index {
      assert k > 0 && text[..k][1..] == text[1..][..k - 1];
    }
    if k :| 0 <= k <= |text[1..]| && |Encode(text[1..][..k])| == index - first {
      assert text[..k + 1][1..] == text[1..][..k];
      assert |Encode(text[..k + 1])| == index;
    }
  }

  lemma BoundaryAtFirst(text: string, index: nat)
    requires text != [] && 0 < index < |EncodeChar(text[0])|
    ensures !IsBoundary(text, index)
  {
    forall k | 0 <= k <= |text| ensures |Encode(text[..k])| != index {
      if k > 0 { assert text[..k][0] == text[0]; }
    }
  }

  /** The rest of the bytes of a text is well-formed exactly from between two characters. */
  lemma {:induction false} BoundaryExactly(text: string, index: nat)
    requires index <= |Encode(text)|
    ensures Decode(Encode(text)[index..]).Some? <==> IsBoundary(text, index)
  {
    hide DecodeChar, EncodeChar;
    if index == 0 {
      DecodeOfEncode(text);
      assert Encode(text)[0..] == Encode(text);
      assert text[..0] == [] && |Encode(text[..0])| == 0;
    } else {
      var first, rest := EncodeChar(text[0]), Encode(text[1..]);
      assert Encode(text) == first + rest;
      if index >= |first| {
        assert Encode(text)[index..] == rest[index - |first|..];
        BoundaryExactly(text[1..], index - |first|);
        BoundaryOfTail(text, index);
      } else {
        assert Encode(text)[index..] == first[index..] + rest;
        Continues(text[0], index, rest);
        BoundaryAtFirst(text, index);
      }
    }
  }
}
