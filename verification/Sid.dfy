/** Session ids: 64 digits of a digest, four of the time to live, the rest the creation time;
    and the meta data of a session, which has to agree with its id. */
module Sids {
  import opened Text

  const U16_MAX: nat := 65535
  const U64_MAX: nat := 18446744073709551615
  const MIN_SID_LEN: nat := 76

  datatype Result<+T> = Ok(value: T) | Err

  // ----- hexadecimal numbers -----

  /** The digit that `{:X}` prints. */
  function Digit(n: nat): char
    requires n < 16
  {
    if n < 10 then ('0' as int + n) as char else ('A' as int + n - 10) as char
  }

  /** Digits are read in either case. */
  function DigitValue(c: char): (r: Option<nat>)
    ensures r.Some? ==> r.value < 16
  {
    if '0' <= c <= '9' then Some(c as int - '0' as int)
    else if 'A' <= c <= 'F' then Some(c as int - 'A' as int + 10)
    else if 'a' <= c <= 'f' then Some(c as int - 'a' as int + 10)
    else None
  }

  /** `{:X}`. */
  function Hex(n: nat): (r: string)
    ensures |r| >= 1
  {
    if n < 16 then [Digit(n)] else Hex(n / 16) + [Digit(n % 16)]
  }

  function Zeros(n: int): (r: string)
    ensures |r| == if n > 0 then n else 0
    ensures forall c | c in r :: c == '0'
  {
    if n <= 0 then [] else ['0'] + Zeros(n - 1)
  }

  /** `{:04X}`. */
  function Hex4(n: nat): string
  {
    Zeros(4 - |Hex(n)|) + Hex(n)
  }

  function ReadDigits(s: string): Option<nat>
  {
    if s == [] then Some(0)
    else
      match (ReadDigits(s[..|s| - 1]), DigitValue(s[|s| - 1]))
      case (Some(high), Some(low)) => Some(16 * high + low)
      case _ => None
  }

  /** `from_str_radix(s, 16)` of an unsigned type: a plus sign may come first, some digit must
      follow, and a value over `max` is an error. */
  function ParseHex(s: string, max: nat): (r: Option<nat>)
    ensures r.Some? ==> r.value <= max
  {
    var digits := if s != [] && s[0] == '+' then s[1..] else s;
    if digits == [] then None
    else
      match ReadDigits(digits)
      case Some(n) => if n <= max then Some(n) else None
      case None => None
  }

  lemma {:induction false} ReadHex(n: nat)
    ensures ReadDigits(Hex(n)) == Some(n)
    ensures forall c | c in Hex(n) :: c != '+'
  {
    if n >= 16 {
      ReadHex(n / 16);
      assert Hex(n)[..|Hex(n)| - 1] == Hex(n / 16);
    }
  }

  lemma ReadOneMore(s: string, c: char)
    requires ReadDigits(s).Some? && DigitValue(c).Some?
    ensures ReadDigits(s + [c]) == Some(16 * ReadDigits(s).value + DigitValue(c).value)
  {
    assert (s + [c])[..|s|] == s;
  }

  lemma {:induction false} ZerosSnoc(k: int)
    requires k > 0
    ensures Zeros(k) == Zeros(k - 1) + ['0']
    decreases k
  {
    if k > 1 {
      ZerosSnoc(k - 1);
      assert ['0'] + (Zeros(k - 2) + ['0']) == (['0'] + Zeros(k - 2)) + ['0'];
    }
  }

  lemma {:induction false} ReadZeros(k: int)
    ensures ReadDigits(Zeros(k)) == Some(0)
    decreases k
  {
    if k <= 0 {
      assert Zeros(k) == [];
    } else {
      hide Zeros, ReadDigits;
      ReadZeros(k - 1);
      ZerosSnoc(k);
      ReadOneMore(Zeros(k - 1), '0');
    }
  }

  lemma {:induction false} ReadPadded(k: int, s: string)
    ensures ReadDigits(Zeros(k) + s) == ReadDigits(s)
    decreases |s|
  {
    if s == [] {
      ReadZeros(k);
      assert Zeros(k) + s == Zeros(k);
    } else {
      ReadPadded(k, s[..|s| - 1]);
      var all := Zeros(k) + s;
      assert all[..|all| - 1] == Zeros(k) + s[..|s| - 1];
    }
  }

  function Pow16(k: nat): (r: nat)
    ensures r >= 1
  {
    if k == 0 then 1 else 16 * Pow16(k - 1)
  }

  /** A number has at most `k` digits exactly when it is below 16 to the `k`. */
  lemma {:induction false} HexLength(n: nat, k: nat)
    requires k >= 1
    ensures |Hex(n)| <= k <==> n < Pow16(k)
    decreases k
  {
    if k == 1 {
      assert Pow16(1) == 16 * Pow16(0);
      if n >= 16 { assert |Hex(n / 16)| >= 1; }
    } else if n < 16 {
      assert Pow16(k) == 16 * Pow16(k - 1);
    } else {
      HexLength(n / 16, k - 1);
    }
  }

  // ----- session ids -----

  /** `parse_sid`: the time to live in minutes and the creation time. */
  function ParseSid(sid: string): (r: Result<(nat, nat)>)
    ensures r.Ok? ==> r.value.0 <= U16_MAX && r.value.1 <= U64_MAX
  {
    if |sid| < MIN_SID_LEN then Err
    else
      match ParseHex(sid[64..68], U16_MAX)
      case None => Err
      case Some(ttlMinutes) =>
        match ParseHex(sid[68..], U64_MAX)
        case None => Err
        case Some(createStamp) => Ok((ttlMinutes, createStamp))
  }

  /** `gen_id`, for the digest of the clock and a random number. */
  function GenSid(digest: string, ttlMinutes: nat, now: nat): string
  {
    digest + Hex4(ttlMinutes) + Hex(now)
  }

  lemma HexFourDigits(n: nat)
    requires n <= U16_MAX
    ensures |Hex4(n)| == 4 && ParseHex(Hex4(n), U16_MAX) == Some(n)
  {
    HexLength(n, 4);
    assert Pow16(4) == 16 * Pow16(3) && Pow16(3) == 16 * Pow16(2) && Pow16(2) == 16 * Pow16(1) && Pow16(1) == 16;
    ReadHex(n);
    ReadPadded(4 - |Hex(n)|, Hex(n));
    assert forall c | c in Hex4(n) :: c != '+';
    assert Hex4(n)[0] in Hex4(n);
  }

  lemma ParseOfHex(n: nat)
    requires n <= U64_MAX
    ensures ParseHex(Hex(n), U64_MAX) == Some(n)
  {
    ReadHex(n);
    assert Hex(n)[0] in Hex(n);
  }

  /** Printing and parsing an id gives back its parts, exactly for times of at least 16^7
      seconds; an earlier time makes the id too short to be accepted. */
  lemma SidRoundTrip(digest: string, ttlMinutes: nat, now: nat)
    requires |digest| == 64 && ttlMinutes <= U16_MAX && now <= U64_MAX
    ensures ParseSid(GenSid(digest, ttlMinutes, now)) == (if now >= Pow16(7) then Ok((ttlMinutes, now)) else Err)
  {
    hide Hex, Hex4, Pow16, ReadDigits;
    var sid := GenSid(digest, ttlMinutes, now);
    HexFourDigits(ttlMinutes);
    HexLength(now, 7);
    ReadHex(now);
    assert Hex(now)[0] in Hex(now);
    if now >= Pow16(7) {
      assert sid[64..68] == Hex4(ttlMinutes);
      assert sid[68..] == Hex(now);
      hide ParseHex;
      assert ParseHex(Hex(now), U64_MAX) == Some(now) by { ParseOfHex(now); }
    }
  }

  // ----- which digit stands where -----

  /** The character stands for the digit of `n` that counts 16 to the `i`, printed in upper case. */
  predicate IsDigitOf(c: char, n: nat, i: nat)
  {
    ('0' <= c <= '9' || 'A' <= c <= 'F') && DigitValue(c) == Some(n / Pow16(i) % 16)
  }

  lemma Grows(a: nat, d: nat)
    requires a >= 1
    ensures a * d >= d
  {
    assert a * d == d + (a - 1) * d;
  }

  lemma QuotientIs(n: nat, d: nat, q: nat, r: nat)
    requires d >= 1 && r < d && n == q * d + r
    ensures n / d == q
  {
    var x, y := n / d, n % d;
    assert x * d + y == q * d + r;
    if x > q {
      Grows(x - q, d);
    } else if x < q {
      Grows(q - x, d);
    }
  }

  lemma DivideTwice(n: nat, p: nat)
    requires p >= 1
    ensures n / 16 / p == n / (16 * p)
  {
    var q, r := n / 16 / p, n / 16 % p;
    assert n / 16 == q * p + r;
    var low := n - 16 * (n / 16);
    assert n == q * (16 * p) + (16 * r + low);
    assert 16 * r + low < 16 * p;
    QuotientIs(n, 16 * p, q, 16 * r + low);
  }

  /** The digits of a number, from the right. */
  lemma {:induction false} HexDigits(n: nat, i: nat)
    requires i < |Hex(n)|
    ensures IsDigitOf(Hex(n)[|Hex(n)| - 1 - i], n, i)
    decreases i
  {
    if i == 0 {
      assert Pow16(0) == 1;
    } else {
      HexDigits(n / 16, i - 1);
      DivideTwice(n, Pow16(i - 1));
      assert Pow16(i) == 16 * Pow16(i - 1);
      assert Hex(n)[|Hex(n)| - 1 - i] == Hex(n / 16)[|Hex(n / 16)| - 1 - (i - 1)];
    }
  }

  lemma PaddedDigit(n: nat, i: nat)
    requires |Hex(n)| <= i
    ensures IsDigitOf('0', n, i)
  {
    HexLength(n, i);
    assert n / Pow16(i) == 0 by { QuotientIs(n, Pow16(i), 0, n); }
  }

  /** The digits spell the number, highest first. */
  predicate SpellsHex(digits: string, n: nat)
  {
    forall i | 0 <= i < |digits| :: IsDigitOf(digits[i], n, |digits| - 1 - i)
  }

  lemma HexSpells(n: nat)
    ensures SpellsHex(Hex(n), n)
  {
    hide Hex, IsDigitOf;
    forall i | 0 <= i < |Hex(n)| ensures IsDigitOf(Hex(n)[i], n, |Hex(n)| - 1 - i) {
      HexDigits(n, |Hex(n)| - 1 - i);
    }
  }

  lemma Hex4Spells(n: nat)
    requires n <= U16_MAX
    ensures |Hex4(n)| == 4 && SpellsHex(Hex4(n), n)
  {
    HexFourDigits(n);
    HexSpells(n);
    hide Hex, IsDigitOf, ParseHex;
    var zeros := Zeros(4 - |Hex(n)|);
    forall i | 0 <= i < 4 ensures IsDigitOf(Hex4(n)[i], n, 3 - i) {
      if i < |zeros| {
        assert zeros[i] in zeros;
        PaddedDigit(n, 3 - i);
      } else {
        assert Hex4(n)[i] == Hex(n)[i - |zeros|];
      }
    }
  }

  lemma {:induction false} FirstDigit(n: nat)
    ensures n > 0 ==> Hex(n)[0] != '0'
  {
    if n >= 16 { FirstDigit(n / 16); }
  }

  /** The layout of an id: 64 characters of digest, four digits of the time to live in minutes, and
      the digits of the creation time, in upper case, highest first, without zeros in front. */
  lemma SidLayout(digest: string, ttlMinutes: nat, now: nat)
    requires |digest| == 64 && ttlMinutes <= U16_MAX
    ensures
      var sid := GenSid(digest, ttlMinutes, now);
      && |sid| > 68 && sid[..64] == digest && SpellsHex(sid[64..68], ttlMinutes) && SpellsHex(sid[68..], now)
      && (now > 0 ==> sid[68] != '0')
  {
    Hex4Spells(ttlMinutes);
    HexSpells(now);
    FirstDigit(now);
    hide SpellsHex, Hex, Hex4;
    var sid := GenSid(digest, ttlMinutes, now);
    assert sid[64..68] == Hex4(ttlMinutes) && sid[68..] == Hex(now);
  }

  lemma ReadUnfold(s: string)
    requires s != []
    ensures ReadDigits(s).Some? <==> ReadDigits(s[..|s| - 1]).Some? && DigitValue(s[|s| - 1]).Some?
    ensures ReadDigits(s).Some? ==>
              ReadDigits(s).value == 16 * ReadDigits(s[..|s| - 1]).value + DigitValue(s[|s| - 1]).value
  {
    hide DigitValue;
  }

  /** Digits are read in either case, highest first. */
  lemma {:induction false} ReadsDigits(s: string)
    ensures ReadDigits(s).Some? <==> forall c | c in s :: DigitValue(c).Some?
    ensures ReadDigits(s).Some? ==> ReadDigits(s).value < Pow16(|s|)
    ensures ReadDigits(s).Some? ==>
              forall i | 0 <= i < |s| :: DigitValue(s[i]) == Some(ReadDigits(s).value / Pow16(|s| - 1 - i) % 16)
    decreases |s|
  {
    if s != [] {
      var head, last := s[..|s| - 1], s[|s| - 1];
      assert s == head + [last];
      ReadUnfold(s);
      ReadsDigits(head);
      assert Pow16(|s|) == 16 * Pow16(|head|);
      assert Pow16(0) == 1;
      hide DigitValue, ReadDigits;
      if ReadDigits(s).Some? {
        var n, m := ReadDigits(s).value, ReadDigits(head).value;
        assert n / 16 == m && Some(n % 16) == DigitValue(last);
        forall i | 0 <= i < |s| ensures DigitValue(s[i]) == Some(n / Pow16(|s| - 1 - i) % 16) {
          if i < |head| {
            DivideTwice(n, Pow16(|head| - 1 - i));
            assert s[i] == head[i];
          }
        }
      }
    }
  }

  /** A hexadecimal text is digits, perhaps after a plus sign, and its value is within the bound. */
  lemma ParsesExactly(s: string, max: nat)
    ensures
      var digits := if s != [] && s[0] == '+' then s[1..] else s;
      && (ParseHex(s, max).Some? <==>
            && digits != [] && (forall c | c in digits :: DigitValue(c).Some?)
            && ReadDigits(digits).Some? && ReadDigits(digits).value <= max)
      && (ParseHex(s, max).Some? ==>
            ParseHex(s, max).value < Pow16(|digits|)
            && forall i | 0 <= i < |digits| ::
                 DigitValue(digits[i]) == Some(ParseHex(s, max).value / Pow16(|digits| - 1 - i) % 16))
  {
    ReadsDigits(if s != [] && s[0] == '+' then s[1..] else s);
  }

  // ----- meta data -----

  /** The fields of a `Meta` but the name of the id, which is constant here. */
  datatype MetaView = MetaView(ttlMinutes: nat, createStamp: nat, sid: string, touches: Option<bool>)

  /** The meta data is what its id encodes. */
  predicate MetaOk(m: MetaView)
  {
    ParseSid(m.sid) == Ok((m.ttlMinutes, m.createStamp))
  }

  /** `Meta::new`. */
  function FreshMeta(ttlMinutes: nat, digest: string, now: nat): MetaView
  {
    MetaView(ttlMinutes, now, GenSid(digest, ttlMinutes, now), None)
  }

  /** `Meta::new_with_sid`. */
  function MetaOf(sid: string): Result<MetaView>
  {
    match ParseSid(sid)
    case Err => Err
    case Ok((ttlMinutes, createStamp)) => Ok(MetaView(ttlMinutes, createStamp, sid, None))
  }

  class Meta {
    var ttlMinutes: nat
    var createStamp: nat
    var sid: string
    var touches: Option<bool>

    ghost function View(): MetaView
      reads this
    {
      MetaView(ttlMinutes, createStamp, sid, touches)
    }

    /** A copy of the fields. */
    constructor (m: MetaView)
      ensures View() == m
    {
      ttlMinutes, createStamp, sid, touches := m.ttlMinutes, m.createStamp, m.sid, m.touches;
    }

    /** `config`. */
    method Config(ttlMinutes: Option<nat>)
      modifies this`ttlMinutes
      ensures View() == old(View()).(ttlMinutes := if ttlMinutes.Some? then ttlMinutes.value else old(this.ttlMinutes))
    {
      if ttlMinutes.Some? {
        this.ttlMinutes := ttlMinutes.value;
      }
    }

    /** `renew` with a given id: on an id that does not parse only the touch is forgotten. */
    method RenewWith(sid: string) returns (ok: bool)
      modifies this
      ensures ok <==> MetaOf(sid).Ok?
      ensures View() == if ok then MetaOf(sid).value else old(View()).(touches := None)
    {
      touches := None;
      var parsed := ParseSid(sid);
      if parsed.Err? { return false; }
      ttlMinutes, createStamp := parsed.value.0, parsed.value.1;
      this.sid := sid;
      ok := true;
    }

    /** `renew` without an id: a new one for the same time to live. */
    method Renew(digest: string, now: nat)
      modifies this
      ensures View() == FreshMeta(old(ttlMinutes), digest, now)
    {
      touches := None;
      sid, createStamp := GenSid(digest, ttlMinutes, now), now;
    }
  }

  /** Renewals keep meta data and id in agreement, whether the id is new or given. */
  lemma MetaStaysOk(ttlMinutes: nat, digest: string, now: nat, sid: string)
    requires |digest| == 64 && ttlMinutes <= U16_MAX && Pow16(7) <= now <= U64_MAX
    ensures MetaOk(FreshMeta(ttlMinutes, digest, now))
    ensures MetaOf(sid).Ok? ==> MetaOk(MetaOf(sid).value) && MetaOf(sid).value.sid == sid
  {
    hide Pow16;
    SidRoundTrip(digest, ttlMinutes, now);
  }
}
