/**
 * Base 64 encoding as section 4 of RFC 4648 defines it: the standard alphabet of
 * Table 1, 24-bit groups written as four characters, and `=` padding of the final
 * quantum. app.py:23 calls `base64.b64decode` and app.py:42 `base64.b64encode`;
 * both are modelled here by the standard they implement. The decoder is strict:
 * every character must be in the alphabet, and `=` may only pad the final quantum.
 */
module Base64 {
  import opened Wrappers

  newtype byte = x: int | 0 <= x < 256

  /** The value one alphabet character carries. */
  type Sextet = x: int | 0 <= x < 64

  const PadChar: char := '='

  /** Why a text is not a Base 64 encoding. */
  datatype DecodeError =
    | IncorrectLength       // the length is not a multiple of 4
    | NonAlphabetCharacter  // a character outside the alphabet, or `=` where it cannot pad

  /**
   * Table 1 of RFC 4648: the character that encodes `v`, `A`-`Z` for 0-25,
   * `a`-`z` for 26-51, `0`-`9` for 52-61, then `+` and `/`.
   */
  function CharOf(v: Sextet): (c: char)
  {
    if v < 26 then ('A' as int + v) as char
    else if v < 52 then ('a' as int + (v - 26)) as char
    else if v < 62 then ('0' as int + (v - 52)) as char
    else if v == 62 then '+'
    else '/'
  }

  /** Table 1, row by row: which values are written with which characters. */
  lemma CharOfTable(v: Sextet)
    ensures v < 26 <==> 'A' <= CharOf(v) <= 'Z'
    ensures 26 <= v < 52 <==> 'a' <= CharOf(v) <= 'z'
    ensures 52 <= v < 62 <==> '0' <= CharOf(v) <= '9'
    ensures v == 62 <==> CharOf(v) == '+'
    ensures v == 63 <==> CharOf(v) == '/'
  {
  }

  /** The value `c` encodes, if `c` is in the alphabet. */
  function ValueOf(c: char): (r: Option<Sextet>)
  {
    if 'A' <= c <= 'Z' then Some(c as int - 'A' as int)
    else if 'a' <= c <= 'z' then Some(c as int - 'a' as int + 26)
    else if '0' <= c <= '9' then Some(c as int - '0' as int + 52)
    else if c == '+' then Some(62)
    else if c == '/' then Some(63)
    else None
  }

  /** The characters with a value are exactly the 64 characters of Table 1. */
  lemma ValueOfTable(c: char)
    ensures ValueOf(c).Some? <==> 'A' <= c <= 'Z' || 'a' <= c <= 'z' || '0' <= c <= '9' || c == '+' || c == '/'
  {
  }

  /** Every value has a character, and that character decodes to it. */
  lemma ValueOfCharOf(v: Sextet)
    ensures ValueOf(CharOf(v)) == Some(v)
  {
  }

  /** Every character that has a value is the character of that value. */
  lemma CharOfValueOf(c: char)
    requires ValueOf(c).Some?
    ensures CharOf(ValueOf(c).value) == c
  {
  }

  predicate InAlphabet(c: char) {
    ValueOf(c).Some?
  }

  /** The padding character is not in the alphabet. */
  lemma PadCharNotInAlphabet()
    ensures !InAlphabet(PadChar)
  {
  }

  // The bytes of a 24-bit group, from its four sextets, and back.

  function Byte0(a: Sextet, b: Sextet): (x: byte) { (a * 4 + b / 16) as byte }
  function Byte1(b: Sextet, c: Sextet): (y: byte) { ((b % 16) * 16 + c / 4) as byte }
  function Byte2(c: Sextet, d: Sextet): (z: byte) { ((c % 4) * 64 + d) as byte }

  function Sextet0(x: byte): (a: Sextet) { x as int / 4 }
  function Sextet1(x: byte, y: byte): (b: Sextet) { (x as int % 4) * 16 + y as int / 16 }
  function Sextet2(y: byte, z: byte): (c: Sextet) { (y as int % 16) * 4 + z as int / 64 }
  function Sextet3(z: byte): (d: Sextet) { z as int % 64 }

  /** The four characters for one group of one to three bytes, padded with `=`. */
  function EncodeGroup(g: seq<byte>): (q: string)
    requires 1 <= |g| <= 3
    ensures |q| == 4
  {
    if |g| == 1 then
      [CharOf(Sextet0(g[0])), CharOf(Sextet1(g[0], 0)), PadChar, PadChar]
    else if |g| == 2 then
      [CharOf(Sextet0(g[0])), CharOf(Sextet1(g[0], g[1])), CharOf(Sextet2(g[1], 0)), PadChar]
    else
      [CharOf(Sextet0(g[0])), CharOf(Sextet1(g[0], g[1])), CharOf(Sextet2(g[1], g[2])), CharOf(Sextet3(g[2]))]
  }

  /**
   * The layout of a quantum: the first two characters carry data, the third is
   * `=` exactly for a one-byte group and the fourth exactly for a group of fewer
   * than three bytes.
   */
  lemma EncodeGroupLayout(g: seq<byte>)
    requires 1 <= |g| <= 3
    ensures var q := EncodeGroup(g);
      && InAlphabet(q[0]) && InAlphabet(q[1])
      && (q[2] == PadChar <==> |g| == 1)
      && (q[3] == PadChar <==> |g| < 3)
      && (q[2] != PadChar ==> InAlphabet(q[2]))
      && (q[3] != PadChar ==> InAlphabet(q[3]))
  {
    var q := EncodeGroup(g);
    ValueOfCharOf(Sextet0(g[0]));
    ValueOfCharOf(Sextet1(g[0], if |g| >= 2 then g[1] else 0));
    if |g| >= 2 {
      ValueOfCharOf(Sextet2(g[1], if |g| == 3 then g[2] else 0));
    }
    if |g| == 3 {
      ValueOfCharOf(Sextet3(g[2]));
    }
  }

  /** RFC 4648 section 4 encoding: Python's `base64.b64encode(b).decode()`. */
  function Encode(b: seq<byte>): (s: string)
    ensures |s| == 4 * ((|b| + 2) / 3)
    decreases |b|
  {
    if b == [] then []
    else if |b| <= 3 then EncodeGroup(b)
    else
      EncodedLengthStep(|b|);
      EncodeGroup(b[..3]) + Encode(b[3..])
  }

  lemma EncodedLengthStep(n: nat)
    requires n > 3
    ensures 4 + 4 * ((n - 3 + 2) / 3) == 4 * ((n + 2) / 3)
  {
  }

  /** The encoding of one group of three bytes is its four sextets' characters. */
  lemma EncodeOneQuantum(g: seq<byte>)
    requires |g| == 3
    ensures Encode(g) == [CharOf(Sextet0(g[0])), CharOf(Sextet1(g[0], g[1])), CharOf(Sextet2(g[1], g[2])), CharOf(Sextet3(g[2]))]
  {
  }

  /** The encoding of one or two bytes is one quantum padded with `=`. */
  lemma EncodePaddedQuantum(g: seq<byte>)
    requires 1 <= |g| <= 2
    ensures |g| == 1 ==> Encode(g) == [CharOf(Sextet0(g[0])), CharOf(Sextet1(g[0], 0)), PadChar, PadChar]
    ensures |g| == 2 ==> Encode(g) == [CharOf(Sextet0(g[0])), CharOf(Sextet1(g[0], g[1])), CharOf(Sextet2(g[1], 0)), PadChar]
  {
  }

  /** The test vectors of section 10 of RFC 4648 that fit in one quantum: "f", "fo" and "foo". */
  lemma EncodeRfcVectorF(g: seq<byte>)
    requires g == [102]
    ensures Encode(g) == "Zg=="
  {
    EncodePaddedQuantum(g);
    assert Sextet0(102) == 25 && Sextet1(102, 0) == 32;
    assert CharOf(25) == 'Z' && CharOf(32) == 'g';
  }

  lemma EncodeRfcVectorFo(g: seq<byte>)
    requires g == [102, 111]
    ensures Encode(g) == "Zm8="
  {
    EncodePaddedQuantum(g);
    assert Sextet0(102) == 25 && Sextet1(102, 111) == 38 && Sextet2(111, 0) == 60;
    assert CharOf(25) == 'Z' && CharOf(38) == 'm' && CharOf(60) == '8';
  }

  lemma EncodeRfcVectorFoo(g: seq<byte>)
    requires g == [102, 111, 111]
    ensures Encode(g) == "Zm9v"
  {
    EncodeOneQuantum(g);
    assert Sextet0(102) == 25 && Sextet1(102, 111) == 38 && Sextet2(111, 111) == 61 && Sextet3(111) == 47;
    assert Encode(g) == [CharOf(25), CharOf(38), CharOf(61), CharOf(47)];
    assert CharOf(25) == 'Z' && CharOf(38) == 'm';
    assert CharOf(61) == '9' && CharOf(47) == 'v';
  }

  /** The decoder reads the "foo" vector of section 10 of RFC 4648 back. */
  lemma DecodeRfcVectorFoo(s: string)
    requires s == "Zm9v"
    ensures Decode(s) == Ok([102, 111, 111])
  {
    var g: seq<byte> := [102, 111, 111];
    EncodeRfcVectorFoo(g);
    DecodeEncode(g);
  }

  /** An encoding is whole quanta, and at least one when there are bytes. */
  lemma EncodeQuanta(b: seq<byte>)
    ensures |Encode(b)| % 4 == 0
    ensures b != [] ==> |Encode(b)| >= 4
  {
    var k := (|b| + 2) / 3;
    assert |Encode(b)| == 4 * k;
    if b != [] {
      assert k >= 1;
    }
    MultipleOfFour(k);
  }

  lemma MultipleOfFour(k: nat)
    ensures (4 * k) % 4 == 0
  {
  }

  /**
   * The bytes of one quantum `q`; `final` says it is the last one, the only
   * place `=` may stand (as `xx==` or `xxx=`).
   */
  function DecodeQuantum(q: string, final: bool): (r: Result<seq<byte>, DecodeError>)
    requires |q| == 4
    ensures r.Ok? ==> 1 <= |r.value| <= 3 && (!final ==> |r.value| == 3)
  {
    if ValueOf(q[0]).None? || ValueOf(q[1]).None? then Err(NonAlphabetCharacter)
    else
      var a, b := ValueOf(q[0]).value, ValueOf(q[1]).value;
      if final && q[2] == PadChar && q[3] == PadChar then Ok([Byte0(a, b)])
      else
        match ValueOf(q[2])
        case None => Err(NonAlphabetCharacter)
        case Some(c) =>
          if final && q[3] == PadChar then Ok([Byte0(a, b), Byte1(b, c)])
          else
            match ValueOf(q[3])
            case None => Err(NonAlphabetCharacter)
            case Some(d) => Ok([Byte0(a, b), Byte1(b, c), Byte2(c, d)])
  }

  /** RFC 4648 section 4 decoding, one quantum at a time. */
  function Decode(s: string): (r: Result<seq<byte>, DecodeError>)
    ensures |s| % 4 != 0 ==> r == Err(IncorrectLength)
    ensures r.Ok? ==> |s| % 4 == 0 && 3 * (|s| / 4) - 2 <= |r.value| <= 3 * (|s| / 4)
    decreases |s|
  {
    if |s| % 4 != 0 then Err(IncorrectLength)
    else if s == [] then Ok([])
    else
      match DecodeQuantum(s[..4], |s| == 4)
      case Err(e) => Err(e)
      case Ok(q) =>
        match Decode(s[4..])
        case Err(e) => Err(e)
        case Ok(rest) => Ok(q + rest)
  }

  /**
   * The texts a strict decoder accepts: a multiple of 4 characters, all in the
   * alphabet except that the last one or two may be `=`.
   */
  predicate WellFormed(s: string) {
    && |s| % 4 == 0
    && (forall i :: 0 <= i < |s| - 2 ==> InAlphabet(s[i]))
    && (|s| >= 4 ==>
          || (InAlphabet(s[|s| - 2]) && (InAlphabet(s[|s| - 1]) || s[|s| - 1] == PadChar))
          || (s[|s| - 2] == PadChar && s[|s| - 1] == PadChar))
  }

  /**
   * RFC 4648 section 3.5: the bits a padded final quantum leaves over are zero,
   * as an encoder writes them.
   */
  predicate PadBitsZero(s: string) {
    |s| >= 4 ==>
      var q := s[|s| - 4..];
      if q[3] != PadChar then true
      else if q[2] == PadChar then ValueOf(q[1]).Some? && ValueOf(q[1]).value % 16 == 0
      else ValueOf(q[2]).Some? && ValueOf(q[2]).value % 4 == 0
  }

  // Arithmetic on the bits of a group.

  lemma DivAdd4(x: int, y: int)
    requires 0 <= y < 4
    ensures (x * 4 + y) / 4 == x && (x * 4 + y) % 4 == y
  {
  }

  lemma DivAdd16(x: int, y: int)
    requires 0 <= y < 16
    ensures (x * 16 + y) / 16 == x && (x * 16 + y) % 16 == y
  {
  }

  lemma DivAdd64(x: int, y: int)
    requires 0 <= y < 64
    ensures (x * 64 + y) / 64 == x && (x * 64 + y) % 64 == y
  {
  }

  lemma Byte0RoundTrip(x: byte, y: byte)
    ensures Byte0(Sextet0(x), Sextet1(x, y)) == x
  {
    DivAdd16(x as int % 4, y as int / 16);
  }

  lemma Byte1RoundTrip(x: byte, y: byte, z: byte)
    ensures Byte1(Sextet1(x, y), Sextet2(y, z)) == y
  {
    DivAdd16(x as int % 4, y as int / 16);
    DivAdd4(y as int % 16, z as int / 64);
  }

  lemma Byte2RoundTrip(y: byte, z: byte)
    ensures Byte2(Sextet2(y, z), Sextet3(z)) == z
  {
    DivAdd4(y as int % 16, z as int / 64);
  }

  lemma Sextet0RoundTrip(a: Sextet, b: Sextet)
    ensures Sextet0(Byte0(a, b)) == a
  {
    DivAdd4(a, b / 16);
  }

  lemma Sextet1RoundTrip(a: Sextet, b: Sextet, c: Sextet)
    ensures Sextet1(Byte0(a, b), Byte1(b, c)) == b
  {
    DivAdd4(a, b / 16);
    DivAdd16(b % 16, c / 4);
  }

  lemma Sextet2RoundTrip(b: Sextet, c: Sextet, d: Sextet)
    ensures Sextet2(Byte1(b, c), Byte2(c, d)) == c
  {
    DivAdd16(b % 16, c / 4);
    DivAdd64(c % 4, d);
  }

  lemma Sextet3RoundTrip(c: Sextet, d: Sextet)
    ensures Sextet3(Byte2(c, d)) == d
  {
    DivAdd64(c % 4, d);
  }

  /** Without its four low bits, the second sextet is all a one-byte group needs. */
  lemma Sextet1PadRoundTrip(a: Sextet, b: Sextet)
    requires b % 16 == 0
    ensures Sextet1(Byte0(a, b), 0) == b
  {
    DivAdd4(a, b / 16);
  }

  /** Without its two low bits, the third sextet is all a two-byte group needs. */
  lemma Sextet2PadRoundTrip(b: Sextet, c: Sextet)
    requires c % 4 == 0
    ensures Sextet2(Byte1(b, c), 0) == c
  {
    DivAdd16(b % 16, c / 4);
  }

  lemma EncodeGroupDecodes(g: seq<byte>, final: bool)
    requires 1 <= |g| <= 3
    requires |g| < 3 ==> final
    ensures DecodeQuantum(EncodeGroup(g), final) == Ok(g)
  {
    if |g| == 1 {
      assert g == [g[0]];
      EncodeOneDecodes(g[0]);
    } else if |g| == 2 {
      assert g == [g[0], g[1]];
      EncodeTwoDecodes(g[0], g[1]);
    } else {
      assert g == [g[0], g[1], g[2]];
      EncodeThreeDecodes(g[0], g[1], g[2], final);
    }
  }

  lemma EncodeOneDecodes(x: byte)
    ensures DecodeQuantum(EncodeGroup([x]), true) == Ok([x])
  {
    var a, b := Sextet0(x), Sextet1(x, 0);
    var q := EncodeGroup([x]);
    assert q == [CharOf(a), CharOf(b), PadChar, PadChar];
    ValueOfCharOf(a);
    ValueOfCharOf(b);
    assert DecodeQuantum(q, true) == Ok([Byte0(a, b)]);
    Byte0RoundTrip(x, 0);
  }

  lemma EncodeTwoDecodes(x: byte, y: byte)
    ensures DecodeQuantum(EncodeGroup([x, y]), true) == Ok([x, y])
  {
    var a, b, c := Sextet0(x), Sextet1(x, y), Sextet2(y, 0);
    var q := EncodeGroup([x, y]);
    assert q == [CharOf(a), CharOf(b), CharOf(c), PadChar];
    ValueOfCharOf(a);
    ValueOfCharOf(b);
    ValueOfCharOf(c);
    assert DecodeQuantum(q, true) == Ok([Byte0(a, b), Byte1(b, c)]);
    Byte0RoundTrip(x, y);
    Byte1RoundTrip(x, y, 0);
  }

  lemma EncodeThreeDecodes(x: byte, y: byte, z: byte, final: bool)
    ensures DecodeQuantum(EncodeGroup([x, y, z]), final) == Ok([x, y, z])
  {
    var a, b, c, d := Sextet0(x), Sextet1(x, y), Sextet2(y, z), Sextet3(z);
    var q := EncodeGroup([x, y, z]);
    assert q == [CharOf(a), CharOf(b), CharOf(c), CharOf(d)];
    ValueOfCharOf(a);
    ValueOfCharOf(b);
    ValueOfCharOf(c);
    ValueOfCharOf(d);
    assert DecodeQuantum(q, final) == Ok([Byte0(a, b), Byte1(b, c), Byte2(c, d)]);
    Byte0RoundTrip(x, y);
    Byte1RoundTrip(x, y, z);
    Byte2RoundTrip(y, z);
  }

  /** Decoding undoes encoding: for every byte sequence `b`, `Decode(Encode(b)) == Ok(b)`. */
  lemma {:induction false} DecodeEncode(b: seq<byte>)
    ensures Decode(Encode(b)) == Ok(b)
    decreases |b|
  {
    if b == [] {
      assert Encode(b) == [];
    } else if |b| <= 3 {
      var s := Encode(b);
      EncodeGroupDecodes(b, true);
      assert s[..4] == s;
      assert Decode(s[4..]) == Ok([]);
      assert b + [] == b;
    } else {
      var g, rest := b[..3], b[3..];
      var q, t := EncodeGroup(g), Encode(rest);
      EncodeGroupDecodes(g, false);
      DecodeEncode(rest);
      assert Encode(b) == q + t;
      assert (q + t)[..4] == q && (q + t)[4..] == t;
      EncodeQuanta(rest);
      AddQuantum(|t|);
      DecodeStep(q + t, g, rest);
      assert b == g + rest;
    }
  }

  lemma AddQuantum(n: int)
    requires n % 4 == 0
    ensures (4 + n) % 4 == 0
  {
  }

  /** A text longer than one quantum decodes to its first quantum's bytes and then the rest's. */
  lemma DecodeStep(s: string, g: seq<byte>, rest: seq<byte>)
    requires |s| > 4 && |s| % 4 == 0
    requires DecodeQuantum(s[..4], false) == Ok(g) && Decode(s[4..]) == Ok(rest)
    ensures Decode(s) == Ok(g + rest)
  {
  }

  /** Every character of an encoding is in the alphabet or is padding. */
  lemma {:induction false} EncodeCharacters(b: seq<byte>)
    ensures forall i :: 0 <= i < |Encode(b)| ==> InAlphabet(Encode(b)[i]) || Encode(b)[i] == PadChar
    decreases |b|
  {
    if |b| > 3 {
      EncodeCharacters(b[3..]);
      var s := Encode(b);
      forall i | 0 <= i < |s| ensures InAlphabet(s[i]) || s[i] == PadChar {
        if i >= 4 {
          assert s[i] == Encode(b[3..])[i - 4];
        } else {
          ValueOfCharOf(Sextet0(b[0]));
          ValueOfCharOf(Sextet1(b[0], b[1]));
          ValueOfCharOf(Sextet2(b[1], b[2]));
          ValueOfCharOf(Sextet3(b[2]));
        }
      }
    } else if b != [] {
      var y := if |b| >= 2 then b[1] else 0;
      var z := if |b| == 3 then b[2] else 0;
      ValueOfCharOf(Sextet0(b[0]));
      ValueOfCharOf(Sextet1(b[0], y));
      ValueOfCharOf(Sextet2(y, z));
      ValueOfCharOf(Sextet3(z));
    }
  }

  /** An encoder writes well-formed text whose pad bits are zero. */
  lemma EncodeWellFormed(b: seq<byte>)
    ensures WellFormed(Encode(b)) && PadBitsZero(Encode(b))
  {
    DecodeEncode(b);
    DecodeAcceptsWellFormed(Encode(b));
    EncodePadBitsZero(b);
  }

  lemma {:induction false} EncodePadBitsZero(b: seq<byte>)
    ensures PadBitsZero(Encode(b))
    decreases |b|
  {
    if |b| > 3 {
      EncodePadBitsZero(b[3..]);
      EncodeQuanta(b[3..]);
      PadBitsZeroAppend(EncodeGroup(b[..3]), Encode(b[3..]));
    } else if |b| == 3 {
      EncodeThreePadBitsZero(b);
    } else if |b| == 2 {
      assert b == [b[0], b[1]];
      EncodeTwoPadBitsZero(b[0], b[1]);
    } else if |b| == 1 {
      assert b == [b[0]];
      EncodeOnePadBitsZero(b[0]);
    }
  }

  /** Putting a quantum before a text leaves the text's final quantum its last one. */
  lemma PadBitsZeroAppend(q: string, t: string)
    requires |q| == 4 && |t| >= 4 && PadBitsZero(t)
    ensures PadBitsZero(q + t)
  {
    var s := q + t;
    assert s[|s| - 4..] == t[|t| - 4..];
  }

  lemma EncodeThreePadBitsZero(b: seq<byte>)
    requires |b| == 3
    ensures PadBitsZero(Encode(b))
  {
    var q := Encode(b);
    assert q == EncodeGroup(b);
    assert q[|q| - 4..] == q;
    ValueOfCharOf(Sextet3(b[2]));
    PadCharNotInAlphabet();
  }

  lemma EncodeOnePadBitsZero(x: byte)
    ensures PadBitsZero(Encode([x]))
  {
    var q := Encode([x]);
    assert q[|q| - 4..] == q;
    assert q == [CharOf(Sextet0(x)), CharOf(Sextet1(x, 0)), PadChar, PadChar];
    ValueOfCharOf(Sextet1(x, 0));
    DivAdd16(x as int % 4, 0);
  }

  lemma EncodeTwoPadBitsZero(x: byte, y: byte)
    ensures PadBitsZero(Encode([x, y]))
  {
    var q := Encode([x, y]);
    assert q[|q| - 4..] == q;
    assert q == [CharOf(Sextet0(x)), CharOf(Sextet1(x, y)), CharOf(Sextet2(y, 0)), PadChar];
    ValueOfCharOf(Sextet2(y, 0));
    DivAdd4(y as int % 16, 0);
  }

  /** The decoder accepts a text exactly when it is well formed. */
  lemma {:induction false} DecodeAcceptsWellFormed(s: string)
    ensures Decode(s).Ok? <==> WellFormed(s)
    decreases |s|
  {
    if |s| == 4 {
      DecodeSingle(s);
      DecodeQuantumFinal(s);
    } else if |s| % 4 == 0 && s != [] {
      DecodeAcceptsWellFormed(s[4..]);
      DecodeOkStep(s);
      DecodeQuantumInner(s[..4]);
      WellFormedStep(s);
    }
  }

  lemma DecodeSingle(s: string)
    requires |s| == 4
    ensures Decode(s).Ok? <==> DecodeQuantum(s, true).Ok?
  {
    assert s[..4] == s;
    assert Decode(s[4..]) == Ok([]);
  }

  lemma DecodeOkStep(s: string)
    requires |s| > 4 && |s| % 4 == 0
    ensures Decode(s).Ok? <==> DecodeQuantum(s[..4], false).Ok? && Decode(s[4..]).Ok?
  {
  }

  /** A quantum that is not the final one is accepted exactly when all four characters are in the alphabet. */
  lemma DecodeQuantumInner(q: string)
    requires |q| == 4
    ensures DecodeQuantum(q, false).Ok? <==> InAlphabet(q[0]) && InAlphabet(q[1]) && InAlphabet(q[2]) && InAlphabet(q[3])
  {
  }

  /** A final quantum is accepted exactly when it is well formed on its own. */
  lemma DecodeQuantumFinal(q: string)
    requires |q| == 4
    ensures DecodeQuantum(q, true).Ok? <==> WellFormed(q)
  {
    PadCharNotInAlphabet();
  }

  /** Text longer than one quantum is well formed exactly when its first quantum is alphabet characters and the rest is well formed. */
  lemma WellFormedStep(s: string)
    requires |s| > 4 && |s| % 4 == 0
    ensures WellFormed(s) <==>
      InAlphabet(s[0]) && InAlphabet(s[1]) && InAlphabet(s[2]) && InAlphabet(s[3]) && WellFormed(s[4..])
  {
    var t := s[4..];
    assert forall i :: 0 <= i < |t| ==> t[i] == s[i + 4];
    if InAlphabet(s[0]) && InAlphabet(s[1]) && InAlphabet(s[2]) && InAlphabet(s[3]) && WellFormed(t) {
      forall i | 0 <= i < |s| - 2 ensures InAlphabet(s[i]) {
        if i >= 4 {
          assert s[i] == t[i - 4];
        }
      }
    }
  }


  /**
   * For text the decoder accepts, encoding the decoded bytes gives the text back
   * exactly when its pad bits are zero.
   */
  lemma {:induction false} EncodeDecode(s: string, b: seq<byte>)
    requires Decode(s) == Ok(b)
    ensures Encode(b) == s <==> PadBitsZero(s)
    decreases |s|
  {
    EncodeWellFormed(b);
    if PadBitsZero(s) {
      EncodeDecodePadBitsZero(s, b);
    }
  }

  lemma {:induction false} EncodeDecodePadBitsZero(s: string, b: seq<byte>)
    requires Decode(s) == Ok(b) && PadBitsZero(s)
    ensures Encode(b) == s
    decreases |s|
  {
    if |s| == 4 {
      var g := DecodeQuantum(s, true).value;
      assert s[..4] == s && s[|s| - 4..] == s;
      QuantumEncodes(s, true, g);
    } else if s != [] {
      var g, rest := DecodeSplit(s, b);
      PadBitsZeroTail(s);
      EncodeDecodePadBitsZero(s[4..], rest);
      QuantumEncodes(s[..4], false, g);
      EncodeDecodeStep(s, g, rest, b);
    }
  }

  /** Accepted text longer than one quantum: its first quantum and the rest are accepted too. */
  lemma DecodeSplit(s: string, b: seq<byte>) returns (g: seq<byte>, rest: seq<byte>)
    requires |s| > 4 && Decode(s) == Ok(b)
    ensures |s| % 4 == 0
    ensures DecodeQuantum(s[..4], false) == Ok(g) && Decode(s[4..]) == Ok(rest)
  {
    g, rest := DecodeQuantum(s[..4], false).value, Decode(s[4..]).value;
  }

  /** The final quantum of text longer than one quantum is the final quantum of its tail. */
  lemma PadBitsZeroTail(s: string)
    requires |s| > 4 && PadBitsZero(s)
    ensures PadBitsZero(s[4..])
  {
    if |s| >= 8 {
      assert s[4..][|s[4..]| - 4..] == s[|s| - 4..];
    }
  }

  /** Encoding the bytes of text longer than one quantum is encoding its first quantum's bytes and then the rest's. */
  lemma EncodeDecodeStep(s: string, g: seq<byte>, rest: seq<byte>, b: seq<byte>)
    requires |s| > 4 && |s| % 4 == 0 && Decode(s) == Ok(b)
    requires DecodeQuantum(s[..4], false) == Ok(g) && Decode(s[4..]) == Ok(rest)
    requires EncodeGroup(g) == s[..4] && Encode(rest) == s[4..]
    ensures Encode(b) == s
  {
    assert b == g + rest;
    assert b[..3] == g && b[3..] == rest;
    assert s == s[..4] + s[4..];
  }

  /** A quantum the decoder accepts, with zero pad bits if final, is the encoding of its bytes. */
  lemma QuantumEncodes(q: string, final: bool, g: seq<byte>)
    requires |q| == 4 && DecodeQuantum(q, final) == Ok(g)
    requires final ==> PadBitsZero(q)
    ensures EncodeGroup(g) == q
  {
    PadCharNotInAlphabet();
    assert q[|q| - 4..] == q;
    var a, b := ValueOf(q[0]).value, ValueOf(q[1]).value;
    CharOfValueOf(q[0]);
    CharOfValueOf(q[1]);
    if final && q[2] == PadChar && q[3] == PadChar {
      assert g == [Byte0(a, b)];
      Sextet0RoundTrip(a, b);
      Sextet1PadRoundTrip(a, b);
    } else {
      var c := ValueOf(q[2]).value;
      CharOfValueOf(q[2]);
      if final && q[3] == PadChar {
        assert g == [Byte0(a, b), Byte1(b, c)];
        Sextet0RoundTrip(a, b);
        Sextet1RoundTrip(a, b, c);
        Sextet2PadRoundTrip(b, c);
      } else {
        var d := ValueOf(q[3]).value;
        CharOfValueOf(q[3]);
        assert g == [Byte0(a, b), Byte1(b, c), Byte2(c, d)];
        Sextet0RoundTrip(a, b);
        Sextet1RoundTrip(a, b, c);
        Sextet2RoundTrip(b, c, d);
        Sextet3RoundTrip(c, d);
      }
    }
  }
}
