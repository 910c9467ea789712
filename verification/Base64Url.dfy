/** URL-safe base64 as the base64 crate's two engines read and write it (section 5 of RFC 4648):
    without padding, and with canonical padding. A byte is a character below 256. */
module Base64Url {

  datatype Option<+T> = None | Some(value: T)

  predicate IsBytes(s: string) {
    forall i | 0 <= i < |s| :: s[i] as int < 256
  }

  predicate IsAscii(s: string) {
    forall i | 0 <= i < |s| :: s[i] as int < 128
  }

  type Sextet = n: int | 0 <= n < 64

  function Char(n: Sextet): char {
    if n < 26 then (65 + n) as char
    else if n < 52 then (71 + n) as char
    else if n < 62 then (n - 4) as char
    else if n == 62 then '-' else '_'
  }

  predicate InAlphabet(c: char) {
    'A' <= c <= 'Z' || 'a' <= c <= 'z' || '0' <= c <= '9' || c == '-' || c == '_'
  }

  function Index(c: char): Sextet
    requires InAlphabet(c)
  {
    if 'A' <= c <= 'Z' then c as int - 65
    else if 'a' <= c <= 'z' then c as int - 71
    else if '0' <= c <= '9' then c as int + 4
    else if c == '-' then 62 else 63
  }

  /** The alphabet of section 5 of RFC 4648, in order. */
  const UPPER := "ABCDEFGHIJKLMNOPQRSTUVWXYZ"
  const LOWER := "abcdefghijklmnopqrstuvwxyz"
  const DIGITS := "0123456789"
  const ALPHABET := UPPER + LOWER + DIGITS + "-_"

  lemma AlphabetInOrder(n: Sextet)
    ensures |ALPHABET| == 64 && Char(n) == ALPHABET[n]
  {
    if n < 26 {
      UpperInOrder(n);
      assert ALPHABET[n] == UPPER[n];
    } else if n < 52 {
      LowerInOrder(n - 26);
      assert ALPHABET[n] == LOWER[n - 26];
    } else if n < 62 {
      assert ALPHABET[n] == DIGITS[n - 52];
    }
  }

  lemma UpperInOrder(n: nat)
    requires n < 26
    ensures UPPER[n] as int == 65 + n
  {
  }

  lemma LowerInOrder(n: nat)
    requires n < 26
    ensures LOWER[n] as int == 97 + n
  {
  }

  lemma CharIndex(n: Sextet)
    ensures InAlphabet(Char(n)) && Index(Char(n)) == n
  {
  }

  function Sextet0(b0: nat): Sextet
    requires b0 < 256
  {
    b0 / 4
  }

  function Sextet1(b0: nat, b1: nat): Sextet
    requires b0 < 256 && b1 < 256
  {
    b0 % 4 * 16 + b1 / 16
  }

  function Sextet2(b1: nat, b2: nat): Sextet
    requires b1 < 256 && b2 < 256
  {
    b1 % 16 * 4 + b2 / 64
  }

  function Sextet3(b2: nat): Sextet {
    b2 % 64
  }

  /** The sextets of one to three bytes, absent bytes counting as zero. */
  function Group(b: string): (g: seq<Sextet>)
    requires 1 <= |b| <= 3 && IsBytes(b)
    ensures |g| == |b| + 1
  {
    var b0 := b[0] as int;
    if |b| == 1 then [Sextet0(b0), Sextet1(b0, 0)]
    else
      var b1 := b[1] as int;
      if |b| == 2 then [Sextet0(b0), Sextet1(b0, b1), Sextet2(b1, 0)]
      else
        var b2 := b[2] as int;
        [Sextet0(b0), Sextet1(b0, b1), Sextet2(b1, b2), Sextet3(b2)]
  }

  /** Bytes as a number, the first most significant. */
  function BytesValue(b: string): nat {
    if b == [] then 0 else BytesValue(b[..|b| - 1]) * 256 + b[|b| - 1] as int
  }

  function Times64(value: int, digit: int): int {
    value * 64 + digit
  }

  function SextetsValue(g: seq<Sextet>): int {
    if g == [] then 0 else Times64(SextetsValue(g[..|g| - 1]), g[|g| - 1])
  }

  lemma BytesParts(b: string)
    ensures |b| == 1 ==> BytesValue(b) == b[0] as int
    ensures |b| == 2 ==> BytesValue(b) == b[0] as int * 256 + b[1] as int
    ensures |b| == 3 ==> BytesValue(b) == (b[0] as int * 256 + b[1] as int) * 256 + b[2] as int
  {
    assert BytesValue([]) == 0;
    if |b| == 3 {
      assert b[..2][..1] == b[..1];
    }
  }

  lemma SextetParts(g: seq<Sextet>)
    requires 2 <= |g| <= 4
    ensures var two := Times64(g[0], g[1]);
            SextetsValue(g) == if |g| == 2 then two
                               else if |g| == 3 then Times64(two, g[2]) else Times64(Times64(two, g[2]), g[3])
  {
    assert g[..2][..1] == g[..1] && SextetsValue([]) == 0;
    assert SextetsValue(g[..2]) == Times64(g[0], g[1]);
    if |g| == 2 {
      assert g[..2] == g;
    } else {
      assert g[..3][..2] == g[..2];
    }
  }

  /** The sextets of one to three bytes are the digits to the base 64 of the number those bytes make, with
      zeros behind it up to a whole sextet. */
  lemma GroupValue(b: string)
    requires 1 <= |b| <= 3 && IsBytes(b)
    ensures SextetsValue(Group(b)) == BytesValue(b) * (if |b| == 1 then 16 else if |b| == 2 then 4 else 1)
  {
    BytesParts(b);
    SextetParts(Group(b));
    var b0 := b[0] as int;
    if |b| == 1 {
      OneByte(b0);
    } else if |b| == 2 {
      TwoBytes(b0, b[1] as int);
    } else {
      ThreeBytes(b0, b[1] as int, b[2] as int);
    }
  }

  lemma OneByte(b0: nat)
    requires b0 < 256
    ensures Times64(Sextet0(b0), Sextet1(b0, 0)) == b0 * 16
  {
  }

  lemma TwoBytes(b0: nat, b1: nat)
    requires b0 < 256 && b1 < 256
    ensures Times64(Times64(Sextet0(b0), Sextet1(b0, b1)), Sextet2(b1, 0)) == (b0 * 256 + b1) * 4
  {
  }

  lemma ThreeBytes(b0: nat, b1: nat, b2: nat)
    requires b0 < 256 && b1 < 256 && b2 < 256
    ensures Times64(Times64(Times64(Sextet0(b0), Sextet1(b0, b1)), Sextet2(b1, b2)), Sextet3(b2))
         == (b0 * 256 + b1) * 256 + b2
  {
  }

  function Chars(g: seq<Sextet>): (s: string)
    ensures |s| == |g|
  {
    seq(|g|, i requires 0 <= i < |g| => Char(g[i]))
  }

  function Encode(b: string): string
    requires IsBytes(b)
  {
    if b == [] then []
    else if |b| <= 3 then Chars(Group(b))
    else Chars(Group(b[..3])) + Encode(b[3..])
  }

  function HighByte(g0: int, g1: int): int {
    g0 * 4 + g1 / 16
  }

  function MiddleByte(g1: int, g2: int): int {
    g1 % 16 * 16 + g2 / 4
  }

  function LowByte(g2: int, g3: int): int {
    g2 % 4 * 64 + g3
  }

  /** The bytes of two to four sextets; unused low bits must be zero. */
  function Ungroup(g: seq<Sextet>): (b: Option<string>)
    requires 2 <= |g| <= 4
    ensures b.Some? ==> |b.value| == |g| - 1 && IsBytes(b.value)
    ensures b.Some? ==> b.value[0] as int == HighByte(g[0], g[1])
  {
    var b0 := HighByte(g[0], g[1]) as char;
    if |g| == 2 then
      if g[1] % 16 == 0 then Some([b0]) else None
    else
      var b1 := MiddleByte(g[1], g[2]) as char;
      if |g| == 3 then
        if g[2] % 4 == 0 then Some([b0, b1]) else None
      else
        Some([b0, b1, LowByte(g[2], g[3]) as char])
  }

  predicate AllInAlphabet(s: string) {
    forall i | 0 <= i < |s| :: InAlphabet(s[i])
  }

  function Sextets(s: string): (g: seq<Sextet>)
    requires AllInAlphabet(s)
    ensures |g| == |s|
  {
    seq(|s|, i requires 0 <= i < |s| => Index(s[i]))
  }

  function DecodeSextets(g: seq<Sextet>): (b: Option<string>)
    ensures b.Some? ==> IsBytes(b.value) && |b.value| == |g| * 3 / 4
    ensures b.Some? && |g| >= 2 ==> b.value != [] && b.value[0] as int == HighByte(g[0], g[1])
  {
    if g == [] then Some([])
    else if |g| == 1 then None
    else if |g| <= 4 then Ungroup(g)
    else
      var rest := DecodeSextets(g[4..]);
      if rest.None? then None else Some(Ungroup(g[..4]).value + rest.value)
  }

  /** The engine without padding. */
  function Decode(s: string): Option<string> {
    if AllInAlphabet(s) then DecodeSextets(Sextets(s)) else None
  }

  /** How many `=` to strip: at most two. */
  function Padding(s: string): (n: nat)
    ensures n <= |s|
  {
    if |s| >= 2 && s[|s| - 1] == '=' then if s[|s| - 2] == '=' then 2 else 1
    else if |s| == 1 && s[0] == '=' then 1 else 0
  }

  /** The engine with canonical padding. */
  function DecodePadded(s: string): Option<string> {
    if |s| % 4 == 0 then Decode(s[..|s| - Padding(s)]) else None
  }

  // ---------------------------------------------------------------------------------------------
  // The round trip
  // ---------------------------------------------------------------------------------------------

  lemma HighByteBack(b0: nat, b1: nat)
    requires b0 < 256 && b1 < 256
    ensures HighByte(Sextet0(b0), Sextet1(b0, b1)) == b0
  {
    assert (b0 % 4 * 16 + b1 / 16) / 16 == b0 % 4;
  }

  lemma MiddleByteBack(b0: nat, b1: nat, b2: nat)
    requires b0 < 256 && b1 < 256 && b2 < 256
    ensures MiddleByte(Sextet1(b0, b1), Sextet2(b1, b2)) == b1
  {
    assert (b0 % 4 * 16 + b1 / 16) % 16 == b1 / 16;
    assert (b1 % 16 * 4 + b2 / 64) / 4 == b1 % 16;
  }

  lemma LowByteBack(b1: nat, b2: nat)
    requires b1 < 256 && b2 < 256
    ensures LowByte(Sextet2(b1, b2), Sextet3(b2)) == b2
  {
    assert (b1 % 16 * 4 + b2 / 64) % 4 == b2 / 64;
  }

  lemma UnusedBits(b0: nat)
    requires b0 < 256
    ensures Sextet1(b0, 0) % 16 == 0 && Sextet2(b0, 0) % 4 == 0
  {
  }

  lemma UngroupGroup(b: string)
    requires 1 <= |b| <= 3 && IsBytes(b)
    ensures Ungroup(Group(b)) == Some(b)
  {
    var b0 := b[0] as int;
    if |b| == 1 {
      HighByteBack(b0, 0);
      UnusedBits(b0);
      assert b == [b[0]];
    } else if |b| == 2 {
      HighByteBack(b0, b[1] as int);
      MiddleByteBack(b0, b[1] as int, 0);
      UnusedBits(b[1] as int);
      assert b == [b[0], b[1]];
    } else {
      HighByteBack(b0, b[1] as int);
      MiddleByteBack(b0, b[1] as int, b[2] as int);
      LowByteBack(b[1] as int, b[2] as int);
      assert b == [b[0], b[1], b[2]];
    }
  }

  function EncodeSextets(b: string): seq<Sextet>
    requires IsBytes(b)
  {
    if b == [] then []
    else if |b| <= 3 then Group(b)
    else Group(b[..3]) + EncodeSextets(b[3..])
  }

  lemma {:induction false} EncodeIsChars(b: string)
    requires IsBytes(b)
    ensures Encode(b) == Chars(EncodeSextets(b))
    decreases |b|
  {
    if |b| > 3 {
      EncodeIsChars(b[3..]);
    }
  }

  lemma SextetsOfChars(g: seq<Sextet>)
    ensures AllInAlphabet(Chars(g)) && Sextets(Chars(g)) == g
  {
    forall i | 0 <= i < |g| ensures InAlphabet(Chars(g)[i]) && Index(Chars(g)[i]) == g[i] {
      CharIndex(g[i]);
    }
  }

  lemma {:induction false} DecodeSextetsEncode(b: string)
    requires IsBytes(b)
    ensures DecodeSextets(EncodeSextets(b)) == Some(b)
    decreases |b|
  {
    if b != [] {
      UngroupGroup(if |b| <= 3 then b else b[..3]);
      if |b| > 3 {
        DecodeSextetsEncode(b[3..]);
        var head, tail := Group(b[..3]), EncodeSextets(b[3..]);
        assert (head + tail)[..4] == head && (head + tail)[4..] == tail;
        assert |tail| > 0;
        assert b[..3] + b[3..] == b;
      }
    }
  }

  lemma DecodeEncode(b: string)
    requires IsBytes(b)
    ensures Decode(Encode(b)) == Some(b)
  {
    EncodeIsChars(b);
    SextetsOfChars(EncodeSextets(b));
    DecodeSextetsEncode(b);
  }

  // ---------------------------------------------------------------------------------------------
  // Where dashes can be
  // ---------------------------------------------------------------------------------------------

  lemma AsciiSextets(b0: nat, b1: nat, b2: nat)
    requires b0 < 128 && b1 < 128 && b2 < 128
    ensures Sextet0(b0) != 62 && Sextet1(b0, b1) != 62 && Sextet2(b1, b2) != 62
  {
    assert (b0 % 4 * 16 + b1 / 16) % 16 < 8;
    assert (b1 % 16 * 4 + b2 / 64) % 4 < 2;
  }

  lemma GroupDash(b: string, i: nat)
    requires 1 <= |b| <= 3 && IsAscii(b) && i < |b| + 1 && Group(b)[i] == 62
    ensures i == 3
  {
    var b1 := if |b| >= 2 then b[1] as int else 0;
    AsciiSextets(b[0] as int, b1, if |b| == 3 then b[2] as int else 0);
  }

  lemma SextetAt(b: string, i: nat)
    requires IsBytes(b) && |b| > 3 && i < |EncodeSextets(b)|
    ensures i < 4 ==> EncodeSextets(b)[i] == Group(b[..3])[i]
    ensures i >= 4 ==> i - 4 < |EncodeSextets(b[3..])| && EncodeSextets(b)[i] == EncodeSextets(b[3..])[i - 4]
  {
  }

  lemma {:induction false} SextetDash(b: string, i: nat)
    requires IsAscii(b) && i < |EncodeSextets(b)| && EncodeSextets(b)[i] == 62
    ensures i % 4 == 3
    decreases |b|
  {
    if |b| <= 3 {
      GroupDash(b, i);
    } else {
      SextetAt(b, i);
      if i < 4 {
        GroupDash(b[..3], i);
      } else {
        SextetDash(b[3..], i - 4);
      }
    }
  }

  lemma CharIsDash(n: Sextet)
    ensures Char(n) == '-' <==> n == 62
  {
  }

  /** In the encoding of ASCII bytes a dash stands only at an index that is 3 modulo 4. */
  lemma DashPositions(b: string, i: nat)
    requires IsAscii(b) && i < |Encode(b)| && Encode(b)[i] == '-'
    ensures i % 4 == 3
  {
    EncodeIsChars(b);
    CharIsDash(EncodeSextets(b)[i]);
    SextetDash(b, i);
  }

  lemma {:induction false} LastSextet(b: string)
    requires IsBytes(b) && b != [] && b[|b| - 1] == '}'
    ensures EncodeSextets(b) != []
    ensures EncodeSextets(b)[|EncodeSextets(b)| - 1] in {16, 52, 61}
    decreases |b|
  {
    if |b| > 3 {
      LastSextet(b[3..]);
    }
  }

  /** The encoding of bytes that end in a closing brace ends in `Q`, `0` or `9`. */
  lemma LastChar(b: string)
    requires IsBytes(b) && b != [] && b[|b| - 1] == '}'
    ensures Encode(b) != [] && Encode(b)[|Encode(b)| - 1] in {'Q', '0', '9'}
  {
    EncodeIsChars(b);
    LastSextet(b);
  }

  /** The encoding of bytes that begin with an opening brace begins with `e`. */
  lemma FirstChar(b: string)
    requires IsBytes(b) && b != [] && b[0] == '{'
    ensures Encode(b) != [] && Encode(b)[0] == 'e'
  {
    EncodeIsChars(b);
    assert EncodeSextets(b)[0] == 30;
  }

  lemma EncodeInAlphabet(b: string)
    requires IsBytes(b)
    ensures AllInAlphabet(Encode(b))
  {
    EncodeIsChars(b);
    SextetsOfChars(EncodeSextets(b));
  }
}
