/** The answer to a query for online peers: one bit for each id, from the most significant bit of the
    first byte on. */
module OnlineStates {

  type Byte = bv8

  datatype Result = Split(onlines: seq<string>, offlines: seq<string>) | TooShort(required: nat, got: nat)

  function RequiredLength(n: nat): nat {
    (n + 7) / 8
  }

  /** That many bytes have room for `n` bits, and no fewer have. */
  lemma RequiredIsEnough(n: nat, bytes: nat)
    ensures RequiredLength(n) <= bytes <==> n <= 8 * bytes
  {
  }

  function Mask(j: nat): Byte
    requires j < 8
  {
    (1 as Byte) << (7 - j)
  }

  predicate HasBit(byte: Byte, j: nat)
    requires j < 8
  {
    byte & Mask(j) == Mask(j)
  }

  predicate IsOnline(states: seq<Byte>, i: nat)
    requires i < 8 * |states|
  {
    HasBit(states[i / 8], i % 8)
  }

  function Pow2(n: nat): (p: nat)
    ensures p > 0
  {
    if n == 0 then 1 else 2 * Pow2(n - 1)
  }

  lemma Bit0(byte: Byte)
    ensures HasBit(byte, 0) <==> byte as int / 128 % 2 == 1
  {
  }

  lemma Bit1(byte: Byte)
    ensures HasBit(byte, 1) <==> byte as int / 64 % 2 == 1
  {
  }

  lemma Bit2(byte: Byte)
    ensures HasBit(byte, 2) <==> byte as int / 32 % 2 == 1
  {
  }

  lemma Bit3(byte: Byte)
    ensures HasBit(byte, 3) <==> byte as int / 16 % 2 == 1
  {
  }

  lemma Bit4(byte: Byte)
    ensures HasBit(byte, 4) <==> byte as int / 8 % 2 == 1
  {
  }

  lemma Bit5(byte: Byte)
    ensures HasBit(byte, 5) <==> byte as int / 4 % 2 == 1
  {
  }

  lemma Bit6(byte: Byte)
    ensures HasBit(byte, 6) <==> byte as int / 2 % 2 == 1
  {
  }

  lemma Bit7(byte: Byte)
    ensures HasBit(byte, 7) <==> byte as int / 1 % 2 == 1
  {
  }

  lemma Powers()
    ensures Pow2(0) == 1 && Pow2(1) == 2 && Pow2(2) == 4 && Pow2(3) == 8
    ensures Pow2(4) == 16 && Pow2(5) == 32 && Pow2(6) == 64 && Pow2(7) == 128
  {
    assert Pow2(3) == 8;
    assert Pow2(5) == 32;
  }

  lemma BitIsDigit(byte: Byte, j: nat)
    requires j < 8
    ensures HasBit(byte, j) <==> byte as int / Pow2(7 - j) % 2 == 1
  {
    Powers();
    match j {
      case 0 => Bit0(byte);
      case 1 => Bit1(byte);
      case 2 => Bit2(byte);
      case 3 => Bit3(byte);
      case 4 => Bit4(byte);
      case 5 => Bit5(byte);
      case 6 => Bit6(byte);
      case 7 => Bit7(byte);
    }
  }

  /** Position `i` is online exactly if its byte, as a binary number, has a 1 as its digit `i % 8` from the
      most significant on. */
  lemma OnlineIsDigit(states: seq<Byte>, i: nat)
    requires i < 8 * |states|
    ensures IsOnline(states, i) <==> states[i / 8] as int / Pow2(7 - i % 8) % 2 == 1
  {
    BitIsDigit(states[i / 8], i % 8);
  }

  /** The first `n` bits. */
  function Flags(states: seq<Byte>, n: nat): (flags: seq<bool>)
    requires n <= 8 * |states|
    ensures |flags| == n && forall i | 0 <= i < n :: flags[i] == IsOnline(states, i)
  {
    seq(n, i requires 0 <= i < n => IsOnline(states, i))
  }

  // ---------------------------------------------------------------------------------------------
  // Splitting
  // ---------------------------------------------------------------------------------------------

  /** The positions, in ascending order, that are flagged as wanted. */
  function Positions(flags: seq<bool>, online: bool): (r: seq<nat>)
    ensures Within(r, |flags|) && Ascending(r)
  {
    if flags == [] then []
    else
      var n := |flags| - 1;
      Positions(flags[..n], online) + (if flags[n] == online then [n] else [])
  }

  predicate Within(positions: seq<nat>, n: nat) {
    forall k | 0 <= k < |positions| :: positions[k] < n
  }

  predicate Ascending(positions: seq<nat>) {
    forall j, k | 0 <= j < k < |positions| :: positions[j] < positions[k]
  }

  /** Exactly the positions that are flagged as wanted are there. */
  lemma {:induction false} PositionsExact(flags: seq<bool>, online: bool, i: nat)
    ensures i in Positions(flags, online) <==> i < |flags| && flags[i] == online
    decreases |flags|
  {
    if flags != [] {
      PositionsExact(flags[..|flags| - 1], online, i);
    }
  }

  lemma {:induction false} PositionsCount(flags: seq<bool>)
    ensures |Positions(flags, true)| + |Positions(flags, false)| == |flags|
    decreases |flags|
  {
    if flags != [] {
      PositionsCount(flags[..|flags| - 1]);
    }
  }

  function At(ids: seq<string>, positions: seq<nat>): (r: seq<string>)
    requires Within(positions, |ids|)
    ensures |r| == |positions| && forall k | 0 <= k < |r| :: r[k] == ids[positions[k]]
  {
    seq(|positions|, k requires 0 <= k < |positions| => ids[positions[k]])
  }

  /** The ids that are flagged as wanted. */
  function Chosen(ids: seq<string>, flags: seq<bool>, online: bool): seq<string>
    requires |flags| <= |ids|
  {
    At(ids, Positions(flags, online))
  }

  lemma ChosenMore(ids: seq<string>, flags: seq<bool>, flag: bool, online: bool)
    requires |flags| < |ids|
    ensures Chosen(ids, flags + [flag], online)
         == Chosen(ids, flags, online) + if flag == online then [ids[|flags|]] else []
  {
    assert (flags + [flag])[..|flags|] == flags;
  }

  /** The two parts take each position once and keep the order, so together they are all the ids. */
  lemma ChosenPartition(ids: seq<string>, flags: seq<bool>, i: nat)
    requires |flags| == |ids| && i < |ids|
    ensures |Chosen(ids, flags, true)| + |Chosen(ids, flags, false)| == |ids|
    ensures i in Positions(flags, true) <==> i !in Positions(flags, false)
    ensures ids[i] in Chosen(ids, flags, flags[i])
  {
    PositionsCount(flags);
    PositionsExact(flags, true, i);
    PositionsExact(flags, false, i);
    var positions := Positions(flags, flags[i]);
    var k :| 0 <= k < |positions| && positions[k] == i;
    assert Chosen(ids, flags, flags[i])[k] == ids[i];
  }

  // ---------------------------------------------------------------------------------------------
  // Decoding
  // ---------------------------------------------------------------------------------------------

  lemma FlagsMore(states: seq<Byte>, n: nat)
    requires n < 8 * |states|
    ensures Flags(states, n + 1) == Flags(states, n) + [IsOnline(states, n)]
  {
  }

  /** A response too short for the ids is an error; any other splits them by their bits. */
  method Decode(ids: seq<string>, states: seq<Byte>) returns (r: Result)
    ensures r.TooShort? <==> 8 * |states| < |ids|
    ensures r.TooShort? ==> r.required == RequiredLength(|ids|) && r.got == |states|
    ensures r.Split? ==> r.onlines == Chosen(ids, Flags(states, |ids|), true)
    ensures r.Split? ==> r.offlines == Chosen(ids, Flags(states, |ids|), false)
  {
    RequiredIsEnough(|ids|, |states|);
    if |states| < RequiredLength(|ids|) {
      return TooShort(RequiredLength(|ids|), |states|);
    }
    var onlines, offlines: seq<string> := [], [];
    for i := 0 to |ids|
      invariant onlines == Chosen(ids, Flags(states, i), true)
      invariant offlines == Chosen(ids, Flags(states, i), false)
    {
      FlagsMore(states, i);
      ChosenMore(ids, Flags(states, i), IsOnline(states, i), true);
      ChosenMore(ids, Flags(states, i), IsOnline(states, i), false);
      if IsOnline(states, i) {
        onlines := onlines + [ids[i]];
      } else {
        offlines := offlines + [ids[i]];
      }
    }
    r := Split(onlines, offlines);
  }

  // ---------------------------------------------------------------------------------------------
  // The round trip
  // ---------------------------------------------------------------------------------------------

  /** Up to eight flags, from the most significant bit on; missing flags are zero. */
  function Pack(flags: seq<bool>, j: nat): Byte
    requires j <= 8
    decreases 8 - j
  {
    if j == 8 || j >= |flags| then 0
    else (if flags[j] then Mask(j) else 0) | Pack(flags, j + 1)
  }

  /** The flags that share byte `q`. */
  function Octet(flags: seq<bool>, q: nat): seq<bool> {
    if |flags| <= 8 * q then [] else if |flags| <= 8 * q + 8 then flags[8 * q..] else flags[8 * q..8 * q + 8]
  }

  /** A bitmap of flags, from the most significant bit of the first byte on. */
  function Bitmap(flags: seq<bool>): (b: seq<Byte>)
    ensures |b| == RequiredLength(|flags|)
    ensures forall q | 0 <= q < |b| :: b[q] == Pack(Octet(flags, q), 0)
  {
    seq(RequiredLength(|flags|), q requires 0 <= q < RequiredLength(|flags|) => Pack(Octet(flags, q), 0))
  }

  lemma MasksDiffer(j: nat, k: nat)
    requires j < 8 && k < 8
    ensures Mask(j) != 0 && (j != k ==> Mask(j) & Mask(k) == 0)
  {
  }

  lemma AndOr(a: Byte, b: Byte, m: Byte)
    ensures (a | b) & m == (a & m) | (b & m)
  {
  }

  lemma Bitwise(x: Byte, m: Byte)
    ensures 0 & m == 0 && 0 | x == x && x | 0 == x && m & m == m
  {
  }

  /** The bits of a packed byte, one by one. */
  lemma {:induction false} PackBit(flags: seq<bool>, j: nat, k: nat)
    requires j <= 8 && k < 8
    ensures Pack(flags, j) & Mask(k) == if j <= k < |flags| && flags[k] then Mask(k) else 0
    decreases 8 - j
  {
    Bitwise(Pack(flags, j) & Mask(k), Mask(k));
    if j < 8 && j < |flags| {
      var bit, rest := if flags[j] then Mask(j) else 0, Pack(flags, j + 1);
      AndOr(bit, rest, Mask(k));
      PackBit(flags, j + 1, k);
      MasksDiffer(j, k);
      Bitwise(rest & Mask(k), Mask(k));
      Bitwise(bit & Mask(k), Mask(k));
    }
  }

  lemma PackHas(flags: seq<bool>, k: nat)
    requires k < 8 && k < |flags|
    ensures HasBit(Pack(flags, 0), k) <==> flags[k]
  {
    PackBit(flags, 0, k);
    MasksDiffer(k, k);
  }

  lemma OctetFlag(flags: seq<bool>, q: nat, r: nat)
    requires r < 8 && 8 * q + r < |flags|
    ensures r < |Octet(flags, q)| && Octet(flags, q)[r] == flags[8 * q + r]
  {
  }

  lemma RequiredCovers(n: nat, q: nat, r: nat)
    requires 8 * q + r < n
    ensures q < RequiredLength(n)
  {
  }

  /** Every bit of a bitmap is its flag. */
  lemma BitmapBit(flags: seq<bool>, q: nat, r: nat)
    requires r < 8 && 8 * q + r < |flags|
    ensures q < |Bitmap(flags)| && (HasBit(Bitmap(flags)[q], r) <==> flags[8 * q + r])
  {
    RequiredCovers(|flags|, q, r);
    OctetFlag(flags, q, r);
    PackHas(Octet(flags, q), r);
  }

  lemma PaddedBit(flags: seq<bool>, extra: seq<Byte>, i: nat)
    requires i < |flags|
    ensures i < 8 * |Bitmap(flags) + extra| && (IsOnline(Bitmap(flags) + extra, i) <==> flags[i])
  {
    BitmapBit(flags, i / 8, i % 8);
    assert (Bitmap(flags) + extra)[i / 8] == Bitmap(flags)[i / 8];
  }

  /** Reading a bitmap of any flags, with anything after it, gives those flags: decoding it returns
      exactly the online set it was made from. */
  lemma BitmapRoundTrip(flags: seq<bool>, extra: seq<Byte>)
    ensures |flags| <= 8 * |Bitmap(flags) + extra| && Flags(Bitmap(flags) + extra, |flags|) == flags
  {
    RequiredIsEnough(|flags|, |Bitmap(flags)|);
    var states := Bitmap(flags) + extra;
    forall i | 0 <= i < |flags| ensures i < 8 * |states| && IsOnline(states, i) == flags[i] {
      PaddedBit(flags, extra, i);
    }
  }
}
