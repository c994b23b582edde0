/** The Gorilla chunk code (sections 4.1.1 and 4.1.2 of the Gorilla paper, VLDB 2015):
    what one sample is encoded as, what a decoder makes of a bit list, and why they agree.

    A timestamp is a signed 64-bit word with wrapping arithmetic and a value is the 64-bit
    pattern of the floating point number. */
module XorCode {
  import opened Words
  import opened Wrappers
  import opened Varint
  import opened Bstream
  import opened BitReading

  datatype Sample = Sample(t: i64, v: u64)

  /** Running state of an encoder or decoder: the last sample, the last time difference and
      the window of significant value bits. */
  datatype Codec = Codec(t: i64, v: u64, tDelta: u64, leading: nat, trailing: nat)

  /** The leading count of an encoder that has not sent a window. */
  const NO_WINDOW := 0xFF

  const ENC_INIT := Codec(-0x8000_0000_0000_0000, 0, 0, NO_WINDOW, 0)
  const DEC_INIT := Codec(0, 0, 0, 0, 0)

  // ---- Counting zeros --------------------------------------------------------

  function BitLength(x: nat): (n: nat)
    ensures x < Pow2(n)
    ensures n > 0 ==> x >= Pow2(n - 1)
  {
    if x == 0 then 0 else 1 + BitLength(x / 2)
  }

  lemma {:induction false} BitLengthBound(x: nat, n: nat)
    requires x < Pow2(n)
    ensures BitLength(x) <= n
  {
    if x > 0 {
      BitLengthBound(x / 2, n - 1);
    }
  }

  /** `std::countl_zero` on 64 bits. */
  function CountlZero(x: u64): (n: nat)
    ensures n <= 64
  {
    Pow2Values();
    BitLengthBound(x, 64);
    64 - BitLength(x)
  }

  /** `std::countr_zero` of a word that is not zero. */
  function CountrZero(x: nat): (n: nat)
    requires x > 0
    ensures Low(x, n) == 0 && Shr(x, n) % 2 == 1
  {
    if x % 2 == 1 then 0 else 1 + CountrZero(x / 2)
  }

  lemma {:induction false} CountsDisjoint(x: nat)
    requires x > 0
    ensures CountrZero(x) < BitLength(x)
  {
    if x % 2 == 0 {
      CountsDisjoint(x / 2);
    }
  }

  // ---- Values ----------------------------------------------------------------

  /** A window that leaves at least one significant bit. */
  predicate Window(leading: nat, trailing: nat) {
    leading <= 31 && leading + trailing <= 63
  }

  predicate EncoderWindow(leading: nat, trailing: nat) {
    leading == NO_WINDOW || Window(leading, trailing)
  }

  /** The window a changed value asks for. */
  function FreshLeading(delta: u64): nat {
    if CountlZero(delta) >= 32 then 31 else CountlZero(delta)
  }

  predicate Reuses(delta: u64, leading: nat, trailing: nat)
    requires delta != 0
  {
    leading != NO_WINDOW && FreshLeading(delta) >= leading && CountrZero(delta) >= trailing
  }

  function DeltaOf(v: u64, prev: u64): (d: u64) {
    Pow2Values();
    XorBound(v, prev, 64);
    Xor(v, prev)
  }

  function EncValue(delta: u64, leading: nat, trailing: nat): Bits
    requires EncoderWindow(leading, trailing)
  {
    if delta == 0 then [false]
    else if Reuses(delta, leading, trailing) then
      [true, false] + ToBits(Shr(delta, trailing), 64 - leading - trailing)
    else FreshBits(delta)
  }

  /** A new window: five bits of leading count, six bits of significant count, which wrap to 0
      for 64, and the significant bits. */
  function FreshBits(delta: u64): Bits
    requires delta != 0
  {
    var l, t := FreshLeading(delta), CountrZero(delta);
    FreshWindow(delta);
    [true, true] + ToBits(l, 5) + ToBits(64 - l - t, 6) + ToBits(Shr(delta, t), 64 - l - t)
  }

  function NextLeading(delta: u64, leading: nat, trailing: nat): nat {
    if delta == 0 || Reuses(delta, leading, trailing) then leading else FreshLeading(delta)
  }

  function NextTrailing(delta: u64, leading: nat, trailing: nat): nat {
    if delta == 0 || Reuses(delta, leading, trailing) then trailing else CountrZero(delta)
  }

  /** Any changed value gives a usable window, and all its set bits lie inside. */
  lemma FreshWindow(delta: u64)
    requires delta != 0
    ensures Window(FreshLeading(delta), CountrZero(delta))
    ensures delta < Pow2(64 - FreshLeading(delta))
  {
    CountsDisjoint(delta);
    Pow2Mono(BitLength(delta), 64 - FreshLeading(delta));
  }

  lemma NextWindow(delta: u64, leading: nat, trailing: nat)
    requires EncoderWindow(leading, trailing)
    ensures EncoderWindow(NextLeading(delta, leading, trailing), NextTrailing(delta, leading, trailing))
  {
    if delta != 0 {
      FreshWindow(delta);
    }
  }

  /** What a value read yields: value, window, bits left. None when the bits run out or the
      window is not one, where the source's behaviour is undefined or an error. */
  function DecValue(v: u64, leading: nat, trailing: nat, bits: Bits): (r: Option<(u64, nat, nat, Bits)>)
    requires Window(leading, trailing)
    ensures r.Some? ==> Window(r.value.1, r.value.2)
  {
    if |bits| < 1 then None
    else if !bits[0] then Some((v, leading, trailing, bits[1..]))
    else if |bits| < 2 then None
    else if !bits[1] then DecDelta(v, leading, trailing, bits[2..])
    else if |bits| < 13 then None
    else
      var lz, sb := FromBits(bits[2..7]), FromBits(bits[7..13]);
      FromBitsBound(bits[2..7]);
      assert Pow2(5) == 32;
      var m := if sb == 0 then 64 else sb;
      if lz + m > 64 then None else DecDelta(v, lz, 64 - lz - m, bits[13..])
  }

  function DecDelta(v: u64, leading: nat, trailing: nat, bits: Bits): (r: Option<(u64, nat, nat, Bits)>)
    requires leading <= 31 && leading + trailing <= 63
    ensures r.Some? ==> r.value.1 == leading && r.value.2 == trailing
  {
    var m := 64 - leading - trailing;
    if |bits| < m then None
    else
      Pow2Values();
      XorBound(v, Shl(FromBits(bits[..m]), trailing, 64), 64);
      Some((Xor(v, Shl(FromBits(bits[..m]), trailing, 64)), leading, trailing, bits[m..]))
  }

  /** The significant bits of a difference restore the value. */
  lemma DeltaRestores(v: u64, prev: u64, leading: nat, trailing: nat, tail: Bits)
    requires leading <= 31 && leading + trailing <= 63
    requires Low(DeltaOf(v, prev), trailing) == 0 && DeltaOf(v, prev) < Pow2(64 - leading)
    ensures DecDelta(prev, leading, trailing, ToBits(Shr(DeltaOf(v, prev), trailing), 64 - leading - trailing) + tail)
         == Some((v, leading, trailing, tail))
  {
    var delta := DeltaOf(v, prev);
    Pow2Values();
    hide ToBits, FromBits, Shr, Low, Scale, Xor, Pow2;
    var m := 64 - leading - trailing;
    var sig := Shr(delta, trailing);
    assert m + trailing == 64 - leading;
    ShrBits(delta, m, trailing);
    FromToBits(sig, m);
    LowSmall(sig, m);
    var bits := ToBits(sig, m) + tail;
    assert bits[..m] == ToBits(sig, m) && bits[m..] == tail;
    SplitAt(delta, trailing);
    LowSmall(delta, 64);
    XorComm(v, prev);
    XorCancel(prev, v);
    ShlIs(sig, trailing);
  }

  lemma {:induction false} LowPart(x: nat, j: nat, k: nat)
    requires j <= k && Low(x, k) == 0
    ensures Low(x, j) == 0
  {
    if j > 0 {
      LowPart(x / 2, j - 1, k - 1);
    }
  }

  /** A window whose counts do not exceed the difference's own holds all its set bits. */
  lemma ReuseFits(delta: u64, leading: nat, trailing: nat)
    requires delta != 0 && Window(leading, trailing) && Reuses(delta, leading, trailing)
    ensures Low(delta, trailing) == 0 && delta < Pow2(64 - leading)
  {
    LowPart(delta, trailing, CountrZero(delta));
    FreshWindow(delta);
    Pow2Mono(64 - FreshLeading(delta), 64 - leading);
  }

  lemma FieldValues(l: nat, sig: nat)
    requires l < 32 && 0 < sig <= 64
    ensures FromBits(ToBits(l, 5)) == l
    ensures FromBits(ToBits(sig, 6)) == if sig == 64 then 0 else sig
  {
    assert Pow2(5) == 32 && Pow2(6) == 64;
    assert Low(64, 6) == 0;
    hide *;
    FromToBits(l, 5);
    LowSmall(l, 5);
    FromToBits(sig, 6);
    if sig < 64 {
      LowSmall(sig, 6);
    }
  }

  /** Decoding a fresh window field by field. */
  lemma DecFresh(prev: u64, leading: nat, trailing: nat, lb: Bits, sb: Bits, payload: Bits, l: nat, sig: nat)
    requires Window(leading, trailing) && |lb| == 5 && |sb| == 6
    requires FromBits(lb) == l && FromBits(sb) == (if sig == 64 then 0 else sig)
    requires 0 < sig && l + sig <= 64 && l <= 31
    ensures DecValue(prev, leading, trailing, [true, true] + lb + sb + payload)
         == DecDelta(prev, l, 64 - l - sig, payload)
  {
    hide FromBits, DecDelta;
    var bits := [true, true] + lb + sb + payload;
    assert bits[2..7] == lb;
    assert bits[7..13] == sb;
    assert bits[13..] == payload;
  }

  /** The window a decoder works with when its encoder holds (`leading`, `trailing`). */
  function Shown(leading: nat, trailing: nat): (nat, nat) {
    if leading == NO_WINDOW then (0, 0) else (leading, trailing)
  }

  /** One value round trip, windows included. */
  lemma ValueRoundTrip(v: u64, prev: u64, leading: nat, trailing: nat, tail: Bits)
    requires EncoderWindow(leading, trailing)
    ensures var d := DeltaOf(v, prev);
      var w, w' := Shown(leading, trailing), Shown(NextLeading(d, leading, trailing), NextTrailing(d, leading, trailing));
      DecValue(prev, w.0, w.1, EncValue(d, leading, trailing) + tail) == Some((v, w'.0, w'.1, tail))
  {
    var d := DeltaOf(v, prev);
    hide ToBits, FromBits, Shr, Low, Xor, Pow2, DecDelta, BitLength, CountrZero, CountlZero;
    if d == 0 {
      XorEqualsZero(v, prev);
      assert ([false] + tail)[1..] == tail;
    } else if Reuses(d, leading, trailing) {
      ReuseFits(d, leading, trailing);
      DeltaRestores(v, prev, leading, trailing, tail);
      var payload := ToBits(Shr(d, trailing), 64 - leading - trailing);
      assert ([true, false] + payload + tail)[2..] == payload + tail;
    } else {
      FreshRoundTrip(v, prev, leading, trailing, tail);
    }
  }

  lemma FreshRoundTrip(v: u64, prev: u64, leading: nat, trailing: nat, tail: Bits)
    requires EncoderWindow(leading, trailing)
    requires DeltaOf(v, prev) != 0 && !Reuses(DeltaOf(v, prev), leading, trailing)
    ensures var d := DeltaOf(v, prev);
      var w := Shown(leading, trailing);
      DecValue(prev, w.0, w.1, EncValue(d, leading, trailing) + tail) == Some((v, FreshLeading(d), CountrZero(d), tail))
  {
    var d := DeltaOf(v, prev);
    var l, t := FreshLeading(d), CountrZero(d);
    hide *;
    FreshParts(d, leading, trailing);
    FreshShape(d);
    FieldValues(l, 64 - l - t);
    DeltaRestores(v, prev, l, t, tail);
    var w := Shown(leading, trailing);
    FreshThenDelta(prev, w.0, w.1, ToBits(l, 5), ToBits(64 - l - t, 6), ToBits(Shr(d, t), 64 - l - t), l, t, v, tail);
  }

  lemma FreshShape(d: u64)
    requires d != 0 && FreshLeading(d) + CountrZero(d) <= 63
    ensures FreshBits(d) == [true, true] + ToBits(FreshLeading(d), 5) + ToBits(64 - FreshLeading(d) - CountrZero(d), 6)
      + ToBits(Shr(d, CountrZero(d)), 64 - FreshLeading(d) - CountrZero(d))
  {
    hide ToBits, Shr, CountlZero, CountrZero, FreshLeading;
  }

  lemma FreshThenDelta(prev: u64, leading: nat, trailing: nat, lb: Bits, sb: Bits, payload: Bits, l: nat, t: nat,
                       v: u64, tail: Bits)
    requires Window(leading, trailing) && |lb| == 5 && |sb| == 6 && l <= 31 && l + t <= 63
    requires FromBits(lb) == l && FromBits(sb) == (if 64 - l - t == 64 then 0 else 64 - l - t)
    requires DecDelta(prev, l, t, payload + tail) == Some((v, l, t, tail))
    ensures DecValue(prev, leading, trailing, ([true, true] + lb + sb + payload) + tail) == Some((v, l, t, tail))
  {
    hide *;
    DecFresh(prev, leading, trailing, lb, sb, payload + tail, l, 64 - l - t);
    ConcatAssoc([true, true] + lb + sb, payload, tail);
  }

  lemma FreshParts(delta: u64, leading: nat, trailing: nat)
    requires EncoderWindow(leading, trailing) && delta != 0 && !Reuses(delta, leading, trailing)
    ensures FreshLeading(delta) <= 31 && FreshLeading(delta) + CountrZero(delta) <= 63
    ensures delta < Pow2(64 - FreshLeading(delta)) && Low(delta, CountrZero(delta)) == 0
    ensures Window(Shown(leading, trailing).0, Shown(leading, trailing).1)
    ensures EncValue(delta, leading, trailing) == FreshBits(delta)
  {
    hide ToBits, Shr, CountlZero, CountrZero, FreshLeading, FreshBits, Pow2, Low;
    FreshWindow(delta);
  }

  // ---- Delta of deltas -------------------------------------------------------

  /** The asymmetric range test: one more value above zero than below. */
  predicate BitRange(x: i64, n: nat)
    requires n > 0
  {
    -(Pow2(n - 1) - 1) <= x <= Pow2(n - 1)
  }

  function EncDod(dod: i64): Bits {
    var u := ToU64(dod);
    if dod == 0 then [false]
    else if BitRange(dod, 14) then [true, false] + ToBits(u, 14)
    else if BitRange(dod, 17) then [true, true, false] + ToBits(u, 17)
    else if BitRange(dod, 20) then [true, true, true, false] + ToBits(u, 20)
    else [true, true, true, true] + ToBits(u, 64)
  }

  function SignExtend(bits: nat, width: nat): int
    requires width > 0
  {
    if bits > Pow2(width - 1) then bits - Pow2(width) else bits
  }

  function DecDod(bits: Bits): Option<(i64, Bits)> {
    if |bits| < 1 then None
    else if !bits[0] then Some((0, bits[1..]))
    else if |bits| < 2 then None
    else if !bits[1] then DecFolded(14, bits[2..])
    else if |bits| < 3 then None
    else if !bits[2] then DecFolded(17, bits[3..])
    else if |bits| < 4 then None
    else if !bits[3] then DecFolded(20, bits[4..])
    else if |bits| < 68 then None
    else Some((ToI64(FromBits(bits[4..68])), bits[68..]))
  }

  function DecFolded(width: nat, bits: Bits): Option<(i64, Bits)>
    requires 0 < width <= 20
  {
    if |bits| < width then None
    else
      FromBitsBound(bits[..width]);
      FoldFits(FromBits(bits[..width]), width);
      Some((SignExtend(FromBits(bits[..width]), width), bits[width..]))
  }

  lemma FoldFits(bits: nat, width: nat)
    requires 0 < width <= 20 && bits < Pow2(width)
    ensures -0x10_0000 <= SignExtend(bits, width) <= 0x10_0000
  {
    Pow2Mono(width, 20);
    Pow2Values();
  }

  /** The range test is exactly what the fold preserves. */
  lemma FoldRestores(x: i64, width: nat)
    requires 0 < width <= 20
    ensures SignExtend(Low(ToU64(x), width), width) == x <==> BitRange(x, width)
  {
    var h := Pow2(width - 1);
    assert Pow2(width) == 2 * h;
    Pow2Values();
    hide Low, Pow2;
    LowMod(ToU64(x), width);
    Pow2Add(64 - width, width);
    var j := Quotient(x, 2 * h, Pow2(64 - width));
    FoldCases(x, h, j, ToU64(x) % (2 * h));
  }

  lemma Quotient(x: i64, p: nat, k: nat) returns (j: int)
    requires p > 0 && k * p == TWO64
    ensures x == j * p + ToU64(x) % p && 0 <= ToU64(x) % p < p
  {
    var u := ToU64(x);
    var q, m := u / p, u % p;
    assert u == q * p + m;
    if u == x {
      j := q;
    } else {
      j := q - k;
      assert (q - k) * p == q * p - k * p;
    }
  }

  lemma FoldCases(x: int, h: nat, j: int, m: nat)
    requires h > 0 && m < 2 * h && x == j * (2 * h) + m
    ensures (if m > h then m - 2 * h else m) == x <==> -(h - 1) <= x <= h
  {
    if j >= 1 {
      MulAtLeast(j, 2 * h);
    } else if j <= -2 {
      MulAtLeast(-j - 1, 2 * h);
      assert (-j - 1) * (2 * h) == -(j * (2 * h)) - 2 * h;
    } else {
      assert j == 0 || j == -1;
    }
  }

  lemma FoldedRoundTrip(x: i64, width: nat, tail: Bits)
    requires 0 < width <= 20 && BitRange(x, width)
    ensures DecFolded(width, ToBits(ToU64(x), width) + tail) == Some((x, tail))
  {
    FoldRestores(x, width);
    hide ToBits, FromBits, Low, BitRange, SignExtend, Pow2;
    FromToBits(ToU64(x), width);
    var bits := ToBits(ToU64(x), width) + tail;
    assert bits[..width] == ToBits(ToU64(x), width) && bits[width..] == tail;
  }

  lemma RawRoundTrip(x: i64, tail: Bits)
    ensures DecDod([true, true, true, true] + ToBits(ToU64(x), 64) + tail) == Some((x, tail))
  {
    Pow2Values();
    hide ToBits, FromBits, Low, Pow2, DecFolded;
    FromToBits(ToU64(x), 64);
    LowSmall(ToU64(x), 64);
    I64Cast(x);
    var bits := [true, true, true, true] + ToBits(ToU64(x), 64) + tail;
    assert bits[4..68] == ToBits(ToU64(x), 64) && bits[68..] == tail;
  }

  lemma PrefixedFold(prefix: Bits, payload: Bits, tail: Bits, width: nat)
    requires (prefix == [true, false] && width == 14) || (prefix == [true, true, false] && width == 17)
      || (prefix == [true, true, true, false] && width == 20)
    ensures DecDod(prefix + payload + tail) == DecFolded(width, payload + tail)
  {
    hide DecFolded;
    var bits := prefix + payload + tail;
    assert bits[|prefix|..] == payload + tail;
  }

  /** Every difference of differences survives the prefix code. */
  lemma DodRoundTrip(dod: i64, tail: Bits)
    ensures DecDod(EncDod(dod) + tail) == Some((dod, tail))
  {
    hide ToBits, FromBits, DecFolded, BitRange;
    var u := ToU64(dod);
    if dod == 0 {
      assert ([false] + tail)[1..] == tail;
    } else if BitRange(dod, 14) {
      PrefixedFold([true, false], ToBits(u, 14), tail, 14);
      FoldedRoundTrip(dod, 14, tail);
    } else if BitRange(dod, 17) {
      PrefixedFold([true, true, false], ToBits(u, 17), tail, 17);
      FoldedRoundTrip(dod, 17, tail);
    } else if BitRange(dod, 20) {
      PrefixedFold([true, true, true, false], ToBits(u, 20), tail, 20);
      FoldedRoundTrip(dod, 20, tail);
    } else {
      RawRoundTrip(dod, tail);
    }
  }

  // ---- How long the codes are ------------------------------------------------

  /** One bit for a steady step; the nearer to it, the shorter, the mark in front telling how many
      bits follow. */
  lemma DodLength(dod: i64)
    ensures var e := EncDod(dod);
      if dod == 0 then e == [false]
      else if -8191 <= dod <= 8192 then |e| == 16 && e[..2] == [true, false]
      else if -65535 <= dod <= 65536 then |e| == 20 && e[..3] == [true, true, false]
      else if -524287 <= dod <= 524288 then |e| == 24 && e[..4] == [true, true, true, false]
      else |e| == 68 && e[..4] == [true, true, true, true]
  {
    hide ToBits;
    Pow2Values();
    assert Pow2(19) == 524288;
  }

  /** All set bits of the word lie between the skipped ones. */
  predicate LiesIn(delta: u64, leading: nat, trailing: nat)
    requires leading <= 64
  {
    delta < Pow2(64 - leading) && delta % Pow2(trailing) == 0
  }

  /** The narrowest such place, skipping no more than 31 leading bits. */
  predicate Narrowest(delta: u64, leading: nat, trailing: nat) {
    && Window(leading, trailing) && LiesIn(delta, leading, trailing)
    && (leading < 31 ==> !LiesIn(delta, leading + 1, trailing)) && !LiesIn(delta, leading, trailing + 1)
  }

  lemma {:induction false} OddPart(x: nat, n: nat)
    requires Low(x, n) == 0 && Shr(x, n) % 2 == 1
    ensures Low(x, n + 1) != 0
  {
    if n > 0 {
      OddPart(x / 2, n - 1);
    }
  }

  lemma LeadingTight(delta: u64)
    requires delta != 0
    ensures FreshLeading(delta) < 31 ==> delta >= Pow2(64 - (FreshLeading(delta) + 1))
  {
    hide Pow2;
    var n := BitLength(delta);
    if FreshLeading(delta) < 31 {
      assert FreshLeading(delta) == 64 - n && delta >= Pow2(n - 1);
    }
  }

  lemma TrailingTight(delta: u64)
    requires delta != 0
    ensures delta % Pow2(CountrZero(delta)) == 0 && delta % Pow2(CountrZero(delta) + 1) != 0
  {
    hide Pow2, Low;
    var t := CountrZero(delta);
    OddPart(delta, t);
    LowMod(delta, t);
    LowMod(delta, t + 1);
  }

  lemma FreshIsNarrowest(delta: u64)
    requires delta != 0
    ensures Narrowest(delta, FreshLeading(delta), CountrZero(delta))
  {
    hide Pow2, FreshLeading, CountrZero;
    FreshWindow(delta);
    LeadingTight(delta);
    TrailingTight(delta);
  }

  /** An unchanged value takes one bit. A change that fits the window of the last one costs two bits
      more than the window; any other change costs thirteen more than the narrowest place of its
      set bits. */
  lemma ValueLength(delta: u64, leading: nat, trailing: nat)
    requires EncoderWindow(leading, trailing)
    ensures var e := EncValue(delta, leading, trailing);
      if delta == 0 then e == [false]
      else if leading != NO_WINDOW && LiesIn(delta, leading, trailing) then |e| == 2 + (64 - leading - trailing) && e[..2] == [true, false]
      else |e| >= 13 && e[..2] == [true, true] && exists l: nat, t: nat :: Narrowest(delta, l, t) && |e| == 13 + (64 - l - t)
  {
    hide ToBits, Shr, CountlZero, CountrZero, Narrowest, Pow2;
    if delta != 0 {
      FreshIsNarrowest(delta);
      if leading != NO_WINDOW {
        ReusesIff(delta, leading, trailing);
      }
      if !(leading != NO_WINDOW && Reuses(delta, leading, trailing)) {
        FreshParts(delta, leading, trailing);
        FreshShape(delta);
      }
    }
  }

  /** The counts of a word cover a window exactly when all its set bits lie in it. */
  lemma ReusesIff(delta: u64, leading: nat, trailing: nat)
    requires delta != 0 && Window(leading, trailing)
    ensures Reuses(delta, leading, trailing) <==> LiesIn(delta, leading, trailing)
  {
    hide Pow2, FreshLeading, CountrZero, Low;
    if Reuses(delta, leading, trailing) {
      ReuseFits(delta, leading, trailing);
      LowMod(delta, trailing);
    }
    if LiesIn(delta, leading, trailing) {
      LeadingCovers(delta, leading);
      TrailingCovers(delta, trailing);
    }
  }

  lemma LeadingCovers(delta: u64, leading: nat)
    requires delta != 0 && leading <= 31 && delta < Pow2(64 - leading)
    ensures FreshLeading(delta) >= leading
  {
    hide Pow2, FreshLeading;
    LeadingTight(delta);
    var l := FreshLeading(delta);
    if l < leading {
      Pow2Mono(64 - leading, 64 - (l + 1));
    }
  }

  lemma TrailingCovers(delta: u64, trailing: nat)
    requires delta != 0 && delta % Pow2(trailing) == 0
    ensures CountrZero(delta) >= trailing
  {
    hide Pow2, CountrZero, Low;
    TrailingTight(delta);
    var t := CountrZero(delta);
    if t < trailing {
      LowMod(delta, t + 1);
      LowMod(delta, trailing);
      LowPart(delta, t + 1, trailing);
    }
  }

  // ---- Samples ---------------------------------------------------------------

  /** The bits appended for sample number `num`. */
  function EncSample(num: nat, c: Codec, s: Sample): Bits
    requires EncoderWindow(c.leading, c.trailing)
  {
    if num == 0 then BytesBits(ZigZagVarint(s.t)) + ToBits(s.v, 64)
    else
      var value := EncValue(DeltaOf(s.v, c.v), c.leading, c.trailing);
      var td := ToU64(s.t - c.t);
      if num == 1 then BytesBits(Uvarint(td)) + value
      else EncDod(ToI64(td - c.tDelta)) + value
  }

  /** The encoder state after it. */
  function NextCodec(num: nat, c: Codec, s: Sample): (c': Codec)
    requires EncoderWindow(c.leading, c.trailing)
    ensures EncoderWindow(c'.leading, c'.trailing)
    ensures c'.t == s.t && c'.v == s.v
  {
    if num == 0 then Codec(s.t, s.v, 0, c.leading, c.trailing)
    else
      var d := DeltaOf(s.v, c.v);
      NextWindow(d, c.leading, c.trailing);
      Codec(s.t, s.v, ToU64(s.t - c.t), NextLeading(d, c.leading, c.trailing), NextTrailing(d, c.leading, c.trailing))
  }

  /** The decoder's state when its encoder is in state `c`. */
  function Follow(c: Codec): Codec {
    if c.leading == NO_WINDOW then c.(leading := 0, trailing := 0) else c
  }

  lemma SampleParts(num: nat, c: Codec, s: Sample)
    requires EncoderWindow(c.leading, c.trailing)
    ensures EncSample(num, c, s) ==
      if num == 0 then BytesBits(ZigZagVarint(s.t)) + ToBits(s.v, 64)
      else if num == 1 then BytesBits(Uvarint(ToU64(s.t - c.t))) + EncValue(DeltaOf(s.v, c.v), c.leading, c.trailing)
      else EncDod(ToI64(ToU64(s.t - c.t) - c.tDelta)) + EncValue(DeltaOf(s.v, c.v), c.leading, c.trailing)
    ensures num == 0 ==> NextCodec(num, c, s) == Codec(s.t, s.v, 0, c.leading, c.trailing)
    ensures num > 0 ==> NextCodec(num, c, s) == Codec(s.t, s.v, ToU64(s.t - c.t),
      NextLeading(DeltaOf(s.v, c.v), c.leading, c.trailing), NextTrailing(DeltaOf(s.v, c.v), c.leading, c.trailing))
  {
  }

  /** What reading sample number `num` yields: the new state and the bits left. */
  function DecSample(num: nat, c: Codec, bits: Bits): (r: Option<(Codec, Bits)>)
    requires Window(c.leading, c.trailing)
    ensures r.Some? ==> Window(r.value.0.leading, r.value.0.trailing)
  {
    if num == 0 then
      match BitUvarint(bits, 0)
      case Ok((u, rest)) =>
        if u >= TWO64 || |rest| < 64 then None
        else
          FromBitsBound(rest[..64]);
          Pow2Values();
          Some((Codec(UnZigZag(u), FromBits(rest[..64]), c.tDelta, c.leading, c.trailing), rest[64..]))
      case Err(_) => None
    else if num == 1 then
      match BitUvarint(bits, 0)
      case Ok((td, rest)) => if td >= TWO64 then None else DecRest(c, td, rest)
      case Err(_) => None
    else
      match DecDod(bits)
      case Some((dod, rest)) => DecRest(c, ToU64(ToI64(c.tDelta) + dod), rest)
      case None => None
  }

  /** The time step and the value that follow a decoded time difference. */
  function DecRest(c: Codec, td: u64, bits: Bits): (r: Option<(Codec, Bits)>)
    requires Window(c.leading, c.trailing)
    ensures r.Some? ==> Window(r.value.0.leading, r.value.0.trailing)
  {
    match DecValue(c.v, c.leading, c.trailing, bits)
    case Some((v, l, t, rest)) => Some((Codec(ToI64(c.t + ToI64(td)), v, td, l, t), rest))
    case None => None
  }

  lemma RestRoundTrip(c: Codec, s: Sample, tail: Bits)
    requires EncoderWindow(c.leading, c.trailing)
    ensures DecRest(Follow(c), ToU64(s.t - c.t), EncValue(DeltaOf(s.v, c.v), c.leading, c.trailing) + tail)
         == Some((Follow(NextCodec(1, c, s)), tail))
  {
    hide DeltaOf, EncValue, DecValue, NextLeading, NextTrailing;
    ValueRoundTrip(s.v, c.v, c.leading, c.trailing, tail);
    WrapAddBack(s.t, c.t);
  }

  /** A wrapped difference of unsigned words is undone by the wrapped sum. */
  lemma TimeDeltaBack(td: u64, prev: u64)
    ensures ToU64(ToI64(prev) + ToI64(td - prev)) == td
  {
  }

  lemma FirstSampleRoundTrip(c: Codec, s: Sample, tail: Bits)
    requires c == ENC_INIT
    ensures DecSample(0, DEC_INIT, EncSample(0, c, s) + tail) == Some((Follow(NextCodec(0, c, s)), tail))
  {
    var u := ZigZag(s.t);
    UvarintMaxLength(u);
    Pow2Values();
    hide Uvarint, BytesBits, ToBits, FromBits, BitUvarint, Low, Pow2;
    var rest := ToBits(s.v, 64) + tail;
    BitUvarintRoundTrip(u, rest, 0);
    UnZigZagZigZag(s.t);
    FromToBits(s.v, 64);
    LowSmall(s.v, 64);
    ConcatAssoc(BytesBits(Uvarint(u)), ToBits(s.v, 64), tail);
    assert rest[..64] == ToBits(s.v, 64) && rest[64..] == tail;
  }

  /** One sample round trip: the decoder in the state that follows the encoder's reads the
      sample, lands in the state that follows the encoder's next one, and leaves the rest. */
  lemma SampleRoundTrip(num: nat, c: Codec, s: Sample, tail: Bits)
    requires num > 0 && EncoderWindow(c.leading, c.trailing)
    ensures DecSample(num, Follow(c), EncSample(num, c, s) + tail) == Some((Follow(NextCodec(num, c, s)), tail))
  {
    hide *;
    if num == 1 {
      SecondSampleRoundTrip(c, s, tail);
    } else {
      LaterSampleRoundTrip(num, c, s, tail);
    }
  }

  lemma SecondSampleRoundTrip(c: Codec, s: Sample, tail: Bits)
    requires EncoderWindow(c.leading, c.trailing)
    ensures DecSample(1, Follow(c), EncSample(1, c, s) + tail) == Some((Follow(NextCodec(1, c, s)), tail))
  {
    var td := ToU64(s.t - c.t);
    UvarintMaxLength(td);
    FollowWindow(c);
    hide *;
    SampleParts(1, c, s);
    var code, value := BytesBits(Uvarint(td)), EncValue(DeltaOf(s.v, c.v), c.leading, c.trailing);
    ConcatAssoc(code, value, tail);
    BitUvarintRoundTrip(td, value + tail, 0);
    DecSampleParts(1, Follow(c), code + (value + tail));
    RestRoundTrip(c, s, tail);
  }

  lemma LaterSampleRoundTrip(num: nat, c: Codec, s: Sample, tail: Bits)
    requires num >= 2 && EncoderWindow(c.leading, c.trailing)
    ensures DecSample(num, Follow(c), EncSample(num, c, s) + tail) == Some((Follow(NextCodec(num, c, s)), tail))
  {
    hide *;
    var td := ToU64(s.t - c.t);
    FollowWindow(c);
    TimeDeltaBack(td, c.tDelta);
    LaterParts(num, c, s);
    RestRoundTrip(c, s, tail);
    DodThenRest(num, Follow(c), ToI64(td - c.tDelta), EncValue(DeltaOf(s.v, c.v), c.leading, c.trailing),
      td, Follow(NextCodec(num, c, s)), tail);
  }

  lemma LaterParts(num: nat, c: Codec, s: Sample)
    requires num >= 2 && EncoderWindow(c.leading, c.trailing)
    ensures EncSample(num, c, s)
         == EncDod(ToI64(ToU64(s.t - c.t) - c.tDelta)) + EncValue(DeltaOf(s.v, c.v), c.leading, c.trailing)
    ensures NextCodec(num, c, s) == NextCodec(1, c, s)
  {
    hide EncDod, EncValue, DeltaOf, ToI64, ToU64, NextLeading, NextTrailing;
  }

  lemma DodThenRest(num: nat, d: Codec, dod: i64, value: Bits, td: u64, next: Codec, tail: Bits)
    requires num >= 2 && Window(d.leading, d.trailing)
    requires DecRest(d, td, value + tail) == Some((next, tail))
    requires ToU64(ToI64(d.tDelta) + dod) == td
    ensures DecSample(num, d, (EncDod(dod) + value) + tail) == Some((next, tail))
  {
    hide *;
    ConcatAssoc(EncDod(dod), value, tail);
    DodRoundTrip(dod, value + tail);
    DecSampleParts(num, d, EncDod(dod) + (value + tail));
  }

  lemma FollowWindow(c: Codec)
    requires EncoderWindow(c.leading, c.trailing)
    ensures Window(Follow(c).leading, Follow(c).trailing) && Follow(c).tDelta == c.tDelta
  {
  }

  lemma DecSampleParts(num: nat, c: Codec, bits: Bits)
    requires num > 0 && Window(c.leading, c.trailing)
    ensures num == 1 && BitUvarint(bits, 0).Ok? && BitUvarint(bits, 0).value.0 < 0x1_0000_0000_0000_0000 ==>
      DecSample(num, c, bits) == DecRest(c, BitUvarint(bits, 0).value.0, BitUvarint(bits, 0).value.1)
    ensures num > 1 && DecDod(bits).Some? ==>
      DecSample(num, c, bits) == DecRest(c, ToU64(ToI64(c.tDelta) + DecDod(bits).value.0), DecDod(bits).value.1)
  {
    hide DecRest, BitUvarint, DecDod;
  }

  // ---- Whole chunks ----------------------------------------------------------

  /** What happens to a chunk: a sample is appended, an appender is taken anew and recovers its
      state by reading the chunk, or the bit position is set to the end of the last byte. */
  datatype Op = Append(s: Sample) | Resume | Reset

  datatype Trace = Trace(bits: Bits, samples: seq<Sample>, codec: Codec)

  /** Unused bits of the last byte. */
  function Fill(n: nat): nat {
    (8 - n % 8) % 8
  }

  /** Bits up to the end of the last byte. */
  function Filled(bits: Bits): (r: Bits)
    ensures bits == [] ==> r == []
  {
    bits + ToBits(0, Fill(|bits|))
  }

  function Encode(ops: seq<Op>): (r: Trace)
    ensures EncoderWindow(r.codec.leading, r.codec.trailing)
    ensures r.samples == [] ==> r.codec == ENC_INIT && r.bits == []
    ensures |r.samples| <= |ops|
  {
    hide EncSample, NextCodec, Filled;
    if ops == [] then Trace([], [], ENC_INIT)
    else
      var r := Encode(ops[..|ops| - 1]);
      match ops[|ops| - 1]
      case Append(s) =>
        Trace(r.bits + EncSample(|r.samples|, r.codec, s), r.samples + [s], NextCodec(|r.samples|, r.codec, s))
      case Resume => if r.samples == [] then r else r.(codec := Follow(r.codec))
      case Reset => r.(bits := Filled(r.bits))
  }

  /** The bit position is only reset when the last byte is full, where that changes nothing. */
  ghost predicate Aligned(ops: seq<Op>) {
    forall i :: 0 <= i < |ops| && ops[i].Reset? ==> |Encode(ops[..i]).bits| % 8 == 0
  }

  /** The decoder's state after reading what the trace wrote. */
  function DecoderOf(r: Trace): Codec {
    if r.samples == [] then DEC_INIT else Follow(r.codec)
  }

  /** The iterator after `n` successful steps: samples seen, state and bits left. */
  function DecRun(n: nat, bits: Bits): (r: Option<(seq<Sample>, Codec, Bits)>)
    ensures r.Some? ==> |r.value.0| == n && Window(r.value.1.leading, r.value.1.trailing)
  {
    if n == 0 then Some(([], DEC_INIT, bits))
    else
      match DecRun(n - 1, bits)
      case None => None
      case Some((ss, c, rest)) =>
        match DecSample(n - 1, c, rest)
        case None => None
        case Some((c', rest')) => Some((ss + [Sample(c'.t, c'.v)], c', rest'))
  }

  /** The chunk round trip. Whatever was appended, through however many appenders, reading
      as many samples as were written gives them back, in order, and leaves the rest. */
  lemma {:induction false} ChunkRoundTrip(ops: seq<Op>, tail: Bits)
    requires Aligned(ops)
    ensures DecRun(|Encode(ops).samples|, Encode(ops).bits + tail)
         == Some((Encode(ops).samples, DecoderOf(Encode(ops)), tail))
  {
    hide EncSample, DecSample, NextCodec;
    if ops == [] {
      assert [] + tail == tail;
    } else {
      var init, last := ops[..|ops| - 1], ops[|ops| - 1];
      var r := Encode(init);
      AlignedInit(ops);
      if last.Append? {
        var n, s := |r.samples|, last.s;
        var enc := EncSample(n, r.codec, s);
        ChunkRoundTrip(init, enc + tail);
        ConcatAssoc(r.bits, enc, tail);
        if n == 0 {
          FirstSampleRoundTrip(r.codec, s, tail);
        } else {
          SampleRoundTrip(n, r.codec, s, tail);
        }
        FollowKeepsSample(NextCodec(n, r.codec, s), s);
      } else {
        ChunkRoundTrip(init, tail);
        assert r.bits + [] == r.bits;
      }
    }
  }

  lemma AlignedInit(ops: seq<Op>)
    requires ops != [] && Aligned(ops)
    ensures var init := ops[..|ops| - 1];
      Aligned(init) && (ops[|ops| - 1].Reset? ==> Fill(|Encode(init).bits|) == 0 && ToBits(0, 0) == [])
  {
    hide Encode;
    var init := ops[..|ops| - 1];
    assert ops[..|ops| - 1] == init;
    forall i | 0 <= i < |init| && init[i].Reset?
      ensures |Encode(init[..i]).bits| % 8 == 0
    {
      assert init[..i] == ops[..i] && init[i] == ops[i];
    }
  }

  lemma AlignedSnoc(ops: seq<Op>, op: Op)
    requires Aligned(ops) && (op.Reset? ==> |Encode(ops).bits| % 8 == 0)
    ensures Aligned(ops + [op])
  {
    hide Encode;
    var more := ops + [op];
    forall i | 0 <= i < |more| && more[i].Reset?
      ensures |Encode(more[..i]).bits| % 8 == 0
    {
      if i < |ops| {
        assert more[..i] == ops[..i];
      } else {
        assert more[..i] == ops;
      }
    }
  }

  /** The samples written are the ones read, whatever follows, and reading ends in the state the
      encoder left behind. */
  ghost predicate Legible(ops: seq<Op>) {
    forall tail :: ReadsWith(ops, tail)
  }

  predicate ReadsWith(ops: seq<Op>, tail: Bits) {
    var r := Encode(ops);
    match DecRun(|r.samples|, r.bits + tail)
    case Some((ss, c, _)) => ss == r.samples && c == DecoderOf(r)
    case None => false
  }

  lemma AlignedLegible(ops: seq<Op>)
    requires Aligned(ops)
    ensures Legible(ops)
  {
    hide Encode, DecRun, Aligned;
    forall tail
      ensures ReadsWith(ops, tail)
    {
      ChunkRoundTrip(ops, tail);
    }
  }

  /** Resetting the bit position alone loses nothing. */
  lemma ResetLegible(ops: seq<Op>)
    requires Legible(ops)
    ensures Legible(ops + [Reset])
  {
    hide DecRun;
    var more := ops + [Reset];
    assert more[..|ops|] == ops;
    var r := Encode(ops);
    forall tail
      ensures ReadsWith(more, tail)
    {
      assert ReadsWith(ops, ToBits(0, Fill(|r.bits|)) + tail);
      assert r.bits + (ToBits(0, Fill(|r.bits|)) + tail) == Encode(more).bits + tail;
    }
  }

  lemma FollowKeepsSample(c: Codec, s: Sample)
    requires c.t == s.t && c.v == s.v
    ensures Follow(c).t == s.t && Follow(c).v == s.v
  {
  }

  /** A run can be cut short anywhere. */
  lemma {:induction false} DecRunPrefix(k: nat, n: nat, bits: Bits)
    requires k <= n && DecRun(n, bits).Some?
    ensures DecRun(k, bits).Some? && DecRun(k, bits).value.0 == DecRun(n, bits).value.0[..k]
  {
    if k < n {
      DecRunPrefix(k, n - 1, bits);
    }
  }
}
