/** Device addresses: fields of a generic address packed into one 64-bit word at
    the offsets and widths the device reports. */
module AddrCodec {
  import opened Arith
  import opened Bits

  /** A field of `len` bits from bit `off` on. */
  datatype Field = Field(off: nat, len: nat)

  type Format = seq<Field>

  /** Shift amounts a 64-bit word admits. */
  ghost predicate InWord(f: Field) {
    f.off + f.len <= 64 && f.off < 64 && f.len < 64
  }

  predicate Apart(f: Field, g: Field) {
    f.off + f.len <= g.off || g.off + g.len <= f.off
  }

  /** A format any device may report: fields inside the word, no two sharing a
      bit, in any order. */
  ghost predicate ValidFormat(fmt: Format) {
    && (forall i :: 0 <= i < |fmt| ==> InWord(fmt[i]))
    && (forall i, j :: 0 <= i < j < |fmt| ==> Apart(fmt[i], fmt[j]))
  }

  ghost predicate Fits(vals: seq<nat>, fmt: Format) {
    |vals| == |fmt| && forall i :: 0 <= i < |fmt| ==> vals[i] < Pow2(fmt[i].len)
  }

  function Mask(f: Field): nat { Shl(Pow2(f.len) - 1, f.off) }

  /** The word after the first `n` fields have been or-ed in. */
  function Pack(vals: seq<nat>, fmt: Format, n: nat): nat
    requires n <= |vals| && n <= |fmt|
  {
    if n == 0 then 0 else Or(Pack(vals, fmt, n - 1), Shl(vals[n - 1], fmt[n - 1].off))
  }

  function Extract(d: nat, f: Field): nat { Shr(And(d, Mask(f)), f.off) }

  // ---- bit by bit -------------------------------------------------------------------

  lemma BitMask(f: Field, b: nat)
    ensures Bit(Mask(f), b) <==> f.off <= b < 64 && b < f.off + f.len
  {
    BitShl(Pow2(f.len) - 1, f.off, b);
    if f.off <= b { BitOnes(f.len, b - f.off); }
  }

  /** The masks of different fields have no bit in common. */
  lemma MasksDisjoint(fmt: Format, i: nat, j: nat)
    requires ValidFormat(fmt) && i < |fmt| && j < |fmt| && i != j
    ensures And(Mask(fmt[i]), Mask(fmt[j])) == 0
  {
    forall b: nat ensures Bit(And(Mask(fmt[i]), Mask(fmt[j])), b) <==> Bit(0, b) {
      BitAnd(Mask(fmt[i]), Mask(fmt[j]), b);
      BitMask(fmt[i], b);
      BitMask(fmt[j], b);
      BitOfZero(b);
      assert Apart(fmt[i], fmt[j]) || Apart(fmt[j], fmt[i]);
    }
    SameBits(And(Mask(fmt[i]), Mask(fmt[j])), 0);
  }

  lemma BitExtract(d: nat, f: Field, t: nat)
    requires InWord(f)
    ensures Bit(Extract(d, f), t) <==> t < f.len && Bit(d, t + f.off)
  {
    BitShr(And(d, Mask(f)), f.off, t);
    BitAnd(d, Mask(f), t + f.off);
    BitMask(f, t + f.off);
  }

  lemma ExtractBelow(d: nat, f: Field)
    requires InWord(f)
    ensures Extract(d, f) < Pow2(f.len)
  {
    var x := Extract(d, f);
    forall t: nat ensures Bit(x, t) <==> Bit(x % Pow2(f.len), t) {
      BitExtract(d, f, t);
      BitMod(x, f.len, t);
    }
    SameBits(x, x % Pow2(f.len));
  }

  /** Bit `b` of the packed word, when the values fit: it belongs to at most one
      field, and to field `i` if it lies there. */
  lemma {:induction false} BitPack(vals: seq<nat>, fmt: Format, n: nat, i: nat, b: nat)
    requires ValidFormat(fmt) && Fits(vals, fmt) && n <= |fmt| && i < |fmt|
    requires fmt[i].off <= b < fmt[i].off + fmt[i].len
    ensures Bit(Pack(vals, fmt, n), b) <==> i < n && Bit(vals[i], b - fmt[i].off)
    decreases n
  {
    if n == 0 {
      BitOfZero(b);
    } else {
      BitPack(vals, fmt, n - 1, i, b);
      var f := fmt[n - 1];
      BitOr(Pack(vals, fmt, n - 1), Shl(vals[n - 1], f.off), b);
      BitShl(vals[n - 1], f.off, b);
      if i != n - 1 {
        assert Apart(fmt[i], f) || Apart(f, fmt[i]);
        if f.off <= b { HighBitsZero(vals[n - 1], f.len, b - f.off); }
      }
    }
  }

  lemma ExtractPacked(vals: seq<nat>, fmt: Format, i: nat)
    requires ValidFormat(fmt) && Fits(vals, fmt) && i < |fmt|
    ensures Extract(Pack(vals, fmt, |fmt|), fmt[i]) == vals[i]
  {
    var d, f := Pack(vals, fmt, |fmt|), fmt[i];
    forall t: nat ensures Bit(Extract(d, f), t) <==> Bit(vals[i], t) {
      BitExtract(d, f, t);
      if t < f.len {
        BitPack(vals, fmt, |fmt|, i, t + f.off);
      } else {
        HighBitsZero(vals[i], f.len, t);
      }
    }
    SameBits(Extract(d, f), vals[i]);
  }

  /** Unpacking the packed word gives the values back exactly when every value
      fits its field. */
  lemma RoundTripIff(vals: seq<nat>, fmt: Format)
    requires ValidFormat(fmt) && |vals| == |fmt|
    ensures (forall i :: 0 <= i < |fmt| ==> Extract(Pack(vals, fmt, |fmt|), fmt[i]) == vals[i]) <==> Fits(vals, fmt)
  {
    var d := Pack(vals, fmt, |fmt|);
    if Fits(vals, fmt) {
      forall i | 0 <= i < |fmt| ensures Extract(d, fmt[i]) == vals[i] {
        ExtractPacked(vals, fmt, i);
      }
    } else {
      var i :| 0 <= i < |fmt| && vals[i] >= Pow2(fmt[i].len);
      ExtractBelow(d, fmt[i]);
    }
  }

  /** Different values never share a device address. */
  lemma PackInjective(a: seq<nat>, b: seq<nat>, fmt: Format)
    requires ValidFormat(fmt) && Fits(a, fmt) && Fits(b, fmt)
    requires Pack(a, fmt, |fmt|) == Pack(b, fmt, |fmt|)
    ensures a == b
  {
    forall i | 0 <= i < |fmt| ensures a[i] == b[i] {
      ExtractPacked(a, fmt, i);
      ExtractPacked(b, fmt, i);
    }
  }

  lemma {:induction false} PackInWord(vals: seq<nat>, fmt: Format, n: nat)
    requires n <= |vals| && n <= |fmt|
    ensures Pack(vals, fmt, n) < Pow2(64)
    decreases n
  {
    var d := Pack(vals, fmt, n);
    if n > 0 {
      PackInWord(vals, fmt, n - 1);
      forall t: nat ensures Bit(d, t) <==> Bit(d % Pow2(64), t) {
        BitMod(d, 64, t);
        BitOr(Pack(vals, fmt, n - 1), Shl(vals[n - 1], fmt[n - 1].off), t);
        BitShl(vals[n - 1], fmt[n - 1].off, t);
        if t >= 64 { HighBitsZero(Pack(vals, fmt, n - 1), 64, t); }
      }
      SameBits(d, d % Pow2(64));
    }
  }

  // ---- byte offsets ----------------------------------------------------------------

  /** Offsets of the block-device backend: address times sector size, as a shift. */
  function ToOff(d: nat, ssw: nat): nat { Shl(d, ssw) }

  function FromOff(off: nat, ssw: nat): nat { Shr(off, ssw) }

  /** A generic address survives the trip through its byte offset exactly when its
      fields fit and the shifted device address fits the word. */
  lemma OffsetRoundTripIff(vals: seq<nat>, fmt: Format, ssw: nat)
    requires ValidFormat(fmt) && |vals| == |fmt| && ssw <= 64
    ensures var d := Pack(vals, fmt, |fmt|);
            (forall i :: 0 <= i < |fmt| ==> Extract(FromOff(ToOff(d, ssw), ssw), fmt[i]) == vals[i])
            <==> (Fits(vals, fmt) && d < Pow2(64 - ssw))
  {
    var d := Pack(vals, fmt, |fmt|);
    var e := FromOff(ToOff(d, ssw), ssw);
    if !Fits(vals, fmt) {
      var i :| 0 <= i < |fmt| && vals[i] >= Pow2(fmt[i].len);
      ExtractBelow(e, fmt[i]);
    } else {
      PackInWord(vals, fmt, |fmt|);
      ShiftBackIff(d, ssw);
      RoundTripIff(vals, fmt);
      if forall i :: 0 <= i < |fmt| ==> Extract(e, fmt[i]) == vals[i] {
        OffsetReadsBack(vals, fmt, ssw, d, e);
      }
    }
  }

  lemma OffsetReadsBack(vals: seq<nat>, fmt: Format, ssw: nat, d: nat, e: nat)
    requires ValidFormat(fmt) && Fits(vals, fmt) && d == Pack(vals, fmt, |fmt|)
    requires e == FromOff(ToOff(d, ssw), ssw)
    requires forall i :: 0 <= i < |fmt| ==> Extract(e, fmt[i]) == vals[i]
    ensures e == d
  {
    forall b: nat ensures Bit(e, b) ==> Bit(d, b) {
      BitShr(Shl(d, ssw), ssw, b);
      BitShl(d, ssw, b + ssw);
    }
    LostBit(vals, fmt, d, e);
  }

  /** A word whose fields all read back as `vals` has at least the packed bits. */
  lemma LostBit(vals: seq<nat>, fmt: Format, d: nat, e: nat)
    requires ValidFormat(fmt) && Fits(vals, fmt) && d == Pack(vals, fmt, |fmt|)
    requires forall i :: 0 <= i < |fmt| ==> Extract(e, fmt[i]) == vals[i]
    requires forall b: nat :: Bit(e, b) ==> Bit(d, b)
    ensures e == d
  {
    forall b: nat ensures Bit(d, b) ==> Bit(e, b) {
      if Bit(d, b) {
        var i := FieldOf(vals, fmt, |fmt|, b);
        var f := fmt[i];
        BitExtract(d, f, b - f.off);
        BitExtract(e, f, b - f.off);
        ExtractPacked(vals, fmt, i);
      }
    }
    SameBits(d, e);
  }

  /** Every set bit of a packed word lies in some field. */
  lemma {:induction false} FieldOf(vals: seq<nat>, fmt: Format, n: nat, b: nat) returns (i: nat)
    requires ValidFormat(fmt) && Fits(vals, fmt) && n <= |fmt| && Bit(Pack(vals, fmt, n), b)
    ensures i < n && fmt[i].off <= b < fmt[i].off + fmt[i].len
    decreases n
  {
    if n == 0 {
      BitOfZero(b);
      assert false;
    } else {
      var f := fmt[n - 1];
      BitOr(Pack(vals, fmt, n - 1), Shl(vals[n - 1], f.off), b);
      BitShl(vals[n - 1], f.off, b);
      if Bit(Pack(vals, fmt, n - 1), b) {
        i := FieldOf(vals, fmt, n - 1, b);
      } else {
        i := n - 1;
        if b >= f.off + f.len { HighBitsZero(vals[n - 1], f.len, b - f.off); assert false; }
      }
    }
  }

  /** _ilog2: the position of the highest set bit. */
  method Ilog2(x: nat) returns (val: nat)
    ensures x > 0 ==> Pow2(val) <= x < Pow2(val + 1)
    ensures x == 0 ==> val == 0
  {
    val := 0;
    var y := x / 2;
    ghost var k := x;
    while y != 0
      invariant x > 0 ==> k * Pow2(val) <= x < (k + 1) * Pow2(val)
      invariant y == k / 2 && (x > 0 ==> k > 0) && (x == 0 ==> k == 0 && val == 0)
      decreases y
    {
      HalfStep(k, x, val);
      k := y;
      val := val + 1;
      y := y / 2;
    }
    assert k <= 1;
  }

  lemma HalfStep(k: nat, x: nat, val: nat)
    requires k * Pow2(val) <= x < (k + 1) * Pow2(val)
    ensures (k / 2) * Pow2(val + 1) <= x < (k / 2 + 1) * Pow2(val + 1)
  {
    var p, h := Pow2(val), k / 2;
    assert k == 2 * h + k % 2;
    assert h * (2 * p) == (2 * h) * p;
    assert (h + 1) * (2 * p) == (2 * h + 2) * p;
    MulLe(2 * h, k, p);
    MulLe(k + 1, 2 * h + 2, p);
  }

  lemma {:induction false} Pow2Strict(a: nat, b: nat)
    requires a < b
    ensures Pow2(a) < Pow2(b)
    decreases b
  {
    if a < b - 1 { Pow2Strict(a, b - 1); }
  }

  /** With a power-of-two sector size the derived shift is its logarithm, and the
      byte offset is the device address times the sector size exactly when that
      product fits the word. */
  lemma OffsetIsProduct(d: nat, nbytes: nat, k: nat, ssw: nat)
    requires nbytes == Pow2(k) && Pow2(ssw) <= nbytes < Pow2(ssw + 1)
    ensures ssw == k
    ensures ToOff(d, ssw) == d * nbytes <==> d * nbytes < Pow2(64)
  {
    if k < ssw { Pow2Strict(k, ssw); }
    if k > ssw { Pow2Monotone(ssw + 1, k); }
    if d * nbytes < Pow2(64) { DivModUnique(d * nbytes, Pow2(64), 0, d * nbytes); }
  }

  lemma {:induction false} Pow2Monotone(a: nat, b: nat)
    requires a <= b
    ensures Pow2(a) <= Pow2(b)
    decreases b
  {
    if a < b { Pow2Monotone(a, b - 1); }
  }

  // ---- the two address formats ----------------------------------------------------------

  /** Widths a 2.0 device reports, and the generic address. */
  datatype Lbaf = Lbaf(pugrp: nat, punit: nat, chunk: nat, sectr: nat)

  datatype Addr20 = Addr20(pugrp: nat, punit: nat, chunk: nat, sectr: nat) {
    /** The widths of the generic address's own fields. */
    ghost predicate Valid() {
      pugrp < Pow2(8) && punit < Pow2(8) && chunk < Pow2(16) && sectr < Pow2(32)
    }
    function Vals(): seq<nat> { [pugrp, punit, chunk, sectr] }
  }

  /** The offsets derived from the widths: sector lowest, then chunk, unit, group. */
  function Format20(f: Lbaf): Format {
    var zc := f.sectr;
    var zu := zc + f.chunk;
    var zg := zu + f.punit;
    [Field(zg, f.pugrp), Field(zu, f.punit), Field(zc, f.chunk), Field(0, f.sectr)]
  }

  /** Derived formats never overlap, whatever the widths, as long as they fit the
      word together. */
  lemma Format20Valid(f: Lbaf)
    requires f.pugrp + f.punit + f.chunk + f.sectr <= 64
    requires f.punit + f.chunk + f.sectr < 64 && f.pugrp < 64
    ensures ValidFormat(Format20(f))
  {
  }

  function Gen2Dev20(f: Lbaf, a: Addr20): nat {
    var fmt := Format20(f);
    Or(Or(Or(Or(0, Shl(a.pugrp, fmt[0].off)), Shl(a.punit, fmt[1].off)), Shl(a.chunk, fmt[2].off)), Shl(a.sectr, fmt[3].off))
  }

  /** Field values are cut to the generic address's own widths on the way back. */
  function Dev2Gen20(f: Lbaf, d: nat): Addr20 {
    var fmt := Format20(f);
    Addr20(Extract(d, fmt[0]) % Pow2(8), Extract(d, fmt[1]) % Pow2(8),
           Extract(d, fmt[2]) % Pow2(16), Extract(d, fmt[3]) % Pow2(32))
  }

  lemma Gen2DevIsPack(f: Lbaf, a: Addr20)
    ensures Gen2Dev20(f, a) == Pack(a.Vals(), Format20(f), 4)
  {
    var v, fmt := a.Vals(), Format20(f);
    assert Pack(v, fmt, 0) == 0;
    assert Pack(v, fmt, 1) == Or(Pack(v, fmt, 0), Shl(v[0], fmt[0].off));
    assert Pack(v, fmt, 2) == Or(Pack(v, fmt, 1), Shl(v[1], fmt[1].off));
    assert Pack(v, fmt, 3) == Or(Pack(v, fmt, 2), Shl(v[2], fmt[2].off));
    assert Pack(v, fmt, 4) == Or(Pack(v, fmt, 3), Shl(v[3], fmt[3].off));
  }

  ghost predicate Fits20(f: Lbaf, a: Addr20) {
    a.pugrp < Pow2(f.pugrp) && a.punit < Pow2(f.punit) && a.chunk < Pow2(f.chunk) && a.sectr < Pow2(f.sectr)
  }

  /** On any 2.0 format whose widths fit the word, converting a generic address to
      a device address and back is the identity exactly when every field fits the
      width the device gives it. */
  lemma Addr20RoundTripIff(f: Lbaf, a: Addr20)
    requires ValidFormat(Format20(f)) && a.Valid()
    ensures Dev2Gen20(f, Gen2Dev20(f, a)) == a <==> Fits20(f, a)
  {
    var v, fmt, d := a.Vals(), Format20(f), Gen2Dev20(f, a);
    Gen2DevIsPack(f, a);
    hide Extract, Pow2, Pack, Gen2Dev20;
    if Fits20(f, a) {
      assert Fits(v, fmt);
      KeptWhole(v, fmt, 0, Pow2(8));
      KeptWhole(v, fmt, 1, Pow2(8));
      KeptWhole(v, fmt, 2, Pow2(16));
      KeptWhole(v, fmt, 3, Pow2(32));
    } else {
      CutBelow(d, fmt[0], Pow2(8));
      CutBelow(d, fmt[1], Pow2(8));
      CutBelow(d, fmt[2], Pow2(16));
      CutBelow(d, fmt[3], Pow2(32));
    }
  }

  lemma CutBelow(d: nat, f: Field, m: nat)
    requires InWord(f) && m > 0
    ensures Extract(d, f) % m < Pow2(f.len)
  {
    hide Extract, Pow2;
    ExtractBelow(d, f);
    ModAtMost(Extract(d, f), m);
  }

  // ---- Open-Channel SSD 1.2: six fields at any offsets --------------------------------------

  datatype Addr12 = Addr12(ch: nat, lun: nat, pl: nat, blk: nat, pg: nat, sec: nat) {
    ghost predicate Valid() {
      ch < Pow2(8) && lun < Pow2(8) && pl < Pow2(8) && blk < Pow2(16) && pg < Pow2(16) && sec < Pow2(8)
    }
    function Vals(): seq<nat> { [ch, lun, pl, blk, pg, sec] }
  }

  /** The format as reported: offset and width of each field in turn. */
  function Format12(a: seq<nat>): Format
    requires |a| == 12
  {
    seq(6, i requires 0 <= i < 6 => Field(a[2 * i], a[2 * i + 1]))
  }

  /** The masks, computed from the odd entries of the report. */
  method ConstructPpafMask(a: seq<nat>) returns (mask: array<nat>)
    requires |a| == 12 && forall i :: 0 <= i < 6 ==> InWord(Format12(a)[i])
    ensures fresh(mask) && mask.Length == 6
    ensures forall i :: 0 <= i < 6 ==> mask[i] == Mask(Format12(a)[i])
  {
    mask := new nat[6];
    var i := 0;
    while i < 12
      invariant 0 <= i <= 12
      invariant forall j :: 0 <= j < i / 2 ==> mask[j] == Mask(Format12(a)[j])
    {
      if i % 2 == 1 {
        assert Format12(a)[i / 2] == Field(a[i - 1], a[i]);
        ShlOne(a[i]);
        mask[i / 2] := Shl(Shl(1, a[i]) - 1, a[i - 1]);
      }
      i := i + 1;
    }
  }

  lemma ShlOne(w: nat)
    requires w < 64
    ensures Shl(1, w) == Pow2(w)
  {
    hide Pow2;
    Pow2Strict(w, 64);
    DivModUnique(Pow2(w), Pow2(64), 0, Pow2(w));
  }

  function Gen2Dev12(fmt: Format, a: Addr12): nat
    requires |fmt| == 6
  {
    var d1 := Or(0, Shl(a.ch, fmt[0].off));
    var d2 := Or(d1, Shl(a.lun, fmt[1].off));
    var d3 := Or(d2, Shl(a.pl, fmt[2].off));
    var d4 := Or(d3, Shl(a.blk, fmt[3].off));
    var d5 := Or(d4, Shl(a.pg, fmt[4].off));
    Or(d5, Shl(a.sec, fmt[5].off))
  }

  function Dev2Gen12(fmt: Format, d: nat): Addr12
    requires |fmt| == 6
  {
    Addr12(Extract(d, fmt[0]) % Pow2(8), Extract(d, fmt[1]) % Pow2(8), Extract(d, fmt[2]) % Pow2(8),
           Extract(d, fmt[3]) % Pow2(16), Extract(d, fmt[4]) % Pow2(16), Extract(d, fmt[5]) % Pow2(8))
  }

  lemma Gen2Dev12IsPack(fmt: Format, a: Addr12)
    requires |fmt| == 6
    ensures Gen2Dev12(fmt, a) == Pack(a.Vals(), fmt, 6)
  {
    var v := a.Vals();
    assert Pack(v, fmt, 1) == Or(Pack(v, fmt, 0), Shl(v[0], fmt[0].off));
    assert Pack(v, fmt, 2) == Or(Pack(v, fmt, 1), Shl(v[1], fmt[1].off));
    assert Pack(v, fmt, 3) == Or(Pack(v, fmt, 2), Shl(v[2], fmt[2].off));
    assert Pack(v, fmt, 4) == Or(Pack(v, fmt, 3), Shl(v[3], fmt[3].off));
    assert Pack(v, fmt, 5) == Or(Pack(v, fmt, 4), Shl(v[4], fmt[4].off));
    assert Pack(v, fmt, 6) == Or(Pack(v, fmt, 5), Shl(v[5], fmt[5].off));
  }

  ghost predicate Fits12(fmt: Format, a: Addr12)
    requires |fmt| == 6
  {
    && a.ch < Pow2(fmt[0].len) && a.lun < Pow2(fmt[1].len) && a.pl < Pow2(fmt[2].len)
    && a.blk < Pow2(fmt[3].len) && a.pg < Pow2(fmt[4].len) && a.sec < Pow2(fmt[5].len)
  }

  /** The same for any 1.2 format of pairwise disjoint fields, in any order. */
  lemma Addr12RoundTripIff(fmt: Format, a: Addr12)
    requires |fmt| == 6 && ValidFormat(fmt) && a.Valid()
    ensures Dev2Gen12(fmt, Gen2Dev12(fmt, a)) == a <==> Fits12(fmt, a)
  {
    var v, d := a.Vals(), Gen2Dev12(fmt, a);
    Gen2Dev12IsPack(fmt, a);
    hide Extract, Pow2, Pack, Gen2Dev12;
    if Fits12(fmt, a) {
      assert Fits(v, fmt);
      KeptWhole(v, fmt, 0, Pow2(8));
      KeptWhole(v, fmt, 1, Pow2(8));
      KeptWhole(v, fmt, 2, Pow2(8));
      KeptWhole(v, fmt, 3, Pow2(16));
      KeptWhole(v, fmt, 4, Pow2(16));
      KeptWhole(v, fmt, 5, Pow2(8));
    } else {
      CutBelow(d, fmt[0], Pow2(8));
      CutBelow(d, fmt[1], Pow2(8));
      CutBelow(d, fmt[2], Pow2(8));
      CutBelow(d, fmt[3], Pow2(16));
      CutBelow(d, fmt[4], Pow2(16));
      CutBelow(d, fmt[5], Pow2(8));
    }
  }

  lemma KeptWhole(v: seq<nat>, fmt: Format, i: nat, m: nat)
    requires ValidFormat(fmt) && Fits(v, fmt) && i < |fmt| && v[i] < m
    ensures Extract(Pack(v, fmt, |fmt|), fmt[i]) % m == v[i]
  {
    ExtractPacked(v, fmt, i);
    DivModUnique(v[i], m, 0, v[i]);
  }

  // ---- generic addresses through byte offsets ------------------------------------------------

  /** A shifted word has no bits the device address did not have, so cutting a
      field of it to `q` bits cannot hide anything from a value of `q` bits. */
  lemma CutRead(vals: seq<nat>, fmt: Format, ssw: nat, i: nat, q: nat)
    requires ValidFormat(fmt) && Fits(vals, fmt) && i < |fmt| && vals[i] < Pow2(q)
    ensures var e := FromOff(ToOff(Pack(vals, fmt, |fmt|), ssw), ssw);
            Extract(e, fmt[i]) % Pow2(q) == Extract(e, fmt[i])
  {
    hide Pack, Extract, Pow2, Bit;
    var d, f := Pack(vals, fmt, |fmt|), fmt[i];
    var e := FromOff(ToOff(d, ssw), ssw);
    var x := Extract(e, f);
    forall t: nat ensures Bit(x % Pow2(q), t) <==> Bit(x, t) {
      BitMod(x, q, t);
      BitExtract(e, f, t);
      BitExtract(d, f, t);
      ExtractPacked(vals, fmt, i);
      BitShr(Shl(d, ssw), ssw, t + f.off);
      BitShl(d, ssw, t + f.off + ssw);
      if t >= q { HighBitsZero(vals[i], q, t); }
    }
    SameBits(x % Pow2(q), x);
  }

  /** A 2.0 address survives the trip through its byte offset exactly when its
      fields fit the device's widths and the shifted device address fits the
      word. */
  lemma Offset20RoundTripIff(f: Lbaf, a: Addr20, ssw: nat)
    requires ValidFormat(Format20(f)) && a.Valid() && ssw <= 64
    ensures Dev2Gen20(f, FromOff(ToOff(Gen2Dev20(f, a), ssw), ssw)) == a
       <==> Fits20(f, a) && Gen2Dev20(f, a) < Pow2(64 - ssw)
  {
    var v, fmt, d := a.Vals(), Format20(f), Gen2Dev20(f, a);
    var e := FromOff(ToOff(d, ssw), ssw);
    Gen2DevIsPack(f, a);
    hide Extract, Pow2, Pack, Gen2Dev20, ToOff, FromOff;
    if Fits20(f, a) {
      assert Fits(v, fmt);
      CutRead(v, fmt, ssw, 0, 8);
      CutRead(v, fmt, ssw, 1, 8);
      CutRead(v, fmt, ssw, 2, 16);
      CutRead(v, fmt, ssw, 3, 32);
      OffsetRoundTripIff(v, fmt, ssw);
    } else {
      CutBelow(e, fmt[0], Pow2(8));
      CutBelow(e, fmt[1], Pow2(8));
      CutBelow(e, fmt[2], Pow2(16));
      CutBelow(e, fmt[3], Pow2(32));
    }
  }

  /** Where the cut to field widths hides nothing, an address is read field by
      field. */
  lemma ReadFields12(fmt: Format, a: Addr12, e: nat)
    requires |fmt| == 6
    requires Extract(e, fmt[0]) % Pow2(8) == Extract(e, fmt[0]) && Extract(e, fmt[1]) % Pow2(8) == Extract(e, fmt[1])
    requires Extract(e, fmt[2]) % Pow2(8) == Extract(e, fmt[2]) && Extract(e, fmt[3]) % Pow2(16) == Extract(e, fmt[3])
    requires Extract(e, fmt[4]) % Pow2(16) == Extract(e, fmt[4]) && Extract(e, fmt[5]) % Pow2(8) == Extract(e, fmt[5])
    ensures Dev2Gen12(fmt, e) == a <==> forall i :: 0 <= i < 6 ==> Extract(e, fmt[i]) == a.Vals()[i]
  {
    hide Extract, Pow2;
    var v := a.Vals();
    assert v[0] == a.ch && v[1] == a.lun && v[2] == a.pl && v[3] == a.blk && v[4] == a.pg && v[5] == a.sec;
  }

  /** The same for any 1.2 format of pairwise disjoint fields. */
  lemma Offset12RoundTripIff(fmt: Format, a: Addr12, ssw: nat)
    requires |fmt| == 6 && ValidFormat(fmt) && a.Valid() && ssw <= 64
    ensures Dev2Gen12(fmt, FromOff(ToOff(Gen2Dev12(fmt, a), ssw), ssw)) == a
       <==> Fits12(fmt, a) && Gen2Dev12(fmt, a) < Pow2(64 - ssw)
  {
    var v, d := a.Vals(), Gen2Dev12(fmt, a);
    var e := FromOff(ToOff(d, ssw), ssw);
    Gen2Dev12IsPack(fmt, a);
    hide Extract, Pow2, Pack, Gen2Dev12, ToOff, FromOff;
    if Fits12(fmt, a) {
      assert Fits(v, fmt);
      CutRead(v, fmt, ssw, 0, 8);
      CutRead(v, fmt, ssw, 1, 8);
      CutRead(v, fmt, ssw, 2, 8);
      CutRead(v, fmt, ssw, 3, 16);
      CutRead(v, fmt, ssw, 4, 16);
      CutRead(v, fmt, ssw, 5, 8);
      ReadFields12(fmt, a, e);
      OffsetRoundTripIff(v, fmt, ssw);
    } else {
      CutBelow(e, fmt[0], Pow2(8));
      CutBelow(e, fmt[1], Pow2(8));
      CutBelow(e, fmt[2], Pow2(8));
      CutBelow(e, fmt[3], Pow2(16));
      CutBelow(e, fmt[4], Pow2(16));
      CutBelow(e, fmt[5], Pow2(8));
    }
  }

  // ---- device addresses as numbers ------------------------------------------------------------

  function Scaled(x: nat, k: nat): nat { x * Pow2(k) }

  /** The sum of the first `n` values, each shifted to its field. */
  function ShiftedSum(vals: seq<nat>, fmt: Format, n: nat): nat
    requires n <= |vals| && n <= |fmt|
  {
    if n == 0 then 0 else ShiftedSum(vals, fmt, n - 1) + Scaled(vals[n - 1], fmt[n - 1].off)
  }

  lemma ShlInWord(x: nat, f: Field)
    requires InWord(f) && x < Pow2(f.len)
    ensures Shl(x, f.off) == x * Pow2(f.off) < Pow2(64)
  {
    hide Pow2;
    Pow2Monotone(f.off + f.len, 64);
    PowSum(f.len, f.off);
    Pow2Positive(f.off);
    MulLe(x + 1, Pow2(f.len), Pow2(f.off));
    assert (x + 1) * Pow2(f.off) == x * Pow2(f.off) + Pow2(f.off);
    DivModUnique(x * Pow2(f.off), Pow2(64), 0, x * Pow2(f.off));
  }

  lemma Pow2Positive(k: nat)
    ensures Pow2(k) > 0
  {
  }

  /** Fields that fit do not touch, so the word is the sum of the shifted values. */
  lemma {:induction false} PackIsSum(vals: seq<nat>, fmt: Format, n: nat)
    requires ValidFormat(fmt) && Fits(vals, fmt) && n <= |fmt|
    ensures Pack(vals, fmt, n) == ShiftedSum(vals, fmt, n)
    decreases n
  {
    hide Pow2, Or, Shl;
    if n > 0 {
      var f := fmt[n - 1];
      PackIsSum(vals, fmt, n - 1);
      ShlInWord(vals[n - 1], f);
      var low, high := Pack(vals, fmt, n - 1), Shl(vals[n - 1], f.off);
      forall b: nat ensures !(Bit(low, b) && Bit(high, b)) {
        BitShl(vals[n - 1], f.off, b);
        if f.off <= b < f.off + f.len {
          BitPack(vals, fmt, n - 1, n - 1, b);
        } else if f.off <= b {
          HighBitsZero(vals[n - 1], f.len, b - f.off);
        }
      }
      OrIsSum(low, high);
    }
  }

  lemma Dev20IsSum(f: Lbaf, a: Addr20)
    requires ValidFormat(Format20(f)) && Fits20(f, a)
    ensures Gen2Dev20(f, a)
         == Scaled(a.pugrp, f.sectr + f.chunk + f.punit) + Scaled(a.punit, f.sectr + f.chunk) + Scaled(a.chunk, f.sectr) + Scaled(a.sectr, 0)
  {
    hide Pow2, Gen2Dev20, ShiftedSum, Pack, Scaled;
    var v, fmt := a.Vals(), Format20(f);
    Gen2DevIsPack(f, a);
    assert Fits(v, fmt);
    PackIsSum(v, fmt, 4);
    SumOfFour(v, fmt);
  }

  lemma SumOfFour(v: seq<nat>, fmt: Format)
    requires |v| == |fmt| == 4
    ensures ShiftedSum(v, fmt, 4)
         == Scaled(v[0], fmt[0].off) + Scaled(v[1], fmt[1].off) + Scaled(v[2], fmt[2].off) + Scaled(v[3], fmt[3].off)
  {
    hide Scaled;
    assert ShiftedSum(v, fmt, 0) == 0;
    assert ShiftedSum(v, fmt, 1) == Scaled(v[0], fmt[0].off);
    assert ShiftedSum(v, fmt, 2) == ShiftedSum(v, fmt, 1) + Scaled(v[1], fmt[1].off);
    assert ShiftedSum(v, fmt, 3) == ShiftedSum(v, fmt, 2) + Scaled(v[2], fmt[2].off);
  }

  /** A 2.0 device address counts sectors within a chunk, chunks within a parallel
      unit, units within a group, and groups. */
  lemma Dev20IsIndex(f: Lbaf, a: Addr20)
    requires ValidFormat(Format20(f)) && Fits20(f, a)
    ensures Gen2Dev20(f, a)
         == ((a.pugrp * Pow2(f.punit) + a.punit) * Pow2(f.chunk) + a.chunk) * Pow2(f.sectr) + a.sectr
  {
    hide Pow2, Gen2Dev20, Format20, Fits20;
    Dev20IsSum(f, a);
    PowZero();
    ChunkDigits(f, a);
  }

  lemma PowZero()
    ensures Pow2(0) == 1
  {
  }

  lemma ChunkDigits(f: Lbaf, a: Addr20)
    ensures ((a.pugrp * Pow2(f.punit) + a.punit) * Pow2(f.chunk) + a.chunk) * Pow2(f.sectr)
         == a.pugrp * Pow2(f.sectr + f.chunk + f.punit) + a.punit * Pow2(f.sectr + f.chunk) + a.chunk * Pow2(f.sectr)
  {
    hide Pow2;
    var u, c, s := Pow2(f.punit), Pow2(f.chunk), Pow2(f.sectr);
    PowSum(f.sectr, f.chunk);
    PowSum(f.sectr + f.chunk, f.punit);
    assert (a.pugrp * u + a.punit) * c == a.pugrp * (u * c) + a.punit * c;
    assert (a.pugrp * (u * c)) * s == a.pugrp * ((s * c) * u);
    assert (a.punit * c) * s == a.punit * (s * c);
  }

  /** A 1.2 device address has each field at the offset the device reports for it, in
      the order channel, LUN, plane, block, page, sector. */
  lemma Dev12IsSum(a: seq<nat>, addr: Addr12)
    requires |a| == 12 && ValidFormat(Format12(a)) && Fits12(Format12(a), addr)
    ensures Gen2Dev12(Format12(a), addr)
         == addr.ch * Pow2(a[0]) + addr.lun * Pow2(a[2]) + addr.pl * Pow2(a[4])
          + addr.blk * Pow2(a[6]) + addr.pg * Pow2(a[8]) + addr.sec * Pow2(a[10])
  {
    hide Pow2, Gen2Dev12, ShiftedSum, Pack;
    var v, fmt := addr.Vals(), Format12(a);
    Gen2Dev12IsPack(fmt, addr);
    assert Fits(v, fmt);
    PackIsSum(v, fmt, 6);
    SumOfSix(v, fmt);
  }

  lemma SumOfSix(v: seq<nat>, fmt: Format)
    requires |v| == |fmt| == 6
    ensures ShiftedSum(v, fmt, 6)
         == Scaled(v[0], fmt[0].off) + Scaled(v[1], fmt[1].off) + Scaled(v[2], fmt[2].off)
          + Scaled(v[3], fmt[3].off) + Scaled(v[4], fmt[4].off) + Scaled(v[5], fmt[5].off)
  {
    hide Scaled;
    SumOfFour(v[..4], fmt[..4]);
    SumPrefix(v, fmt, 4);
    assert ShiftedSum(v, fmt, 5) == ShiftedSum(v, fmt, 4) + Scaled(v[4], fmt[4].off);
  }

  lemma {:induction false} SumPrefix(v: seq<nat>, fmt: Format, n: nat)
    requires n <= |v| && n <= |fmt|
    ensures ShiftedSum(v[..n], fmt[..n], n) == ShiftedSum(v, fmt, n)
    decreases n
  {
    if n > 0 {
      SumPrefix(v, fmt, n - 1);
      SumPrefix(v[..n], fmt[..n], n - 1);
      assert v[..n][..n - 1] == v[..n - 1] && fmt[..n][..n - 1] == fmt[..n - 1];
    }
  }
}
