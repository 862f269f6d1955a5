/** The chunk report of an Open-Channel SSD 2.0 device: its layout as a log page,
    its retrieval in slices, and the selection of chunks by state. */
module Report {
  import opened Arith
  import opened Bits
  import opened Device

  const DESCR_NBYTES: nat := 32
  const SLICE_NDESCR: nat := 512   // 0x1000 * 4 / 32

  datatype Geo20 = Geo20(npugrp: nat, npunit: nat, nchunk: nat) {
    ghost predicate Valid() { npugrp > 0 && npunit > 0 && nchunk > 0 }
    function Tchunks(): nat { nchunk * npunit * npugrp }
  }

  datatype ChunkAddr = ChunkAddr(pugrp: nat, punit: nat, chunk: nat)

  ghost predicate InGeo(geo: Geo20, a: ChunkAddr) {
    a.pugrp < geo.npugrp && a.punit < geo.npunit && a.chunk < geo.nchunk
  }

  // ---- position of a chunk in the log page ---------------------------------------------

  function Index(geo: Geo20, a: ChunkAddr): nat {
    (a.pugrp * geo.npunit + a.punit) * geo.nchunk + a.chunk
  }

  function Gen2Lpo(geo: Geo20, a: ChunkAddr): nat {
    (a.pugrp * geo.npunit * geo.nchunk + a.punit * geo.nchunk + a.chunk) * DESCR_NBYTES
  }

  function Lpo2Gen(geo: Geo20, lpo: nat): ChunkAddr
    requires geo.npugrp > 0 && geo.npunit > 0 && geo.nchunk > 0
  {
    var i := lpo / DESCR_NBYTES;
    ChunkAddr(((i / geo.nchunk) / geo.npunit) % geo.npugrp, (i / geo.nchunk) % geo.npunit, i % geo.nchunk)
  }

  lemma LpoIsIndex(geo: Geo20, a: ChunkAddr)
    ensures Gen2Lpo(geo, a) == Index(geo, a) * DESCR_NBYTES
  {
    assert (a.pugrp * geo.npunit + a.punit) * geo.nchunk == a.pugrp * geo.npunit * geo.nchunk + a.punit * geo.nchunk;
  }

  /** Descriptors of 32 bytes, chunk by chunk, then parallel unit by parallel unit,
      then group by group. */
  lemma LpoLayout(geo: Geo20, a: ChunkAddr)
    ensures Gen2Lpo(geo, ChunkAddr(0, 0, 0)) == 0
    ensures Gen2Lpo(geo, a.(chunk := a.chunk + 1)) == Gen2Lpo(geo, a) + 32
    ensures Gen2Lpo(geo, a.(punit := a.punit + 1)) == Gen2Lpo(geo, a) + geo.nchunk * 32
    ensures Gen2Lpo(geo, a.(pugrp := a.pugrp + 1)) == Gen2Lpo(geo, a) + geo.npunit * geo.nchunk * 32
  {
    LpoIsIndex(geo, ChunkAddr(0, 0, 0));
    LpoIsIndex(geo, a);
    LpoIsIndex(geo, a.(chunk := a.chunk + 1));
    LpoIsIndex(geo, a.(punit := a.punit + 1));
    LpoIsIndex(geo, a.(pugrp := a.pugrp + 1));
    var j := a.pugrp * geo.npunit + a.punit;
    assert (j + 1) * geo.nchunk == j * geo.nchunk + geo.nchunk;
    assert (a.pugrp + 1) * geo.npunit == a.pugrp * geo.npunit + geo.npunit;
    assert (j + geo.npunit) * geo.nchunk == j * geo.nchunk + geo.npunit * geo.nchunk;
  }

  /** Every chunk address comes back from its log-page offset. */
  lemma LpoRoundTrip(geo: Geo20, a: ChunkAddr)
    requires geo.Valid() && InGeo(geo, a)
    ensures Lpo2Gen(geo, Gen2Lpo(geo, a)) == a
  {
    var j := a.pugrp * geo.npunit + a.punit;
    LpoIsIndex(geo, a);
    DivModUnique(Gen2Lpo(geo, a), DESCR_NBYTES, Index(geo, a), 0);
    DivModUnique(Index(geo, a), geo.nchunk, j, a.chunk);
    DivModUnique(j, geo.npunit, a.pugrp, a.punit);
    DivModUnique(a.pugrp, geo.npugrp, 0, a.pugrp);
  }

  /** Every descriptor offset of the log page comes back from its chunk address. */
  lemma LpoRoundTripBack(geo: Geo20, i: nat)
    requires geo.Valid() && i < geo.Tchunks()
    ensures InGeo(geo, Lpo2Gen(geo, i * DESCR_NBYTES))
    ensures Gen2Lpo(geo, Lpo2Gen(geo, i * DESCR_NBYTES)) == i * DESCR_NBYTES
  {
    DivModUnique(i * DESCR_NBYTES, DESCR_NBYTES, i, 0);
    var j := i / geo.nchunk;
    assert geo.nchunk * geo.npunit * geo.npugrp == (geo.npugrp * geo.npunit) * geo.nchunk;
    DivBelow(i, geo.npugrp * geo.npunit, geo.nchunk);
    DivBelow(j, geo.npugrp, geo.npunit);
    DivModUnique(j / geo.npunit, geo.npugrp, 0, j / geo.npunit);
    var a := Lpo2Gen(geo, i * DESCR_NBYTES);
    assert a.pugrp * geo.npunit + a.punit == j;
    LpoIsIndex(geo, a);
  }

  // ---- Get Log Page ------------------------------------------------------------------------

  /** The command dwords of one slice. */
  datatype LogCmd = LogCmd(cdw10: nat, cdw11: nat, cdw12: nat, cdw13: nat, dataLen: nat)

  /** Dword count, zero-based and split, and byte offset, split, as section 5.14 of
      NVM Express 1.3 lays them out. */
  function Encode(dataLen: nat, lpo: nat): LogCmd
    requires dataLen >= 4
  {
    var numd := dataLen / 4 - 1;
    var numdu, numdl := (numd / 0x1_0000) % 0x1_0000, numd % 0x1_0000;
    LogCmd(Or(0xCA, numdl * 0x1_0000), numdu, lpo % 0x1_0000_0000, (lpo / 0x1_0000_0000) % 0x1_0000_0000, dataLen)
  }

  /** What the device makes of the dwords. */
  function DecodeLen(c: LogCmd): nat { ((c.cdw10 / 0x1_0000) % 0x1_0000 + c.cdw11 * 0x1_0000 + 1) * 4 }

  function DecodeLpo(c: LogCmd): nat { c.cdw12 + c.cdw13 * 0x1_0000_0000 }

  function DecodeLid(c: LogCmd): nat { c.cdw10 % 0x100 }

  lemma {:induction false} OrLow(lo: nat, hi: nat, k: nat)
    requires lo < Pow2(k)
    ensures Or(lo, hi * Pow2(k)) == lo + hi * Pow2(k)
  {
    forall i: nat ensures !(Bit(lo, i) && Bit(hi * Pow2(k), i)) {
      BitMul(hi, k, i);
      if i >= k { HighBitsZero(lo, k, i); }
    }
    OrIsSum(lo, hi * Pow2(k));
  }

  lemma Pow2Of16()
    ensures Pow2(16) == 0x1_0000
  {
    assert Pow2(4) == 16;
    assert Pow2(8) == 256;
    assert Pow2(12) == 4096;
  }

  /** The encoded slice decodes to the slice, for any length of whole dwords up to
      2^34 bytes and any 64-bit offset. */
  lemma EncodeRoundTrip(dataLen: nat, lpo: nat)
    requires 4 <= dataLen <= 0x4_0000_0000 && dataLen % 4 == 0 && lpo < 0x1_0000_0000_0000_0000
    ensures var c := Encode(dataLen, lpo);
            DecodeLid(c) == 0xCA && DecodeLen(c) == dataLen && DecodeLpo(c) == lpo
  {
    hide Encode, DecodeLen, DecodeLid, DecodeLpo;
    EncodeLen(dataLen, lpo);
    EncodeLpo(dataLen, lpo);
  }

  lemma EncodeLen(dataLen: nat, lpo: nat)
    requires 4 <= dataLen <= 0x4_0000_0000 && dataLen % 4 == 0
    ensures DecodeLid(Encode(dataLen, lpo)) == 0xCA && DecodeLen(Encode(dataLen, lpo)) == dataLen
  {
    hide Or;
    var numd := dataLen / 4 - 1;
    Cdw10Is(numd % 0x1_0000);
    DwordCount(dataLen, numd);
  }

  lemma EncodeLpo(dataLen: nat, lpo: nat)
    requires dataLen >= 4 && lpo < 0x1_0000_0000_0000_0000
    ensures DecodeLpo(Encode(dataLen, lpo)) == lpo
  {
    hide Or;
    var hi := lpo / 0x1_0000_0000;
    assert hi % 0x1_0000_0000 == hi;
  }

  lemma Cdw10Is(numdl: nat)
    requires numdl < 0x1_0000
    ensures var c := Or(0xCA, numdl * 0x1_0000); c % 0x100 == 0xCA && (c / 0x1_0000) % 0x1_0000 == numdl
  {
    hide Or;
    Cdw10Sum(numdl);
    SplitDword(0xCA + numdl * 0x1_0000, numdl);
  }

  lemma SplitDword(c: nat, numdl: nat)
    requires numdl < 0x1_0000 && c == 0xCA + numdl * 0x1_0000
    ensures c % 0x100 == 0xCA && (c / 0x1_0000) % 0x1_0000 == numdl
  {
  }

  lemma DwordCount(dataLen: nat, numd: nat)
    requires 4 <= dataLen <= 0x4_0000_0000 && dataLen % 4 == 0 && numd == dataLen / 4 - 1
    ensures (numd % 0x1_0000 + ((numd / 0x1_0000) % 0x1_0000) * 0x1_0000 + 1) * 4 == dataLen
  {
  }

  /** The dwords themselves: log page 0xCA in the low byte of dword 10, the
      zero-based dword count with its low half in the high half of dword 10 and its
      high half in dword 11, the byte offset in dwords 12 and 13, low part first. */
  lemma EncodeLayout(dataLen: nat, lpo: nat)
    requires 4 <= dataLen <= 0x4_0000_0000 && dataLen % 4 == 0 && lpo < 0x1_0000_0000_0000_0000
    ensures var c := Encode(dataLen, lpo);
            && c.dataLen == dataLen
            && c.cdw10 % 0x1_0000 == 0xCA && c.cdw10 < 0x1_0000_0000 && c.cdw11 < 0x1_0000
            && c.cdw10 / 0x1_0000 + c.cdw11 * 0x1_0000 == dataLen / 4 - 1
            && c.cdw12 < 0x1_0000_0000 && c.cdw13 < 0x1_0000_0000
            && c.cdw12 + c.cdw13 * 0x1_0000_0000 == lpo
  {
    hide Or;
    var numd := dataLen / 4 - 1;
    Cdw10Sum(numd % 0x1_0000);
    EncodeLpo(dataLen, lpo);
  }

  lemma Cdw10Sum(numdl: nat)
    requires numdl < 0x1_0000
    ensures Or(0xCA, numdl * 0x1_0000) == 0xCA + numdl * 0x1_0000
  {
    hide Or, Pow2;
    Pow2Of16();
    assert 0xCA < Pow2(16);
    OrLow(0xCA, numdl, 16);
  }

  /** The log page content a command transfers. */
  function Transferred(log: seq<Byte>, c: LogCmd): seq<Byte>
    requires DecodeLpo(c) + DecodeLen(c) <= |log|
  {
    log[DecodeLpo(c)..DecodeLpo(c) + DecodeLen(c)]
  }

  lemma SliceIs(log: seq<Byte>, dataLen: nat, lpo: nat)
    requires 4 <= dataLen <= 0x4_0000_0000 && dataLen % 4 == 0 && lpo + dataLen <= |log| < 0x1_0000_0000_0000_0000
    ensures var c := Encode(dataLen, lpo);
            && DecodeLpo(c) + DecodeLen(c) <= |log|
            && Transferred(log, c) == log[lpo..lpo + dataLen]
  {
    hide Encode, DecodeLpo, DecodeLen;
    EncodeRoundTrip(dataLen, lpo);
  }

  /** Command `k` asks for descriptors k * 512 up to (k + 1) * 512, or up to the
      last one, of those from byte `lpoOff` on. */
  ghost predicate Slice(c: LogCmd, lpoOff: nat, ndescr: nat, k: nat) {
    var from := k * SLICE_NDESCR;
    var to := if from + SLICE_NDESCR < ndescr then from + SLICE_NDESCR else ndescr;
    && DecodeLid(c) == 0xCA
    && DecodeLpo(c) == lpoOff + from * DESCR_NBYTES
    && DecodeLpo(c) + DecodeLen(c) == lpoOff + to * DESCR_NBYTES
  }

  lemma SliceEncoded(lpoOff: nat, ndescr: nat, k: nat, count: nat)
    requires k * SLICE_NDESCR < ndescr < 0x8000_0000
    requires count == if SLICE_NDESCR < ndescr - k * SLICE_NDESCR then SLICE_NDESCR else ndescr - k * SLICE_NDESCR
    requires lpoOff + ndescr * DESCR_NBYTES < 0x1_0000_0000_0000_0000
    ensures Slice(Encode(count * DESCR_NBYTES, lpoOff + k * SLICE_NDESCR * DESCR_NBYTES), lpoOff, ndescr, k)
  {
    hide Encode, DecodeLid, DecodeLpo, DecodeLen;
    EncodeRoundTrip(count * DESCR_NBYTES, lpoOff + k * SLICE_NDESCR * DESCR_NBYTES);
  }

  /** Retrieve `ndescr` descriptors from byte `lpoOff` on, 512 at a time, into a
      zeroed report; the device fails the commands in `faults`. The commands tile
      the range, and the report, delivered exactly when none of them fails, equals
      that range of the device's log. */
  method FetchReport(log: seq<Byte>, lpoOff: nat, ndescr: nat, faults: set<nat>)
    returns (ok: bool, descr: seq<Byte>, cmds: seq<LogCmd>)
    requires lpoOff + ndescr * DESCR_NBYTES <= |log| < 0x1_0000_0000_0000_0000
    requires ndescr < 0x8000_0000
    ensures ok ==> descr == log[lpoOff..lpoOff + ndescr * DESCR_NBYTES]
    ensures ok <==> forall k: nat :: k * SLICE_NDESCR < ndescr ==> k !in faults
    ensures forall k :: 0 <= k < |cmds| ==> k * SLICE_NDESCR < ndescr && Slice(cmds[k], lpoOff, ndescr, k)
    ensures ok ==> |cmds| * SLICE_NDESCR >= ndescr
  {
    hide Encode, DecodeLpo, DecodeLen, Transferred, Slice, Filled;
    descr, cmds := seq(ndescr * DESCR_NBYTES, _ => 0), [];
    NothingFilled(descr, log, lpoOff);
    var i := 0;
    while i < ndescr
      invariant |descr| == ndescr * DESCR_NBYTES && i == |cmds| * SLICE_NDESCR
      invariant Filled(descr, log, lpoOff, (if i < ndescr then i else ndescr) * DESCR_NBYTES)
      invariant forall k :: 0 <= k < |cmds| ==> k !in faults && k * SLICE_NDESCR < ndescr && Slice(cmds[k], lpoOff, ndescr, k)
      decreases ndescr - i
    {
      var count := if SLICE_NDESCR < ndescr - i then SLICE_NDESCR else ndescr - i;
      var dataLen := count * DESCR_NBYTES;
      var lpo := lpoOff + i * DESCR_NBYTES;
      var c := Encode(dataLen, lpo);
      SliceEncoded(lpoOff, ndescr, |cmds|, count);
      SliceIs(log, dataLen, lpo);
      cmds := cmds + [c];
      if |cmds| - 1 in faults { return false, [], cmds; }
      var got := Transferred(log, c);
      descr := Splice(descr, i * DESCR_NBYTES, got, log, lpoOff);
      i := i + SLICE_NDESCR;
    }
    FilledWhole(descr, log, lpoOff);
    return true, descr, cmds;
  }

  /** The first `at` bytes of the report are those of the log from `lpoOff` on. */
  ghost predicate Filled(descr: seq<Byte>, log: seq<Byte>, lpoOff: nat, at: nat) {
    at <= |descr| && lpoOff + at <= |log| && descr[..at] == log[lpoOff..lpoOff + at]
  }

  lemma NothingFilled(descr: seq<Byte>, log: seq<Byte>, lpoOff: nat)
    requires lpoOff <= |log|
    ensures Filled(descr, log, lpoOff, 0)
  {
  }

  lemma FilledWhole(descr: seq<Byte>, log: seq<Byte>, lpoOff: nat)
    requires Filled(descr, log, lpoOff, |descr|)
    ensures lpoOff + |descr| <= |log| && descr == log[lpoOff..lpoOff + |descr|]
  {
    assert descr[..|descr|] == descr;
  }

  /** Put `got` at byte `at` of the report. */
  function Splice(descr: seq<Byte>, at: nat, got: seq<Byte>, ghost log: seq<Byte>, ghost lpoOff: nat): (r: seq<Byte>)
    requires at + |got| <= |descr| && lpoOff + at + |got| <= |log|
    requires Filled(descr, log, lpoOff, at) && got == log[lpoOff + at..lpoOff + at + |got|]
    ensures |r| == |descr| && Filled(r, log, lpoOff, at + |got|)
  {
    var r := descr[..at] + got + descr[at + |got|..];
    assert r[..at + |got|] == descr[..at] + got;
    r
  }

  // ---- choosing chunks by state -----------------------------------------------------------------

  /** The parallel unit number `k`: groups vary fastest. */
  function UnitOf(geo: Geo20, k: nat): (nat, nat)
    requires geo.npugrp > 0 && geo.npunit > 0
  {
    (k % geo.npugrp, (k / geo.npugrp) % geo.npunit)
  }

  lemma UnitsDistinct(geo: Geo20, j: nat, k: nat)
    requires geo.Valid() && j < geo.npugrp * geo.npunit && k < geo.npugrp * geo.npunit && j != k
    ensures UnitOf(geo, j) != UnitOf(geo, k)
  {
    UnitBack(geo, j);
    UnitBack(geo, k);
  }

  lemma UnitBack(geo: Geo20, k: nat)
    requires geo.Valid() && k < geo.npugrp * geo.npunit
    ensures UnitOf(geo, k).1 * geo.npugrp + UnitOf(geo, k).0 == k
  {
    assert geo.npugrp * geo.npunit == geo.npunit * geo.npugrp;
    DivBelow(k, geo.npunit, geo.npugrp);
    DivModUnique(k / geo.npugrp, geo.npunit, 0, k / geo.npugrp);
  }

  /** The report of a unit is usable and lists a chunk in state `cs`. */
  ghost predicate HasChunk(rprt: Option<seq<int>>, nchunk: nat, cs: int) {
    rprt.Some? && |rprt.value| == nchunk && cs in rprt.value
  }

  /** Position `i` of a scan of `n` entries that starts at `arb` and wraps. */
  function Rotated(arb: nat, n: nat, i: nat): (r: nat)
    requires n > 0
    ensures r < n
  {
    (i + arb) % n
  }

  lemma RotationCovers(arb: nat, n: nat, k: nat) returns (i: nat)
    requires k < n
    ensures i < n && Rotated(arb, n, i) == k
  {
    var a := arb % n;
    i := if k >= a then k - a else k + n - a;
    ModShift(arb, i, n);
    if k >= a { DivModUnique(a + i, n, 0, k); } else { DivModUnique(a + i, n, 1, k); }
    assert a + i == i + a && arb + i == i + arb;
  }

  /** `at` is the first entry in state `cs` of a scan that starts at `arb` and wraps. */
  ghost predicate FirstFrom(states: seq<int>, cs: int, arb: nat, at: nat) {
    && at < |states| && states[at] == cs
    && exists i :: 0 <= i < |states| && at == (i + arb) % |states| && NotBefore(states, cs, arb, i)
  }

  ghost predicate NotBefore(states: seq<int>, cs: int, arb: nat, i: nat)
    requires |states| > 0
  {
    forall j: nat :: j < i ==> states[Rotated(arb, |states|, j)] != cs
  }

  /** Scan one unit's report from a random start: a chunk in state `cs` is found
      exactly when there is one, and it is the first from there on. */
  method FindChunk(states: seq<int>, cs: int, arb: nat) returns (found: bool, at: nat)
    ensures found <==> cs in states
    ensures found ==> FirstFrom(states, cs, arb, at)
  {
    found, at := false, 0;
    var n := |states|;
    var i := 0;
    while i < n
      invariant 0 <= i <= n
      invariant forall j: nat :: j < i ==> Rotated(arb, n, j) < n && states[Rotated(arb, n, j)] != cs
    {
      var cur := (i + arb) % n;
      assert cur == Rotated(arb, n, i);
      if states[cur] == cs {
        assert NotBefore(states, cs, arb, i);
        return true, cur;
      }
      i := i + 1;
    }
    forall k | 0 <= k < n ensures states[k] != cs {
      var j := RotationCovers(arb, n, k);
      assert states[Rotated(arb, n, j)] != cs;
    }
  }

  /** nvm_cmd_rprt_arbs: one chunk in state `cs` on each of `naddrs` parallel units,
      starting the scans at `arb`. It succeeds exactly when the number is in range
      and each of the first `naddrs` units has a usable report with such a chunk;
      then the chunks are in that state and on pairwise different units, the first
      on unit `arb` modulo `naddrs` and so on around, and on each unit the first such
      chunk from `arb` on. */
  method RprtArbs(geo: Geo20, rprt: (nat, nat) -> Option<seq<int>>, cs: int, naddrs: int, arb: nat)
    returns (ok: bool, addrs: seq<ChunkAddr>)
    requires geo.Valid()
    ensures ok <==> 0 <= naddrs <= geo.npugrp * geo.npunit
                    && forall k: nat :: k < naddrs ==> HasChunk(rprt(UnitOf(geo, k).0, UnitOf(geo, k).1), geo.nchunk, cs)
    ensures ok ==> |addrs| == naddrs
    ensures ok ==> forall i :: 0 <= i < |addrs| ==>
              var r := rprt(addrs[i].pugrp, addrs[i].punit);
              r.Some? && addrs[i].chunk < |r.value| && r.value[addrs[i].chunk] == cs
    ensures ok ==> forall i, j :: 0 <= i < j < |addrs| ==>
              (addrs[i].pugrp, addrs[i].punit) != (addrs[j].pugrp, addrs[j].punit)
    ensures ok ==> forall i :: 0 <= i < |addrs| ==>
              && (addrs[i].pugrp, addrs[i].punit) == UnitOf(geo, (i + arb) % naddrs)
              && FirstFrom(rprt(addrs[i].pugrp, addrs[i].punit).value, cs, arb, addrs[i].chunk)
  {
    addrs := [];
    if naddrs < 0 || naddrs > geo.npugrp * geo.npunit { return false, addrs; }
    var idx := 0;
    while idx < naddrs
      invariant 0 <= idx <= naddrs && |addrs| == idx
      invariant forall i :: 0 <= i < idx ==> Picked(geo, rprt, cs, addrs[i], Rotated(arb, naddrs, i))
      invariant forall i :: 0 <= i < idx ==> FirstFrom(rprt(addrs[i].pugrp, addrs[i].punit).value, cs, arb, addrs[i].chunk)
    {
      var cur := (idx + arb) % naddrs;
      assert cur == Rotated(arb, naddrs, idx);
      var u := UnitOf(geo, cur);
      var r := rprt(u.0, u.1);
      if r.None? || |r.value| != geo.nchunk {
        assert !HasChunk(rprt(UnitOf(geo, cur).0, UnitOf(geo, cur).1), geo.nchunk, cs);
        return false, addrs;
      }
      var found, at := FindChunk(r.value, cs, arb);
      if !found {
        assert !HasChunk(rprt(UnitOf(geo, cur).0, UnitOf(geo, cur).1), geo.nchunk, cs);
        return false, addrs;
      }
      addrs := addrs + [ChunkAddr(u.0, u.1, at)];
      idx := idx + 1;
    }
    PickedAll(geo, rprt, cs, addrs, naddrs, arb);
    return true, addrs;
  }

  /** Chunk `a` was chosen on unit number `k`. */
  ghost predicate Picked(geo: Geo20, rprt: (nat, nat) -> Option<seq<int>>, cs: int, a: ChunkAddr, k: nat)
    requires geo.Valid()
  {
    var u := UnitOf(geo, k);
    && u == (a.pugrp, a.punit) && HasChunk(rprt(u.0, u.1), geo.nchunk, cs)
    && a.chunk < geo.nchunk && rprt(u.0, u.1).value[a.chunk] == cs
  }

  lemma PickedAll(geo: Geo20, rprt: (nat, nat) -> Option<seq<int>>, cs: int, addrs: seq<ChunkAddr>, naddrs: nat, arb: nat)
    requires geo.Valid() && naddrs <= geo.npugrp * geo.npunit && |addrs| == naddrs
    requires forall i :: 0 <= i < naddrs ==> Picked(geo, rprt, cs, addrs[i], Rotated(arb, naddrs, i))
    ensures forall k: nat :: k < naddrs ==> HasChunk(rprt(UnitOf(geo, k).0, UnitOf(geo, k).1), geo.nchunk, cs)
    ensures forall i, j :: 0 <= i < j < |addrs| ==>
              (addrs[i].pugrp, addrs[i].punit) != (addrs[j].pugrp, addrs[j].punit)
  {
    forall k: nat | k < naddrs ensures HasChunk(rprt(UnitOf(geo, k).0, UnitOf(geo, k).1), geo.nchunk, cs) {
      var i := RotationCovers(arb, naddrs, k);
      assert Picked(geo, rprt, cs, addrs[i], Rotated(arb, naddrs, i));
    }
    forall i, j | 0 <= i < j < |addrs|
      ensures (addrs[i].pugrp, addrs[i].punit) != (addrs[j].pugrp, addrs[j].punit)
    {
      var a, b := Rotated(arb, naddrs, i), Rotated(arb, naddrs, j);
      if a == b { CongruentClose(i + arb, j + arb, naddrs); }
      assert Picked(geo, rprt, cs, addrs[i], a) && Picked(geo, rprt, cs, addrs[j], b);
      UnitsDistinct(geo, a, b);
    }
  }
}
