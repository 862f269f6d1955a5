/** Scalar commands, which name a first address and a count, against vector
    commands, which list every address. */
module ScalarVector {
  import opened Arith
  import opened Bits
  import opened AddrCodec

  /** The device address without its sector bits. */
  function Upper(f: Lbaf, a: Addr20): nat {
    Pack(a.Vals(), Format20(f), 3)
  }

  lemma {:induction false} UpperBits(f: Lbaf, a: Addr20, n: nat, b: nat)
    requires n <= 3 && b < f.sectr
    ensures !Bit(Pack(a.Vals(), Format20(f), n), b)
    decreases n
  {
    if n == 0 {
      BitOfZero(b);
    } else {
      var v, fmt := a.Vals(), Format20(f);
      UpperBits(f, a, n - 1, b);
      BitOr(Pack(v, fmt, n - 1), Shl(v[n - 1], fmt[n - 1].off), b);
      BitShl(v[n - 1], fmt[n - 1].off, b);
    }
  }

  lemma ShlZero(x: nat)
    requires x < Pow2(64)
    ensures Shl(x, 0) == x
  {
    assert Pow2(0) == 1;
    assert x * Pow2(0) == x;
    DivModUnique(x, Pow2(64), 0, x);
  }

  /** A sector that fits its field is simply added to the rest of the address. */
  lemma DevIsSum(f: Lbaf, a: Addr20)
    requires f.sectr <= 64 && a.sectr < Pow2(f.sectr)
    ensures Gen2Dev20(f, a) == Upper(f, a) + a.sectr
  {
    Gen2DevIsPack(f, a);
    Pow2Monotone(f.sectr, 64);
    ShlZero(a.sectr);
    var v, fmt := a.Vals(), Format20(f);
    assert Pack(v, fmt, 4) == Or(Pack(v, fmt, 3), Shl(v[3], fmt[3].off));
    forall b: nat ensures !(Bit(Upper(f, a), b) && Bit(a.sectr, b)) {
      if b < f.sectr { UpperBits(f, a, 3, b); } else { HighBitsZero(a.sectr, f.sectr, b); }
    }
    OrIsSum(Upper(f, a), a.sectr);
  }

  lemma UpperIgnoresSector(f: Lbaf, a: Addr20, s: nat)
    ensures Upper(f, a) == Upper(f, a.(sectr := s))
  {
    PackPrefix(a.Vals(), a.(sectr := s).Vals(), Format20(f), 3);
  }

  lemma {:induction false} PackPrefix(v: seq<nat>, w: seq<nat>, fmt: Format, n: nat)
    requires n <= |v| && n <= |w| && n <= |fmt| && v[..n] == w[..n]
    ensures Pack(v, fmt, n) == Pack(w, fmt, n)
    decreases n
  {
    if n > 0 {
      assert v[n - 1] == v[..n][n - 1] == w[..n][n - 1] == w[n - 1];
      assert v[..n - 1] == v[..n][..n - 1] == w[..n][..n - 1] == w[..n - 1];
      PackPrefix(v, w, fmt, n - 1);
    }
  }

  lemma UpperInjective(f: Lbaf, a: Addr20, b: Addr20)
    requires ValidFormat(Format20(f)) && Fits20(f, a) && Fits20(f, b)
    requires Upper(f, a) == Upper(f, b)
    ensures a.(sectr := 0) == b.(sectr := 0)
  {
    var x, y := a.(sectr := 0), b.(sectr := 0);
    UpperIgnoresSector(f, a, 0);
    UpperIgnoresSector(f, b, 0);
    DevIsSum(f, x);
    DevIsSum(f, y);
    Gen2DevIsPack(f, x);
    Gen2DevIsPack(f, y);
    PackInjective(x.Vals(), y.Vals(), Format20(f));
    assert x.Vals()[0] == y.Vals()[0] && x.Vals()[1] == y.Vals()[1] && x.Vals()[2] == y.Vals()[2];
  }

  // ---- filling a range -------------------------------------------------------------------

  /** nvm_addr_fill_crange: consecutive sectors from `addr` on. The sector counter
      is a 32-bit field. */
  method FillCrange(addrs: array<Addr20>, addr: Addr20, naddrs: nat)
    requires 1 <= addrs.Length && naddrs <= addrs.Length && addr.sectr < Pow2(32)
    modifies addrs
    ensures forall i :: 0 <= i < naddrs ==> addrs[i] == addr.(sectr := (addr.sectr + i) % Pow2(32))
    ensures forall i :: naddrs <= i < addrs.Length && i > 0 ==> addrs[i] == old(addrs[i])
  {
    hide Pow2;
    addrs[0] := addr;
    DivModUnique(addr.sectr, Pow2(32), 0, addr.sectr);
    var i := 1;
    while i < naddrs
      invariant 1 <= i <= addrs.Length && (i <= naddrs || i == 1)
      invariant forall j :: 0 <= j < i ==> addrs[j] == addr.(sectr := (addr.sectr + j) % Pow2(32))
      invariant forall j :: i <= j < addrs.Length ==> addrs[j] == old(addrs[j])
    {
      var prev := addrs[i - 1];
      ModShift(addr.sectr + (i - 1), 1, Pow2(32));
      addrs[i] := prev.(sectr := (prev.sectr + 1) % Pow2(32));
      i := i + 1;
    }
  }

  /** For sectors inside one chunk the LBA range of a scalar command at the first
      address is the list of device addresses of the filled vector. */
  lemma CrangeIsScalarRange(f: Lbaf, addr: Addr20, n: nat, i: nat)
    requires f.sectr <= 32 && i < n && addr.sectr + n <= Pow2(f.sectr)
    ensures Gen2Dev20(f, addr.(sectr := (addr.sectr + i) % Pow2(32))) == Gen2Dev20(f, addr) + i
  {
    hide Pow2, Gen2Dev20, Upper;
    Pow2Monotone(f.sectr, 32);
    var s := addr.sectr + i;
    DivModUnique(s, Pow2(32), 0, s);
    DevIsSum(f, addr);
    DevIsSum(f, addr.(sectr := s));
    UpperIgnoresSector(f, addr, s);
  }

  // ---- turning a vector into a scalar command ----------------------------------------------

  ghost predicate Contiguous(addrs: seq<Addr20>) {
    forall i :: 1 <= i < |addrs| ==> addrs[i].sectr == addrs[i - 1].sectr + 1
  }

  /** The check the backend without Open-Channel support makes before it sends a
      vector as one scalar command: it looks at sectors only. */
  method IsContig(addrs: seq<Addr20>) returns (contig: bool)
    ensures contig <==> Contiguous(addrs)
  {
    contig := true;
    var i := 1;
    while i < |addrs| && contig
      invariant 1 <= i && (|addrs| == 0 || i <= |addrs|)
      invariant contig ==> forall j :: 1 <= j < i && j < |addrs| ==> addrs[j].sectr == addrs[j - 1].sectr + 1
      invariant !contig ==> exists j :: 1 <= j < |addrs| && addrs[j].sectr != addrs[j - 1].sectr + 1
    {
      contig := addrs[i].sectr == addrs[i - 1].sectr + 1;
      i := i + 1;
    }
  }

  lemma {:induction false} SectorFromFirst(addrs: seq<Addr20>, i: nat)
    requires Contiguous(addrs) && i < |addrs|
    ensures addrs[i].sectr == addrs[0].sectr + i
    decreases i
  {
    if i > 0 { SectorFromFirst(addrs, i - 1); }
  }

  ghost predicate SameChunk(a: Addr20, b: Addr20) {
    a.pugrp == b.pugrp && a.punit == b.punit && a.chunk == b.chunk
  }

  /** A contiguous vector sent as one scalar command reaches the listed addresses
      exactly when they all lie in the chunk of the first. */
  lemma ScalarPreservesVectorIff(f: Lbaf, addrs: seq<Addr20>)
    requires ValidFormat(Format20(f)) && |addrs| > 0 && Contiguous(addrs)
    requires forall i :: 0 <= i < |addrs| ==> Fits20(f, addrs[i])
    ensures (forall i :: 0 <= i < |addrs| ==> Gen2Dev20(f, addrs[i]) == Gen2Dev20(f, addrs[0]) + i)
       <==> (forall i :: 0 <= i < |addrs| ==> SameChunk(addrs[i], addrs[0]))
  {
    forall i | 0 <= i < |addrs|
      ensures Gen2Dev20(f, addrs[i]) == Gen2Dev20(f, addrs[0]) + i <==> SameChunk(addrs[i], addrs[0])
    {
      OneScalarAddress(f, addrs, i);
    }
  }

  lemma OneScalarAddress(f: Lbaf, addrs: seq<Addr20>, i: nat)
    requires ValidFormat(Format20(f)) && Contiguous(addrs) && i < |addrs|
    requires Fits20(f, addrs[0]) && Fits20(f, addrs[i])
    ensures Gen2Dev20(f, addrs[i]) == Gen2Dev20(f, addrs[0]) + i <==> SameChunk(addrs[i], addrs[0])
  {
    var a, b := addrs[i], addrs[0];
    SectorFromFirst(addrs, i);
    assert InWord(Format20(f)[3]);
    DevIsSum(f, a);
    DevIsSum(f, b);
    hide Gen2Dev20, Pow2;
    if Upper(f, a) == Upper(f, b) {
      UpperInjective(f, a, b);
    }
    if SameChunk(a, b) {
      UpperIgnoresSector(f, a, b.sectr);
      assert a.(sectr := b.sectr) == b;
    }
  }

  /** Sector 0 of chunk 0 followed by sector 1 of chunk 1 passes the check, but the
      scalar command would reach sector 1 of chunk 0. */
  lemma ContigAcrossChunks(f: Lbaf)
    requires ValidFormat(Format20(f)) && f.sectr >= 1 && f.chunk >= 1
    ensures var addrs := [Addr20(0, 0, 0, 0), Addr20(0, 0, 1, 1)];
            && Contiguous(addrs)
            && Gen2Dev20(f, addrs[1]) != Gen2Dev20(f, addrs[0]) + 1
            && Gen2Dev20(f, Addr20(0, 0, 0, 1)) == Gen2Dev20(f, addrs[0]) + 1
  {
    hide Gen2Dev20;
    var a, b, c := Addr20(0, 0, 0, 0), Addr20(0, 0, 1, 1), Addr20(0, 0, 0, 1);
    Pow2Monotone(1, f.sectr);
    Pow2Monotone(1, f.chunk);
    Pow2Monotone(0, f.pugrp);
    Pow2Monotone(0, f.punit);
    assert Pow2(0) == 1 && Pow2(1) == 2;
    OneScalarAddress(f, [a, b], 1);
    OneScalarAddress(f, [a, c], 1);
  }

  // ---- the address of a scalar command on the wire -----------------------------------------------

  /** The starting LBA split over two command dwords. */
  function Cdw10(slba: nat): nat { slba % Pow2(32) }

  function Cdw11(slba: nat): nat { Shr(slba, 32) % Pow2(32) }

  lemma LbaSplitRoundTrip(slba: nat)
    requires slba < Pow2(64)
    ensures Cdw10(slba) < Pow2(32) && Cdw11(slba) < Pow2(32)
    ensures Cdw10(slba) + Cdw11(slba) * Pow2(32) == slba
  {
    hide Pow2;
    DivBelowPow(slba, 32, 32);
    DivModUnique(Shr(slba, 32), Pow2(32), 0, Shr(slba, 32));
  }
}
