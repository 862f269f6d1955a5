/** The virtual block operations on an Open-Channel SSD 1.2 device: super pages
    across all planes, several of them per command. */
module Vblk12 {
  import opened Arith
  import opened Device
  import opened Striping
  import opened Layouts
  import opened Vblk

  /** Address `i` of a command: block, page, plane and sector, and with them the
      place in the block's programming order. Inside a super page plane follows
      plane. */
  method S12Sector(blks: seq<nat>, geo: Geo12, off: nat, i: nat, s: nat) returns (addr: SecAddr, page: PageAddr)
    requires geo.Valid() && geo.Spage() > 0 && |blks| > 0
    requires off + i / geo.Spage() < geo.npages * |blks|
    requires s == off * geo.Spage() + i
    ensures addr == Resolve(blks, geo.Spage(), s)
    ensures InBlock(geo, |blks|, page) && PlaneMajor(geo, i, page)
    ensures addr.chunk == blks[page.blk] && addr.sectr == page.pg * geo.Spage() + (page.pl * geo.nsectors + page.sec)
  {
    S12IsStriping(geo, |blks|, off, i);
    S12IsPlaneMajor(geo, |blks|, off, i);
    hide Linear, Place, PlaneMajor;
    var spg := off + i / geo.Spage();
    var idx := spg % |blks|;
    var pg := (spg / |blks|) % geo.npages;
    var pl := (i / geo.nsectors) % geo.nplanes;
    var sec := i % geo.nsectors;
    page := PageAddr(idx, pg, pl, sec);
    LinearIs(geo, page);
    addr := SecAddr(blks[idx], Linear(geo, page).sectr);
  }

  lemma LinearIs(geo: Geo12, a: PageAddr)
    ensures Linear(geo, a).chunk == a.blk && Linear(geo, a).sectr == a.pg * geo.Spage() + (a.pl * geo.nsectors + a.sec)
  {
  }

  /** Where address `i` of a command points, as (block, page, plane, sector) and as a
      place on the device. */
  ghost predicate Points(blks: seq<nat>, geo: Geo12, i: nat, page: PageAddr, addr: SecAddr) {
    && InBlock(geo, |blks|, page) && PlaneMajor(geo, i, page)
    && addr.chunk == blks[page.blk] && addr.sectr == page.pg * geo.Spage() + (page.pl * geo.nsectors + page.sec)
  }

  /** The address array of the command on super pages off .. off + nspages. */
  method FillS12(blks: seq<nat>, geo: Geo12, off: nat, nspages: nat, base: nat, naddrs: nat)
    returns (addrs: array<SecAddr>, pages: array<PageAddr>)
    requires geo.Valid() && geo.Spage() > 0 && |blks| > 0
    requires off + nspages <= geo.npages * |blks|
    requires base == off * geo.Spage() && naddrs == nspages * geo.Spage()
    ensures fresh(addrs) && addrs[..] == Range(blks, geo.Spage(), base, naddrs)
    ensures fresh(pages) && pages.Length == naddrs == addrs.Length
    ensures forall i :: 0 <= i < naddrs ==> Points(blks, geo, i, pages[i], addrs[i])
  {
    hide Resolve, PlaneMajor, InBlock;
    var sp := geo.Spage();
    addrs, pages := new SecAddr[naddrs], new PageAddr[naddrs];
    var i := 0;
    while i < naddrs
      invariant 0 <= i <= naddrs
      invariant forall j :: 0 <= j < i ==> addrs[j] == Resolve(blks, sp, base + j)
      invariant forall j :: 0 <= j < i ==> Points(blks, geo, j, pages[j], addrs[j])
    {
      DivBelow(i, nspages, sp);
      var addr, page := S12Sector(blks, geo, off, i, base + i);
      addrs[i], pages[i] := addr, page;
      i := i + 1;
    }
  }

  // ---- loop bookkeeping in super pages -------------------------------------------

  lemma CommandSize(naddrsMax: nat, sp: nat, per: nat, nspages: nat)
    requires sp > 0 && naddrsMax <= NADDR_MAX && per <= naddrsMax / sp && nspages <= per
    ensures nspages * sp <= NADDR_MAX
  {
    MulLe(nspages, naddrsMax / sp, sp);
  }

  lemma SpagesToSectors(a: nat, b: nat, sp: nat)
    requires a <= b
    ensures a * sp <= b * sp && (b - a) * sp == b * sp - a * sp
  {
    MulLe(a, b, sp);
  }

  /** Super page `off` of `n` is where `k` commands of `per` super pages lead. */
  ghost predicate Rounds(k: nat, per: nat, off: nat, n: nat) {
    && (off < n ==> off == k * per)
    && (off >= n ==> n <= k * per && (k == 0 || (k - 1) * per < n))
  }

  lemma RoundsNext(k: nat, per: nat, off: nat, n: nat, nspages: nat)
    requires off < n && Rounds(k, per, off, n) && nspages == if per < n - off then per else n - off
    ensures Rounds(k + 1, per, off + nspages, n)
  {
    assert (k + 1) * per == k * per + per;
  }

  lemma RoundsEnd(k: nat, per: nat, n: nat, sp: nat)
    requires per > 0 && sp > 0 && per * sp > 0 && Rounds(k, per, n, n)
    ensures k == CommandCount(n * sp, per * sp)
  {
    CutEnds(n, per, k);
    SameCount(n, per, sp);
  }

  lemma CutNextSpages(blks: seq<nat>, sp: nat, base: nat, n: nat, per: nat, k: nat, off: nat, nspages: nat)
    requires |blks| > 0 && sp > 0 && per > 0 && off < n && Rounds(k, per, off, n)
    requires nspages == if per < n - off then per else n - off
    ensures Cut(blks, sp, base, n * sp, per * sp, k + 1)
         == Cut(blks, sp, base, n * sp, per * sp, k) + [Range(blks, sp, base + off * sp, nspages * sp)]
  {
    hide Cut, Range;
    RoundSectors(k, per, off, sp);
    SpageLen(off, nspages, n, per, sp);
    var m, c, at, len := n * sp, per * sp, off * sp, nspages * sp;
    CutNext(blks, sp, base, m, c, k, at, len);
  }

  lemma RoundSectors(k: nat, per: nat, off: nat, sp: nat)
    requires off == k * per
    ensures k * (per * sp) == off * sp
  {
    assert k * (per * sp) == (k * per) * sp;
  }

  lemma SpageLen(off: nat, nspages: nat, n: nat, per: nat, sp: nat)
    requires sp > 0 && off < n && nspages == if per < n - off then per else n - off
    ensures off * sp <= n * sp
    ensures nspages * sp == if off * sp + per * sp <= n * sp then per * sp else n * sp - off * sp
  {
    MulLe(off, n, sp);
    assert (off + per) * sp == off * sp + per * sp;
    assert (n - off) * sp == n * sp - off * sp;
    assert (n + 1) * sp == n * sp + sp;
    if off + per <= n { MulLe(off + per, n, sp); } else { MulLe(n + 1, off + per, sp); }
  }

  class VirtualBlock12 {
    const dev: Dev
    const blks: seq<nat>
    const geo: Geo12
    const nb: nat              // bytes per sector
    const writeNaddrsMax: nat
    const readNaddrsMax: nat
    const eraseNaddrsMax: nat
    var posWrite: nat
    var posRead: nat

    constructor (dev: Dev, blks: seq<nat>, geo: Geo12, nb: nat, writeNaddrsMax: nat, readNaddrsMax: nat, eraseNaddrsMax: nat)
      ensures this.dev == dev && this.blks == blks && this.geo == geo && this.nb == nb
      ensures this.writeNaddrsMax == writeNaddrsMax && this.readNaddrsMax == readNaddrsMax
      ensures this.eraseNaddrsMax == eraseNaddrsMax && posWrite == 0 && posRead == 0
    {
      this.dev, this.blks, this.geo, this.nb := dev, blks, geo, nb;
      this.writeNaddrsMax, this.readNaddrsMax := writeNaddrsMax, readNaddrsMax;
      this.eraseNaddrsMax, posWrite, posRead := eraseNaddrsMax, 0, 0;
    }

    /** Each command takes at least one super page and at most 64 addresses. */
    ghost predicate Valid()
      reads dev
    {
      && geo.Valid() && geo.Spage() > 0 && nb > 0
      && Shape(dev.st, blks, geo.Spage(), geo.npages * geo.Spage())
      && geo.Spage() <= writeNaddrsMax <= NADDR_MAX
      && geo.Spage() <= readNaddrsMax <= NADDR_MAX
    }

    function Spages(): nat { geo.npages * |blks| }

    /** Super pages per command. */
    function PerCommand(naddrsMax: nat): nat
      requires geo.Spage() > 0 && naddrsMax / geo.Spage() >= 1
    {
      GreatestDivisor(|blks|, naddrsMax / geo.Spage())
    }

    /** One write command on super pages page .. page + nspages, carrying the
        sectors from `at` on of a transfer to sector `base`. */
    method OneWrite(src: Source, pad: seq<Sector>, page: nat, nspages: nat, base: nat, at: nat, naddrs: nat, m: nat)
      returns (err: bool)
      requires Valid() && page + nspages <= Spages()
      requires base + at == page * geo.Spage() && naddrs == nspages * geo.Spage()
      requires |pad| > 0 && naddrs <= |pad| && naddrs <= NADDR_MAX && at + naddrs <= m && at % |pad| == 0
      requires src.Buf? ==> m * nb <= |src.bytes|
      modifies dev
      ensures dev.faults >= old(dev.faults)
      ensures dev.cmds == old(dev.cmds) + [Range(blks, geo.Spage(), base + at, naddrs)]
      ensures var w := WriteAll(old(dev.st), Range(blks, geo.Spage(), base + at, naddrs),
                                Transfer(src, pad, nb, |pad|, m)[at..at + naddrs]);
              && (err <==> w.None? || dev.faults > old(dev.faults))
              && dev.st == if err then old(dev.st) else w.value
    {
      hide Transfer, WriteAll, Range;
      var addrs, pages := FillS12(blks, geo, page, nspages, base + at, naddrs);
      var piece := SpageData(src, pad, nb, at, naddrs, m);
      assert |addrs[..]| == naddrs;
      err := dev.Write(addrs[..], piece);
    }

    /** The write loop over super pages bgn .. bgn + n. */
    method WriteSpages(src: Source, pad: seq<Sector>, bgn: nat, n: nat, base: nat, m: nat) returns (nerr: nat)
      requires Valid() && writeNaddrsMax / geo.Spage() >= 1
      requires bgn + n <= Spages() && base == bgn * geo.Spage() && m == n * geo.Spage()
      requires |pad| == PerCommand(writeNaddrsMax) * geo.Spage()
      requires src.Buf? ==> m * nb <= |src.bytes|
      modifies dev
      ensures dev.faults >= old(dev.faults)
      ensures OthersSame(old(dev.st), dev.st, blks) && Kept(old(dev.st), dev.st)
      ensures |pad| > 0
      ensures var data := Transfer(src, pad, nb, |pad|, m);
              var w := WriteAll(old(dev.st), Range(blks, geo.Spage(), base, m), data);
              && (nerr == 0 <==> w.Some? && dev.faults == old(dev.faults))
              && (nerr == 0 ==> dev.st == w.value)
      ensures dev.cmds == old(dev.cmds) + CutAll(blks, geo.Spage(), base, m, |pad|)
    {
      hide WriteLoop, Transfer, WriteAll, Range, OthersSame, Kept, GreatestDivisor, Cut;
      var sp := geo.Spage();
      var per := CmdNblks(|blks|, writeNaddrsMax / sp);
      SpagesToSectors(1, per, sp);
      CommandSize(writeNaddrsMax, sp, per, per);
      ghost var data := Transfer(src, pad, nb, |pad|, m);
      ghost var st0, f0 := dev.st, dev.faults;
      nerr := 0;
      var off, at := 0, 0;
      ghost var k := 0;
      WriteLoopInit(st0, blks, sp, base, data);
      while off < n
        invariant 0 <= off <= n && (off == n || off % per == 0)
        invariant at == off * sp <= m
        invariant dev.faults >= f0 && |dev.st| == |st0|
        invariant Rounds(k, per, off, n) && dev.cmds == old(dev.cmds) + Cut(blks, sp, base, m, |pad|, k)
        invariant WriteLoop(st0, dev.st, blks, sp, base, data, at, nerr, dev.faults > f0)
        decreases n - off
      {
        var nspages := if per < n - off then per else n - off;
        var naddrs := nspages * sp;
        SpageStep(bgn, off, nspages, n, per, sp);
        CutNextSpages(blks, sp, base, n, per, k, off, nspages);
        ghost var st1, f1 := dev.st, dev.faults;
        var err := OneWrite(src, pad, bgn + off, nspages, base, at, naddrs, m);
        WriteLoopStep(st0, st1, dev.st, blks, sp, base, data, at, naddrs, nerr, f1 > f0, err, dev.faults > f1);
        if err { nerr := nerr + 1; }
        RoundsNext(k, per, off, n, nspages);
        off, at, k := off + nspages, at + naddrs, k + 1;
      }
      RoundsEnd(k, per, n, sp);
      WriteLoopEnd(st0, dev.st, blks, sp, base, data, nerr, dev.faults > f0);
    }

    function Align(): nat { geo.Spage() * nb }

    function Nbytes(): nat { Spages() * Align() }

    /** The size of the virtual block, from all of its geometry. */
    lemma NbytesIs()
      ensures Nbytes() == |blks| * geo.nplanes * geo.npages * geo.nsectors * nb
    {
      var n, l, p, s := |blks|, geo.nplanes, geo.npages, geo.nsectors;
      assert (p * n) * ((l * s) * nb) == ((p * n) * (l * s)) * nb;
      assert (p * n) * (l * s) == ((n * l) * p) * s;
    }

    /** Byte position `x` in sectors, rounded down to whole super pages. */
    function SectorAt(x: nat): nat
      requires Align() > 0
    {
      assert x / Align() >= 0;
      (x / Align()) * geo.Spage()
    }

    ghost predicate InRange(count: nat, offset: nat)
      requires Align() > 0
    {
      offset + count <= Nbytes() && count % Align() == 0 && offset % Align() == 0
    }

    lemma RangeInSpages(count: nat, offset: nat)
      requires Align() > 0 && InRange(count, offset)
      ensures offset / Align() + count / Align() <= Spages()
      ensures SectorAt(offset) == (offset / Align()) * geo.Spage()
      ensures SectorAt(count) == (count / Align()) * geo.Spage()
    {
      BytesToSpages(count, offset, Align(), Spages());
    }

    /** Write of `count` bytes at byte `offset`: it succeeds exactly when the range
        is within the virtual block and made of whole super pages, the blocks take
        the striped sectors in order and no command fails. */
    method Pwrite(src: Source, pad: seq<Sector>, count: nat, offset: nat) returns (r: int)
      requires Valid() && writeNaddrsMax / geo.Spage() >= 1 && Align() > 0
      requires |pad| == PerCommand(writeNaddrsMax) * geo.Spage() && |pad| > 0
      requires src.Buf? ==> SectorAt(count) * nb <= |src.bytes|
      modifies dev
      ensures dev.faults >= old(dev.faults)
      ensures OthersSame(old(dev.st), dev.st, blks) && Kept(old(dev.st), dev.st)
      ensures r == count || r == -1
      ensures var m, base := SectorAt(count), SectorAt(offset);
              var data := Transfer(src, pad, nb, |pad|, m);
              var w := WriteAll(old(dev.st), Range(blks, geo.Spage(), base, m), data);
              && (r == count <==> InRange(count, offset) && w.Some? && dev.faults == old(dev.faults))
              && (r == count ==> dev.st == w.value)
              && dev.cmds == old(dev.cmds) + (if InRange(count, offset) then CutAll(blks, geo.Spage(), base, m, |pad|) else [])
    {
      hide Transfer, WriteAll, Range, GreatestDivisor, SectorAt, CutAll;
      var bgn, n := offset / Align(), count / Align();
      if offset + count > Nbytes() { return -1; }
      if count % Align() != 0 || offset % Align() != 0 { return -1; }
      RangeInSpages(count, offset);
      var nerr := WriteSpages(src, pad, bgn, n, SectorAt(offset), SectorAt(count));
      if nerr > 0 { return -1; }
      return count;
    }

    /** The read loop over super pages bgn .. bgn + n. */
    method ReadSpages(bgn: nat, n: nat, base: nat, m: nat) returns (nerr: nat, out: seq<Sector>)
      requires Valid() && readNaddrsMax / geo.Spage() >= 1
      requires bgn + n <= Spages() && base == bgn * geo.Spage() && m == n * geo.Spage()
      modifies dev`faults, dev`cmds
      ensures dev.faults >= old(dev.faults)
      ensures var addrs := Range(blks, geo.Spage(), base, m);
              && (nerr == 0 <==> Readable(dev.st, dev.dulbe, addrs) && dev.faults == old(dev.faults))
              && (nerr == 0 ==> out == DeliverAll(dev.st, dev.predef, addrs))
      ensures PerCommand(readNaddrsMax) * geo.Spage() > 0
      ensures dev.cmds == old(dev.cmds) + CutAll(blks, geo.Spage(), base, m, PerCommand(readNaddrsMax) * geo.Spage())
    {
      hide Range, Readable, DeliverAll, ReadLoop, GreatestDivisor, Cut;
      var sp := geo.Spage();
      var per := CmdNblks(|blks|, readNaddrsMax / sp);
      SpagesToSectors(1, per, sp);
      ghost var f0, k := dev.faults, 0;
      nerr, out := 0, [];
      var off, at := 0, 0;
      ReadLoopInit(dev.st, dev.dulbe, dev.predef, blks, sp, base);
      while off < n
        invariant 0 <= off <= n && (off == n || off % per == 0)
        invariant at == off * sp <= m
        invariant dev.faults >= f0
        invariant Rounds(k, per, off, n) && dev.cmds == old(dev.cmds) + Cut(blks, sp, base, m, per * sp, k)
        invariant ReadLoop(dev.st, dev.dulbe, dev.predef, blks, sp, base, at, out, nerr, dev.faults > f0)
        decreases n - off
      {
        var nspages := if per < n - off then per else n - off;
        var naddrs := nspages * sp;
        SpageStep(bgn, off, nspages, n, per, sp);
        CommandSize(readNaddrsMax, sp, per, nspages);
        var addrs, pages := FillS12(blks, geo, bgn + off, nspages, base + at, naddrs);
        assert |addrs[..]| <= NADDR_MAX;
        CutNextSpages(blks, sp, base, n, per, k, off, nspages);
        ghost var f1 := dev.faults;
        var err, got := dev.Read(addrs[..]);
        ReadLoopStep(dev.st, dev.dulbe, dev.predef, blks, sp, base, at, naddrs, out, nerr, f1 > f0, err, got, dev.faults > f1);
        if err { nerr := nerr + 1; } else { out := out + got; }
        RoundsNext(k, per, off, n, nspages);
        off, at, k := off + nspages, at + naddrs, k + 1;
      }
      RoundsEnd(k, per, n, sp);
      ReadLoopIs(dev.st, dev.dulbe, dev.predef, blks, sp, base, m, out, nerr, dev.faults > f0);
    }

    /** Read of `count` bytes at byte `offset`, delivering exactly those sectors. */
    method Pread(count: nat, offset: nat) returns (r: int, out: seq<Sector>)
      requires Valid() && readNaddrsMax / geo.Spage() >= 1 && Align() > 0
      modifies dev`faults, dev`cmds
      ensures dev.faults >= old(dev.faults)
      ensures r == count || r == -1
      ensures PerCommand(readNaddrsMax) * geo.Spage() > 0
      ensures var m, base := SectorAt(count), SectorAt(offset);
              var addrs := Range(blks, geo.Spage(), base, m);
              && (r == count <==>
                    InRange(count, offset) && Readable(dev.st, dev.dulbe, addrs) && dev.faults == old(dev.faults))
              && (r == count ==> out == DeliverAll(dev.st, dev.predef, addrs))
              && dev.cmds == old(dev.cmds) + (if InRange(count, offset)
                                              then CutAll(blks, geo.Spage(), base, m, PerCommand(readNaddrsMax) * geo.Spage())
                                              else [])
    {
      hide Range, Readable, DeliverAll, GreatestDivisor, SectorAt, CutAll;
      SpagesToSectors(1, PerCommand(readNaddrsMax), geo.Spage());
      out := [];
      var bgn, n := offset / Align(), count / Align();
      if offset + count > Nbytes() { return -1, out; }
      if count % Align() != 0 || offset % Align() != 0 { return -1, out; }
      RangeInSpages(count, offset);
      var nerr;
      nerr, out := ReadSpages(bgn, n, SectorAt(offset), SectorAt(count));
      if nerr > 0 { return -1, out; }
      return count, out;
    }

    /** Erase: all planes of the blocks, in commands of equal size. The commands,
        each within the limit, together list every plane of every block; the call
        succeeds exactly when the device resets every block and no command fails,
        and then both cursors are back at 0. */
    method Erase() returns (r: int, cmds: seq<seq<PlaneAddr>>)
      requires Valid() && 1 <= eraseNaddrsMax / geo.nplanes && eraseNaddrsMax <= NADDR_MAX
      modifies this`posWrite, this`posRead, dev
      ensures Concat(cmds) == AllPlanes(geo.nplanes, |blks| * geo.nplanes)
      ensures forall k :: 0 <= k < |cmds| ==> |cmds[k]| <= eraseNaddrsMax
      ensures dev.faults >= old(dev.faults)
      ensures OthersSame(old(dev.st), dev.st, blks)
      ensures r == Nbytes() || r == -1
      ensures r == Nbytes() <==> ResetAll(old(dev.st), blks, dev.multiReset).Some? && dev.faults == old(dev.faults)
      ensures r == Nbytes() ==> dev.st == ResetAll(old(dev.st), blks, dev.multiReset).value
      ensures r == Nbytes() ==> posWrite == 0 && posRead == 0
      ensures r == -1 ==> posWrite == old(posWrite) && posRead == old(posRead)
    {
      hide ResetAll, EraseLoop, OthersSame, GreatestDivisor, Nbytes, AllPlanes, Concat, Listed;
      var nplanes := geo.nplanes;
      var per := CmdNblks(|blks|, eraseNaddrsMax / nplanes);
      ghost var st0, f0 := dev.st, dev.faults;
      var nerr, off, base := 0, 0, 0;
      cmds := [];
      EraseLoopInit(st0, blks, dev.multiReset);
      ListedNone(nplanes, |blks| * nplanes, eraseNaddrsMax);
      while off < |blks|
        invariant 0 <= off <= |blks| && off % per == 0 && base == off * nplanes <= |blks| * nplanes
        invariant posWrite == old(posWrite) && posRead == old(posRead)
        invariant dev.faults >= f0 && EraseLoop(st0, dev.st, blks, dev.multiReset, off, nerr, dev.faults > f0)
        invariant Listed(cmds, nplanes, |blks| * nplanes, base, eraseNaddrsMax)
        decreases |blks| - off
      {
        NextWhole(off, |blks|, per);
        var n := if per < |blks| - off then per else |blks| - off;
        EraseStep(off, n, |blks|, nplanes, eraseNaddrsMax);
        ghost var st1, f1 := dev.st, dev.faults;
        var err, addrs := EraseBlocks(off, n, base, n * nplanes);
        EraseLoopStep(st0, st1, dev.st, blks, dev.multiReset, off, n, nerr, f1 > f0, err, dev.faults > f1);
        if err { nerr := nerr + 1; }
        ListedNext(cmds, nplanes, |blks| * nplanes, base, n * nplanes, addrs, eraseNaddrsMax);
        cmds := cmds + [addrs];
        off, base := off + n, base + n * nplanes;
      }
      ListedAll(cmds, nplanes, |blks| * nplanes, eraseNaddrsMax);
      EraseLoopEnd(st0, dev.st, blks, dev.multiReset, nerr, dev.faults > f0);
      if nerr > 0 { return -1, cmds; }
      posWrite, posRead := 0, 0;
      return Nbytes(), cmds;
    }

    /** One command of the loop: all planes of blocks off .. off + n. */
    method EraseBlocks(off: nat, n: nat, base: nat, naddrs: nat) returns (err: bool, addrs: seq<PlaneAddr>)
      requires geo.nplanes > 0 && off + n <= |blks| && base == off * geo.nplanes && naddrs == n * geo.nplanes <= NADDR_MAX
      requires base + naddrs <= |blks| * geo.nplanes
      modifies dev
      ensures dev.faults >= old(dev.faults)
      ensures |AllPlanes(geo.nplanes, |blks| * geo.nplanes)| == |blks| * geo.nplanes
      ensures addrs == AllPlanes(geo.nplanes, |blks| * geo.nplanes)[base..base + naddrs] && |addrs| == naddrs
      ensures var r := ResetAll(old(dev.st), blks[off..off + n], dev.multiReset);
              && (err <==> r.None? || dev.faults > old(dev.faults))
              && dev.st == if err then old(dev.st) else r.value
    {
      hide ResetAll, AllPlanes, PlanesOf;
      var a := EraseCommand(off, n, geo.nplanes, |blks| * geo.nplanes, base, naddrs);
      addrs := a[..];
      err := ErasePlanes(addrs, off, n);
    }

    /** One erase command on the listed planes: the device resets the blocks all of
        whose planes are listed, which are all the blocks it names. */
    method ErasePlanes(addrs: seq<PlaneAddr>, ghost off: nat, ghost n: nat) returns (err: bool)
      requires geo.nplanes > 0 && off + n <= |blks| && |addrs| == n * geo.nplanes <= NADDR_MAX
      requires PlanesOf(addrs, off, n, geo.nplanes)
      modifies dev
      ensures dev.faults >= old(dev.faults)
      ensures var r := ResetAll(old(dev.st), blks[off..off + n], dev.multiReset);
              && (err <==> r.None? || dev.faults > old(dev.faults))
              && dev.st == if err then old(dev.st) else r.value
    {
      hide ResetAll;
      var chunks: seq<nat> := [];
      var i := 0;
      while i < |addrs|
        invariant 0 <= i <= |addrs| && dev.st == old(dev.st) && dev.faults == old(dev.faults)
        invariant |chunks| <= n && i == |chunks| * geo.nplanes
        invariant chunks == blks[off..off + |chunks|]
        decreases |addrs| - i
      {
        NextPlanes(|chunks|, n, geo.nplanes);
        PlaneAt(addrs, off, n, geo.nplanes, |chunks|);
        chunks := chunks + [blks[addrs[i].blk]];
        i := i + geo.nplanes;
      }
      AllNamed(|chunks|, n, geo.nplanes);
      err := dev.Erase(chunks);
    }
  }

  /** A 1.2 write and a 1.2 read of the same range. The write and read limits give
      commands of unrelated sizes; once the write has succeeded only a fault can
      make the read fail, and it delivers the buffer. */
  method WriteThenRead12(v: VirtualBlock12, bytes: seq<Byte>, pad: seq<Sector>, offset: nat)
    returns (wrote: int, r: int, out: seq<Sector>)
    requires v.Valid() && v.Align() > 0
    requires v.writeNaddrsMax / v.geo.Spage() >= 1 && v.readNaddrsMax / v.geo.Spage() >= 1
    requires |pad| == v.PerCommand(v.writeNaddrsMax) * v.geo.Spage() && |pad| > 0
    modifies v.dev
    ensures OthersSame(old(v.dev.st), v.dev.st, v.blks) && Kept(old(v.dev.st), v.dev.st)
    ensures wrote == |bytes| || wrote == -1
    ensures wrote == |bytes| ==>
              && (r == |bytes| ==> Flatten(out) == bytes)
              && (r != |bytes| ==> v.dev.faults > old(v.dev.faults))
  {
    hide WriteAll, Range, Transfer, Readable, DeliverAll, Kept, OthersSame, Flatten, GreatestDivisor, CutAll;
    ghost var m, base := v.SectorAt(|bytes|), v.SectorAt(offset);
    SectorsFit(|bytes|, v.Align(), v.geo.Spage(), v.nb);
    ghost var st0 := v.dev.st;
    wrote := v.Pwrite(Buf(bytes), pad, |bytes|, offset);
    r, out := -1, [];
    if wrote >= 0 {
      ghost var data := Transfer(Buf(bytes), pad, v.nb, |pad|, m);
      WrittenDelivers(st0, v.blks, v.geo.Spage(), base, data, v.dev.dulbe, v.dev.predef);
      FlattenTransfer(bytes, pad, v.nb, |pad|, m);
      r, out := v.Pread(|bytes|, offset);
    }
  }

  /** Whole super pages of a buffer, in sectors and in bytes. */
  lemma SectorsFit(count: nat, align: nat, sp: nat, nb: nat)
    requires align == sp * nb && align > 0
    ensures (count / align) * sp * nb <= count
    ensures count % align == 0 ==> (count / align) * sp * nb == count
  {
    var q := count / align;
    assert count == q * align + count % align;
    assert q * sp * nb == q * align;
  }

  // ---- erase -------------------------------------------------------------------------

  datatype PlaneAddr = PlaneAddr(blk: nat, pl: nat)

  /** Every plane of every block, block by block. */
  function AllPlanes(nplanes: nat, n: nat): seq<PlaneAddr>
    requires nplanes > 0
  {
    seq(n, i requires 0 <= i => PlaneAddr(i / nplanes, i % nplanes))
  }

  function Concat(cmds: seq<seq<PlaneAddr>>): seq<PlaneAddr> {
    if cmds == [] then [] else Concat(cmds[..|cmds| - 1]) + cmds[|cmds| - 1]
  }

  lemma ConcatSnoc(cmds: seq<seq<PlaneAddr>>, cmd: seq<PlaneAddr>)
    ensures Concat(cmds + [cmd]) == Concat(cmds) + cmd
  {
    assert (cmds + [cmd])[..|cmds|] == cmds;
  }

  lemma ConcatEmpty()
    ensures Concat([]) == []
  {
  }

  /** The commands so far, each within the limit, list the first `base` planes. */
  ghost predicate Listed(cmds: seq<seq<PlaneAddr>>, nplanes: nat, total: nat, base: nat, max: nat)
    requires nplanes > 0
  {
    && base <= total && Concat(cmds) == AllPlanes(nplanes, total)[..base]
    && forall k :: 0 <= k < |cmds| ==> |cmds[k]| <= max
  }

  lemma ListedNone(nplanes: nat, total: nat, max: nat)
    requires nplanes > 0
    ensures Listed([], nplanes, total, 0, max)
  {
    ConcatEmpty();
  }

  lemma ListedNext(cmds: seq<seq<PlaneAddr>>, nplanes: nat, total: nat, base: nat, len: nat, cmd: seq<PlaneAddr>, max: nat)
    requires nplanes > 0 && Listed(cmds, nplanes, total, base, max) && base + len <= total && |cmd| <= max
    requires |AllPlanes(nplanes, total)| == total && cmd == AllPlanes(nplanes, total)[base..base + len]
    ensures Listed(cmds + [cmd], nplanes, total, base + len, max)
  {
    hide AllPlanes, Concat;
    var all := AllPlanes(nplanes, total);
    ConcatSnoc(cmds, cmd);
    assert all[..base] + all[base..base + len] == all[..base + len];
  }

  lemma ListedAll(cmds: seq<seq<PlaneAddr>>, nplanes: nat, total: nat, max: nat)
    requires nplanes > 0 && Listed(cmds, nplanes, total, total, max)
    ensures Concat(cmds) == AllPlanes(nplanes, total) && forall k :: 0 <= k < |cmds| ==> |cmds[k]| <= max
  {
    AllPlanesLength(nplanes, total);
    var all := AllPlanes(nplanes, total);
    assert all[..total] == all;
  }

  lemma EraseStep(off: nat, n: nat, nblks: nat, nplanes: nat, naddrsMax: nat)
    requires nplanes > 0 && off + n <= nblks && n <= naddrsMax / nplanes
    ensures off * nplanes + n * nplanes == (off + n) * nplanes <= nblks * nplanes
    ensures n * nplanes <= naddrsMax
  {
    MulLe(off + n, nblks, nplanes);
    MulLe(n, naddrsMax / nplanes, nplanes);
  }

  lemma PlaneOf(off: nat, i: nat, nplanes: nat)
    requires nplanes > 0
    ensures (off * nplanes + i) / nplanes == off + i / nplanes && (off * nplanes + i) % nplanes == i % nplanes
  {
    ModAddMultiple(i, off, nplanes);
  }

  /** The addresses of one erase command: all planes of blocks off .. off + n. */
  method EraseCommand(off: nat, n: nat, nplanes: nat, total: nat, base: nat, naddrs: nat) returns (addrs: array<PlaneAddr>)
    requires nplanes > 0 && base == off * nplanes && naddrs == n * nplanes && base + naddrs <= total
    ensures fresh(addrs) && addrs.Length == naddrs && PlanesOf(addrs[..], off, n, nplanes)
    ensures |AllPlanes(nplanes, total)| == total && addrs[..] == AllPlanes(nplanes, total)[base..base + naddrs]
  {
    hide PlaneNo, AllPlanes;
    addrs := new PlaneAddr[naddrs];
    var i := 0;
    while i < naddrs
      invariant 0 <= i <= naddrs
      invariant forall j :: 0 <= j < i ==> addrs[j] == PlaneNo(off, nplanes, j)
    {
      addrs[i] := PlaneNo(off, nplanes, i);
      i := i + 1;
    }
    assert PlanesOf(addrs[..], off, n, nplanes);
    PlanesAreSlice(addrs[..], off, n, nplanes, total, base, naddrs);
  }

  lemma PlanesAreSlice(addrs: seq<PlaneAddr>, off: nat, n: nat, nplanes: nat, total: nat, base: nat, naddrs: nat)
    requires nplanes > 0 && base == off * nplanes && naddrs == n * nplanes && base + naddrs <= total
    requires PlanesOf(addrs, off, n, nplanes)
    ensures |AllPlanes(nplanes, total)| == total && addrs == AllPlanes(nplanes, total)[base..base + naddrs]
  {
    forall i | 0 <= i < naddrs ensures addrs[i] == AllPlanes(nplanes, total)[base + i] {
      PlaneOf(off, i, nplanes);
    }
  }

  /** Plane number `i` of the blocks from `off` on. */
  function PlaneNo(off: nat, nplanes: nat, i: nat): PlaneAddr
    requires nplanes > 0
  {
    PlaneAddr(off + i / nplanes, i % nplanes)
  }

  /** `addrs` lists the planes of blocks off .. off + n, block by block. */
  ghost predicate PlanesOf(addrs: seq<PlaneAddr>, off: nat, n: nat, nplanes: nat)
    requires nplanes > 0
  {
    && |addrs| == n * nplanes
    && forall i :: 0 <= i < |addrs| ==> addrs[i] == PlaneNo(off, nplanes, i)
  }

  lemma NextPlanes(k: nat, n: nat, nplanes: nat)
    requires nplanes > 0 && k * nplanes < n * nplanes
    ensures k < n && (k + 1) * nplanes == k * nplanes + nplanes <= n * nplanes
  {
    if k >= n { MulLe(n, k, nplanes); }
    MulLe(k + 1, n, nplanes);
  }

  lemma AllNamed(k: nat, n: nat, nplanes: nat)
    requires nplanes > 0 && k <= n && k * nplanes >= n * nplanes
    ensures k == n && n <= n * nplanes
  {
    if k < n { MulLe(k + 1, n, nplanes); }
    MulLe(1, nplanes, n);
  }

  lemma PlaneAt(addrs: seq<PlaneAddr>, off: nat, n: nat, nplanes: nat, k: nat)
    requires nplanes > 0 && PlanesOf(addrs, off, n, nplanes) && k < n && k * nplanes < |addrs|
    ensures addrs[k * nplanes].blk == off + k
  {
    DivModUnique(k * nplanes, nplanes, k, 0);
  }

  lemma AllPlanesLength(nplanes: nat, n: nat)
    requires nplanes > 0
    ensures |AllPlanes(nplanes, n)| == n
  {
  }

  /** The inverse: each plane of each block is listed, and only once. */
  lemma EachPlaneOnce(nblks: nat, nplanes: nat, a: PlaneAddr, i: nat)
    requires nplanes > 0 && a.blk < nblks && a.pl < nplanes && i < nblks * nplanes
    ensures a.blk * nplanes + a.pl < nblks * nplanes
    ensures AllPlanes(nplanes, nblks * nplanes)[i] == a <==> i == a.blk * nplanes + a.pl
  {
    DigitsBelow(a.blk, a.pl, nblks, nplanes);
    DivModUnique(a.blk * nplanes + a.pl, nplanes, a.blk, a.pl);
  }

  /** Bounds and alignment in bytes, seen in super pages. */
  lemma BytesToSpages(count: nat, offset: nat, align: nat, spages: nat)
    requires align > 0 && count % align == 0 && offset % align == 0
    requires offset + count <= spages * align
    ensures offset / align + count / align <= spages
  {
    var b, n := offset / align, count / align;
    assert (b + n) * align == offset + count;
    assert (spages - (b + n)) * align == spages * align - (b + n) * align;
    NonNegativeFactor(spages - (b + n), align);
  }

  /** One round of the loop, in super pages and in sectors. */
  lemma SpageStep(bgn: nat, off: nat, nspages: nat, n: nat, per: nat, sp: nat)
    requires per > 0 && sp > 0 && off % per == 0 && off < n
    requires nspages == if per < n - off then per else n - off
    ensures off + nspages == n || (off + nspages) % per == 0
    ensures bgn * sp + off * sp == (bgn + off) * sp
    ensures off * sp + nspages * sp == (off + nspages) * sp <= n * sp
    ensures 0 < per * sp && nspages * sp <= per * sp && (off * sp) % (per * sp) == 0
  {
    SumStep(off, per, n, nspages);
    MulLe(off + nspages, n, sp);
    MulLe(nspages, per, sp);
    SpageMultiple(off, per, sp);
  }

  lemma SumStep(off: nat, per: nat, n: nat, nspages: nat)
    requires per > 0 && off % per == 0 && off < n
    requires nspages == if per < n - off then per else n - off
    ensures off + nspages == n || (off + nspages) % per == 0
  {
    if per < n - off {
      DivModUnique(per, per, 1, 0);
      SumWhole(off, per, per);
    }
  }

  lemma SpageMultiple(off: nat, per: nat, sp: nat)
    requires per > 0 && sp > 0 && off % per == 0 && per * sp > 0
    ensures (off * sp) % (per * sp) == 0
  {
    var q := off / per;
    assert off == q * per;
    assert off * sp == q * (per * sp);
    DivModUnique(off * sp, per * sp, q, 0);
  }

  /** The part of the buffer, or of the padding buffer, that one command carries. */
  method SpageData(src: Source, pad: seq<Sector>, nb: nat, at: nat, len: nat, m: nat) returns (piece: seq<Sector>)
    requires |pad| > 0 && len <= |pad| && at + len <= m && at % |pad| == 0
    requires src.Buf? ==> m * nb <= |src.bytes|
    ensures piece == Transfer(src, pad, nb, |pad|, m)[at..at + len]
  {
    if src.Null? {
      piece := pad[..len];
      PadPrefix(pad, nb, at, len, m);
    } else {
      piece := [];
      while |piece| < len
        invariant |piece| <= len
        invariant piece == Transfer(src, pad, nb, |pad|, m)[at..at + |piece|]
      {
        MulLe(at + |piece| + 1, m, nb);
        piece := piece + [ByteSector(src.bytes, nb, at + |piece|)];
      }
    }
  }

  lemma PadPrefix(pad: seq<Sector>, nb: nat, at: nat, len: nat, m: nat)
    requires |pad| > 0 && len <= |pad| && at + len <= m && at % |pad| == 0
    ensures Transfer(Null, pad, nb, |pad|, m)[at..at + len] == pad[..len]
  {
    var data := Transfer(Null, pad, nb, |pad|, m);
    forall i | 0 <= i < len ensures data[at..at + len][i] == pad[i] {
      DivModUnique(at + i, |pad|, at / |pad|, i);
      assert data[at + i] == TransferSector(Null, pad, nb, |pad|, at + i);
    }
  }
}
