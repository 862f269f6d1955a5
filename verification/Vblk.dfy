/** The synchronous virtual block operations on an Open-Channel SSD 2.0 device.
    The loops below run their iterations in program order; that any
    interleaving of the parallel write loop keeps the same promise is
    `ParallelRuns.ParallelWriteS20`. */
module Vblk {
  import opened Arith
  import opened Device
  import opened Striping

  const NADDR_MAX: nat := 64

  // ---- the device -----------------------------------------------------------

  /** The device accepts a read of `a`: the sector exists, on a chunk that is not
      offline, and has been written where the device reports unwritten sectors as
      errors. */
  predicate CanRead(st: Store, dulbe: bool, a: SecAddr) {
    && a.chunk < |st| && !st[a.chunk].state.Offline? && a.sectr < st[a.chunk].cap
    && (dulbe ==> ReadOne(st, a).Some?)
  }

  predicate Readable(st: Store, dulbe: bool, addrs: seq<SecAddr>) {
    forall i :: 0 <= i < |addrs| ==> CanRead(st, dulbe, addrs[i])
  }

  /** What a read of `a` delivers: written data, or for an unwritten sector the
      device's predefined content. */
  function Deliver(st: Store, predef: Sector, a: SecAddr): Sector {
    match ReadOne(st, a)
    case Some(x) => x
    case None => predef
  }

  function DeliverAll(st: Store, predef: Sector, addrs: seq<SecAddr>): seq<Sector> {
    seq(|addrs|, i requires 0 <= i < |addrs| => Deliver(st, predef, addrs[i]))
  }

  predicate AllWritten(st: Store, addrs: seq<SecAddr>) {
    forall i :: 0 <= i < |addrs| ==> ReadOne(st, addrs[i]).Some?
  }

  /** A copy command reads every source sector and writes them in order. */
  function CopyAll(st: Store, src: seq<SecAddr>, dst: seq<SecAddr>): Option<Store>
    requires |src| == |dst|
  {
    if AllWritten(st, src) then WriteAll(st, dst, DeliverAll(st, [], src)) else None
  }

  /** An open device. Besides the chunk rules a command may fail for reasons of
      its own; `faults` counts those failures. No command names more than 64
      addresses. */
  class Dev {
    var st: Store
    ghost var faults: nat
    ghost var cmds: seq<seq<SecAddr>>   // addresses of the read and write commands so far
    const dulbe: bool       // unwritten sectors are reported as errors
    const multiReset: bool  // resetting a free chunk is allowed
    const predef: Sector

    method Write(addrs: seq<SecAddr>, data: seq<Sector>) returns (err: bool)
      requires |addrs| == |data| && |addrs| <= NADDR_MAX
      modifies this
      ensures faults >= old(faults) && cmds == old(cmds) + [addrs]
      ensures err <==> WriteAll(old(st), addrs, data).None? || faults > old(faults)
      ensures st == if err then old(st) else WriteAll(old(st), addrs, data).value
    {
      cmds := cmds + [addrs];
      var fault: bool := *;
      var r := WriteAll(st, addrs, data);
      err := fault || r.None?;
      if fault { faults := faults + 1; }
      if !err { st := r.value; }
    }

    method Read(addrs: seq<SecAddr>) returns (err: bool, data: seq<Sector>)
      requires |addrs| <= NADDR_MAX
      modifies this`faults, this`cmds
      ensures faults >= old(faults) && cmds == old(cmds) + [addrs]
      ensures err <==> !Readable(st, dulbe, addrs) || faults > old(faults)
      ensures !err ==> data == DeliverAll(st, predef, addrs)
    {
      cmds := cmds + [addrs];
      var fault: bool := *;
      err := fault || !Readable(st, dulbe, addrs);
      if fault { faults := faults + 1; }
      data := if err then [] else DeliverAll(st, predef, addrs);
    }

    method Erase(chunks: seq<nat>) returns (err: bool)
      requires |chunks| <= NADDR_MAX
      modifies this
      ensures faults >= old(faults) && cmds == old(cmds)
      ensures err <==> ResetAll(old(st), chunks, multiReset).None? || faults > old(faults)
      ensures st == if err then old(st) else ResetAll(old(st), chunks, multiReset).value
    {
      var fault: bool := *;
      var r := ResetAll(st, chunks, multiReset);
      err := fault || r.None?;
      if fault { faults := faults + 1; }
      if !err { st := r.value; }
    }

    method Copy(src: seq<SecAddr>, dst: seq<SecAddr>) returns (err: bool)
      requires |src| == |dst| && |src| <= NADDR_MAX
      modifies this
      ensures faults >= old(faults) && cmds == old(cmds)
      ensures err <==> CopyAll(old(st), src, dst).None? || faults > old(faults)
      ensures st == if err then old(st) else CopyAll(old(st), src, dst).value
    {
      var fault: bool := *;
      var r := CopyAll(st, src, dst);
      err := fault || r.None?;
      if fault { faults := faults + 1; }
      if !err { st := r.value; }
    }
  }

  // ---- transfers as sequences of sectors --------------------------------------

  /** The caller's buffer, or NULL, which asks for padding. */
  datatype Source = Buf(bytes: seq<Byte>) | Null

  function ByteSector(bytes: seq<Byte>, nb: nat, i: nat): (r: Sector)
    requires (i + 1) * nb <= |bytes|
    ensures |r| == nb
  {
    assert i * nb <= (i + 1) * nb == i * nb + nb;
    bytes[i * nb..i * nb + nb]
  }

  /** Byte `b` of sector `i` is byte i * nb + b of the buffer. */
  lemma SectorByte(bytes: seq<Byte>, nb: nat, i: nat, b: nat)
    requires (i + 1) * nb <= |bytes| && b < nb
    ensures i * nb + b < |bytes| && ByteSector(bytes, nb, i)[b] == bytes[i * nb + b]
  {
    assert (i + 1) * nb == i * nb + nb;
  }

  /** Sector `i` of a transfer: taken from the buffer, or from the padding
      buffer, which every command of `w` sectors uses from its start. */
  function TransferSector(src: Source, pad: seq<Sector>, nb: nat, w: nat, i: nat): Sector
    requires src.Buf? ==> (i + 1) * nb <= |src.bytes|
    requires w > 0 && |pad| == w
  {
    match src
    case Buf(bytes) => ByteSector(bytes, nb, i)
    case Null => pad[i % w]
  }

  function Transfer(src: Source, pad: seq<Sector>, nb: nat, w: nat, m: nat): (r: seq<Sector>)
    requires src.Buf? ==> m * nb <= |src.bytes|
    requires w > 0 && |pad| == w
    ensures |r| == m
  {
    seq(m, i requires 0 <= i < m => (MulLe(i + 1, m, nb); TransferSector(src, pad, nb, w, i)))
  }

  function Flatten(sectors: seq<Sector>): seq<Byte> {
    if sectors == [] then [] else Flatten(sectors[..|sectors| - 1]) + sectors[|sectors| - 1]
  }

  /** Cutting a buffer into sectors loses nothing. */
  lemma {:induction false} FlattenTransfer(bytes: seq<Byte>, pad: seq<Sector>, nb: nat, w: nat, m: nat)
    requires m * nb <= |bytes| && w > 0 && |pad| == w
    ensures Flatten(Transfer(Buf(bytes), pad, nb, w, m)) == bytes[..m * nb]
    decreases m
  {
    if m > 0 {
      MulLe(m - 1, m, nb);
      var t := Transfer(Buf(bytes), pad, nb, w, m);
      FlattenTransfer(bytes, pad, nb, w, m - 1);
      assert t[..m - 1] == Transfer(Buf(bytes), pad, nb, w, m - 1);
      assert (m - 1) * nb + nb == m * nb;
      assert bytes[..(m - 1) * nb] + bytes[(m - 1) * nb..m * nb] == bytes[..m * nb];
    }
  }

  // ---- command by command is all at once -----------------------------------------

  /** The first `done` sectors of a transfer to logical sectors from `s` on. */
  function WritePrefix(st: Store, blks: seq<nat>, w: nat, s: nat, data: seq<Sector>, done: nat): Option<Store>
    requires |blks| > 0 && w > 0 && done <= |data|
  {
    WriteAll(st, Range(blks, w, s, done), data[..done])
  }

  lemma WritePrefixStep(st: Store, blks: seq<nat>, w: nat, s: nat, data: seq<Sector>, done: nat, len: nat)
    requires |blks| > 0 && w > 0 && done + len <= |data|
    requires WritePrefix(st, blks, w, s, data, done).Some?
    ensures WritePrefix(st, blks, w, s, data, done + len)
         == WriteAll(WritePrefix(st, blks, w, s, data, done).value, Range(blks, w, s + done, len), data[done..done + len])
  {
    RangeSplit(blks, w, s, done, len);
    assert data[..done + len] == data[..done] + data[done..done + len];
    WriteAllConcat(st, Range(blks, w, s, done), data[..done], Range(blks, w, s + done, len), data[done..done + len]);
  }

  lemma WritePrefixFails(st: Store, blks: seq<nat>, w: nat, s: nat, data: seq<Sector>, done: nat)
    requires |blks| > 0 && w > 0 && done <= |data|
    requires WritePrefix(st, blks, w, s, data, done).None?
    ensures WriteAll(st, Range(blks, w, s, |data|), data).None?
  {
    var rest := |data| - done;
    RangeSplit(blks, w, s, done, rest);
    assert data == data[..done] + data[done..];
    WriteAllConcat(st, Range(blks, w, s, done), data[..done], Range(blks, w, s + done, rest), data[done..]);
  }

  /** Where a write loop stands after `done` sectors: either every command was
      accepted, or the call is going to fail and the whole transfer could not
      have succeeded without a fault. */
  ghost predicate WriteLoop(st0: Store, st: Store, blks: seq<nat>, w: nat, s: nat, data: seq<Sector>, done: nat,
                            nerr: nat, faulted: bool)
    requires |blks| > 0 && w > 0 && done <= |data|
  {
    && OthersSame(st0, st, blks) && Kept(st0, st)
    && (nerr == 0 ==> !faulted && WritePrefix(st0, blks, w, s, data, done) == Some(st))
    && (nerr > 0 ==> faulted || WriteAll(st0, Range(blks, w, s, |data|), data).None?)
  }

  /** One more command keeps that. */
  lemma WriteLoopStep(st0: Store, st: Store, st': Store, blks: seq<nat>, w: nat, s: nat, data: seq<Sector>,
                      done: nat, len: nat, nerr: nat, faulted: bool, err: bool, fault: bool)
    requires |blks| > 0 && w > 0 && done + len <= |data|
    requires WriteLoop(st0, st, blks, w, s, data, done, nerr, faulted)
    requires var r := WriteAll(st, Range(blks, w, s + done, len), data[done..done + len]);
             && (err <==> r.None? || fault)
             && st' == if err then st else r.value
    ensures WriteLoop(st0, st', blks, w, s, data, done + len, if err then nerr + 1 else nerr, faulted || fault)
  {
    hide Kept;
    var addrs, piece := Range(blks, w, s + done, len), data[done..done + len];
    if !err {
      WriteAllKept(st, addrs, piece);
      KeptTransitive(st0, st, st');
      WriteAllFrame(st, addrs, piece);
      RangeFootprint(blks, w, s + done, len);
    }
    if nerr == 0 {
      WritePrefixStep(st0, blks, w, s, data, done, len);
      if err && !fault {
        WritePrefixFails(st0, blks, w, s, data, done + len);
      }
    }
  }

  // ---- command sizes ---------------------------------------------------------------

  function GreatestDivisor(n: nat, max: nat): (d: nat)
    requires max >= 1
    ensures 1 <= d <= max && n % d == 0
    ensures forall e :: d < e <= max ==> n % e != 0
  {
    if max == 1 || n % max == 0 then max else GreatestDivisor(n, max - 1)
  }

  /** The greatest divisor of `nblks` that is not above `max`; it sizes the erase
      commands, and as _cmd_nspages the 1.2 writes and reads. */
  method CmdNblks(nblks: nat, max: nat) returns (count: nat)
    requires max >= 1
    ensures count == GreatestDivisor(nblks, max)
  {
    count := max;
    while nblks % count != 0 && count > 1
      invariant 1 <= count <= max
      invariant GreatestDivisor(nblks, max) == GreatestDivisor(nblks, count)
      decreases count
    {
      count := count - 1;
    }
  }

  /** Sectors the read loop transfers for a request of `m` sectors in commands
      of `c`: always whole commands. */
  function ReadTotal(m: nat, c: nat): nat
    requires c > 0
  {
    ((m + c - 1) / c) * c
  }

  /** The read loop fills exactly the requested sectors if and only if the
      command size divides their number; otherwise it delivers past the end of
      the caller's buffer. */
  lemma ReadExactIff(m: nat, c: nat)
    requires c > 0
    ensures m <= ReadTotal(m, c) < m + c
    ensures ReadTotal(m, c) == m <==> m % c == 0
  {
    var q, r := (m + c - 1) / c, (m + c - 1) % c;
    assert m + c - 1 == q * c + r;
    if m % c == 0 {
      assert m + c - 1 == (m / c) * c + (c - 1);
      DivModUnique(m + c - 1, c, m / c, c - 1);
    }
    if q * c == m { DivModUnique(m, c, q, 0); }
  }

  /** A request of 8 sectors is read in one vector command of 64. */
  lemma VectorReadsTooMuch()
    ensures ReadTotal(8, NADDR_MAX) == 64
  {
  }

  /** Address of logical sector `sectr`, as the loops compute it. */
  method SectorAddr(blks: seq<nat>, w: nat, sectr: nat) returns (addr: SecAddr)
    requires |blks| > 0 && w > 0
    ensures addr == Resolve(blks, w, sectr)
  {
    var nchunks := |blks|;
    var wunit: nat := sectr / w;
    var rnd: nat := wunit / nchunks;
    var chunk := wunit % nchunks;
    MulLe(0, rnd, w);
    var chunkSectr := sectr % w + rnd * w;
    addr := SecAddr(blks[chunk], chunkSectr);
  }

  /** The address array of one command. */
  method FillAddrs(blks: seq<nat>, w: nat, sectrOfz: nat, cmdNsectr: nat) returns (addrs: array<SecAddr>)
    requires |blks| > 0 && w > 0
    ensures fresh(addrs) && addrs[..] == Range(blks, w, sectrOfz, cmdNsectr)
  {
    hide Resolve;
    addrs := new SecAddr[cmdNsectr];
    var idx := 0;
    while idx < cmdNsectr
      invariant 0 <= idx <= cmdNsectr
      invariant forall j :: 0 <= j < idx ==> addrs[j] == Resolve(blks, w, sectrOfz + j)
    {
      addrs[idx] := SectorAddr(blks, w, sectrOfz + idx);
      idx := idx + 1;
    }
  }

  // ---- what one call may do to the device ------------------------------------------

  /** A write of `data` to logical sectors from `s` on that reports `ok`. */
  ghost predicate WriteOutcome(st: Store, st': Store, blks: seq<nat>, w: nat, s: nat, data: seq<Sector>, ok: bool)
    requires |blks| > 0 && w > 0
  {
    && OthersSame(st, st', blks) && Kept(st, st')
    && (ok ==> |data| % w == 0 && s % w == 0 && WriteAll(st, Range(blks, w, s, |data|), data) == Some(st'))
  }

  ghost predicate EraseOutcome(st: Store, st': Store, blks: seq<nat>, multiReset: bool, ok: bool) {
    OthersSame(st, st', blks) && (ok ==> ResetAll(st, blks, multiReset) == Some(st'))
  }

  // ---- the virtual block ----------------------------------------------------------

  class VirtualBlock {
    const dev: Dev
    const blks: seq<nat>
    const wsOpt: nat
    const wsMin: nat
    const nsectr: nat         // sectors per chunk
    const nb: nat             // bytes per sector
    const eraseNaddrsMax: nat
    var scalar: bool          // NVM_CMD_SCALAR rather than NVM_CMD_VECTOR
    var posWrite: nat
    var posRead: nat

    ghost predicate Valid()
      reads dev
    {
      && Shape(dev.st, blks, wsOpt, nsectr)
      && nb > 0 && 1 <= wsOpt <= NADDR_MAX && 1 <= wsMin <= NADDR_MAX
      && 1 <= eraseNaddrsMax <= NADDR_MAX
    }

    function Nbytes(): nat { |blks| * nsectr * nb }

    lemma NbytesIs()
      ensures Nbytes() == |blks| * nsectr * nb
    {
    }

    constructor (dev: Dev, blks: seq<nat>, wsOpt: nat, wsMin: nat, nsectr: nat, nb: nat, eraseNaddrsMax: nat)
      ensures this.dev == dev && this.blks == blks && this.wsOpt == wsOpt && this.wsMin == wsMin
      ensures this.nsectr == nsectr && this.nb == nb && this.eraseNaddrsMax == eraseNaddrsMax
      ensures posWrite == 0 && posRead == 0 && !scalar
    {
      this.dev, this.blks, this.wsOpt, this.wsMin := dev, blks, wsOpt, wsMin;
      this.nsectr, this.nb, this.eraseNaddrsMax := nsectr, nb, eraseNaddrsMax;
      posWrite, posRead, scalar := 0, 0, false;
    }

    /** Synchronous write of `count` bytes at byte `offset`. A zero transfer at
        offset zero is excluded: its last sector would be below zero. The call
        succeeds exactly when both ends are aligned, the device accepts the
        striped sectors one after the other and no command fails; other chunks and
        sectors written earlier stay as they are in every case. */
    method SyncPwrite(src: Source, pad: seq<Sector>, count: nat, offset: nat) returns (r: int)
      requires Valid() && |pad| == wsOpt
      requires src.Buf? ==> (count / nb) * nb <= |src.bytes|
      requires count / nb > 0 || offset / nb > 0
      modifies dev
      ensures dev.faults >= old(dev.faults)
      ensures OthersSame(old(dev.st), dev.st, blks) && Kept(old(dev.st), dev.st)
      ensures var m, bgn := count / nb, offset / nb;
              var data := Transfer(src, pad, nb, wsOpt, m);
              var w := WriteAll(old(dev.st), Range(blks, wsOpt, bgn, m), data);
              && (r == count <==>
                    m % wsOpt == 0 && bgn % wsOpt == 0 && w.Some? && dev.faults == old(dev.faults))
              && (r == count || r == -1)
              && (r == count ==> dev.st == w.value)
              && (m % wsOpt != 0 || bgn % wsOpt != 0 ==> dev.st == old(dev.st) && dev.cmds == old(dev.cmds))
              && (m % wsOpt == 0 && bgn % wsOpt == 0 ==>
                    dev.cmds == old(dev.cmds) + CutAll(blks, wsOpt, bgn, m, wsOpt))
    {
      var m, bgn := count / nb, offset / nb;
      if m % wsOpt != 0 { return -1; }
      if bgn % wsOpt != 0 { return -1; }
      var nerr := WriteUnits(src, pad, bgn, m);
      if nerr > 0 { return -1; }
      return count;
    }

    /** The write loop: one command per unit, vector or scalar, counting the failed
        ones. */
    method WriteUnits(src: Source, pad: seq<Sector>, bgn: nat, m: nat) returns (nerr: nat)
      requires Valid() && |pad| == wsOpt
      requires src.Buf? ==> m * nb <= |src.bytes|
      requires m % wsOpt == 0 && bgn % wsOpt == 0
      modifies dev
      ensures dev.faults >= old(dev.faults)
      ensures OthersSame(old(dev.st), dev.st, blks) && Kept(old(dev.st), dev.st)
      ensures var data := Transfer(src, pad, nb, wsOpt, m);
              var w := WriteAll(old(dev.st), Range(blks, wsOpt, bgn, m), data);
              && (nerr == 0 <==> w.Some? && dev.faults == old(dev.faults))
              && (nerr == 0 ==> dev.st == w.value)
      ensures dev.cmds == old(dev.cmds) + CutAll(blks, wsOpt, bgn, m, wsOpt)
    {
      hide WriteLoop, Transfer, WriteAll, Range, OthersSame, Kept, CutAll, CutAt;
      ghost var data := Transfer(src, pad, nb, wsOpt, m);
      ghost var st0, f0 := dev.st, dev.faults;
      nerr := 0;
      var ofz := bgn;
      ghost var k := 0;
      WriteLoopInit(st0, blks, wsOpt, bgn, data);
      CutAtStart(dev.cmds, blks, wsOpt, bgn, m, wsOpt);
      while ofz < bgn + m
        invariant bgn <= ofz <= bgn + m && (ofz - bgn) % wsOpt == 0
        invariant dev.faults >= f0
        invariant CutAt(old(dev.cmds), dev.cmds, blks, wsOpt, bgn, m, wsOpt, k, ofz - bgn)
        invariant WriteLoop(st0, dev.st, blks, wsOpt, bgn, data, ofz - bgn, nerr, dev.faults > f0)
        decreases bgn + m - ofz
      {
        var done := ofz - bgn;
        NextWhole(done, m, wsOpt);
        var addrs := CommandAddrs(bgn, done, wsOpt);
        var piece := CommandData(src, pad, done, m);
        CutAtNext(old(dev.cmds), dev.cmds, blks, wsOpt, bgn, m, wsOpt, k, done);
        ghost var st1, f1 := dev.st, dev.faults;
        var err := dev.Write(addrs, piece);
        WriteLoopStep(st0, st1, dev.st, blks, wsOpt, bgn, data, done, wsOpt, nerr, f1 > f0, err, dev.faults > f1);
        if err { nerr := nerr + 1; }
        ofz, k := ofz + wsOpt, k + 1;
      }
      CutAtEnd(old(dev.cmds), dev.cmds, blks, wsOpt, bgn, m, wsOpt, k);
      WriteLoopEnd(st0, dev.st, blks, wsOpt, bgn, data, nerr, dev.faults > f0);
    }

    /** Synchronous read of `count` bytes at byte `offset`; `out` is all the device
        delivered into the caller's buffer and past it. A vector command always
        asks for 64 sectors, a scalar one for WS_OPT consecutive sectors. */
    method SyncPread(count: nat, offset: nat) returns (r: int, out: seq<Sector>)
      requires Valid()
      requires count / nb > 0 || offset / nb > 0
      modifies dev`faults, dev`cmds
      ensures dev.faults >= old(dev.faults)
      ensures var m, bgn := count / nb, offset / nb;
              var addrs := Range(blks, wsOpt, bgn, ReadTotal(m, if scalar then wsOpt else NADDR_MAX));
              && (r == count || r == -1)
              && (r == count <==>
                    m % wsOpt == 0 && bgn % wsOpt == 0 && Readable(dev.st, dev.dulbe, addrs)
                    && dev.faults == old(dev.faults))
              && (r == count ==> out == DeliverAll(dev.st, dev.predef, addrs))
              && dev.cmds == old(dev.cmds) + (if m % wsOpt != 0 || bgn % wsOpt != 0 then []
                                              else CutAll(blks, wsOpt, bgn, |addrs|, if scalar then wsOpt else NADDR_MAX))
    {
      hide Range, Readable, DeliverAll, ReadTotal, CutAll;
      out := [];
      var m, bgn := count / nb, offset / nb;
      if m % wsOpt != 0 { return -1, out; }
      if bgn % wsOpt != 0 { return -1, out; }
      var nerr;
      nerr, out := ReadCommands(bgn, m);
      if nerr > 0 { return -1, out; }
      return count, out;
    }

    /** The read loop. */
    method ReadCommands(bgn: nat, m: nat) returns (nerr: nat, out: seq<Sector>)
      requires Valid() && bgn % wsOpt == 0
      modifies dev`faults, dev`cmds
      ensures dev.faults >= old(dev.faults)
      ensures var addrs := Range(blks, wsOpt, bgn, ReadTotal(m, if scalar then wsOpt else NADDR_MAX));
              && (nerr == 0 <==> Readable(dev.st, dev.dulbe, addrs) && dev.faults == old(dev.faults))
              && (nerr == 0 ==> out == DeliverAll(dev.st, dev.predef, addrs))
              && dev.cmds == old(dev.cmds) + CutAll(blks, wsOpt, bgn, |addrs|, if scalar then wsOpt else NADDR_MAX)
    {
      hide Range, Readable, DeliverAll, ReadTotal, ReadLoop, CutAll, CutAt;
      var cmd := if scalar then wsOpt else NADDR_MAX;
      ghost var f0 := dev.faults;
      nerr, out := 0, [];
      var done := 0;
      ghost var k, total := 0, ReadTotal(m, cmd);
      ReadExactIff(m, cmd);
      TotalIsWhole(m, cmd);
      CutAtStart(dev.cmds, blks, wsOpt, bgn, total, cmd);
      ReadLoopInit(dev.st, dev.dulbe, dev.predef, blks, wsOpt, bgn);
      while done < m
        invariant done % cmd == 0 && done < m + cmd
        invariant dev.faults >= f0
        invariant done <= total && CutAt(old(dev.cmds), dev.cmds, blks, wsOpt, bgn, total, cmd, k, done)
        invariant ReadLoop(dev.st, dev.dulbe, dev.predef, blks, wsOpt, bgn, done, out, nerr, dev.faults > f0)
        decreases m + cmd - done
      {
        var addrs := CommandAddrs(bgn, done, cmd);
        NextWhole(done, total, cmd);
        CutAtNext(old(dev.cmds), dev.cmds, blks, wsOpt, bgn, total, cmd, k, done);
        ghost var f1 := dev.faults;
        var err, got := dev.Read(addrs);
        ReadLoopStep(dev.st, dev.dulbe, dev.predef, blks, wsOpt, bgn, done, cmd, out, nerr, f1 > f0, err, got, dev.faults > f1);
        if err { nerr := nerr + 1; } else { out := out + got; }
        done, k := done + cmd, k + 1;
      }
      ReadTotalUnique(m, cmd, done);
      CutAtEnd(old(dev.cmds), dev.cmds, blks, wsOpt, bgn, total, cmd, k);
      ReadLoopIs(dev.st, dev.dulbe, dev.predef, blks, wsOpt, bgn, done, out, nerr, dev.faults > f0);
    }

    /** Addresses one command covers: the vector it passes, or the range a scalar
        command covers from its first address on. */
    method CommandAddrs(bgn: nat, done: nat, cmd: nat) returns (addrs: seq<SecAddr>)
      requires |blks| > 0 && wsOpt > 0 && bgn % wsOpt == 0 && cmd > 0 && done % cmd == 0
      requires scalar ==> cmd == wsOpt
      ensures addrs == Range(blks, wsOpt, bgn + done, cmd)
    {
      if scalar {
        var first := SectorAddr(blks, wsOpt, bgn + done);
        ModAddMultiple(bgn, done / wsOpt, wsOpt);
        ScalarIsUnit(blks, wsOpt, bgn + done);
        addrs := ScalarRange(first, cmd);
      } else {
        var a := FillAddrs(blks, wsOpt, bgn + done, cmd);
        addrs := a[..];
      }
    }

    /** Erase: the chunks are reset in commands of equal size. It succeeds exactly
        when the device resets every chunk and no command fails, and then both
        cursors are back at 0. */
    method Erase() returns (r: int)
      requires Valid()
      modifies this`posWrite, this`posRead, dev
      ensures dev.faults >= old(dev.faults)
      ensures OthersSame(old(dev.st), dev.st, blks)
      ensures r == Nbytes() || r == -1
      ensures Nbytes() == |blks| * nsectr * nb
      ensures r == Nbytes() <==> ResetAll(old(dev.st), blks, dev.multiReset).Some? && dev.faults == old(dev.faults)
      ensures r == Nbytes() ==> dev.st == ResetAll(old(dev.st), blks, dev.multiReset).value
      ensures r == Nbytes() ==> posWrite == 0 && posRead == 0
      ensures r == -1 ==> posWrite == old(posWrite) && posRead == old(posRead)
      ensures EraseOutcome(old(dev.st), dev.st, blks, dev.multiReset, r == Nbytes())
    {
      hide ResetAll, EraseLoop, OthersSame, GreatestDivisor, Nbytes;
      NbytesIs();
      var cmdNblks := CmdNblks(|blks|, eraseNaddrsMax);
      ghost var st0, f0 := dev.st, dev.faults;
      var nerr, off := 0, 0;
      EraseLoopInit(st0, blks, dev.multiReset);
      while off < |blks|
        invariant 0 <= off <= |blks| && off % cmdNblks == 0
        invariant posWrite == old(posWrite) && posRead == old(posRead)
        invariant dev.faults >= f0
        invariant EraseLoop(st0, dev.st, blks, dev.multiReset, off, nerr, dev.faults > f0)
        decreases |blks| - off
      {
        NextWhole(off, |blks|, cmdNblks);
        var naddrs := if cmdNblks < |blks| - off then cmdNblks else |blks| - off;
        ghost var st1, f1 := dev.st, dev.faults;
        var err := dev.Erase(blks[off..off + naddrs]);
        EraseLoopStep(st0, st1, dev.st, blks, dev.multiReset, off, naddrs, nerr, f1 > f0, err, dev.faults > f1);
        if err { nerr := nerr + 1; }
        off := off + cmdNblks;
      }
      EraseLoopEnd(st0, dev.st, blks, dev.multiReset, nerr, dev.faults > f0);
      if nerr > 0 { return -1; }
      posWrite, posRead := 0, 0;
      return Nbytes();
    }

    /** Append at the write cursor, which advances exactly when the write
        succeeds. */
    method Write(src: Source, pad: seq<Sector>, count: nat) returns (r: int)
      requires Valid() && |pad| == wsOpt
      requires src.Buf? ==> (count / nb) * nb <= |src.bytes|
      requires count / nb > 0 || posWrite / nb > 0
      modifies this`posWrite, dev
      ensures dev.faults >= old(dev.faults)
      ensures OthersSame(old(dev.st), dev.st, blks) && Kept(old(dev.st), dev.st)
      ensures r == count || r == -1
      ensures var m, bgn := count / nb, old(posWrite) / nb;
              var data := Transfer(src, pad, nb, wsOpt, m);
              var w := WriteAll(old(dev.st), Range(blks, wsOpt, bgn, m), data);
              && (r == count <==>
                    m % wsOpt == 0 && bgn % wsOpt == 0 && w.Some? && dev.faults == old(dev.faults))
              && (r == count ==> dev.st == w.value)
      ensures posWrite == old(posWrite) + (if r == count then count else 0)
      ensures WriteOutcome(old(dev.st), dev.st, blks, wsOpt, old(posWrite) / nb,
                           Transfer(src, pad, nb, wsOpt, count / nb), r == count)
    {
      r := SyncPwrite(src, pad, count, posWrite);
      if r < 0 { return; }
      posWrite := posWrite + r;
    }

    /** Write padding up to the end of the virtual block. */
    method Pad(pad: seq<Sector>) returns (r: int)
      requires Valid() && |pad| == wsOpt && posWrite <= Nbytes()
      requires (Nbytes() - posWrite) / nb > 0 || posWrite / nb > 0
      modifies this`posWrite, dev
      ensures dev.faults >= old(dev.faults)
      ensures OthersSame(old(dev.st), dev.st, blks) && Kept(old(dev.st), dev.st)
      ensures r == |blks| * nsectr * nb - old(posWrite) || r == -1
      ensures var m, bgn := (Nbytes() - old(posWrite)) / nb, old(posWrite) / nb;
              var data := Transfer(Null, pad, nb, wsOpt, m);
              var w := WriteAll(old(dev.st), Range(blks, wsOpt, bgn, m), data);
              && (r != -1 <==>
                    m % wsOpt == 0 && bgn % wsOpt == 0 && w.Some? && dev.faults == old(dev.faults))
              && (r != -1 ==> dev.st == w.value && posWrite == Nbytes())
              && (r == -1 ==> posWrite == old(posWrite))
    {
      r := Write(Null, pad, Nbytes() - posWrite);
    }

    /** Read at the read cursor, which advances exactly when the read succeeds. */
    method Read(count: nat) returns (r: int, out: seq<Sector>)
      requires Valid()
      requires count / nb > 0 || posRead / nb > 0
      modifies this`posRead, dev`faults, dev`cmds
      ensures var m, bgn := count / nb, old(posRead) / nb;
              var addrs := Range(blks, wsOpt, bgn, ReadTotal(m, if scalar then wsOpt else NADDR_MAX));
              && (r == count || r == -1)
              && (r == count <==>
                    m % wsOpt == 0 && bgn % wsOpt == 0 && Readable(dev.st, dev.dulbe, addrs)
                    && dev.faults == old(dev.faults))
              && (r == count ==> out == DeliverAll(dev.st, dev.predef, addrs))
      ensures posRead == old(posRead) + (if r == count then count else 0)
    {
      r, out := SyncPread(count, posRead);
      if r < 0 { return; }
      posRead := posRead + r;
    }

    /** Copy this virtual block to `dst`, striped by WS_MIN in commands of up to 64
        sectors. It succeeds exactly when no command fails and each finds its source
        written and its destination at the write pointer; between chunks not shared
        that is one copy of the whole block. After success every sector of the
        destination reads like that of the source, shared or not, and in every case
        what had been written before is kept. */
    method CopyTo(dst: VirtualBlock) returns (r: int)
      requires Valid() && dst.Valid()
      modifies dev
      ensures dev.faults >= old(dev.faults)
      ensures OthersSame(old(dev.st), dev.st, dst.blks) && Kept(old(dev.st), dev.st)
      ensures r == Nbytes() || r == -1
      ensures dst.dev == dev && |dst.blks| == |blks| && dst.Nbytes() == Nbytes() && (|blks| * nsectr) % wsMin == 0 ==>
                var c := CopyFrom(old(dev.st), blks, dst.blks, wsMin, |blks| * nsectr, CopyCommandMax(wsMin), 0);
                && (r == Nbytes() <==> c.Some? && dev.faults == old(dev.faults))
                && (r == Nbytes() ==> dev.st == c.value && Copied(dev.st, blks, dst.blks, wsMin, |blks| * nsectr))
      ensures dst.dev != dev || |dst.blks| != |blks| || dst.Nbytes() != Nbytes() || (|blks| * nsectr) % wsMin != 0 ==>
                r == -1 && dev.st == old(dev.st)
      ensures dst.dev == dev && |dst.blks| == |blks| && dst.Nbytes() == Nbytes() && (|blks| * nsectr) % wsMin == 0
              && Disjoint(blks, dst.blks) ==>
                var total := |blks| * nsectr;
                var c := CopyAll(old(dev.st), Range(blks, wsMin, 0, total), Range(dst.blks, wsMin, 0, total));
                && (r == Nbytes() <==> c.Some? && dev.faults == old(dev.faults))
                && (r == Nbytes() ==> dev.st == c.value)
    {
      hide CopyAll, OthersSame, Kept, Range, CopyCommandMax, CopyFrom, Copied;
      OthersSameRefl(dev.st, dst.blks);
      KeptRefl(dev.st);
      if dst.dev != dev { return -1; }
      if |dst.blks| != |blks| { return -1; }
      if dst.Nbytes() != Nbytes() { return -1; }
      if (|blks| * nsectr) % wsMin != 0 { return -1; }
      var nerr := CopyCommands(dst.blks, |blks| * nsectr);
      if nerr > 0 { return -1; }
      return Nbytes();
    }

    /** The copy loop, counting the failed commands. */
    method CopyCommands(dst: seq<nat>, total: nat) returns (nerr: nat)
      requires |blks| > 0 && |dst| > 0 && 1 <= wsMin <= NADDR_MAX
      modifies dev
      ensures dev.faults >= old(dev.faults)
      ensures OthersSame(old(dev.st), dev.st, dst) && Kept(old(dev.st), dev.st)
      ensures var c := CopyFrom(old(dev.st), blks, dst, wsMin, total, CopyCommandMax(wsMin), 0);
              && (nerr == 0 <==> c.Some? && dev.faults == old(dev.faults))
              && (nerr == 0 ==> dev.st == c.value && Copied(dev.st, blks, dst, wsMin, total))
      ensures Disjoint(blks, dst) ==>
                var c := CopyAll(old(dev.st), Range(blks, wsMin, 0, total), Range(dst, wsMin, 0, total));
                && (nerr == 0 <==> c.Some? && dev.faults == old(dev.faults))
                && (nerr == 0 ==> dev.st == c.value)
    {
      hide CopyAll, CopyLoop, CopyRun, OthersSame, Kept, Range, CopyCommandMax, Disjoint, CopyFrom, Copied;
      var cmdMax := CopyCommandMax(wsMin);
      ghost var st0, f0 := dev.st, dev.faults;
      var done := 0;
      nerr := 0;
      CopyLoopInit(st0, blks, dst, wsMin, total);
      CopyRunInit(st0, blks, dst, wsMin, total, cmdMax);
      while done < total
        invariant 0 <= done <= total
        invariant dev.faults >= f0
        invariant CopyRun(st0, dev.st, blks, dst, wsMin, total, cmdMax, done, nerr, dev.faults > f0)
        invariant Disjoint(blks, dst) ==>
                    CopyLoop(st0, dev.st, blks, dst, wsMin, total, done, nerr, dev.faults > f0)
        decreases total - done
      {
        var len := if total - done < cmdMax then total - done else cmdMax;
        var from := FillAddrs(blks, wsMin, done, len);
        var to := FillAddrs(dst, wsMin, done, len);
        ghost var st1, f1 := dev.st, dev.faults;
        var err := dev.Copy(from[..], to[..]);
        CopyRunStep(st0, st1, dev.st, blks, dst, wsMin, total, cmdMax, done, len, nerr, f1 > f0, err, dev.faults > f1);
        if Disjoint(blks, dst) {
          CopyLoopStep(st0, st1, dev.st, blks, dst, wsMin, total, done, len, nerr, f1 > f0, err, dev.faults > f1);
        }
        if err { nerr := nerr + 1; }
        done := done + len;
      }
      CopyRunEnd(st0, dev.st, blks, dst, wsMin, total, cmdMax, nerr, dev.faults > f0);
      if Disjoint(blks, dst) {
        CopyLoopEnd(st0, dev.st, blks, dst, wsMin, total, nerr, dev.faults > f0);
      }
    }

    /** The part of the buffer, or the padding, that one command carries. */
    method CommandData(src: Source, pad: seq<Sector>, at: nat, m: nat) returns (piece: seq<Sector>)
      requires nb > 0 && wsOpt > 0 && |pad| == wsOpt
      requires src.Buf? ==> m * nb <= |src.bytes|
      requires at + wsOpt <= m && at % wsOpt == 0
      ensures piece == Transfer(src, pad, nb, wsOpt, m)[at..at + wsOpt]
    {
      if src.Null? {
        piece := pad;
        PadPiece(pad, nb, wsOpt, at, m);
      } else {
        piece := [];
        while |piece| < wsOpt
          invariant |piece| <= wsOpt
          invariant piece == Transfer(src, pad, nb, wsOpt, m)[at..at + |piece|]
        {
          MulLe(at + |piece| + 1, m, nb);
          piece := piece + [ByteSector(src.bytes, nb, at + |piece|)];
        }
      }
    }
  }

  /** Allocation refuses more than 128 chunks and chunks the device does not
      have. */
  method Alloc(dev: Dev, blks: seq<nat>, wsOpt: nat, wsMin: nat, nsectr: nat, nb: nat, eraseNaddrsMax: nat)
    returns (v: VirtualBlock?)
    ensures v == null <==> |blks| > 128 || exists c :: c in blks && c >= |dev.st|
    ensures v != null ==>
              && v.dev == dev && v.blks == blks && v.wsOpt == wsOpt && v.wsMin == wsMin
              && v.nsectr == nsectr && v.nb == nb && v.eraseNaddrsMax == eraseNaddrsMax
              && v.posWrite == 0 && v.posRead == 0 && !v.scalar
  {
    if |blks| > 128 { return null; }
    var i := 0;
    while i < |blks|
      invariant 0 <= i <= |blks| && forall j :: 0 <= j < i ==> blks[j] < |dev.st|
    {
      if blks[i] >= |dev.st| {
        assert blks[i] in blks;
        return null;
      }
      i := i + 1;
    }
    return new VirtualBlock(dev, blks, wsOpt, wsMin, nsectr, nb, eraseNaddrsMax);
  }

  // ---- the copy loop -----------------------------------------------------------------

  /** Sectors per copy command: the largest multiple of WS_MIN up to 64. The loop
      advances by it, so it ends exactly when WS_MIN is at most 64. */
  function CopyCommandMax(wsMin: nat): (r: nat)
    requires wsMin > 0
    ensures r <= NADDR_MAX < r + wsMin && r % wsMin == 0
    ensures r > 0 <==> wsMin <= NADDR_MAX
  {
    var q := NADDR_MAX / wsMin;
    assert NADDR_MAX == q * wsMin + NADDR_MAX % wsMin;
    DivModUnique(q * wsMin, wsMin, q, 0);
    assert q > 0 ==> q * wsMin >= wsMin by { MulAtLeast(q, wsMin); }
    q * wsMin
  }

  /** The commands from sector `done` on, one after the other, each reading what the
      ones before it left. */
  function CopyFrom(st: Store, src: seq<nat>, dst: seq<nat>, w: nat, total: nat, max: nat, done: nat): Option<Store>
    requires |src| > 0 && |dst| > 0 && w > 0 && max > 0
    decreases total - done
  {
    if done >= total then Some(st)
    else
      var len := if total - done < max then total - done else max;
      match CopyAll(st, Range(src, w, done, len), Range(dst, w, done, len))
      case None => None
      case Some(st') => CopyFrom(st', src, dst, w, total, max, done + len)
  }

  /** Each of the first `done` sectors of the destination reads like that of the
      source. */
  ghost predicate Copied(st: Store, src: seq<nat>, dst: seq<nat>, w: nat, done: nat)
    requires |src| > 0 && |dst| > 0 && w > 0
  {
    forall t :: 0 <= t < done ==> CopiedAt(st, src, dst, w, t)
  }

  ghost predicate CopiedAt(st: Store, src: seq<nat>, dst: seq<nat>, w: nat, t: nat)
    requires |src| > 0 && |dst| > 0 && w > 0
  {
    ReadOne(st, Resolve(src, w, t)).Some? && ReadOne(st, Resolve(dst, w, t)) == ReadOne(st, Resolve(src, w, t))
  }

  lemma KeptRefl(st: Store)
    ensures Kept(st, st)
  {
  }

  lemma CopiedKept(st: Store, st': Store, src: seq<nat>, dst: seq<nat>, w: nat, done: nat)
    requires |src| > 0 && |dst| > 0 && w > 0 && Copied(st, src, dst, w, done) && Kept(st, st')
    ensures Copied(st', src, dst, w, done)
  {
    hide Resolve, ReadOne;
    forall t | 0 <= t < done ensures CopiedAt(st', src, dst, w, t) {
      assert CopiedAt(st, src, dst, w, t);
    }
  }

  lemma CopyAllKept(st: Store, from: seq<SecAddr>, to: seq<SecAddr>)
    requires |from| == |to| && CopyAll(st, from, to).Some?
    ensures Kept(st, CopyAll(st, from, to).value)
  {
    WriteAllKept(st, to, DeliverAll(st, [], from));
  }

  /** A command copies sector by sector, and what it read stays what it read. */
  lemma CommandCopies(st: Store, src: seq<nat>, dst: seq<nat>, w: nat, done: nat, len: nat, t: nat)
    requires |src| > 0 && |dst| > 0 && w > 0 && done <= t < done + len
    requires CopyAll(st, Range(src, w, done, len), Range(dst, w, done, len)).Some?
    ensures CopiedAt(CopyAll(st, Range(src, w, done, len), Range(dst, w, done, len)).value, src, dst, w, t)
  {
    hide Resolve, WriteAll;
    var from, to, i := Range(src, w, done, len), Range(dst, w, done, len), t - done;
    assert from[i] == Resolve(src, w, t) && to[i] == Resolve(dst, w, t);
    WriteAllReadsBack(st, to, DeliverAll(st, [], from), i);
    WriteAllKept(st, to, DeliverAll(st, [], from));
  }

  /** Where the copy loop stands: as if its commands were carried out one after the
      other, or going to fail. */
  ghost predicate CopyRun(st0: Store, st: Store, src: seq<nat>, dst: seq<nat>, w: nat, total: nat, max: nat, done: nat,
                          nerr: nat, faulted: bool)
    requires |src| > 0 && |dst| > 0 && w > 0 && max > 0
  {
    var all := CopyFrom(st0, src, dst, w, total, max, 0);
    && OthersSame(st0, st, dst) && Kept(st0, st)
    && (nerr == 0 ==> !faulted && all == CopyFrom(st, src, dst, w, total, max, done) && Copied(st, src, dst, w, done))
    && (nerr > 0 ==> faulted || all.None?)
  }

  lemma CopyRunInit(st: Store, src: seq<nat>, dst: seq<nat>, w: nat, total: nat, max: nat)
    requires |src| > 0 && |dst| > 0 && w > 0 && max > 0
    ensures CopyRun(st, st, src, dst, w, total, max, 0, 0, false)
  {
  }

  lemma CopyRunStep(st0: Store, st: Store, st': Store, src: seq<nat>, dst: seq<nat>, w: nat, total: nat, max: nat, done: nat, len: nat,
                    nerr: nat, faulted: bool, err: bool, fault: bool)
    requires |src| > 0 && |dst| > 0 && w > 0 && max > 0 && done < total
    requires len == if total - done < max then total - done else max
    requires CopyRun(st0, st, src, dst, w, total, max, done, nerr, faulted)
    requires var c := CopyAll(st, Range(src, w, done, len), Range(dst, w, done, len));
             (err <==> c.None? || fault) && st' == if err then st else c.value
    ensures CopyRun(st0, st', src, dst, w, total, max, done + len, if err then nerr + 1 else nerr, faulted || fault)
  {
    hide CopyAll, OthersSame, Kept, Range, CopiedAt;
    CopyFrame(st0, st, st', Range(src, w, done, len), dst, w, done, len, err);
    if !err {
      CopyAllKept(st, Range(src, w, done, len), Range(dst, w, done, len));
      KeptTransitive(st0, st, st');
      if nerr == 0 {
        CopiedKept(st, st', src, dst, w, done);
        forall t | 0 <= t < done + len ensures CopiedAt(st', src, dst, w, t) {
          if t >= done { CommandCopies(st, src, dst, w, done, len, t); }
        }
      }
    }
  }

  lemma CopyRunEnd(st0: Store, st: Store, src: seq<nat>, dst: seq<nat>, w: nat, total: nat, max: nat, nerr: nat, faulted: bool)
    requires |src| > 0 && |dst| > 0 && w > 0 && max > 0
    requires CopyRun(st0, st, src, dst, w, total, max, total, nerr, faulted)
    ensures OthersSame(st0, st, dst) && Kept(st0, st)
    ensures nerr == 0 <==> !faulted && CopyFrom(st0, src, dst, w, total, max, 0).Some?
    ensures nerr == 0 ==> CopyFrom(st0, src, dst, w, total, max, 0) == Some(st) && Copied(st, src, dst, w, total)
  {
  }

  predicate Disjoint(a: seq<nat>, b: seq<nat>) {
    forall x :: x in a ==> x !in b
  }

  ghost predicate CopyLoop(st0: Store, st: Store, src: seq<nat>, dst: seq<nat>, w: nat, total: nat, done: nat,
                           nerr: nat, faulted: bool)
    requires |src| > 0 && |dst| > 0 && w > 0 && done <= total
  {
    var from, to := Range(src, w, 0, total), Range(dst, w, 0, total);
    && OthersSame(st0, st, dst)
    && (nerr == 0 ==>
          && !faulted && AllWritten(st0, Range(src, w, 0, done))
          && WritePrefix(st0, dst, w, 0, DeliverAll(st0, [], from), done) == Some(st))
    && (nerr > 0 ==> faulted || CopyAll(st0, from, to).None?)
  }

  lemma CopyLoopInit(st: Store, src: seq<nat>, dst: seq<nat>, w: nat, total: nat)
    requires |src| > 0 && |dst| > 0 && w > 0
    ensures CopyLoop(st, st, src, dst, w, total, 0, 0, false)
  {
  }

  lemma OthersSameRefl(st: Store, blks: seq<nat>)
    ensures OthersSame(st, st, blks)
  {
  }

  lemma CopyFrame(st0: Store, st: Store, st': Store, from: seq<SecAddr>, dst: seq<nat>, w: nat, done: nat, len: nat, err: bool)
    requires |dst| > 0 && w > 0 && |from| == len && OthersSame(st0, st, dst)
    requires var c := CopyAll(st, from, Range(dst, w, done, len));
             (!err ==> c.Some?) && st' == if err then st else c.value
    ensures OthersSame(st0, st', dst)
  {
    if !err {
      WriteAllFrame(st, Range(dst, w, done, len), DeliverAll(st, [], from));
      RangeFootprint(dst, w, done, len);
    }
  }

  /** Copying does not touch the source, so each command reads what was there at
      the start. */
  lemma SourceStays(st0: Store, st: Store, src: seq<nat>, dst: seq<nat>, w: nat, done: nat, len: nat)
    requires |src| > 0 && w > 0 && Disjoint(src, dst) && OthersSame(st0, st, dst)
    ensures AllWritten(st, Range(src, w, done, len)) <==> AllWritten(st0, Range(src, w, done, len))
    ensures DeliverAll(st, [], Range(src, w, done, len)) == DeliverAll(st0, [], Range(src, w, done, len))
  {
    var from := Range(src, w, done, len);
    forall i | 0 <= i < len ensures ReadOne(st, from[i]) == ReadOne(st0, from[i]) {
      ResolveChunk(src, w, done + i);
    }
  }

  lemma AllWrittenConcat(st: Store, a: seq<SecAddr>, b: seq<SecAddr>)
    ensures AllWritten(st, a + b) <==> AllWritten(st, a) && AllWritten(st, b)
  {
    if AllWritten(st, a + b) {
      forall i | 0 <= i < |b| ensures ReadOne(st, b[i]).Some? {
        assert b[i] == (a + b)[|a| + i];
      }
      forall i | 0 <= i < |a| ensures ReadOne(st, a[i]).Some? {
        assert a[i] == (a + b)[i];
      }
    }
  }

  lemma CopyLoopStep(st0: Store, st: Store, st': Store, src: seq<nat>, dst: seq<nat>, w: nat, total: nat, done: nat, len: nat,
                     nerr: nat, faulted: bool, err: bool, fault: bool)
    requires |src| > 0 && |dst| > 0 && w > 0 && done + len <= total && Disjoint(src, dst)
    requires CopyLoop(st0, st, src, dst, w, total, done, nerr, faulted)
    requires var c := CopyAll(st, Range(src, w, done, len), Range(dst, w, done, len));
             (err <==> c.None? || fault) && st' == if err then st else c.value
    ensures CopyLoop(st0, st', src, dst, w, total, done + len, if err then nerr + 1 else nerr, faulted || fault)
  {
    hide AllWritten, DeliverAll, OthersSame, WriteAll, Range, CopyAll;
    var data := DeliverAll(st0, [], Range(src, w, 0, total));
    DeliverLength(st0, [], Range(src, w, 0, total));
    CopyFrame(st0, st, st', Range(src, w, done, len), dst, w, done, len, err);
    CopyCommandIs(st0, st, src, dst, w, total, done, len);
    CopySplit(st0, src, w, total, done, len);
    if nerr == 0 {
      WritePrefixStep(st0, dst, w, 0, data, done, len);
      WholeCopyFails(st0, src, dst, w, total, done, len);
    }
  }

  lemma DeliverLength(st: Store, predef: Sector, addrs: seq<SecAddr>)
    ensures |DeliverAll(st, predef, addrs)| == |addrs|
  {
  }

  /** A copy command in the middle of the loop, in terms of the start. */
  lemma CopyCommandIs(st0: Store, st: Store, src: seq<nat>, dst: seq<nat>, w: nat, total: nat, done: nat, len: nat)
    requires |src| > 0 && |dst| > 0 && w > 0 && done + len <= total && Disjoint(src, dst) && OthersSame(st0, st, dst)
    ensures |DeliverAll(st0, [], Range(src, w, 0, total))| == total
    ensures CopyAll(st, Range(src, w, done, len), Range(dst, w, done, len))
         == if AllWritten(st0, Range(src, w, done, len))
            then WriteAll(st, Range(dst, w, done, len), DeliverAll(st0, [], Range(src, w, 0, total))[done..done + len])
            else None
  {
    SourceStays(st0, st, src, dst, w, done, len);
    CopySplit(st0, src, w, total, done, len);
  }

  /** If a part of the copy cannot be carried out, neither can the whole. */
  lemma WholeCopyFails(st0: Store, src: seq<nat>, dst: seq<nat>, w: nat, total: nat, done: nat, len: nat)
    requires |src| > 0 && |dst| > 0 && w > 0 && done + len <= total
    ensures |DeliverAll(st0, [], Range(src, w, 0, total))| == total
    ensures !AllWritten(st0, Range(src, w, done, len)) ==>
              CopyAll(st0, Range(src, w, 0, total), Range(dst, w, 0, total)).None?
    ensures WritePrefix(st0, dst, w, 0, DeliverAll(st0, [], Range(src, w, 0, total)), done + len).None? ==>
              CopyAll(st0, Range(src, w, 0, total), Range(dst, w, 0, total)).None?
  {
    var data := DeliverAll(st0, [], Range(src, w, 0, total));
    CopySplit(st0, src, w, total, done, len);
    if WritePrefix(st0, dst, w, 0, data, done + len).None? {
      WritePrefixFails(st0, dst, w, 0, data, done + len);
    }
  }

  lemma CopySplit(st: Store, src: seq<nat>, w: nat, total: nat, done: nat, len: nat)
    requires |src| > 0 && w > 0 && done + len <= total
    ensures AllWritten(st, Range(src, w, 0, done + len))
       <==> AllWritten(st, Range(src, w, 0, done)) && AllWritten(st, Range(src, w, done, len))
    ensures AllWritten(st, Range(src, w, 0, total)) ==> AllWritten(st, Range(src, w, done, len))
    ensures DeliverAll(st, [], Range(src, w, 0, total))[done..done + len] == DeliverAll(st, [], Range(src, w, done, len))
  {
    var a, b, rest := Range(src, w, 0, done), Range(src, w, done, len), Range(src, w, done + len, total - done - len);
    RangeSplit(src, w, 0, done, len);
    RangeSplit(src, w, 0, done + len, total - done - len);
    AllWrittenConcat(st, a, b);
    AllWrittenConcat(st, a + b, rest);
    DeliverConcat(st, [], a, b);
    DeliverConcat(st, [], a + b, rest);
  }

  lemma CopyLoopEnd(st0: Store, st: Store, src: seq<nat>, dst: seq<nat>, w: nat, total: nat, nerr: nat, faulted: bool)
    requires |src| > 0 && |dst| > 0 && w > 0
    requires CopyLoop(st0, st, src, dst, w, total, total, nerr, faulted)
    ensures var c := CopyAll(st0, Range(src, w, 0, total), Range(dst, w, 0, total));
            (nerr == 0 <==> !faulted && c.Some?) && (nerr == 0 ==> c == Some(st))
  {
    var data := DeliverAll(st0, [], Range(src, w, 0, total));
    assert data[..total] == data;
  }

  // ---- the erase loop ---------------------------------------------------------------

  ghost predicate EraseLoop(st0: Store, st: Store, blks: seq<nat>, multiReset: bool, done: nat, nerr: nat, faulted: bool)
    requires done <= |blks|
  {
    && OthersSame(st0, st, blks)
    && (nerr == 0 ==> !faulted && ResetAll(st0, blks[..done], multiReset) == Some(st))
    && (nerr > 0 ==> faulted || ResetAll(st0, blks, multiReset).None?)
  }

  lemma EraseLoopInit(st: Store, blks: seq<nat>, multiReset: bool)
    ensures EraseLoop(st, st, blks, multiReset, 0, 0, false)
  {
  }

  lemma EraseLoopStep(st0: Store, st: Store, st': Store, blks: seq<nat>, multiReset: bool, done: nat, len: nat,
                      nerr: nat, faulted: bool, err: bool, fault: bool)
    requires done + len <= |blks| && EraseLoop(st0, st, blks, multiReset, done, nerr, faulted)
    requires var r := ResetAll(st, blks[done..done + len], multiReset);
             (err <==> r.None? || fault) && st' == if err then st else r.value
    ensures EraseLoop(st0, st', blks, multiReset, done + len, if err then nerr + 1 else nerr, faulted || fault)
  {
    var a, b, c := blks[..done], blks[done..done + len], blks[done + len..];
    assert blks[..done + len] == a + b;
    assert blks == (a + b) + c;
    ResetAllConcat(st0, a, b, multiReset);
    ResetAllConcat(st0, a + b, c, multiReset);
    assert forall x :: x in b ==> x in blks;
  }

  lemma EraseLoopEnd(st0: Store, st: Store, blks: seq<nat>, multiReset: bool, nerr: nat, faulted: bool)
    requires EraseLoop(st0, st, blks, multiReset, |blks|, nerr, faulted)
    ensures OthersSame(st0, st, blks)
    ensures nerr == 0 <==> !faulted && ResetAll(st0, blks, multiReset).Some?
    ensures nerr == 0 ==> ResetAll(st0, blks, multiReset) == Some(st)
  {
    assert blks[..|blks|] == blks;
  }

  // ---- the read loop -----------------------------------------------------------------

  /** Sectors a scalar command covers: consecutive ones in one chunk. */
  function ScalarRange(a: SecAddr, n: nat): seq<SecAddr> {
    seq(n, i requires 0 <= i < n => SecAddr(a.chunk, a.sectr + i))
  }

  /** A unit lies in one chunk, so a scalar command covers the sectors a vector
      command would list. */
  lemma ScalarIsUnit(blks: seq<nat>, w: nat, s: nat)
    requires |blks| > 0 && w > 0 && s % w == 0
    ensures ScalarRange(Resolve(blks, w, s), w) == Range(blks, w, s, w)
  {
    hide Resolve;
    forall i | 0 <= i < w ensures ScalarRange(Resolve(blks, w, s), w)[i] == Range(blks, w, s, w)[i] {
      UnitNeighbour(blks, w, s, i);
    }
  }

  lemma UnitNeighbour(blks: seq<nat>, w: nat, s: nat, i: nat)
    requires |blks| > 0 && w > 0 && s % w == 0 && i < w
    ensures Resolve(blks, w, s + i) == SecAddr(Resolve(blks, w, s).chunk, Resolve(blks, w, s).sectr + i)
  {
    hide Place;
    var u := s / w;
    PlaceOfUnit(|blks|, w, u, 0, s);
    PlaceOfUnit(|blks|, w, u, i, s + i);
  }

  ghost predicate ReadLoop(st: Store, dulbe: bool, predef: Sector, blks: seq<nat>, w: nat, s: nat, done: nat,
                           out: seq<Sector>, nerr: nat, faulted: bool)
    requires |blks| > 0 && w > 0
  {
    var addrs := Range(blks, w, s, done);
    && (nerr == 0 <==> !faulted && Readable(st, dulbe, addrs))
    && (nerr == 0 ==> out == DeliverAll(st, predef, addrs))
  }

  lemma ReadLoopInit(st: Store, dulbe: bool, predef: Sector, blks: seq<nat>, w: nat, s: nat)
    requires |blks| > 0 && w > 0
    ensures ReadLoop(st, dulbe, predef, blks, w, s, 0, [], 0, false)
  {
  }

  lemma ReadLoopStep(st: Store, dulbe: bool, predef: Sector, blks: seq<nat>, w: nat, s: nat, done: nat, len: nat,
                     out: seq<Sector>, nerr: nat, faulted: bool, err: bool, got: seq<Sector>, fault: bool)
    requires |blks| > 0 && w > 0
    requires ReadLoop(st, dulbe, predef, blks, w, s, done, out, nerr, faulted)
    requires var addrs := Range(blks, w, s + done, len);
             (err <==> !Readable(st, dulbe, addrs) || fault) && (!err ==> got == DeliverAll(st, predef, addrs))
    ensures ReadLoop(st, dulbe, predef, blks, w, s, done + len, if err then out else out + got,
                     if err then nerr + 1 else nerr, faulted || fault)
  {
    RangeSplit(blks, w, s, done, len);
    ReadableConcat(st, dulbe, Range(blks, w, s, done), Range(blks, w, s + done, len));
    DeliverConcat(st, predef, Range(blks, w, s, done), Range(blks, w, s + done, len));
  }

  lemma ReadLoopIs(st: Store, dulbe: bool, predef: Sector, blks: seq<nat>, w: nat, s: nat, m: nat,
                   out: seq<Sector>, nerr: nat, faulted: bool)
    requires |blks| > 0 && w > 0 && ReadLoop(st, dulbe, predef, blks, w, s, m, out, nerr, faulted)
    ensures nerr == 0 <==> !faulted && Readable(st, dulbe, Range(blks, w, s, m))
    ensures nerr == 0 ==> out == DeliverAll(st, predef, Range(blks, w, s, m))
  {
  }

  lemma ReadableConcat(st: Store, dulbe: bool, a: seq<SecAddr>, b: seq<SecAddr>)
    ensures Readable(st, dulbe, a + b) <==> Readable(st, dulbe, a) && Readable(st, dulbe, b)
  {
    if Readable(st, dulbe, a + b) {
      forall i | 0 <= i < |b| ensures CanRead(st, dulbe, b[i]) {
        assert b[i] == (a + b)[|a| + i];
      }
      forall i | 0 <= i < |a| ensures CanRead(st, dulbe, a[i]) {
        assert a[i] == (a + b)[i];
      }
    }
  }

  lemma DeliverConcat(st: Store, predef: Sector, a: seq<SecAddr>, b: seq<SecAddr>)
    ensures DeliverAll(st, predef, a + b) == DeliverAll(st, predef, a) + DeliverAll(st, predef, b)
  {
  }

  lemma ReadTotalUnique(m: nat, c: nat, done: nat)
    requires c > 0 && done % c == 0 && m <= done < m + c
    ensures done == ReadTotal(m, c)
  {
    assert done == (done / c) * c;
    DivModUnique(m + c - 1, c, done / c, m + c - 1 - done);
  }

  /** Accepted sectors lie inside their chunks, so the device can be asked for
      them. */
  lemma {:induction false} WriteAllCanRead(st: Store, addrs: seq<SecAddr>, data: seq<Sector>, dulbe: bool, i: nat)
    requires |addrs| == |data| && WriteAll(st, addrs, data).Some? && i < |addrs|
    ensures CanRead(WriteAll(st, addrs, data).value, dulbe, addrs[i])
    decreases |addrs|
  {
    WriteAllReadsBack(st, addrs, data, i);
    var st1 := WriteOne(st, addrs[0], data[0]).value;
    if i == 0 {
      WriteAllCaps(st1, addrs[1..], data[1..], addrs[0].chunk);
    } else {
      WriteAllCanRead(st1, addrs[1..], data[1..], dulbe, i - 1);
    }
  }

  lemma {:induction false} WriteAllCaps(st: Store, addrs: seq<SecAddr>, data: seq<Sector>, c: nat)
    requires |addrs| == |data| && WriteAll(st, addrs, data).Some? && c < |st|
    ensures WriteAll(st, addrs, data).value[c].cap == st[c].cap
    decreases |addrs|
  {
    if addrs != [] {
      WriteAllCaps(WriteOne(st, addrs[0], data[0]).value, addrs[1..], data[1..], c);
    }
  }

  /** What an accepted write leaves on the device: its sectors can be read and
      deliver what was written, and nothing written before is disturbed. */
  lemma WrittenDelivers(st: Store, blks: seq<nat>, w: nat, s: nat, data: seq<Sector>, dulbe: bool, predef: Sector)
    requires |blks| > 0 && w > 0
    requires WriteAll(st, Range(blks, w, s, |data|), data).Some?
    ensures var st' := WriteAll(st, Range(blks, w, s, |data|), data).value;
            var addrs := Range(blks, w, s, |data|);
            && Readable(st', dulbe, addrs)
            && DeliverAll(st', predef, addrs) == data
            && Kept(st, st')
            && OthersSame(st, st', blks)
  {
    hide WriteAll, CanRead;
    var addrs := Range(blks, w, s, |data|);
    var st' := WriteAll(st, addrs, data).value;
    forall i | 0 <= i < |data| ensures ReadOne(st', addrs[i]) == Some(data[i]) && CanRead(st', dulbe, addrs[i]) {
      WriteAllReadsBack(st, addrs, data, i);
      WriteAllCanRead(st, addrs, data, dulbe, i);
    }
    WriteAllKept(st, addrs, data);
    WriteAllFrame(st, addrs, data);
    RangeFootprint(blks, w, s, |data|);
  }

  /** Reading past the request does not change what comes first. */
  lemma DeliverPrefix(st: Store, predef: Sector, blks: seq<nat>, w: nat, s: nat, m: nat, total: nat)
    requires |blks| > 0 && w > 0 && m <= total
    ensures |DeliverAll(st, predef, Range(blks, w, s, total))| == total
    ensures DeliverAll(st, predef, Range(blks, w, s, total))[..m] == DeliverAll(st, predef, Range(blks, w, s, m))
  {
    RangeSplit(blks, w, s, m, total - m);
    DeliverConcat(st, predef, Range(blks, w, s, m), Range(blks, w, s + m, total - m));
  }

  lemma PadPiece(pad: seq<Sector>, nb: nat, w: nat, at: nat, m: nat)
    requires w > 0 && |pad| == w && at + w <= m && at % w == 0
    ensures Transfer(Null, pad, nb, w, m)[at..at + w] == pad
  {
    var data := Transfer(Null, pad, nb, w, m);
    forall i | 0 <= i < w ensures data[at..at + w][i] == pad[i] {
      DivModUnique(at + i, w, at / w, i);
      assert data[at + i] == TransferSector(Null, pad, nb, w, at + i);
    }
  }

  lemma WriteLoopInit(st: Store, blks: seq<nat>, w: nat, s: nat, data: seq<Sector>)
    requires |blks| > 0 && w > 0
    ensures WriteLoop(st, st, blks, w, s, data, 0, 0, false)
  {
  }

  lemma WriteLoopEnd(st0: Store, st: Store, blks: seq<nat>, w: nat, s: nat, data: seq<Sector>, nerr: nat, faulted: bool)
    requires |blks| > 0 && w > 0
    requires WriteLoop(st0, st, blks, w, s, data, |data|, nerr, faulted)
    ensures OthersSame(st0, st, blks) && Kept(st0, st)
    ensures nerr == 0 <==> !faulted && WriteAll(st0, Range(blks, w, s, |data|), data).Some?
    ensures nerr == 0 ==> WriteAll(st0, Range(blks, w, s, |data|), data) == Some(st)
  {
    assert data[..|data|] == data;
  }

  lemma TotalIsWhole(m: nat, c: nat)
    requires c > 0
    ensures ReadTotal(m, c) % c == 0
  {
    DivModUnique(ReadTotal(m, c), c, (m + c - 1) / c, 0);
  }

  /** Between multiples of `w` there is room for `w` more. */
  lemma NextWhole(done: nat, m: nat, w: nat)
    requires w > 0 && done % w == 0 && m % w == 0 && done < m
    ensures done + w <= m && (done + w) % w == 0
  {
    var a, b := done / w, m / w;
    assert done == a * w && m == b * w;
    assert (b - a) * w > 0 by { assert (b - a) * w == b * w - a * w; }
    PositiveFactor(b - a, w);
    MulLe(a + 1, b, w);
    assert (a + 1) * w == a * w + w;
    DivModUnique(done + w, w, a + 1, 0);
  }
}
