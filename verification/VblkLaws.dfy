/** What the virtual block operations amount to: an append-only log over the
    striped chunks, through every run of writes, padding and erases, and through
    a copy that stripes by a different unit. */
module VblkLaws {
  import opened Arith
  import opened Device
  import opened Striping
  import opened Vblk

  // ---- runs of write, pad and erase ------------------------------------------

  /** The calls that move the write cursor, `Pad` with the padding it writes. */
  datatype Op = Append(data: seq<Sector>) | Pad(fill: seq<Sector>) | EraseOp

  datatype State = State(st: Store, pos: nat)

  /** A successful call; positions are in sectors. */
  function Do(s: State, op: Op, blks: seq<nat>, w: nat, cap: nat, multiReset: bool): Option<State>
    requires |blks| > 0 && w > 0
  {
    match op
    case Append(data) =>
      if |data| % w != 0 || s.pos % w != 0 then None
      else (match WriteAll(s.st, Range(blks, w, s.pos, |data|), data)
            case None => None
            case Some(st') => Some(State(st', s.pos + |data|)))
    case Pad(fill) =>
      if |fill| % w != 0 || s.pos % w != 0 || s.pos + |fill| != |blks| * cap then None
      else (match WriteAll(s.st, Range(blks, w, s.pos, |fill|), fill)
            case None => None
            case Some(st') => Some(State(st', s.pos + |fill|)))
    case EraseOp =>
      match ResetAll(s.st, blks, multiReset)
      case None => None
      case Some(st') => Some(State(st', 0))
  }

  function Run(s: State, ops: seq<Op>, blks: seq<nat>, w: nat, cap: nat, multiReset: bool): Option<State>
    requires |blks| > 0 && w > 0
    decreases |ops|
  {
    if ops == [] then Some(s)
    else match Run(s, ops[..|ops| - 1], blks, w, cap, multiReset)
         case None => None
         case Some(t) => Do(t, ops[|ops| - 1], blks, w, cap, multiReset)
  }

  function LogAfter(log: seq<Sector>, op: Op): seq<Sector> {
    match op
    case Append(data) => log + data
    case Pad(fill) => log + fill
    case EraseOp => []
  }

  /** The logical content a run leaves: what was appended since the last erase. */
  function LogOf(ops: seq<Op>): seq<Sector>
    decreases |ops|
  {
    if ops == [] then [] else LogAfter(LogOf(ops[..|ops| - 1]), ops[|ops| - 1])
  }

  /** A fresh virtual block: distinct free chunks of one capacity. */
  ghost predicate Fresh(st: Store, blks: seq<nat>, w: nat, cap: nat) {
    && Shape(st, blks, w, cap)
    && forall c :: 0 <= c < |blks| ==> st[blks[c]] == Chunk(Free, cap, [])
  }

  lemma FreshHolds(st: Store, blks: seq<nat>, w: nat, cap: nat)
    requires Fresh(st, blks, w, cap)
    ensures Holds(st, blks, w, cap, [])
  {
    forall c | 0 <= c < |blks| ensures ChunkHolds(st[blks[c]], |blks|, w, cap, c, 0) {
      WpAtZero(|blks|, w, c);
    }
  }

  lemma EraseHolds(st: Store, blks: seq<nat>, w: nat, cap: nat, log: seq<Sector>, multiReset: bool)
    requires Holds(st, blks, w, cap, log) && ResetAll(st, blks, multiReset).Some?
    ensures Fresh(ResetAll(st, blks, multiReset).value, blks, w, cap)
  {
    var st' := ResetAll(st, blks, multiReset).value;
    forall c | 0 <= c < |blks| ensures st'[blks[c]] == Chunk(Free, cap, []) {
      assert ChunkHolds(st[blks[c]], |blks|, w, cap, c, |log|);
      ResetAllFrees(st, blks, multiReset, blks[c]);
    }
  }

  /** Over every run of successful appends, padding and erases on fresh chunks,
      the virtual block holds exactly what was appended since the last erase. */
  lemma {:induction false} RunHoldsLog(st: Store, ops: seq<Op>, blks: seq<nat>, w: nat, cap: nat, multiReset: bool)
    requires Fresh(st, blks, w, cap) && Run(State(st, 0), ops, blks, w, cap, multiReset).Some?
    ensures var t := Run(State(st, 0), ops, blks, w, cap, multiReset).value;
            Holds(t.st, blks, w, cap, LogOf(ops)) && t.pos == |LogOf(ops)|
    decreases |ops|
  {
    if ops == [] {
      FreshHolds(st, blks, w, cap);
    } else {
      var front, last := ops[..|ops| - 1], ops[|ops| - 1];
      RunHoldsLog(st, front, blks, w, cap, multiReset);
      var t := Run(State(st, 0), front, blks, w, cap, multiReset).value;
      DoKeepsLog(t, last, LogOf(front), blks, w, cap, multiReset);
    }
  }

  lemma DoKeepsLog(t: State, op: Op, log: seq<Sector>, blks: seq<nat>, w: nat, cap: nat, multiReset: bool)
    requires Holds(t.st, blks, w, cap, log) && t.pos == |log|
    requires Do(t, op, blks, w, cap, multiReset).Some?
    ensures var t' := Do(t, op, blks, w, cap, multiReset).value;
            Holds(t'.st, blks, w, cap, LogAfter(log, op)) && t'.pos == |LogAfter(log, op)|
  {
    match op
    case Append(data) => AppendMany(t.st, blks, w, cap, log, data);
    case Pad(fill) => AppendMany(t.st, blks, w, cap, log, fill);
    case EraseOp =>
      EraseHolds(t.st, blks, w, cap, log, multiReset);
      FreshHolds(ResetAll(t.st, blks, multiReset).value, blks, w, cap);
  }

  lemma PosStaysWhole(s: State, op: Op, blks: seq<nat>, w: nat, cap: nat, multiReset: bool)
    requires |blks| > 0 && w > 0 && s.pos % w == 0
    requires Do(s, op, blks, w, cap, multiReset).Some?
    ensures Do(s, op, blks, w, cap, multiReset).value.pos % w == 0
  {
    match op
    case Append(data) => SumWhole(s.pos, |data|, w);
    case Pad(fill) => SumWhole(s.pos, |fill|, w);
    case EraseOp => DivModUnique(0, w, 0, 0);
  }

  lemma {:induction false} PosIsWhole(s: State, ops: seq<Op>, blks: seq<nat>, w: nat, cap: nat, multiReset: bool)
    requires |blks| > 0 && w > 0 && s.pos % w == 0
    requires Run(s, ops, blks, w, cap, multiReset).Some?
    ensures Run(s, ops, blks, w, cap, multiReset).value.pos % w == 0
    decreases |ops|
  {
    if ops != [] {
      PosIsWhole(s, ops[..|ops| - 1], blks, w, cap, multiReset);
      var t := Run(s, ops[..|ops| - 1], blks, w, cap, multiReset).value;
      PosStaysWhole(t, ops[|ops| - 1], blks, w, cap, multiReset);
    }
  }

  function StateAt(wp: nat, cap: nat): ChunkState {
    if wp == 0 then Free else if wp == cap then Closed else Open
  }

  lemma ChunkOf(st: Store, blks: seq<nat>, w: nat, cap: nat, log: seq<Sector>, c: nat)
    requires Holds(st, blks, w, cap, log) && c < |blks|
    ensures w > 0 && cap > 0 && cap % w == 0 && blks[c] < |st|
    ensures ChunkHolds(st[blks[c]], |blks|, w, cap, c, |log|)
  {
  }

  lemma ChunkAtCursor(st: Store, blks: seq<nat>, w: nat, cap: nat, log: seq<Sector>, c: nat)
    requires Holds(st, blks, w, cap, log) && c < |blks| && |log| % w == 0
    ensures var ch := st[blks[c]];
            && ch.Wp() == w * CountUnits(|blks|, c, |log| / w)
            && ch.state == StateAt(ch.Wp(), cap)
            && (|log| == |blks| * cap ==> ch.state == Closed)
            && (|log| == 0 ==> ch.state == Free)
  {
    hide WpAt, CountUnits, Holds;
    var n := |blks|;
    ChunkOf(st, blks, w, cap, log, c);
    var u := |log| / w;
    assert WpAt(n, w, c, |log|) == w * CountUnits(n, c, u) by {
      WholeUnits(|log|, w);
      WpAtUnits(n, w, c, u);
    }
    assert |log| == n * cap ==> WpAt(n, w, c, |log|) == cap by { WpAtFull(n, w, cap, c); }
    assert |log| == 0 ==> WpAt(n, w, c, |log|) == 0 by { WpAtZero(n, w, c); }
  }

  ghost predicate ChunkAfter(t: State, ops: seq<Op>, blks: seq<nat>, w: nat, cap: nat, c: nat)
    requires c < |blks| && w > 0
  {
    && blks[c] < |t.st|
    && var ch := t.st[blks[c]];
    && ch.Wp() == w * CountUnits(|blks|, c, t.pos / w)
    && ch.state == StateAt(ch.Wp(), cap)
    && (ops != [] && ops[|ops| - 1].Pad? ==> ch.state == Closed && t.pos == |blks| * cap)
    && (ops != [] && ops[|ops| - 1].EraseOp? ==> ch.state == Free && t.pos == 0)
  }

  /** After every such run chunk `c` has its write pointer at WS_OPT times the
      number of units below the cursor that striping deals to it, and its state
      follows from that; after padding every chunk is closed, after an erase
      every chunk is free and the cursor is 0. */
  lemma RunWritePointers(st: Store, ops: seq<Op>, blks: seq<nat>, w: nat, cap: nat, multiReset: bool, c: nat)
    requires Fresh(st, blks, w, cap) && Run(State(st, 0), ops, blks, w, cap, multiReset).Some?
    requires c < |blks|
    ensures ChunkAfter(Run(State(st, 0), ops, blks, w, cap, multiReset).value, ops, blks, w, cap, c)
  {
    RunHoldsLog(st, ops, blks, w, cap, multiReset);
    assert 0 % w == 0 by { DivModUnique(0, w, 0, 0); }
    PosIsWhole(State(st, 0), ops, blks, w, cap, multiReset);
    var t := Run(State(st, 0), ops, blks, w, cap, multiReset).value;
    ChunkAtCursor(t.st, blks, w, cap, LogOf(ops), c);
  }

  // ---- when an erase is accepted ---------------------------------------------------------

  lemma ChunkStateIs(st: Store, blks: seq<nat>, w: nat, cap: nat, log: seq<Sector>, c: nat)
    requires Holds(st, blks, w, cap, log) && c < |blks|
    ensures w > 0 && blks[c] < |st|
    ensures st[blks[c]].state == StateAt(WpAt(|blks|, w, c, |log|), cap)
  {
    ChunkOf(st, blks, w, cap, log, c);
  }

  /** The chunk of the next sector, or the first one, stands open unless the log is
      full or empty or made of chunks written in one unit. */
  lemma SomeChunkOpen(n: nat, w: nat, cap: nat, len: nat) returns (c: nat)
    requires n > 0 && w > 0 && cap > 0 && cap % w == 0 && 0 < len < n * cap && !(cap == w && len % w == 0)
    ensures c < n && 0 < WpAt(n, w, c, len) < cap
  {
    hide WpAt, CountUnits, Place;
    LogicalOfPlace(n, w, len);
    PlaceInBounds(n, w, cap, len);
    NextIsAtWp(n, w, len);
    var a := Place(n, w, len);
    if a.sectr > 0 {
      c := a.chunk;
    } else {
      c := 0;
      var u := len / w;
      FirstRound(n, w, len);
      assert cap > w by { MulAtLeast(cap / w, w); assert cap == (cap / w) * w; }
      WpAtUnits(n, w, 0, u);
      CountUnitsClosed(n, 0, u);
      assert len == u * w;
    }
  }

  /** A sector at the start of its chunk is the first of a unit of the first round. */
  lemma FirstRound(n: nat, w: nat, len: nat)
    requires n > 0 && w > 0 && len > 0 && Place(n, w, len).sectr == 0
    ensures len % w == 0 && 0 < len / w < n && (len / w) / n == 0 && (len / w) % n == len / w
  {
    var u := len / w;
    assert len == u * w + len % w;
    assert (u / n) * w >= 0 by { MulLe(0, u / n, w); }
    assert u / n == 0 by { if u / n > 0 { MulAtLeast(u / n, w); } }
    assert u == (u / n) * n + u % n;
  }

  lemma OneUnitChunks(n: nat, w: nat, c: nat, len: nat)
    requires n > 0 && w > 0 && c < n && len % w == 0 && len <= n * w
    ensures WpAt(n, w, c, len) == 0 || WpAt(n, w, c, len) == w
  {
    hide WpAt, CountUnits;
    var u := len / w;
    assert len == u * w;
    assert (n + 1) * w == n * w + w;
    if u > n { MulLe(n + 1, u, w); }
    assert u <= n;
    WpAtUnits(n, w, c, u);
    CountUnitsClosed(n, c, u);
    if u == n { DivModUnique(u, n, 1, 0); } else { DivModUnique(u, n, 0, u); }
  }

  /** On a held log an erase without faults is accepted if and only if the log fills
      the virtual block, or the device allows repeated resets and no chunk stands
      open: nothing has been written, or whole chunks in one unit each. */
  lemma EraseAcceptedIff(st: Store, blks: seq<nat>, w: nat, cap: nat, log: seq<Sector>, multiReset: bool)
    requires Holds(st, blks, w, cap, log)
    ensures w > 0
    ensures ResetAll(st, blks, multiReset).Some? <==>
              |log| == |blks| * cap || (multiReset && (|log| == 0 || (cap == w && |log| % w == 0)))
  {
    var n, len := |blks|, |log|;
    HoldsLength(st, blks, w, cap, log);
    ChunkOf(st, blks, w, cap, log, 0);
    ResetAllIff(st, blks, multiReset);
    hide WpAt, Holds, ResetAll;
    if 0 < len < n * cap && !(cap == w && len % w == 0) {
      var c := SomeChunkOpen(n, w, cap, len);
      ChunkStateIs(st, blks, w, cap, log, c);
    } else {
      forall c | 0 <= c < n
        ensures blks[c] < |st| && (st[blks[c]].state == Closed || st[blks[c]].state == Free)
        ensures len == n * cap ==> st[blks[c]].state == Closed
      {
        ChunkStateIs(st, blks, w, cap, log, c);
        if len == n * cap { WpAtFull(n, w, cap, c); }
        else if len == 0 { WpAtZero(n, w, c); }
        else { OneUnitChunks(n, w, c, len); }
      }
      if len < n * cap { SomeChunkFree(st, blks, w, cap, log); }
    }
  }

  /** A log that is not full and leaves no chunk open leaves one free. */
  lemma SomeChunkFree(st: Store, blks: seq<nat>, w: nat, cap: nat, log: seq<Sector>)
    requires Holds(st, blks, w, cap, log) && |log| < |blks| * cap
    ensures exists c :: 0 <= c < |blks| && blks[c] < |st| && st[blks[c]].state != Closed
  {
    var n := |blks|;
    ChunkOf(st, blks, w, cap, log, 0);
    LogicalOfPlace(n, w, |log|);
    PlaceInBounds(n, w, cap, |log|);
    NextIsAtWp(n, w, |log|);
    var c := Place(n, w, |log|).chunk;
    ChunkStateIs(st, blks, w, cap, log, c);
    assert st[blks[c]].state != Closed;
  }

  /** After padding an erase is accepted, on every run and every device. */
  lemma EraseAfterPad(st: Store, ops: seq<Op>, blks: seq<nat>, w: nat, cap: nat, multiReset: bool)
    requires Fresh(st, blks, w, cap) && ops != [] && ops[|ops| - 1].Pad?
    requires Run(State(st, 0), ops, blks, w, cap, multiReset).Some?
    ensures Do(Run(State(st, 0), ops, blks, w, cap, multiReset).value, EraseOp, blks, w, cap, multiReset).Some?
  {
    RunHoldsLog(st, ops, blks, w, cap, multiReset);
    var t := Run(State(st, 0), ops, blks, w, cap, multiReset).value;
    EraseAcceptedIff(t.st, blks, w, cap, LogOf(ops), multiReset);
  }

  /** With unwritten sectors no errors, what lies past the log reads as the device's
      predefined content. */
  lemma UnwrittenDelivers(st: Store, blks: seq<nat>, w: nat, cap: nat, log: seq<Sector>, t: nat, predef: Sector)
    requires Holds(st, blks, w, cap, log) && |log| <= t
    ensures |blks| > 0 && w > 0 && Deliver(st, predef, Resolve(blks, w, t)) == predef
  {
    SectorReadableIff(st, blks, w, cap, log, t, true);
    LogicalOfPlace(|blks|, w, t);
    ChunkOf(st, blks, w, cap, log, Place(|blks|, w, t).chunk);
    NextIsAtWp(|blks|, w, t);
    WpAtMonotone(|blks|, w, Place(|blks|, w, t).chunk, |log|, t);
  }

  // ---- reading more than was asked for ------------------------------------------------

  lemma {:induction false} WpAtMonotone(n: nat, w: nat, c: nat, s: nat, t: nat)
    requires n > 0 && w > 0 && c < n && s <= t
    ensures WpAt(n, w, c, s) <= WpAt(n, w, c, t)
    decreases t
  {
    if s < t {
      WpAtMonotone(n, w, c, s, t - 1);
      WpAtStep(n, w, c, t - 1);
    }
  }

  /** How far a virtual block that holds `log` can be read: what has been written
      where the device reports unwritten sectors as errors, everything otherwise. */
  function ReadLimit(blks: seq<nat>, cap: nat, log: seq<Sector>, dulbe: bool): nat {
    if dulbe then |log| else |blks| * cap
  }

  lemma SectorReadableIff(st: Store, blks: seq<nat>, w: nat, cap: nat, log: seq<Sector>, t: nat, dulbe: bool)
    requires Holds(st, blks, w, cap, log)
    ensures |blks| > 0 && w > 0 && (CanRead(st, dulbe, Resolve(blks, w, t)) <==> t < ReadLimit(blks, cap, log, dulbe))
  {
    var n := |blks|;
    HoldsLength(st, blks, w, cap, log);
    LogicalOfPlace(n, w, t);
    var a := Place(n, w, t);
    ChunkOf(st, blks, w, cap, log, a.chunk);
    NextIsAtWp(n, w, t);
    hide WpAt, Place;
    if t < n * cap { PlaceInBounds(n, w, cap, t); } else {
      WpAtMonotone(n, w, a.chunk, n * cap, t);
      WpAtFull(n, w, cap, a.chunk);
    }
    if t < |log| { assert HoldsAt(st, blks, w, t, log[t]); } else { WpAtMonotone(n, w, a.chunk, |log|, t); }
  }

  lemma RangeReadableIff(st: Store, blks: seq<nat>, w: nat, cap: nat, log: seq<Sector>, s: nat, total: nat, dulbe: bool)
    requires Holds(st, blks, w, cap, log) && total > 0
    ensures |blks| > 0 && w > 0
    ensures Readable(st, dulbe, Range(blks, w, s, total)) <==> s + total <= ReadLimit(blks, cap, log, dulbe)
  {
    hide CanRead, Resolve, Holds, ReadLimit;
    SectorReadableIff(st, blks, w, cap, log, s + total - 1, dulbe);
    var addrs := Range(blks, w, s, total);
    assert addrs[total - 1] == Resolve(blks, w, s + total - 1);
    if s + total <= ReadLimit(blks, cap, log, dulbe) {
      forall i | 0 <= i < total ensures CanRead(st, dulbe, addrs[i]) {
        SectorReadableIff(st, blks, w, cap, log, s + i, dulbe);
      }
    }
  }

  /** The read loop on a held log is accepted if and only if everything its whole
      commands cover, not only the request, lies below the limit. */
  lemma ReadAcceptedIff(st: Store, blks: seq<nat>, w: nat, cap: nat, log: seq<Sector>, s: nat, m: nat, c: nat, dulbe: bool)
    requires Holds(st, blks, w, cap, log) && c > 0 && m > 0
    ensures |blks| > 0 && w > 0
    ensures Readable(st, dulbe, Range(blks, w, s, ReadTotal(m, c))) <==> s + ReadTotal(m, c) <= ReadLimit(blks, cap, log, dulbe)
  {
    hide ReadTotal;
    ReadExactIff(m, c);
    RangeReadableIff(st, blks, w, cap, log, s, ReadTotal(m, c), dulbe);
  }

  /** Eight sectors written and read back with a vector command of 64: refused where
      unwritten sectors are errors, although all eight can be read. */
  lemma ShortReadRefused(st: Store, blks: seq<nat>, w: nat, cap: nat, log: seq<Sector>)
    requires Holds(st, blks, w, cap, log) && |log| == 8
    ensures |blks| > 0 && w > 0
    ensures Readable(st, true, Range(blks, w, 0, 8)) && !Readable(st, true, Range(blks, w, 0, ReadTotal(8, NADDR_MAX)))
  {
    hide Readable, Range;
    VectorReadsTooMuch();
    RangeReadableIff(st, blks, w, cap, log, 0, 8, true);
    ReadAcceptedIff(st, blks, w, cap, log, 0, 8, NADDR_MAX, true);
  }

  /** A synchronous write and a synchronous read of the same range, vector or
      scalar. Once the write has succeeded, whatever the read delivers starts with
      the buffer that was written. A read whose command size divides the request
      delivers nothing else, and then only a fault can make it fail. In general,
      after an append to a held log, it fails exactly by a fault or when its whole
      commands reach past the limit. */
  method WriteThenRead(v: VirtualBlock, bytes: seq<Byte>, pad: seq<Sector>, offset: nat, ghost log: seq<Sector>)
    returns (wrote: int, r: int, out: seq<Sector>)
    requires v.Valid() && |pad| == v.wsOpt
    requires |bytes| / v.nb > 0 || offset / v.nb > 0
    modifies v.dev
    ensures OthersSame(old(v.dev.st), v.dev.st, v.blks) && Kept(old(v.dev.st), v.dev.st)
    ensures wrote == |bytes| || wrote == -1
    ensures wrote == |bytes| ==>
              var m, bgn := |bytes| / v.nb, offset / v.nb;
              var cmd := if v.scalar then v.wsOpt else NADDR_MAX;
              && (r == |bytes| ==> m <= |out| && m * v.nb <= |bytes| && Flatten(out[..m]) == bytes[..m * v.nb])
              && (r == |bytes| ==> |out| == ReadTotal(m, cmd))
              && (m % cmd == 0 && r == |bytes| ==> |out| == m)
              && (m % cmd == 0 && r != |bytes| ==> v.dev.faults > old(v.dev.faults))
              && (Holds(old(v.dev.st), v.blks, v.wsOpt, v.nsectr, log) && |log| == bgn && m > 0 ==>
                    (r == |bytes| <==>
                       && v.dev.faults == old(v.dev.faults)
                       && bgn + ReadTotal(m, cmd) <= if v.dev.dulbe then bgn + m else |v.blks| * v.nsectr))
  {
    hide WriteAll, Range, Transfer, Readable, DeliverAll, Kept, OthersSame, ReadTotal, Flatten, Holds, CutAll;
    ghost var m, bgn := |bytes| / v.nb, offset / v.nb;
    ghost var cmd := if v.scalar then v.wsOpt else NADDR_MAX;
    WholeSectors(|bytes|, v.nb);
    ghost var st0 := v.dev.st;
    wrote := v.SyncPwrite(Buf(bytes), pad, |bytes|, offset);
    r, out := -1, [];
    if wrote >= 0 {
      WrittenReads(st0, v.blks, v.wsOpt, v.nsectr, log, bytes, pad, v.nb, bgn, m, cmd, v.dev.dulbe, v.dev.predef);
      r, out := v.SyncPread(|bytes|, offset);
    }
  }

  lemma WholeSectors(n: nat, nb: nat)
    requires nb > 0
    ensures (n / nb) * nb <= n
  {
    assert n == (n / nb) * nb + n % nb;
  }

  /** What an accepted write of a buffer means for the read loop over the same
      sectors. */
  lemma WrittenReads(st: Store, blks: seq<nat>, w: nat, cap: nat, log: seq<Sector>, bytes: seq<Byte>, pad: seq<Sector>, nb: nat,
                     bgn: nat, m: nat, cmd: nat, dulbe: bool, predef: Sector)
    requires |blks| > 0 && w > 0 && cmd > 0 && |pad| == w && m * nb <= |bytes|
    requires WriteAll(st, Range(blks, w, bgn, m), Transfer(Buf(bytes), pad, nb, w, m)).Some?
    ensures var st' := WriteAll(st, Range(blks, w, bgn, m), Transfer(Buf(bytes), pad, nb, w, m)).value;
            var addrs := Range(blks, w, bgn, ReadTotal(m, cmd));
            var out := DeliverAll(st', predef, addrs);
            && |out| == ReadTotal(m, cmd) >= m && Flatten(out[..m]) == bytes[..m * nb]
            && (m % cmd == 0 ==> ReadTotal(m, cmd) == m && Readable(st', dulbe, addrs))
            && (Holds(st, blks, w, cap, log) && |log| == bgn && m > 0 ==>
                  (Readable(st', dulbe, addrs) <==>
                     bgn + ReadTotal(m, cmd) <= if dulbe then bgn + m else |blks| * cap))
  {
    hide WriteAll, Range, Transfer, Readable, DeliverAll, Kept, OthersSame, ReadTotal, Flatten, Holds;
    var data := Transfer(Buf(bytes), pad, nb, w, m);
    var st' := WriteAll(st, Range(blks, w, bgn, m), data).value;
    WrittenDelivers(st, blks, w, bgn, data, dulbe, predef);
    FlattenTransfer(bytes, pad, nb, w, m);
    ReadExactIff(m, cmd);
    DeliverPrefix(st', predef, blks, w, bgn, m, ReadTotal(m, cmd));
    AppendedReadable(st, blks, w, cap, log, data, bgn, m, cmd, dulbe);
  }

  lemma AppendedReadable(st: Store, blks: seq<nat>, w: nat, cap: nat, log: seq<Sector>, data: seq<Sector>, bgn: nat, m: nat, c: nat, dulbe: bool)
    requires |blks| > 0 && w > 0 && c > 0 && |data| == m && WriteAll(st, Range(blks, w, bgn, m), data).Some?
    ensures Holds(st, blks, w, cap, log) && |log| == bgn && m > 0 ==>
              (Readable(WriteAll(st, Range(blks, w, bgn, m), data).value, dulbe, Range(blks, w, bgn, ReadTotal(m, c)))
               <==> bgn + ReadTotal(m, c) <= if dulbe then bgn + m else |blks| * cap)
  {
    hide WriteAll, Range, Readable, Holds, ReadTotal;
    if Holds(st, blks, w, cap, log) && |log| == bgn && m > 0 {
      AppendMany(st, blks, w, cap, log, data);
      ReadAcceptedIff(WriteAll(st, Range(blks, w, bgn, m), data).value, blks, w, cap, log + data, bgn, m, c, dulbe);
    }
  }

  // ---- transfers with a partial sector ----------------------------------------------------

  function Sum(counts: seq<nat>): nat {
    if counts == [] then 0 else Sum(counts[..|counts| - 1]) + counts[|counts| - 1]
  }

  /** Sectors the calls transferred: each drops the partial sector at its end. */
  function SectorsMoved(counts: seq<nat>, nb: nat): nat
    requires nb > 0
  {
    if counts == [] then 0 else SectorsMoved(counts[..|counts| - 1], nb) + counts[|counts| - 1] / nb
  }

  function BytesDropped(counts: seq<nat>, nb: nat): nat
    requires nb > 0
  {
    if counts == [] then 0 else BytesDropped(counts[..|counts| - 1], nb) + counts[|counts| - 1] % nb
  }

  lemma {:induction false} SumSplits(counts: seq<nat>, nb: nat)
    requires nb > 0
    ensures Sum(counts) == SectorsMoved(counts, nb) * nb + BytesDropped(counts, nb)
    decreases |counts|
  {
    if counts != [] {
      var last := counts[|counts| - 1];
      SumSplits(counts[..|counts| - 1], nb);
      assert last == (last / nb) * nb + last % nb;
      assert (SectorsMoved(counts[..|counts| - 1], nb) + last / nb) * nb
          == SectorsMoved(counts[..|counts| - 1], nb) * nb + (last / nb) * nb;
    }
  }

  /** The cursor moves by the byte count of each call while the call transfers whole
      sectors only. After successful calls the next one starts right after the
      sectors transferred if and only if the partial sectors dropped so far add up
      to less than one sector; with whole sectors they always do. */
  lemma CursorFollowsIff(counts: seq<nat>, nb: nat)
    requires nb > 0
    ensures Sum(counts) / nb == SectorsMoved(counts, nb) <==> BytesDropped(counts, nb) < nb
    ensures (forall i :: 0 <= i < |counts| ==> counts[i] % nb == 0) ==> BytesDropped(counts, nb) == 0
  {
    hide Sum, SectorsMoved, BytesDropped;
    SumSplits(counts, nb);
    QuotientIff(Sum(counts), SectorsMoved(counts, nb), BytesDropped(counts, nb), nb);
    if forall i :: 0 <= i < |counts| ==> counts[i] % nb == 0 { NothingDropped(counts, nb); }
  }

  lemma QuotientIff(x: nat, q: nat, r: nat, d: nat)
    requires d > 0 && x == q * d + r
    ensures x / d == q <==> r < d
  {
    if r < d {
      DivModUnique(x, d, q, r);
    } else {
      assert (q + 1) * d == q * d + d;
      AtLeastQuotient(x, q + 1, d);
    }
  }

  lemma AtLeastQuotient(x: nat, q: nat, d: nat)
    requires d > 0 && x >= q * d
    ensures x / d >= q
  {
    assert x == (x / d) * d + x % d;
    assert (x / d + 1) * d == (x / d) * d + d;
    if x / d < q { MulLe(x / d + 1, q, d); }
  }

  lemma {:induction false} NothingDropped(counts: seq<nat>, nb: nat)
    requires nb > 0 && forall i :: 0 <= i < |counts| ==> counts[i] % nb == 0
    ensures BytesDropped(counts, nb) == 0
    decreases |counts|
  {
    if counts != [] { NothingDropped(counts[..|counts| - 1], nb); }
  }

  /** Two writes of one and a half sectors transfer two sectors and leave the cursor
      at the fourth: the third is skipped. */
  lemma HalfSectorSkips()
    ensures SectorsMoved([6144, 6144], 4096) == 2 && Sum([6144, 6144]) / 4096 == 3
  {
    var one, two := [6144], [6144, 6144];
    assert two[..1] == one && one[..0] == [];
    assert Sum(one) == 6144 && SectorsMoved(one, 4096) == 1;
  }

  // ---- runs in which calls may fail ----------------------------------------------

  /** A write (or padding) or an erase, and what it reported. */
  datatype Call = WriteCall(data: seq<Sector>, ok: bool) | EraseCall(ok: bool)

  /** The device, the write cursor in sectors, what has been acknowledged since
      the last successful erase, and whether an erase has failed since then. */
  datatype Snap = Snap(st: Store, pos: nat, log: seq<Sector>, torn: bool)

  ghost predicate Happens(s: Snap, call: Call, t: Snap, blks: seq<nat>, w: nat, multiReset: bool)
    requires |blks| > 0 && w > 0
  {
    match call
    case WriteCall(data, ok) =>
      && WriteOutcome(s.st, t.st, blks, w, s.pos, data, ok)
      && t.pos == (if ok then s.pos + |data| else s.pos)
      && t.log == (if ok then s.log + data else s.log)
      && t.torn == s.torn
    case EraseCall(ok) =>
      && EraseOutcome(s.st, t.st, blks, multiReset, ok)
      && t.pos == (if ok then 0 else s.pos)
      && t.log == (if ok then [] else s.log)
      && t.torn == !ok
  }

  ghost predicate History(states: seq<Snap>, calls: seq<Call>, blks: seq<nat>, w: nat, multiReset: bool)
    requires |blks| > 0 && w > 0
  {
    && |states| == |calls| + 1
    && states[0].pos == 0 && states[0].log == [] && !states[0].torn
    && forall k :: 0 <= k < |calls| ==> Happens(states[k], calls[k], states[k + 1], blks, w, multiReset)
  }

  /** Every sector of `log` reads back from where striping puts it. */
  ghost predicate ReadsBack(st: Store, blks: seq<nat>, w: nat, log: seq<Sector>)
    requires |blks| > 0 && w > 0
  {
    forall s :: 0 <= s < |log| ==> ReadOne(st, Resolve(blks, w, s)) == Some(log[s])
  }

  lemma WrittenReadsBack(st: Store, blks: seq<nat>, w: nat, log: seq<Sector>, data: seq<Sector>)
    requires |blks| > 0 && w > 0 && ReadsBack(st, blks, w, log)
    requires WriteAll(st, Range(blks, w, |log|, |data|), data).Some?
    ensures ReadsBack(WriteAll(st, Range(blks, w, |log|, |data|), data).value, blks, w, log + data)
  {
    hide WriteAll, Resolve, ReadOne;
    var addrs := Range(blks, w, |log|, |data|);
    var st' := WriteAll(st, addrs, data).value;
    WriteAllKept(st, addrs, data);
    forall s | 0 <= s < |log + data| ensures ReadOne(st', Resolve(blks, w, s)) == Some((log + data)[s]) {
      if s >= |log| {
        WriteAllReadsBack(st, addrs, data, s - |log|);
        assert addrs[s - |log|] == Resolve(blks, w, s);
      }
    }
  }

  lemma HappensKeeps(s: Snap, call: Call, t: Snap, blks: seq<nat>, w: nat, multiReset: bool)
    requires |blks| > 0 && w > 0 && Happens(s, call, t, blks, w, multiReset)
    requires s.pos == |s.log| && (!s.torn ==> ReadsBack(s.st, blks, w, s.log))
    ensures t.pos == |t.log| && (!t.torn ==> ReadsBack(t.st, blks, w, t.log))
  {
    if call.WriteCall? && call.ok && !s.torn {
      WrittenReadsBack(s.st, blks, w, s.log, call.data);
    }
  }

  /** Where `len` sectors read back, chunk `c` is written at least as far as they
      reach. */
  lemma {:induction false} ReachesWp(st: Store, blks: seq<nat>, w: nat, log: seq<Sector>, c: nat, len: nat)
    requires |blks| > 0 && w > 0 && ReadsBack(st, blks, w, log) && c < |blks| && len <= |log|
    requires blks[c] < |st|
    ensures WpAt(|blks|, w, c, len) <= st[blks[c]].Wp()
    decreases len
  {
    if len == 0 {
      WpAtZero(|blks|, w, c);
    } else {
      var s := len - 1;
      ReachesWp(st, blks, w, log, c, s);
      WpAtStep(|blks|, w, c, s);
      NextIsAtWp(|blks|, w, s);
      assert ReadOne(st, Resolve(blks, w, s)) == Some(log[s]);
    }
  }

  /** Whatever calls fail, and however, acknowledged data survives: in every state
      of every run the cursor counts the acknowledged sectors, and unless an erase
      has failed since the last successful one, each of them reads back and every
      chunk is written at least as far as the cursor says. */
  lemma {:induction false} AcknowledgedDataSurvives(states: seq<Snap>, calls: seq<Call>, blks: seq<nat>, w: nat, multiReset: bool, k: nat)
    requires |blks| > 0 && w > 0 && History(states, calls, blks, w, multiReset) && k < |states|
    ensures states[k].pos == |states[k].log|
    ensures !states[k].torn ==>
              && ReadsBack(states[k].st, blks, w, states[k].log)
              && forall c :: 0 <= c < |blks| && blks[c] < |states[k].st| ==>
                   WpAt(|blks|, w, c, states[k].pos) <= states[k].st[blks[c]].Wp()
    decreases k
  {
    if k > 0 {
      AcknowledgedDataSurvives(states, calls, blks, w, multiReset, k - 1);
      HappensKeeps(states[k - 1], calls[k - 1], states[k], blks, w, multiReset);
    }
    var s := states[k];
    if !s.torn {
      forall c | 0 <= c < |blks| && blks[c] < |s.st| ensures WpAt(|blks|, w, c, s.pos) <= s.st[blks[c]].Wp() {
        ReachesWp(s.st, blks, w, s.log, c, s.pos);
      }
    }
  }

  // ---- copying with another unit ------------------------------------------------

  /** A full virtual block, read with another unit, holds the same chunks. */
  lemma Restripe(st: Store, blks: seq<nat>, w: nat, v: nat, cap: nat, log: seq<Sector>)
    requires Holds(st, blks, w, cap, log) && |log| == |blks| * cap && v > 0 && cap % v == 0
    ensures AllWritten(st, Range(blks, v, 0, |blks| * cap))
  {
    var n := |blks|;
    forall s | 0 <= s < n * cap ensures ReadOne(st, Range(blks, v, 0, n * cap)[s]).Some? {
      LogicalOfPlace(n, v, s);
      PlaceInBounds(n, v, cap, s);
      var c := Place(n, v, s).chunk;
      assert ChunkHolds(st[blks[c]], n, w, cap, c, |log|);
      WpAtFull(n, w, cap, c);
    }
  }

  lemma EmptyHoldsAnyUnit(st: Store, blks: seq<nat>, w: nat, v: nat, cap: nat)
    requires Holds(st, blks, w, cap, []) && v > 0 && cap % v == 0
    ensures Holds(st, blks, v, cap, [])
  {
    forall c | 0 <= c < |blks| ensures ChunkHolds(st[blks[c]], |blks|, v, cap, c, 0) {
      assert ChunkHolds(st[blks[c]], |blks|, w, cap, c, 0);
      WpAtZero(|blks|, w, c);
      WpAtZero(|blks|, v, c);
    }
  }

  /** A source that is not full cannot be copied: some sector the copy asks for
      has not been written. */
  lemma PartialSourceFails(st: Store, blks: seq<nat>, w: nat, v: nat, cap: nat, log: seq<Sector>)
    requires Holds(st, blks, w, cap, log) && |log| < |blks| * cap && v > 0 && cap % v == 0
    ensures !AllWritten(st, Range(blks, v, 0, |blks| * cap))
  {
    var n := |blks|;
    var a := Place(n, w, |log|);
    LogicalOfPlace(n, w, |log|);
    PlaceInBounds(n, w, cap, |log|);
    NextIsAtWp(n, w, |log|);
    assert ChunkHolds(st[blks[a.chunk]], n, w, cap, a.chunk, |log|);
    LogicalInBounds(n, v, cap, a);
    PlaceOfLogical(n, v, a);
    var t := Logical(n, v, a);
    assert Range(blks, v, 0, n * cap)[t] == SecAddr(blks[a.chunk], a.sectr);
  }

  /** What the copy reads for sector `a` of the source. */
  lemma CopiedSector(st: Store, src: seq<nat>, v: nat, cap: nat, a: SecAddr) returns (t: nat)
    requires |src| > 0 && v > 0 && cap % v == 0 && a.chunk < |src| && a.sectr < cap
    ensures t < |src| * cap && Place(|src|, v, t) == a
    ensures Range(src, v, 0, |src| * cap)[t] == SecAddr(src[a.chunk], a.sectr)
  {
    LogicalInBounds(|src|, v, cap, a);
    PlaceOfLogical(|src|, v, a);
    t := Logical(|src|, v, a);
  }

  lemma FullHoldsAnyUnit(st: Store, st': Store, src: seq<nat>, dst: seq<nat>, w: nat, v: nat, cap: nat, log: seq<Sector>)
    requires Holds(st, src, w, cap, log) && |log| == |src| * cap && v > 0 && cap % v == 0 && |src| == |dst|
    requires Holds(st', dst, v, cap, DeliverAll(st, [], Range(src, v, 0, |src| * cap)))
    ensures Holds(st', dst, w, cap, log)
  {
    var n := |src|;
    var from := Range(src, v, 0, n * cap);
    var copied := DeliverAll(st, [], from);
    forall c | 0 <= c < n ensures ChunkHolds(st'[dst[c]], n, w, cap, c, |log|) {
      assert ChunkHolds(st'[dst[c]], n, v, cap, c, |copied|);
      WpAtFull(n, w, cap, c);
      WpAtFull(n, v, cap, c);
    }
    forall s | 0 <= s < |log| ensures HoldsAt(st', dst, w, s, log[s]) {
      var a := Place(n, w, s);
      LogicalOfPlace(n, w, s);
      PlaceInBounds(n, w, cap, s);
      assert HoldsAt(st, src, w, s, log[s]);
      var t := CopiedSector(st, src, v, cap, a);
      assert HoldsAt(st', dst, v, t, copied[t]);
      assert copied[t] == Deliver(st, [], from[t]);
    }
  }

  /** A copy striped by WS_MIN onto empty, disjoint chunks is accepted exactly
      when the source is full, and then the destination holds the source's
      content as read by WS_OPT striping; the source is untouched. */
  lemma CopyMakesEqual(st: Store, src: seq<nat>, dst: seq<nat>, w: nat, v: nat, cap: nat, log: seq<Sector>)
    requires Holds(st, src, w, cap, log) && Holds(st, dst, w, cap, [])
    requires |src| == |dst| && Disjoint(src, dst) && v > 0 && cap % v == 0
    ensures var total := |src| * cap;
            var r := CopyAll(st, Range(src, v, 0, total), Range(dst, v, 0, total));
            && (r.Some? <==> |log| == total)
            && (r.Some? ==> Holds(r.value, dst, w, cap, log) && OthersSame(st, r.value, dst))
  {
    var total := |src| * cap;
    var from, to := Range(src, v, 0, total), Range(dst, v, 0, total);
    HoldsLength(st, src, w, cap, log);
    if |log| < total {
      PartialSourceFails(st, src, w, v, cap, log);
    } else {
      Restripe(st, src, w, v, cap, log);
      EmptyHoldsAnyUnit(st, dst, w, v, cap);
      var copied := DeliverAll(st, [], from);
      AppendMany(st, dst, v, cap, [], copied);
      assert [] + copied == copied;
      var st' := WriteAll(st, to, copied).value;
      FullHoldsAnyUnit(st, st', src, dst, w, v, cap, log);
      WriteAllFrame(st, to, copied);
      RangeFootprint(dst, v, 0, total);
    }
  }

  // ---- copying onto chunks of the source ---------------------------------------------------

  lemma ChunkRange(p: nat, q: nat)
    ensures Range([p, q], 64, 0, 64) == Range([p], 64, 0, 64)
    ensures Range([p, q], 64, 64, 64) == Range([q], 64, 0, 64)
  {
    hide Resolve;
    forall i | 0 <= i < 64
      ensures Resolve([p, q], 64, i) == SecAddr(p, i) && Resolve([p, q], 64, 64 + i) == SecAddr(q, i)
      ensures Resolve([p], 64, i) == SecAddr(p, i) && Resolve([q], 64, i) == SecAddr(q, i)
    {
      UnitAddr([p, q], 0, i);
      UnitAddr([p, q], 1, i);
      UnitAddr([p], 0, i);
      UnitAddr([q], 0, i);
    }
  }

  lemma UnitAddr(blks: seq<nat>, c: nat, i: nat)
    requires c < |blks| && i < 64
    ensures Resolve(blks, 64, c * 64 + i) == SecAddr(blks[c], i)
  {
    hide Place;
    PlaceOfUnit(|blks|, 64, c, i, c * 64 + i);
    DivModUnique(c, |blks|, 0, c);
  }

  lemma ChunkRead(st: Store, a: nat, x: seq<Sector>)
    requires a < |st| && |x| == 64 && st[a] == Chunk(Closed, 64, x)
    ensures AllWritten(st, Range([a], 64, 0, 64)) && DeliverAll(st, [], Range([a], 64, 0, 64)) == x
  {
    hide Resolve;
    var from := Range([a], 64, 0, 64);
    forall i | 0 <= i < 64 ensures from[i] == SecAddr(a, i) {
      UnitAddr([a], 0, i);
    }
  }

  lemma ChunkWritten(st: Store, b: nat, x: seq<Sector>)
    requires b < |st| && |x| == 64 && st[b] == Chunk(Free, 64, [])
    ensures WriteAll(st, Range([b], 64, 0, 64), x) == Some(st[b := Chunk(Closed, 64, x)])
  {
    hide Range, WriteAll, Holds;
    FreshHolds(st, [b], 64, 64);
    AppendMany(st, [b], 64, 64, [], x);
    assert [] + x == x;
    var st' := WriteAll(st, Range([b], 64, 0, 64), x).value;
    WriteAllFrame(st, Range([b], 64, 0, 64), x);
    RangeFootprint([b], 64, 0, 64);
    FullChunk(st', b, x);
    forall c | 0 <= c < |st| ensures st'[c] == st[b := Chunk(Closed, 64, x)][c] {
      if c != b { assert c !in [b]; }
    }
    assert st' == st[b := Chunk(Closed, 64, x)];
  }

  /** Copying one full chunk of 64 sectors onto a free one. */
  lemma ChunkCopied(st: Store, a: nat, b: nat, x: seq<Sector>)
    requires a < |st| && b < |st| && |x| == 64
    requires st[a] == Chunk(Closed, 64, x) && st[b] == Chunk(Free, 64, [])
    ensures CopyAll(st, Range([a], 64, 0, 64), Range([b], 64, 0, 64)) == Some(st[b := Chunk(Closed, 64, x)])
  {
    hide Range, WriteAll, DeliverAll, AllWritten;
    ChunkRead(st, a, x);
    ChunkWritten(st, b, x);
  }

  lemma CopyFromStep(st: Store, st': Store, src: seq<nat>, dst: seq<nat>, total: nat, done: nat)
    requires |src| > 0 && |dst| > 0 && done + 64 <= total
    requires CopyAll(st, Range(src, 64, done, 64), Range(dst, 64, done, 64)) == Some(st')
    ensures CopyFrom(st, src, dst, 64, total, 64, done) == CopyFrom(st', src, dst, 64, total, 64, done + 64)
  {
    hide CopyAll, Range;
  }

  lemma FullChunk(st: Store, b: nat, x: seq<Sector>)
    requires |x| == 64 && Holds(st, [b], 64, 64, x)
    ensures b < |st| && st[b] == Chunk(Closed, 64, x)
  {
    ChunkOf(st, [b], 64, 64, x, 0);
    WpAtFull(1, 64, 64, 0);
    forall i | 0 <= i < 64 ensures st[b].data[i] == x[i] {
      assert HoldsAt(st, [b], 64, i, x[i]);
      UnitAddr([b], 0, i);
    }
  }

  lemma CopyFromEnd(st: Store, src: seq<nat>, dst: seq<nat>, total: nat)
    requires |src| > 0 && |dst| > 0
    ensures CopyFrom(st, src, dst, 64, total, 64, total) == Some(st)
  {
  }

  lemma SharedCopyRuns(st: Store, st1: Store, st2: Store, x: seq<Sector>)
    requires |x| == 64 && |st| == 3 && st[0] == Chunk(Closed, 64, x)
    requires st[1] == st[2] == Chunk(Free, 64, [])
    requires st1 == st[1 := Chunk(Closed, 64, x)] && st2 == st1[2 := Chunk(Closed, 64, x)]
    ensures CopyFrom(st, [0, 1], [1, 2], 64, 128, 64, 0) == Some(st2)
  {
    hide CopyAll, Range, CopyFrom;
    assert CopyAll(st, Range([0, 1], 64, 0, 64), Range([1, 2], 64, 0, 64)) == Some(st1) by {
      ChunkRange(0, 1);
      ChunkRange(1, 2);
      ChunkCopied(st, 0, 1, x);
    }
    assert CopyAll(st1, Range([0, 1], 64, 64, 64), Range([1, 2], 64, 64, 64)) == Some(st2) by {
      ChunkRange(0, 1);
      ChunkRange(1, 2);
      ChunkCopied(st1, 1, 2, x);
    }
    CopyFromStep(st, st1, [0, 1], [1, 2], 128, 0);
    CopyFromStep(st1, st2, [0, 1], [1, 2], 128, 64);
    CopyFromEnd(st2, [0, 1], [1, 2], 128);
  }

  /** WS_MIN 64, chunks of 64 sectors: a copy of [0, 1] to [1, 2] succeeds although
      chunk 1 is empty at the start and is a source and a destination. Chunk 2 ends
      up with the content of chunk 0; one copy of the whole would be refused. */
  lemma SharedCopy(st: Store, x: seq<Sector>)
    requires |x| == 64 && |st| == 3 && st[0] == Chunk(Closed, 64, x)
    requires st[1] == st[2] == Chunk(Free, 64, [])
    ensures var full := Chunk(Closed, 64, x);
            CopyFrom(st, [0, 1], [1, 2], 64, 128, CopyCommandMax(64), 0) == Some(st[1 := full][2 := full])
    ensures CopyAll(st, Range([0, 1], 64, 0, 128), Range([1, 2], 64, 0, 128)).None?
  {
    hide CopyAll, Range, CopyFrom;
    assert CopyCommandMax(64) == 64;
    var full := Chunk(Closed, 64, x);
    SharedCopyRuns(st, st[1 := full], st[1 := full][2 := full], x);
    WholeRefused(st);
  }

  lemma WholeRefused(st: Store)
    requires |st| == 3 && st[1] == Chunk(Free, 64, [])
    ensures CopyAll(st, Range([0, 1], 64, 0, 128), Range([1, 2], 64, 0, 128)).None?
  {
    var from := Range([0, 1], 64, 0, 128);
    UnitAddr([0, 1], 1, 0);
    assert from[64] == SecAddr(1, 0);
    assert ReadOne(st, from[64]).None?;
  }
}
