/** The bad-block-table cache of an Open-Channel SSD 1.2 device: one slot per LUN
    in front of the tables the device keeps. */
module Bbt {
  import opened Arith

  type BlkState = b: int | 0 <= b < 256

  const FREE: BlkState := 0
  const BAD: BlkState := 1
  const GBAD: BlkState := 2
  const DMRK: BlkState := 4
  const HMRK: BlkState := 8

  predicate ValidState(b: int) {
    b == FREE || b == BAD || b == GBAD || b == DMRK || b == HMRK
  }

  datatype Geo = Geo(nchannels: nat, nluns: nat, nblocks: nat, nplanes: nat) {
    predicate Valid() { nchannels > 0 && nluns > 0 && nblocks > 0 && nplanes > 0 }
    function Nbbts(): nat { nchannels * nluns }
    function Nblks(): nat { nblocks * nplanes }
  }

  datatype Addr = Addr(ch: nat, lun: nat, blk: nat, pl: nat)

  predicate Check(geo: Geo, a: Addr) {
    a.ch < geo.nchannels && a.lun < geo.nluns && a.blk < geo.nblocks && a.pl < geo.nplanes
  }

  function BbtIdx(geo: Geo, a: Addr): nat { a.ch * geo.nluns + a.lun }

  function BlkIdx(geo: Geo, a: Addr): nat { a.blk * geo.nplanes + a.pl }

  lemma IdxInBounds(geo: Geo, a: Addr)
    requires Check(geo, a)
    ensures BbtIdx(geo, a) < geo.Nbbts() && BlkIdx(geo, a) < geo.Nblks()
  {
    DigitsBelow(a.ch, a.lun, geo.nchannels, geo.nluns);
    DigitsBelow(a.blk, a.pl, geo.nblocks, geo.nplanes);
  }

  /** Slots go LUN by LUN and then channel by channel, the blocks of a table plane by
      plane and then block by block. */
  lemma IdxLayout(geo: Geo, a: Addr)
    ensures BbtIdx(geo, Addr(0, 0, a.blk, a.pl)) == 0 && BlkIdx(geo, Addr(a.ch, a.lun, 0, 0)) == 0
    ensures BbtIdx(geo, a.(lun := a.lun + 1)) == BbtIdx(geo, a) + 1
    ensures BbtIdx(geo, a.(ch := a.ch + 1)) == BbtIdx(geo, a) + geo.nluns
    ensures BlkIdx(geo, a.(pl := a.pl + 1)) == BlkIdx(geo, a) + 1
    ensures BlkIdx(geo, a.(blk := a.blk + 1)) == BlkIdx(geo, a) + geo.nplanes
  {
    assert (a.ch + 1) * geo.nluns == a.ch * geo.nluns + geo.nluns;
    assert (a.blk + 1) * geo.nplanes == a.blk * geo.nplanes + geo.nplanes;
  }

  type Table = seq<BlkState>

  datatype Counters = Counters(nbad: nat, ngbad: nat, ndmrk: nat, nhmrk: nat)

  datatype Slot = Empty | Entry(blks: Table, cnt: Counters)

  // ---- counters --------------------------------------------------------------------

  function Count(t: Table, v: BlkState, n: nat): nat
    requires n <= |t|
  {
    if n == 0 then 0 else Count(t, v, n - 1) + (if t[n - 1] == v then 1 else 0)
  }

  /** The true number of blocks in each marked state. */
  function TrueCounters(t: Table): Counters {
    Counters(Count(t, BAD, |t|), Count(t, GBAD, |t|), Count(t, DMRK, |t|), Count(t, HMRK, |t|))
  }

  /** The blocks in state `v`. */
  ghost function InState(t: Table, v: BlkState, n: nat): set<nat>
    requires n <= |t|
  {
    set i: nat | 0 <= i < n && t[i] == v
  }

  lemma {:induction false} CountIs(t: Table, v: BlkState, n: nat)
    requires n <= |t|
    ensures Count(t, v, n) == |InState(t, v, n)|
    decreases n
  {
    if n == 0 {
      assert InState(t, v, 0) == {};
    } else {
      CountIs(t, v, n - 1);
      var before, now := InState(t, v, n - 1), InState(t, v, n);
      if t[n - 1] == v { assert now == before + {n - 1}; } else { assert now == before; }
    }
  }

  /** Each counter counts its own state: 1 bad, 2 grown bad, 4 marked by the device,
      8 marked by the host. */
  lemma CountersByState(t: Table)
    ensures TrueCounters(t).nbad == |InState(t, 1, |t|)| && TrueCounters(t).ngbad == |InState(t, 2, |t|)|
    ensures TrueCounters(t).ndmrk == |InState(t, 4, |t|)| && TrueCounters(t).nhmrk == |InState(t, 8, |t|)|
  {
    CountIs(t, BAD, |t|);
    CountIs(t, GBAD, |t|);
    CountIs(t, DMRK, |t|);
    CountIs(t, HMRK, |t|);
  }

  predicate AllStatesValid(t: Table) {
    forall i :: 0 <= i < |t| ==> ValidState(t[i])
  }

  /** Recount a table. A state it does not know makes it give up and leave the
      counters alone. */
  method RefreshCounters(t: Table, cnt: Counters) returns (cnt': Counters)
    ensures cnt' == if AllStatesValid(t) then TrueCounters(t) else cnt
  {
    var nbad, ngbad, ndmrk, nhmrk := 0, 0, 0, 0;
    var i := 0;
    while i < |t|
      invariant 0 <= i <= |t|
      invariant nbad == Count(t, BAD, i) && ngbad == Count(t, GBAD, i)
      invariant ndmrk == Count(t, DMRK, i) && nhmrk == Count(t, HMRK, i)
      invariant forall j :: 0 <= j < i ==> ValidState(t[j])
    {
      if t[i] == BAD { nbad := nbad + 1; }
      else if t[i] == GBAD { ngbad := ngbad + 1; }
      else if t[i] == DMRK { ndmrk := ndmrk + 1; }
      else if t[i] == HMRK { nhmrk := nhmrk + 1; }
      else if t[i] != FREE { return cnt; }
      i := i + 1;
    }
    return Counters(nbad, ngbad, ndmrk, nhmrk);
  }

  // ---- the cache as a view of the device -----------------------------------------------

  /** Cache slots and the tables on the device. */
  datatype Store = Store(bbts: seq<Slot>, tables: seq<Table>)

  ghost predicate Shaped(geo: Geo, s: Store) {
    && geo.Valid() && |s.bbts| == |s.tables| == geo.Nbbts()
    && (forall l :: 0 <= l < |s.tables| ==> |s.tables[l]| == geo.Nblks())
    && (forall l :: 0 <= l < |s.bbts| ==> s.bbts[l].Entry? ==> |s.bbts[l].blks| == geo.Nblks())
  }

  /** The table a user of the cache sees for LUN `l`. */
  function View(s: Store, l: nat): Table
    requires l < |s.bbts| == |s.tables|
  {
    if s.bbts[l].Entry? then s.bbts[l].blks else s.tables[l]
  }

  function Views(s: Store): seq<Table>
    requires |s.bbts| == |s.tables|
  {
    seq(|s.bbts|, l requires 0 <= l < |s.bbts| => View(s, l))
  }

  /** `r` has the given blocks first and then those of `t`, and the length of `t`. */
  ghost predicate Overwritten(r: Table, given: Table, t: Table) {
    && |r| == |t|
    && forall i :: 0 <= i < |r| ==> r[i] == if i < |given| then given[i] else t[i]
  }

  /** The new table when `given` overwrites the start of `old`. */
  function Overwrite(given: Table, old': Table): (r: Table)
    requires |given| <= |old'|
    ensures Overwritten(r, given, old')
  {
    given + old'[|given|..]
  }

  /** `r` is `t` with block `idx` in state `v`. */
  ghost predicate Marked(r: Table, t: Table, idx: nat, v: BlkState) {
    && |r| == |t|
    && forall i :: 0 <= i < |r| ==> r[i] == if i == idx then v else t[i]
  }

  function Put(t: Table, idx: nat, v: BlkState): (r: Table)
    requires idx < |t|
    ensures Marked(r, t, idx, v)
  {
    t[idx := v]
  }

  /** One set-table command: LUN, block index and state. */
  datatype SetCmd = SetCmd(lun: nat, idx: nat, val: int)

  /** The set commands that turn the first `n` blocks of `d` into those of `t`. */
  function DiffCmds(l: nat, t: Table, d: Table, n: nat): seq<SetCmd>
    requires n <= |t| && n <= |d|
  {
    if n == 0 then []
    else DiffCmds(l, t, d, n - 1) + (if t[n - 1] != d[n - 1] then [SetCmd(l, n - 1, t[n - 1])] else [])
  }

  lemma {:induction false} DiffCmdsMonotone(l: nat, t: Table, d: Table, n: nat, m: nat)
    requires n <= m <= |t| && m <= |d|
    ensures DiffCmds(l, t, d, n) <= DiffCmds(l, t, d, m)
    decreases m
  {
    if n < m { DiffCmdsMonotone(l, t, d, n, m - 1); }
  }

  /** `cmds` has one command for every one of the first `n` blocks that differs
      and none for a block that is equal, in block order. */
  ghost predicate ExactCmds(cmds: seq<SetCmd>, l: nat, t: Table, d: Table, n: nat)
    requires n <= |t| && n <= |d|
  {
    && (forall i :: 0 <= i < |cmds| ==> CmdFits(cmds[i], l, t, d, n))
    && (forall i, j :: 0 <= i < j < |cmds| ==> cmds[i].idx < cmds[j].idx)
    && (forall idx :: 0 <= idx < n && t[idx] != d[idx] ==> SetCmd(l, idx, t[idx]) in cmds)
  }

  ghost predicate CmdFits(c: SetCmd, l: nat, t: Table, d: Table, n: nat)
    requires n <= |t| && n <= |d|
  {
    c.lun == l && c.idx < n && t[c.idx] != d[c.idx] && c.val == t[c.idx]
  }

  lemma {:induction false} DiffCmdsExact(l: nat, t: Table, d: Table, n: nat)
    requires n <= |t| && n <= |d|
    ensures ExactCmds(DiffCmds(l, t, d, n), l, t, d, n)
    decreases n
  {
    if n > 0 {
      hide ExactCmds;
      DiffCmdsExact(l, t, d, n - 1);
      ExactGrows(DiffCmds(l, t, d, n - 1), l, t, d, n - 1);
    }
  }

  lemma ExactGrows(before: seq<SetCmd>, l: nat, t: Table, d: Table, n: nat)
    requires n < |t| && n < |d| && ExactCmds(before, l, t, d, n)
    ensures ExactCmds(before + (if t[n] != d[n] then [SetCmd(l, n, t[n])] else []), l, t, d, n + 1)
  {
    var after := before + (if t[n] != d[n] then [SetCmd(l, n, t[n])] else []);
    forall i | 0 <= i < |after| ensures CmdFits(after[i], l, t, d, n + 1) {
      if i < |before| { assert CmdFits(before[i], l, t, d, n); }
    }
    forall i, j | 0 <= i < j < |after| ensures after[i].idx < after[j].idx {
      assert CmdFits(before[i], l, t, d, n);
    }
    forall idx | 0 <= idx < n + 1 && t[idx] != d[idx] ensures SetCmd(l, idx, t[idx]) in after {
      if idx < n {
        assert SetCmd(l, idx, t[idx]) in before;
      } else {
        assert after[|before|] == SetCmd(l, n, t[n]);
      }
    }
  }

  /** The table on the device when its first `i` blocks have been written over. */
  function Mix(t: Table, d: Table, i: nat): Table
    requires i <= |t| == |d|
  {
    t[..i] + d[i..]
  }

  lemma MixEnds(t: Table, d: Table)
    requires |t| == |d|
    ensures Mix(t, d, 0) == d && Mix(t, d, |t|) == t
  {
  }

  lemma MixStep(t: Table, d: Table, i: nat)
    requires i < |t| == |d|
    ensures |Mix(t, d, i)| == |t|
    ensures Put(Mix(t, d, i), i, t[i]) == Mix(t, d, i + 1)
    ensures t[i] == d[i] ==> Mix(t, d, i) == Mix(t, d, i + 1)
  {
  }

  /** The device takes the state of every one of the first `n` blocks in which
      `t` differs from it. */
  ghost predicate TakesUpTo(t: Table, d: Table, n: nat)
    requires n <= |t| == |d|
  {
    forall j :: 0 <= j < n && t[j] != d[j] ==> ValidState(t[j])
  }

  /** Nothing but a fault can stop `t` from being written over `d`. */
  ghost predicate Flushable(t: Table, d: Table)
    requires |t| == |d|
  {
    TakesUpTo(t, d, |t|)
  }

  /** The same of a slot and its LUN's table; an empty slot has nothing to write. */
  ghost predicate SlotFlushable(e: Slot, d: Table) {
    e.Entry? ==> |e.blks| == |d| && Flushable(e.blks, d)
  }

  /** The first `n` blocks have been written over `d`, the rest not yet. */
  ghost predicate WrittenUpTo(t: Table, d: Table, now: Table, n: nat)
    requires n <= |t| == |d|
  {
    now == Mix(t, d, n) && TakesUpTo(t, d, n)
  }

  ghost predicate PartlyWritten(t: Table, d: Table, now: Table) {
    |t| == |d| && exists n :: 0 <= n <= |t| && WrittenUpTo(t, d, now, n)
  }

  /** Writing part of a table changes nothing about whether the rest can be. */
  lemma PartKeepsFlushable(t: Table, d: Table, now: Table)
    requires PartlyWritten(t, d, now)
    ensures |now| == |t| && (Flushable(t, now) <==> Flushable(t, d))
  {
    var n :| 0 <= n <= |t| && WrittenUpTo(t, d, now, n);
    if Flushable(t, now) {
      forall j | 0 <= j < |t| && t[j] != d[j] ensures ValidState(t[j]) {
        assert j < n || now[j] == d[j];
      }
    }
  }

  lemma NothingWritten(t: Table, d: Table)
    requires |t| == |d|
    ensures PartlyWritten(t, d, d)
  {
    MixEnds(t, d);
    assert WrittenUpTo(t, d, d, 0);
  }

  /** The counters an entry starts from: those it has, or those the device reports
      along with the table. */
  function Base(e: Slot, reported: Counters): Counters {
    if e.Entry? then e.cnt else reported
  }

  /** The counters are the true counts, unless a state is unknown: then they are
      still `base`. */
  ghost predicate Counted(e: Slot, base: Counters) {
    e.Entry? && e.cnt == if AllStatesValid(e.blks) then TrueCounters(e.blks) else base
  }

  /** Block `i` of a table belongs to block i / nplanes, plane i % nplanes, a valid
      address whose index is `i` again. */
  lemma BlkOfIdx(geo: Geo, a: Addr, i: nat)
    requires geo.Valid() && Check(geo, a) && i < geo.Nblks()
    ensures var b := a.(blk := i / geo.nplanes, pl := i % geo.nplanes);
            Check(geo, b) && BbtIdx(geo, b) == BbtIdx(geo, a) && BlkIdx(geo, b) == i
  {
    DivBelow(i, geo.nblocks, geo.nplanes);
  }

  class BbtDev {
    const geo: Geo
    var cached: bool
    var bbts: seq<Slot>
    var tables: seq<Table>
    ghost var issued: seq<SetCmd>
    ghost var reported: seq<Counters>   // what the device last reported for each LUN
    ghost var faults: nat

    constructor (geo: Geo, tables: seq<Table>)
      requires geo.Valid() && |tables| == geo.Nbbts()
      requires forall l :: 0 <= l < |tables| ==> |tables[l]| == geo.Nblks()
      ensures this.geo == geo && this.tables == tables && Valid()
      ensures forall l :: 0 <= l < |bbts| ==> bbts[l] == Empty
      ensures !cached
    {
      this.geo, this.tables, this.cached := geo, tables, false;
      this.bbts := seq(geo.Nbbts(), _ => Empty);
      reported := seq(geo.Nbbts(), _ => Counters(0, 0, 0, 0));
      issued, faults := [], 0;
    }

    ghost predicate Valid()
      reads this
    {
      Shaped(geo, Store(bbts, tables)) && |reported| == geo.Nbbts()
    }

    ghost function St(): Store
      reads this
    {
      Store(bbts, tables)
    }

    // ---- device commands -----------------------------------------------------------

    /** Get-table command; it may fail. The counters reported along with the table
        are the device's own and may be anything. */
    method Gbbt(l: nat) returns (ok: bool, blk: Table, cnt: Counters)
      requires Valid() && l < |tables|
      modifies this`faults, this`reported
      ensures Valid() && faults >= old(faults)
      ensures ok <==> faults == old(faults)
      ensures ok ==> blk == tables[l]
      ensures reported == if ok then old(reported)[l := cnt] else old(reported)
    {
      var fault: bool := *;
      var nb: int, ng: int, nd: int, nh: int := *, *, *, *;
      cnt := Counters(if nb < 0 then 0 else nb, if ng < 0 then 0 else ng,
                      if nd < 0 then 0 else nd, if nh < 0 then 0 else nh);
      if fault {
        faults := faults + 1;
        return false, [], cnt;
      }
      reported := reported[l := cnt];
      return true, tables[l], cnt;
    }

    /** Set-table command for one block; unknown states are refused. */
    method Sbbt(a: Addr, val: int) returns (err: bool)
      requires Valid() && Check(geo, a)
      modifies this`tables, this`issued, this`faults
      ensures Valid() && faults >= old(faults)
      ensures err <==> faults > old(faults) || !ValidState(val)
      ensures var l, idx := BbtIdx(geo, a), BlkIdx(geo, a);
              && l < geo.Nbbts() && idx < geo.Nblks()
              && issued == old(issued) + [SetCmd(l, idx, val)]
              && tables == if err then old(tables) else old(tables)[l := Put(old(tables)[l], idx, val)]
    {
      IdxInBounds(geo, a);
      var l, idx := BbtIdx(geo, a), BlkIdx(geo, a);
      issued := issued + [SetCmd(l, idx, val)];
      var fault: bool := *;
      if fault { faults := faults + 1; }
      err := fault || !ValidState(val);
      if !err { tables := tables[l := Put(tables[l], idx, val)]; }
    }

    // ---- the table operations -------------------------------------------------------

    /** Table of a LUN: from the cache when caching is on and the LUN is resident,
        otherwise freshly read into the slot. A failed read leaves the slot
        empty. */
    method Get(a: Addr) returns (r: Slot)
      requires Valid()
      modifies this`bbts, this`faults, this`reported
      ensures Valid() && faults >= old(faults)
      ensures !Check(geo, a) ==> r == Empty && bbts == old(bbts) && reported == old(reported)
      ensures Check(geo, a) ==>
                var l := BbtIdx(geo, a);
                && l < |old(bbts)|
                && (cached && old(bbts)[l].Entry? ==> r == old(bbts)[l] && bbts == old(bbts) && reported == old(reported))
                && (!(cached && old(bbts)[l].Entry?) ==>
                      && bbts == old(bbts)[l := r]
                      && (r == Empty <==> faults > old(faults))
                      && (r != Empty ==> r.blks == tables[l] && r.cnt == reported[l])
                      && reported == old(reported)[l := reported[l]])
    {
      if !Check(geo, a) { return Empty; }
      IdxInBounds(geo, a);
      var l := BbtIdx(geo, a);
      if cached && bbts[l].Entry? { return bbts[l]; }
      var ok, blk, cnt := Gbbt(l);
      if !ok || |blk| != geo.Nblks() {
        bbts := bbts[l := Empty];
        return Empty;
      }
      r := Entry(blk, cnt);
      bbts := bbts[l := r];
    }

    /** Write the resident entry of a LUN back: one set command per block in which
        it differs from the device, in block order, then the slot is emptied. If a
        command fails the entry stays and the blocks before it have been written.
        It succeeds exactly when no command faults and the device knows the state
        of every block that differs. */
    method FlushLun(a: Addr) returns (err: bool)
      requires Valid() && Check(geo, a)
      modifies this`bbts, this`tables, this`issued, this`faults, this`reported
      ensures Valid() && faults >= old(faults)
      ensures var l := BbtIdx(geo, a);
              && l < geo.Nbbts()
              && (old(bbts)[l] == Empty ==>
                    && !err && bbts == old(bbts) && tables == old(tables)
                    && issued == old(issued) && faults == old(faults))
              && (old(bbts)[l] != Empty ==>
                    var t, d := old(bbts)[l].blks, old(tables)[l];
                    && |t| == |d| == geo.Nblks()
                    && (!err <==> faults == old(faults) && Flushable(t, d))
                    && (!err ==>
                          && tables == old(tables)[l := t] && bbts == old(bbts)[l := Empty]
                          && issued == old(issued) + DiffCmds(l, t, d, |t|))
                    && (err ==>
                          && bbts == old(bbts)
                          && PartlyWritten(t, d, tables[l]) && tables == old(tables)[l := tables[l]]
                          && old(issued) <= issued <= old(issued) + DiffCmds(l, t, d, |t|)))
    {
      hide BbtIdx, Flushable, PartlyWritten, DiffCmds;
      assert BbtIdx(geo, a) < geo.Nbbts() by { IdxInBounds(geo, a); }
      var l := BbtIdx(geo, a);
      if bbts[l] == Empty { return false; }
      var t := bbts[l].blks;
      var ok, d, cnt := Gbbt(l);
      if !ok || |t| != |d| {
        NothingWritten(t, tables[l]);
        return true;
      }
      err := WriteBack(a, t, d);
      if err { return true; }
      bbts := bbts[l := Empty];
    }

    /** The write-back loop: block `i` of the table is block i / nplanes on plane
        i % nplanes of the LUN. */
    method WriteBack(a: Addr, t: Table, d: Table) returns (err: bool)
      requires Valid() && Check(geo, a) && |t| == |d| == geo.Nblks()
      requires BbtIdx(geo, a) < |tables| && d == tables[BbtIdx(geo, a)]
      modifies this`tables, this`issued, this`faults
      ensures Valid() && faults >= old(faults)
      ensures !err <==> faults == old(faults) && Flushable(t, d)
      ensures var l := BbtIdx(geo, a);
              && (!err ==> tables == old(tables)[l := t] && issued == old(issued) + DiffCmds(l, t, d, |t|))
              && (err ==>
                    && PartlyWritten(t, d, tables[l]) && tables == old(tables)[l := tables[l]]
                    && old(issued) <= issued <= old(issued) + DiffCmds(l, t, d, |t|))
    {
      hide DiffCmds, Mix, Put, BbtIdx, BlkIdx, TakesUpTo;
      var l := BbtIdx(geo, a);
      var i := 0;
      MixEnds(t, d);
      DiffCmdsStart(l, t, d);
      assert TakesUpTo(t, d, 0) by { TakesNone(t, d); }
      while i < |t|
        invariant 0 <= i <= |t| && Valid() && faults == old(faults)
        invariant tables == old(tables)[l := Mix(t, d, i)] && TakesUpTo(t, d, i)
        invariant issued == old(issued) + DiffCmds(l, t, d, i)
      {
        MixStep(t, d, i);
        DiffCmdsStep(l, t, d, i);
        TakesStep(t, d, i);
        if t[i] != d[i] {
          BlkOfIdx(geo, a, i);
          err := Sbbt(a.(blk := i / geo.nplanes, pl := i % geo.nplanes), t[i]);
          if err {
            DiffCmdsMonotone(l, t, d, i + 1, |t|);
            assert WrittenUpTo(t, d, tables[l], i);
            return true;
          }
        }
        i := i + 1;
      }
      return false;
    }

    /** Flush by address; out-of-bounds addresses are refused. */
    method Flush(a: Addr) returns (err: bool)
      requires Valid()
      modifies this`bbts, this`tables, this`issued, this`faults, this`reported
      ensures Valid() && faults >= old(faults)
      ensures !Check(geo, a) ==> err && bbts == old(bbts) && tables == old(tables)
      ensures Check(geo, a) ==>
                && BbtIdx(geo, a) < geo.Nbbts()
                && FlushStep(old(St()), BbtIdx(geo, a), faults > old(faults), err, St())
                && (!err <==> faults == old(faults)
                              && SlotFlushable(old(bbts)[BbtIdx(geo, a)], old(tables)[BbtIdx(geo, a)]))
    {
      if !Check(geo, a) { return true; }
      hide Flushable, PartlyWritten, DiffCmds;
      err := FlushLun(a);
    }

    /** Flush every slot. The loop counts channels fastest while slots are laid out
        LUN fastest; on success every slot is empty and the device holds what the
        cache showed, and in every case what a user sees is unchanged. It succeeds
        exactly when no command faults and every slot can be written. */
    method FlushAll() returns (err: bool)
      requires Valid()
      modifies this`bbts, this`tables, this`issued, this`faults, this`reported
      ensures Valid() && faults >= old(faults)
      ensures Views(St()) == Views(old(St()))
      ensures !err <==> faults == old(faults)
                        && forall l :: 0 <= l < |old(bbts)| ==> SlotFlushable(old(bbts)[l], old(tables)[l])
      ensures !err ==> tables == Views(old(St())) && forall l :: 0 <= l < |bbts| ==> bbts[l] == Empty
    {
      hide FlushedUpTo, Views, FlushStep, SlotFlushable, BbtIdx, Visit, VisitRound;
      ghost var s0 := St();
      var i := 0;
      NothingFlushed(geo, s0);
      while i < geo.Nbbts()
        invariant 0 <= i <= geo.Nbbts() && Valid() && faults == old(faults)
        invariant FlushedUpTo(geo, s0, St(), i) && RoundsFlushable(geo, s0, i)
      {
        var a := Addr(i % geo.nchannels, (i / geo.nchannels) % geo.nluns, 0, 0);
        VisitAddr(geo, i);
        IdxInBounds(geo, a);
        ghost var s1, l := St(), BbtIdx(geo, a);
        NotYetFlushed(geo, s0, s1, i);
        err := Flush(a);
        FlushedViews(geo, s0, s1, i);
        FlushKeepsViews(geo, s1, l, faults > old(faults), err, St());
        if err { return true; }
        FlushedStep(geo, s0, s1, St(), i);
        i := i + 1;
      }
      FlushedViews(geo, s0, St(), i);
      FlushedEnd(geo, s0, St());
      AllRounds(geo, s0);
      return false;
    }

    /** Overwrite the table of a LUN from the start. With caching the change stays
        in the slot; without it the slot is read anew and flushed at once, which
        succeeds exactly when no command faults and the device knows every state
        that is to change; a flush that fails leaves the new table resident. */
    method Set(a: Addr, given: Table) returns (err: bool)
      requires Valid() && |given| <= geo.Nblks()
      modifies this`bbts, this`tables, this`issued, this`faults, this`reported
      ensures Valid() && faults >= old(faults)
      ensures !Check(geo, a) ==> err && bbts == old(bbts) && tables == old(tables)
      ensures Check(geo, a) && cached ==>
                var l := BbtIdx(geo, a);
                && l < geo.Nbbts() && SetStep(geo, old(St()), l, given, err, St())
                && (!err ==> Counted(bbts[l], Base(old(bbts)[l], reported[l])))
                && (!err <==> old(bbts)[l].Entry? || faults == old(faults))
                && (!err ==> Overwritten(View(St(), l), given, View(old(St()), l)))
      ensures Check(geo, a) && !cached ==>
                var l := BbtIdx(geo, a);
                && l < geo.Nbbts() && |old(tables)[l]| == geo.Nblks()
                && SetThrough(old(St()), l, given, faults > old(faults), err, St())
                && (!err ==> Overwritten(View(St(), l), given, old(tables)[l]) && Overwritten(tables[l], given, old(tables)[l]))
    {
      hide BbtIdx, TrueCounters, AllStatesValid, Flushable, PartlyWritten;
      if !Check(geo, a) { return true; }
      assert BbtIdx(geo, a) < geo.Nbbts() by { IdxInBounds(geo, a); }
      var l := BbtIdx(geo, a);
      var r := Get(a);
      if r == Empty { return true; }
      var blks := Overwrite(given, bbts[l].blks);
      var cnt := RefreshCounters(blks, bbts[l].cnt);
      bbts := bbts[l := Entry(blks, cnt)];
      if cached { return false; }
      err := Flush(a);
    }

    /** Mark one block with caching on. Any flags are stored; the counters follow
        when every state of the table is known. */
    method MarkOne(a: Addr, flags: nat) returns (err: bool)
      requires Valid() && cached
      modifies this`bbts, this`faults, this`reported
      ensures Valid() && faults >= old(faults)
      ensures !Check(geo, a) ==> err && bbts == old(bbts) && reported == old(reported)
      ensures Check(geo, a) ==>
                var l, idx := BbtIdx(geo, a), BlkIdx(geo, a);
                && l < geo.Nbbts() && idx < geo.Nblks()
                && MarkStep(geo, old(St()), l, idx, flags % 256, err, St())
                && (!err ==> Counted(bbts[l], Base(old(bbts)[l], reported[l])))
                && (!err <==> old(bbts)[l].Entry? || faults == old(faults))
                && reported == old(reported)[l := reported[l]]
                && (old(bbts)[l].Entry? ==> reported == old(reported))
    {
      hide BbtIdx, BlkIdx, TrueCounters, AllStatesValid;
      if Check(geo, a) { IdxInBounds(geo, a); }
      var r := Get(a);
      if r == Empty { return true; }
      var l, idx := BbtIdx(geo, a), BlkIdx(geo, a);
      var blks := Put(bbts[l].blks, idx, flags % 256);
      var cnt := RefreshCounters(blks, bbts[l].cnt);
      bbts := bbts[l := Entry(blks, cnt)];
      return false;
    }

    /** Mark blocks with caching on: the marks show up in order; a failure stops
        after the first `n` of them. Every LUN marked has true counters, or the
        counters it had before when its table holds an unknown state. */
    method MarkCached(addrs: seq<Addr>, flags: nat) returns (err: bool, ghost n: nat)
      requires Valid() && cached
      modifies this`bbts, this`faults, this`reported
      ensures Valid() && faults >= old(faults) && n <= |addrs|
      ensures !err ==> n == |addrs|
      ensures err ==> n < |addrs| && (!Check(geo, addrs[n]) || faults > old(faults))
      ensures AllChecked(geo, addrs[..n])
      ensures MarksCounted(geo, old(bbts), bbts, reported, addrs[..n], flags % 256)
      ensures Sized(geo, Views(old(St())))
      ensures Views(St()) == MarkViews(geo, Views(old(St())), addrs[..n], flags % 256)
    {
      hide Views, MarkViews, PutMark, MarkStep, BbtIdx, BlkIdx, Counted, MarksCounted, AllChecked, Sized;
      ViewsSized(geo, St());
      ghost var v0 := Views(St());
      var i := 0;
      n := 0;
      assert addrs[..0] == [];
      NoMarks(geo, bbts, reported, flags % 256);
      MarkViewsStart(geo, v0, flags % 256);
      while i < |addrs|
        invariant 0 <= i <= |addrs| && Valid() && n == i && faults >= old(faults)
        invariant AllChecked(geo, addrs[..i]) && MarksCounted(geo, old(bbts), bbts, reported, addrs[..i], flags % 256)
        invariant Views(St()) == MarkViews(geo, v0, addrs[..i], flags % 256)
      {
        ghost var s1, rep1 := St(), reported;
        err := MarkOne(addrs[i], flags);
        if !Check(geo, addrs[i]) {
          return true, i;
        }
        ghost var l, idx := BbtIdx(geo, addrs[i]), BlkIdx(geo, addrs[i]);
        ViewsSized(geo, s1);
        MarkIsPutMark(geo, s1, addrs[i], flags % 256, err, St());
        if err {
          MarkFailed(geo, s1, l, idx, flags % 256, St());
          MarksFailed(geo, old(bbts), bbts, rep1, reported, l, addrs[..i], flags % 256);
          return true, i;
        }
        MarkViewsSnoc(geo, v0, addrs[..i], addrs[i], flags % 256);
        MarksCountedStep(geo, old(bbts), s1, St(), rep1, reported, addrs[..i], addrs[i], flags % 256);
        assert addrs[..i + 1] == addrs[..i] + [addrs[i]];
        i := i + 1;
        n := i;
      }
      return false, i;
    }

    /** Mark blocks with caching off: one device command, and the slots are not
        looked at. */
    method MarkUncached(addrs: seq<Addr>, flags: nat) returns (err: bool)
      requires Valid() && !cached
      modifies this`tables, this`issued, this`faults
      ensures Valid()
      ensures err <==> !ValidState(flags) || |addrs| > 64 || !AllChecked(geo, addrs) || faults > old(faults)
      ensures Sized(geo, old(tables))
      ensures !err ==> tables == MarkViews(geo, old(tables), addrs, flags)
      ensures err ==> tables == old(tables)
    {
      var i := 0;
      if !ValidState(flags) || |addrs| > 64 { return true; }
      while i < |addrs|
        invariant 0 <= i <= |addrs|
        invariant forall j :: 0 <= j < i ==> Check(geo, addrs[j])
      {
        if !Check(geo, addrs[i]) { return true; }
        i := i + 1;
      }
      var fault: bool := *;
      if fault {
        faults := faults + 1;
        return true;
      }
      MarkViewsShape(geo, Store(bbts, tables), addrs, flags);
      tables := MarkViews(geo, tables, addrs, flags);
      return false;
    }
  }

  // ---- the steps, seen from the slots and the device --------------------------------------

  ghost predicate AllChecked(geo: Geo, addrs: seq<Addr>) {
    forall j :: 0 <= j < |addrs| ==> Check(geo, addrs[j])
  }

  ghost predicate Touched(geo: Geo, addrs: seq<Addr>, l: nat) {
    exists j :: 0 <= j < |addrs| && BbtIdx(geo, addrs[j]) == l
  }

  /** Slot `b` after marks of state `v` on slot `b0`: untouched, or counted. An
      unknown mark leaves an unknown state behind. */
  ghost predicate MarkedSlot(b0: Slot, b: Slot, reported: Counters, touched: bool, v: BlkState) {
    && (!touched ==> b == b0)
    && (touched ==> Counted(b, Base(b0, reported)) && (!ValidState(v) ==> !AllStatesValid(b.blks)))
  }

  ghost predicate MarksCounted(geo: Geo, b0: seq<Slot>, b: seq<Slot>, reported: seq<Counters>, addrs: seq<Addr>, v: BlkState) {
    && |b0| == |b| == |reported|
    && forall l :: 0 <= l < |b| ==> MarkedSlot(b0[l], b[l], reported[l], Touched(geo, addrs, l), v)
  }

  lemma NoMarks(geo: Geo, bbts: seq<Slot>, reported: seq<Counters>, v: BlkState)
    requires |bbts| == |reported|
    ensures AllChecked(geo, []) && MarksCounted(geo, bbts, bbts, reported, [], v)
  {
  }

  /** A failed read reports nothing new about a LUN with a marked slot. */
  lemma MarksFailed(geo: Geo, b0: seq<Slot>, b: seq<Slot>, rep: seq<Counters>, rep': seq<Counters>, l: nat, addrs: seq<Addr>, v: BlkState)
    requires MarksCounted(geo, b0, b, rep, addrs, v) && l < |b|
    requires |rep'| == |rep| && rep' == rep[l := rep'[l]] && (b[l].Entry? ==> rep' == rep)
    ensures MarksCounted(geo, b0, b, rep', addrs, v)
  {
    forall k | 0 <= k < |b| ensures MarkedSlot(b0[k], b[k], rep'[k], Touched(geo, addrs, k), v) {
      assert MarkedSlot(b0[k], b[k], rep[k], Touched(geo, addrs, k), v);
    }
  }

  lemma TouchedSnoc(geo: Geo, addrs: seq<Addr>, a: Addr, l: nat)
    ensures Touched(geo, addrs + [a], l) <==> Touched(geo, addrs, l) || BbtIdx(geo, a) == l
  {
    var more := addrs + [a];
    if Touched(geo, addrs, l) {
      var j :| 0 <= j < |addrs| && BbtIdx(geo, addrs[j]) == l;
      assert more[j] == addrs[j];
    }
    assert more[|addrs|] == a;
  }

  /** One more mark on a slot keeps its counters as described. */
  lemma MarkedSlotStep(b0: Slot, b1: Slot, b: Slot, rep: Counters, rep': Counters, touched: bool, t: Table, idx: nat, v: BlkState)
    requires MarkedSlot(b0, b1, rep, touched, v) && (b1.Entry? ==> rep' == rep && b1.blks == t)
    requires idx < |t| && b.Entry? && b.blks == Put(t, idx, v) && Counted(b, Base(b1, rep'))
    ensures MarkedSlot(b0, b, rep', true, v)
  {
    assert b.blks[idx] == v;
    if touched && AllStatesValid(b1.blks) {
      assert AllStatesValid(b.blks);
    }
  }

  lemma MarksCountedStep(geo: Geo, b0: seq<Slot>, s: Store, s': Store, rep: seq<Counters>, rep': seq<Counters>,
                         addrs: seq<Addr>, a: Addr, v: BlkState)
    requires MarksCounted(geo, b0, s.bbts, rep, addrs, v) && Check(geo, a)
    requires MarkStep(geo, s, BbtIdx(geo, a), BlkIdx(geo, a), v, false, s')
    requires |rep'| == |rep| && rep' == rep[BbtIdx(geo, a) := rep'[BbtIdx(geo, a)]]
    requires s.bbts[BbtIdx(geo, a)].Entry? ==> rep' == rep
    requires Counted(s'.bbts[BbtIdx(geo, a)], Base(s.bbts[BbtIdx(geo, a)], rep'[BbtIdx(geo, a)]))
    ensures MarksCounted(geo, b0, s'.bbts, rep', addrs + [a], v)
  {
    hide Counted, AllStatesValid, BbtIdx, BlkIdx, Touched;
    var at := BbtIdx(geo, a);
    forall l | 0 <= l < |s'.bbts| ensures MarkedSlot(b0[l], s'.bbts[l], rep'[l], Touched(geo, addrs + [a], l), v) {
      TouchedSnoc(geo, addrs, a, l);
      assert MarkedSlot(b0[l], s.bbts[l], rep[l], Touched(geo, addrs, l), v);
      if l == at {
        MarkedSlotStep(b0[l], s.bbts[l], s'.bbts[l], rep[l], rep'[l], Touched(geo, addrs, l), View(s, l), BlkIdx(geo, a), v);
      }
    }
  }

  lemma MarkFailed(geo: Geo, s: Store, l: nat, idx: nat, v: BlkState, s': Store)
    requires MarkStep(geo, s, l, idx, v, true, s')
    ensures s' == s
  {
  }

  lemma MarkViewsStart(geo: Geo, m: seq<Table>, v: BlkState)
    requires Sized(geo, m) && AllChecked(geo, [])
    ensures MarkViews(geo, m, [], v) == m
  {
  }

  ghost predicate InRange(s: Store, l: nat) { l < |s.bbts| == |s.tables| }

  /** Get with caching on: a hit changes nothing, a miss reads the device into the
      slot or fails. */
  ghost predicate GetStep(s: Store, l: nat, r: Slot, s': Store) {
    && InRange(s, l)
    && if s.bbts[l].Entry? then r == s.bbts[l] && s' == s
       else s' == Store(s.bbts[l := r], s.tables) && (r.Entry? ==> r.blks == s.tables[l])
  }

  ghost predicate SetStep(geo: Geo, s: Store, l: nat, given: Table, err: bool, s': Store) {
    && InRange(s, l) && |given| <= geo.Nblks() == |View(s, l)|
    && if err then s' == s
       else && InRange(s', l) && s'.bbts[l].Entry?
            && s' == Store(s.bbts[l := s'.bbts[l]], s.tables)
            && s'.bbts[l].blks == Overwrite(given, View(s, l))
  }

  ghost predicate MarkStep(geo: Geo, s: Store, l: nat, idx: nat, v: BlkState, err: bool, s': Store) {
    && InRange(s, l) && idx < geo.Nblks() == |View(s, l)|
    && if err then s' == s
       else && InRange(s', l) && s'.bbts[l].Entry?
            && s' == Store(s.bbts[l := s'.bbts[l]], s.tables)
            && s'.bbts[l].blks == Put(View(s, l), idx, v)
  }

  /** Set with caching off: the table goes through the slot to the device. */
  ghost predicate SetThrough(s: Store, l: nat, given: Table, fault: bool, err: bool, s': Store)
    requires l < |s.tables| && |given| <= |s.tables[l]|
  {
    var d := s.tables[l];
    var t := Overwrite(given, d);
    && InRange(s, l) && InRange(s', l)
    && (!err <==> !fault && Flushable(t, d))
    && (!err ==> s' == Store(s.bbts[l := Empty], s.tables[l := t]))
    && (err ==>
          || s' == Store(s.bbts[l := Empty], s.tables)
          || (&& s' == Store(s.bbts[l := s'.bbts[l]], s.tables[l := s'.tables[l]])
              && s'.bbts[l].Entry? && s'.bbts[l].blks == t
              && PartlyWritten(t, d, s'.tables[l])))
  }

  /** Flush: nothing to do, or the slot is written back and emptied, or the flush
      failed part way and the slot is still there. It fails when a command faults
      and when the device does not know a state that is to be written. */
  ghost predicate FlushStep(s: Store, l: nat, fault: bool, err: bool, s': Store) {
    && InRange(s, l)
    && if s.bbts[l] == Empty then !err && s' == s
       else
         && |s.bbts[l].blks| == |s.tables[l]|
         && (err <==> fault || !Flushable(s.bbts[l].blks, s.tables[l]))
         && if !err then s' == Store(s.bbts[l := Empty], s.tables[l := s.bbts[l].blks])
            else && InRange(s', l)
                 && s' == Store(s.bbts, s.tables[l := s'.tables[l]])
                 && PartlyWritten(s.bbts[l].blks, s.tables[l], s'.tables[l])
  }

  // ---- every run shows the tables of a plain, uncached map ------------------------------------

  datatype Event =
    | EvGet(l: nat, r: Slot)
    | EvSet(l: nat, given: Table, err: bool)
    | EvMark(l: nat, idx: nat, v: BlkState, err: bool)
    | EvFlush(l: nat, fault: bool, err: bool)

  ghost predicate StepOk(geo: Geo, s: Store, e: Event, s': Store) {
    match e
    case EvGet(l, r) => GetStep(s, l, r, s')
    case EvSet(l, given, err) => SetStep(geo, s, l, given, err, s')
    case EvMark(l, idx, v, err) => MarkStep(geo, s, l, idx, v, err, s')
    case EvFlush(l, fault, err) => FlushStep(s, l, fault, err, s')
  }

  /** The same event on a plain map from LUNs to tables. */
  ghost predicate PlainStep(m: seq<Table>, e: Event, m': seq<Table>) {
    match e
    case EvGet(l, r) => m' == m && (r.Entry? ==> l < |m| && r.blks == m[l])
    case EvSet(l, given, err) =>
      if err then m' == m
      else && l < |m| == |m'| && |given| <= |m[l]| && Overwritten(m'[l], given, m[l])
           && forall k :: 0 <= k < |m| && k != l ==> m'[k] == m[k]
    case EvMark(l, idx, v, err) =>
      if err then m' == m
      else && l < |m| == |m'| && idx < |m[l]| && Marked(m'[l], m[l], idx, v)
           && forall k :: 0 <= k < |m| && k != l ==> m'[k] == m[k]
    case EvFlush(l, fault, err) => m' == m
  }

  lemma StepShaped(geo: Geo, s: Store, e: Event, s': Store)
    requires Shaped(geo, s) && StepOk(geo, s, e, s')
    ensures Shaped(geo, s')
  {
  }

  lemma ViewsUpdate(s: Store, s': Store, l: nat, t: Table)
    requires InRange(s, l) && |s'.bbts| == |s'.tables| == |s.bbts|
    requires View(s', l) == t
    requires forall k :: 0 <= k < |s.bbts| && k != l ==> s'.bbts[k] == s.bbts[k] && s'.tables[k] == s.tables[k]
    ensures Views(s') == Views(s)[l := t]
  {
  }

  lemma FlushKeepsViews(geo: Geo, s: Store, l: nat, fault: bool, err: bool, s': Store)
    requires Shaped(geo, s) && FlushStep(s, l, fault, err, s')
    ensures |s'.bbts| == |s'.tables| && Views(s') == Views(s)
  {
    ViewsUpdate(s, s', l, View(s, l));
    assert Views(s)[l := View(s, l)] == Views(s);
  }

  lemma ViewsSized(geo: Geo, s: Store)
    requires Shaped(geo, s)
    ensures Sized(geo, Views(s))
  {
  }

  lemma MarkIsPutMark(geo: Geo, s: Store, a: Addr, v: BlkState, err: bool, s': Store)
    requires Shaped(geo, s) && Check(geo, a) && Sized(geo, Views(s))
    requires MarkStep(geo, s, BbtIdx(geo, a), BlkIdx(geo, a), v, err, s')
    ensures |s'.bbts| == |s'.tables|
    ensures Views(s') == if err then Views(s) else PutMark(geo, Views(s), a, v)
  {
    MarkKeepsViews(geo, s, BbtIdx(geo, a), BlkIdx(geo, a), v, err, s');
  }

  lemma MarkKeepsViews(geo: Geo, s: Store, l: nat, idx: nat, v: BlkState, err: bool, s': Store)
    requires Shaped(geo, s) && MarkStep(geo, s, l, idx, v, err, s')
    ensures |s'.bbts| == |s'.tables|
    ensures Views(s') == if err then Views(s) else Views(s)[l := Put(Views(s)[l], idx, v)]
  {
    if !err { ViewsUpdate(s, s', l, Put(View(s, l), idx, v)); }
  }

  lemma StepRefines(geo: Geo, s: Store, e: Event, s': Store)
    requires Shaped(geo, s) && StepOk(geo, s, e, s')
    ensures |s'.bbts| == |s'.tables| && PlainStep(Views(s), e, Views(s'))
  {
    match e
    case EvGet(l, r) =>
      ViewsUpdate(s, s', l, View(s, l));
      assert Views(s)[l := View(s, l)] == Views(s);
    case EvSet(l, given, err) =>
      if !err { ViewsUpdate(s, s', l, Overwrite(given, View(s, l))); }
    case EvMark(l, idx, v, err) => MarkKeepsViews(geo, s, l, idx, v, err, s');
    case EvFlush(l, fault, err) => FlushKeepsViews(geo, s, l, fault, err, s');
  }

  /** A run: the store before each event and after the last. */
  ghost predicate IsRun(geo: Geo, states: seq<Store>, events: seq<Event>) {
    && |states| == |events| + 1
    && forall i :: 0 <= i < |events| ==> StepOk(geo, states[i], events[i], states[i + 1])
  }

  ghost predicate IsPlainRun(maps: seq<seq<Table>>, events: seq<Event>) {
    && |maps| == |events| + 1
    && forall i :: 0 <= i < |events| ==> PlainStep(maps[i], events[i], maps[i + 1])
  }

  lemma {:induction false} RunShaped(geo: Geo, states: seq<Store>, events: seq<Event>, i: nat)
    requires IsRun(geo, states, events) && Shaped(geo, states[0]) && i < |states|
    ensures Shaped(geo, states[i])
    decreases i
  {
    if i > 0 {
      RunShaped(geo, states, events, i - 1);
      StepShaped(geo, states[i - 1], events[i - 1], states[i]);
    }
  }

  /** With caching on, every run from an empty cache is a run of the plain map
      that starts as the device's tables: every table handed out is the one the
      plain map holds at that time. */
  lemma RunRefinesPlainMap(geo: Geo, states: seq<Store>, events: seq<Event>) returns (maps: seq<seq<Table>>)
    requires IsRun(geo, states, events) && Shaped(geo, states[0])
    requires forall l :: 0 <= l < |states[0].bbts| ==> states[0].bbts[l] == Empty
    ensures IsPlainRun(maps, events) && maps[0] == states[0].tables
    ensures forall i :: 0 <= i < |states| ==> Shaped(geo, states[i]) && maps[i] == Views(states[i])
  {
    forall i | 0 <= i < |states| ensures Shaped(geo, states[i]) {
      RunShaped(geo, states, events, i);
    }
    maps := seq(|states|, i requires 0 <= i < |states| && |states[i].bbts| == |states[i].tables| => Views(states[i]));
    forall i | 0 <= i < |events| ensures PlainStep(maps[i], events[i], maps[i + 1]) {
      StepRefines(geo, states[i], events[i], states[i + 1]);
    }
    assert Views(states[0]) == states[0].tables;
  }

  // ---- flushing everything -----------------------------------------------------------------

  /** The slot the flush-all loop reaches in round `i`. */
  function Visit(geo: Geo, i: nat): nat
    requires geo.Valid()
  {
    (i % geo.nchannels) * geo.nluns + (i / geo.nchannels) % geo.nluns
  }

  /** The round in which it reaches slot `l`. */
  function VisitRound(geo: Geo, l: nat): nat
    requires geo.Valid()
  {
    (l % geo.nluns) * geo.nchannels + l / geo.nluns
  }

  lemma VisitAddr(geo: Geo, i: nat)
    requires geo.Valid() && i < geo.Nbbts()
    ensures var a := Addr(i % geo.nchannels, (i / geo.nchannels) % geo.nluns, 0, 0);
            Check(geo, a) && BbtIdx(geo, a) == Visit(geo, i)
  {
  }

  /** Every slot is reached in exactly one round. */
  lemma VisitOnce(geo: Geo, l: nat, i: nat)
    requires geo.Valid() && l < geo.Nbbts() && i < geo.Nbbts()
    ensures VisitRound(geo, l) < geo.Nbbts() && Visit(geo, i) < geo.Nbbts()
    ensures Visit(geo, i) == l <==> i == VisitRound(geo, l)
  {
    var c, n := geo.nchannels, geo.nluns;
    DivBelow(l, c, n);
    DigitsBelow(l % n, l / n, n, c);
    assert n * c == c * n;
    DivBelow(i, n, c);
    DivModUnique(i / c, n, 0, i / c);
    DigitsBelow(i % c, i / c, c, n);
    if i == VisitRound(geo, l) {
      DivModUnique(i, c, l % n, l / n);
    }
    if Visit(geo, i) == l {
      DivModUnique(l, n, i % c, i / c);
    }
  }

  /** Slots of rounds before `i` have been written back and emptied, the others
      are as they were. */
  ghost predicate FlushedUpTo(geo: Geo, s0: Store, s: Store, i: nat)
    requires geo.Valid()
  {
    && |s.bbts| == |s.tables| == |s0.bbts| == |s0.tables| == geo.Nbbts()
    && forall l :: 0 <= l < |s.bbts| ==> FlushedAt(geo, s0, s, i, l)
  }

  ghost predicate FlushedAt(geo: Geo, s0: Store, s: Store, i: nat, l: nat)
    requires geo.Valid() && l < |s.bbts| == |s.tables| == |s0.bbts| == |s0.tables|
  {
    if VisitRound(geo, l) < i then s.bbts[l] == Empty && s.tables[l] == View(s0, l)
    else s.bbts[l] == s0.bbts[l] && s.tables[l] == s0.tables[l]
  }

  lemma FlushedViews(geo: Geo, s0: Store, s: Store, i: nat)
    requires geo.Valid() && FlushedUpTo(geo, s0, s, i)
    ensures Views(s) == Views(s0)
  {
    forall l | 0 <= l < |s.bbts| ensures View(s, l) == View(s0, l) {
      assert FlushedAt(geo, s0, s, i, l);
    }
  }

  lemma NothingFlushed(geo: Geo, s: Store)
    requires Shaped(geo, s)
    ensures FlushedUpTo(geo, s, s, 0)
  {
  }

  /** The slots of rounds before `i` could all be written. */
  ghost predicate RoundsFlushable(geo: Geo, s: Store, i: nat)
    requires geo.Valid() && |s.bbts| == |s.tables|
  {
    forall l :: 0 <= l < |s.bbts| && VisitRound(geo, l) < i ==> SlotFlushable(s.bbts[l], s.tables[l])
  }

  /** The slot of round `i` is still as it was, so whether it can be written
      decides about one more round, and about the last round decides about all. */
  lemma NotYetFlushed(geo: Geo, s0: Store, s: Store, i: nat)
    requires geo.Valid() && i < geo.Nbbts() && FlushedUpTo(geo, s0, s, i) && RoundsFlushable(geo, s0, i)
    ensures Visit(geo, i) < geo.Nbbts()
    ensures s.bbts[Visit(geo, i)] == s0.bbts[Visit(geo, i)] && s.tables[Visit(geo, i)] == s0.tables[Visit(geo, i)]
    ensures RoundsFlushable(geo, s0, i + 1) <==> SlotFlushable(s0.bbts[Visit(geo, i)], s0.tables[Visit(geo, i)])
  {
    hide SlotFlushable;
    var at := Visit(geo, i);
    VisitOnce(geo, 0, i);
    VisitOnce(geo, at, i);
    assert FlushedAt(geo, s0, s, i, at);
    forall l | 0 <= l < |s0.bbts| && VisitRound(geo, l) < i + 1 ensures VisitRound(geo, l) < i || l == at {
      VisitOnce(geo, l, i);
    }
  }

  /** Every slot has its round. */
  lemma AllRounds(geo: Geo, s: Store)
    requires geo.Valid() && |s.bbts| == |s.tables| == geo.Nbbts()
    ensures RoundsFlushable(geo, s, geo.Nbbts()) <==>
              forall l :: 0 <= l < |s.bbts| ==> SlotFlushable(s.bbts[l], s.tables[l])
  {
    hide SlotFlushable;
    forall l | 0 <= l < |s.bbts| ensures VisitRound(geo, l) < geo.Nbbts() {
      VisitOnce(geo, l, 0);
    }
  }

  lemma FlushedStep(geo: Geo, s0: Store, s: Store, s': Store, i: nat)
    requires geo.Valid() && i < geo.Nbbts() && FlushedUpTo(geo, s0, s, i)
    requires FlushStep(s, Visit(geo, i), false, false, s')
    ensures FlushedUpTo(geo, s0, s', i + 1)
  {
    var next := i + 1;
    forall l | 0 <= l < |s'.bbts| ensures FlushedAt(geo, s0, s', next, l) {
      VisitOnce(geo, l, i);
      assert FlushedAt(geo, s0, s, i, l);
      assert View(s, l) == View(s0, l);
    }
  }

  lemma FlushedEnd(geo: Geo, s0: Store, s: Store)
    requires geo.Valid() && FlushedUpTo(geo, s0, s, geo.Nbbts())
    ensures s.tables == Views(s0) && forall l :: 0 <= l < |s.bbts| ==> s.bbts[l] == Empty
  {
    forall l | 0 <= l < |s.bbts| ensures s.tables[l] == Views(s0)[l] && s.bbts[l] == Empty {
      VisitOnce(geo, l, 0);
      assert FlushedAt(geo, s0, s, geo.Nbbts(), l);
    }
  }

  // ---- marks ---------------------------------------------------------------------------------

  ghost predicate Sized(geo: Geo, m: seq<Table>) {
    |m| == geo.Nbbts() && forall l :: 0 <= l < |m| ==> |m[l]| == geo.Nblks()
  }

  function PutMark(geo: Geo, m: seq<Table>, a: Addr, v: BlkState): (r: seq<Table>)
    requires Sized(geo, m) && Check(geo, a)
    ensures Sized(geo, r)
  {
    IdxInBounds(geo, a);
    m[BbtIdx(geo, a) := Put(m[BbtIdx(geo, a)], BlkIdx(geo, a), v)]
  }

  /** Marking blocks one after the other on plain tables. */
  function MarkViews(geo: Geo, m: seq<Table>, addrs: seq<Addr>, v: BlkState): (r: seq<Table>)
    requires Sized(geo, m) && AllChecked(geo, addrs)
    ensures Sized(geo, r)
    decreases |addrs|
  {
    if addrs == [] then m
    else
      PutMark(geo, MarkViews(geo, m, addrs[..|addrs| - 1], v), addrs[|addrs| - 1], v)
  }

  lemma MarkViewsSnoc(geo: Geo, m: seq<Table>, addrs: seq<Addr>, a: Addr, v: BlkState)
    requires Sized(geo, m) && AllChecked(geo, addrs) && Check(geo, a)
    ensures AllChecked(geo, addrs + [a])
    ensures MarkViews(geo, m, addrs + [a], v) == PutMark(geo, MarkViews(geo, m, addrs, v), a, v)
  {
    assert (addrs + [a])[..|addrs|] == addrs;
  }

  /** Marks show exactly at the blocks they name. */
  lemma {:induction false} MarkViewsAt(geo: Geo, m: seq<Table>, addrs: seq<Addr>, v: BlkState, l: nat, idx: nat)
    requires Sized(geo, m) && AllChecked(geo, addrs) && l < geo.Nbbts() && idx < geo.Nblks()
    ensures MarkViews(geo, m, addrs, v)[l][idx]
         == if exists j :: 0 <= j < |addrs| && BbtIdx(geo, addrs[j]) == l && BlkIdx(geo, addrs[j]) == idx then v else m[l][idx]
    decreases |addrs|
  {
    if addrs != [] {
      var front, last := addrs[..|addrs| - 1], addrs[|addrs| - 1];
      MarkViewsAt(geo, m, front, v, l, idx);
      IdxInBounds(geo, last);
      hide BbtIdx, BlkIdx;
      forall j | 0 <= j < |front| ensures front[j] == addrs[j] {
      }
      if j :| 0 <= j < |addrs| && BbtIdx(geo, addrs[j]) == l && BlkIdx(geo, addrs[j]) == idx {
        assert j < |front| ==> front[j] == addrs[j];
      }
    }
  }

  lemma MarkViewsShape(geo: Geo, s: Store, addrs: seq<Addr>, v: BlkState)
    requires Shaped(geo, s) && AllChecked(geo, addrs)
    ensures Shaped(geo, Store(s.bbts, MarkViews(geo, s.tables, addrs, v)))
  {
  }

  /** A mark made with caching off survives a later flush of its LUN exactly when
      the LUN was not resident or its resident table already had that state: the
      flush writes the resident table over the mark. */
  lemma UncachedMarkSurvivesIff(s: Store, l: nat, idx: nat, v: BlkState, s': Store)
    requires InRange(s, l) && idx < |s.tables[l]|
    requires s.bbts[l].Entry? ==> |s.bbts[l].blks| == |s.tables[l]|
    requires FlushStep(Store(s.bbts, s.tables[l := Put(s.tables[l], idx, v)]), l, false, false, s')
    ensures |s'.tables| == |s.tables| && idx < |s'.tables[l]|
    ensures s'.tables[l][idx] == v <==> s.bbts[l] == Empty || s.bbts[l].blks[idx] == v
  {
  }

  /** Reading a good table, marking block 0 bad with caching off and flushing
      loses the mark. */
  lemma UncachedMarkLost()
    ensures var entry := Entry([FREE], Counters(0, 0, 0, 0));
            var marked := Store([entry], [Put([FREE], 0, BAD)]);
            exists s' :: FlushStep(marked, 0, false, false, s') && s'.tables[0][0] == FREE
  {
    var entry := Entry([FREE], Counters(0, 0, 0, 0));
    var marked := Store([entry], [Put([FREE], 0, BAD)]);
    var s' := Store([Empty], [[FREE]]);
    assert FlushStep(marked, 0, false, false, s');
  }

  // ---- retrying a flush ------------------------------------------------------------------------

  /** Blocks among the first `n` that still differ. */
  function Pending(t: Table, d: Table, n: nat): nat
    requires n <= |t| && n <= |d|
  {
    if n == 0 then 0 else Pending(t, d, n - 1) + (if t[n - 1] != d[n - 1] then 1 else 0)
  }

  lemma {:induction false} PendingShrinks(t: Table, d: Table, now: Table, n: nat)
    requires PartlyWritten(t, d, now) && n <= |t|
    ensures |now| == |t| && Pending(t, now, n) <= Pending(t, d, n)
    decreases n
  {
    if n > 0 { PendingShrinks(t, d, now, n - 1); }
  }

  /** A failed flush loses nothing: what a user sees is unchanged, the entry is
      still resident, a retry has at most as many blocks left to write, and it can
      write them exactly if the first attempt could. */
  lemma RetryAfterFailedFlush(geo: Geo, s: Store, l: nat, fault: bool, s1: Store)
    requires Shaped(geo, s) && InRange(s, l) && s.bbts[l].Entry? && FlushStep(s, l, fault, true, s1)
    ensures Shaped(geo, s1) && s1.bbts == s.bbts && Views(s1) == Views(s)
    ensures Pending(s.bbts[l].blks, s1.tables[l], geo.Nblks()) <= Pending(s.bbts[l].blks, s.tables[l], geo.Nblks())
    ensures Flushable(s.bbts[l].blks, s1.tables[l]) <==> Flushable(s.bbts[l].blks, s.tables[l])
    ensures s1.tables == s.tables[l := s1.tables[l]]
  {
    FlushKeepsViews(geo, s, l, fault, true, s1);
    PendingShrinks(s.bbts[l].blks, s.tables[l], s1.tables[l], geo.Nblks());
    PartKeepsFlushable(s.bbts[l].blks, s.tables[l], s1.tables[l]);
  }

  /** Attempts at flushing LUN `l`, all but the last one failed. */
  ghost predicate Attempts(states: seq<Store>, l: nat, faults: seq<bool>, err: bool) {
    && |states| == |faults| + 1 && |faults| > 0
    && (forall i :: 0 <= i < |faults| - 1 ==> FlushStep(states[i], l, faults[i], true, states[i + 1]))
    && FlushStep(states[|faults| - 1], l, faults[|faults| - 1], err, states[|faults|])
  }

  /** Retrying makes the device agree exactly when it knows the states to be
      written: after any number of failed attempts, whatever made them fail, the
      next one fails if and only if it meets a fault of its own or a block that
      differed from the start has an unknown state. When it succeeds the device
      has the table that was to be written, and in every case what a user sees is
      unchanged and no other LUN is touched. */
  lemma {:induction false} RetriesConverge(geo: Geo, states: seq<Store>, l: nat, faults: seq<bool>, err: bool)
    requires Attempts(states, l, faults, err)
    requires Shaped(geo, states[0]) && InRange(states[0], l) && states[0].bbts[l].Entry?
    ensures err <==> faults[|faults| - 1] || !Flushable(states[0].bbts[l].blks, states[0].tables[l])
    ensures Shaped(geo, states[|faults|]) && Views(states[|faults|]) == Views(states[0])
    ensures !err ==>
              states[|faults|] == Store(states[0].bbts[l := Empty], states[0].tables[l := states[0].bbts[l].blks])
    ensures err ==> states[|faults|].bbts == states[0].bbts
    decreases |faults|
  {
    hide Flushable, Views, PartlyWritten;
    if |faults| == 1 {
      FlushKeepsViews(geo, states[0], l, faults[0], err, states[1]);
      FlushShaped(geo, states[0], l, faults[0], err, states[1]);
    } else {
      RetryAfterFailedFlush(geo, states[0], l, faults[0], states[1]);
      RetriesConverge(geo, states[1..], l, faults[1..], err);
    }
  }

  lemma FlushShaped(geo: Geo, s: Store, l: nat, fault: bool, err: bool, s': Store)
    requires Shaped(geo, s) && FlushStep(s, l, fault, err, s')
    ensures Shaped(geo, s')
  {
  }

  /** A cached mark with flags the device does not know, 3 say, is accepted, and
      from then on no flush of its LUN succeeds or changes the device, fault or
      not. */
  lemma UnknownMarkNeverFlushes(fault: bool, err: bool, s1: Store, s2: Store)
    requires var s := Store([Entry([FREE], Counters(0, 0, 0, 0))], [[FREE]]);
             MarkStep(Geo(1, 1, 1, 1), s, 0, 0, 3, false, s1)
    requires FlushStep(s1, 0, fault, err, s2)
    ensures err && s2 == s1 && s1.tables[0] == [FREE] && View(s1, 0) == [3]
  {
    var t, d := s1.bbts[0].blks, s1.tables[0];
    assert t == [3] && d == [FREE];
    assert t[0] != d[0] && !ValidState(t[0]);
    var n :| 0 <= n <= |t| && WrittenUpTo(t, d, s2.tables[0], n);
    assert n == 0;
    MixEnds(t, d);
    assert s2.tables == s1.tables;
  }

  lemma TakesNone(t: Table, d: Table)
    requires |t| == |d|
    ensures TakesUpTo(t, d, 0)
  {
  }

  lemma TakesStep(t: Table, d: Table, i: nat)
    requires i < |t| == |d| && TakesUpTo(t, d, i)
    ensures TakesUpTo(t, d, i + 1) <==> t[i] == d[i] || ValidState(t[i])
    ensures t[i] != d[i] && !ValidState(t[i]) ==> !Flushable(t, d)
  {
  }

  lemma DiffCmdsStart(l: nat, t: Table, d: Table)
    ensures DiffCmds(l, t, d, 0) == []
  {
  }

  lemma DiffCmdsStep(l: nat, t: Table, d: Table, i: nat)
    requires i < |t| == |d|
    ensures DiffCmds(l, t, d, i + 1)
         == DiffCmds(l, t, d, i) + (if t[i] != d[i] then [SetCmd(l, i, t[i])] else [])
  {
  }
}
