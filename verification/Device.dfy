/** The flash device as the library sees it: chunks that accept a write only at
    their write pointer. The states and the write and reset rules are those of
    the chunk state machine in figure 16 of the Open-Channel SSD 2.0
    specification; a rejected command leaves the device unchanged. */
module Device {

  datatype Option<+T> = None | Some(value: T)

  type Byte = b: int | 0 <= b < 256
  type Sector = seq<Byte>

  datatype ChunkState = Free | Open | Closed | Offline

  /** A chunk of `cap` sectors. `data` holds the sectors written since the last
      reset, so the write pointer is `|data|`. */
  datatype Chunk = Chunk(state: ChunkState, cap: nat, data: seq<Sector>) {

    function Wp(): nat { |data| }

    ghost predicate Valid() {
      match state
      case Free => data == [] && cap > 0
      case Open => 0 < |data| < cap
      case Closed => |data| == cap && cap > 0
      case Offline => true
    }
  }

  type Store = seq<Chunk>

  datatype SecAddr = SecAddr(chunk: nat, sectr: nat)

  function WriteSector(ch: Chunk, sectr: nat, x: Sector): (r: Option<Chunk>)
    ensures r.Some? && ch.Valid() ==> r.value.Valid()
    ensures r.Some? <==> ch.state != Offline && ch.state != Closed && sectr == ch.Wp() < ch.cap
    ensures r.Some? ==> r.value.cap == ch.cap && r.value.Wp() == ch.Wp() + 1
    ensures r.Some? ==> sectr == ch.Wp() && r.value.data == ch.data + [x]
  {
    if (ch.state.Free? || ch.state.Open?) && sectr == ch.Wp() && sectr < ch.cap
    then Some(Chunk(if sectr + 1 == ch.cap then Closed else Open, ch.cap, ch.data + [x]))
    else None
  }

  function WriteOne(st: Store, a: SecAddr, x: Sector): (r: Option<Store>)
    ensures r.Some? ==> |r.value| == |st| && a.chunk < |st|
    ensures r.Some? ==> forall c :: 0 <= c < |st| && c != a.chunk ==> r.value[c] == st[c]
  {
    if a.chunk >= |st| then None
    else match WriteSector(st[a.chunk], a.sectr, x)
         case None => None
         case Some(ch) => Some(st[a.chunk := ch])
  }

  /** One write command: its sectors in order, all of them or none. */
  function WriteAll(st: Store, addrs: seq<SecAddr>, data: seq<Sector>): (r: Option<Store>)
    requires |addrs| == |data|
    ensures r.Some? ==> |r.value| == |st|
    decreases |addrs|
  {
    if addrs == [] then Some(st)
    else match WriteOne(st, addrs[0], data[0])
         case None => None
         case Some(st') => WriteAll(st', addrs[1..], data[1..])
  }

  function ReadOne(st: Store, a: SecAddr): Option<Sector> {
    if a.chunk < |st| && !st[a.chunk].state.Offline? && a.sectr < st[a.chunk].Wp()
    then Some(st[a.chunk].data[a.sectr])
    else None
  }

  /** What a reset does: closed chunks become free, open and offline chunks
      refuse, free chunks refuse unless the device allows repeated resets. */
  function ResetChunk(ch: Chunk, multiReset: bool): Option<Chunk> {
    match ch.state
    case Closed => Some(Chunk(Free, ch.cap, []))
    case Free => if multiReset then Some(ch) else None
    case Open => None
    case Offline => None
  }

  function ResetAll(st: Store, chunks: seq<nat>, multiReset: bool): (r: Option<Store>)
    ensures r.Some? ==> |r.value| == |st|
    ensures r.Some? ==> forall c :: 0 <= c < |st| && c !in chunks ==> r.value[c] == st[c]
    decreases |chunks|
  {
    if chunks == [] then Some(st)
    else if chunks[0] >= |st| then None
    else match ResetChunk(st[chunks[0]], multiReset)
         case None => None
         case Some(ch) => ResetAll(st[chunks[0] := ch], chunks[1..], multiReset)
  }

  // ---- which chunks a command touches -----------------------------------

  function Footprint(addrs: seq<SecAddr>): set<nat> {
    set i | 0 <= i < |addrs| :: addrs[i].chunk
  }

  ghost predicate AgreeOn(s: Store, t: Store, fp: set<nat>) {
    |s| == |t| && forall c :: c in fp && c < |s| ==> s[c] == t[c]
  }

  lemma {:induction false} WriteAllFrame(st: Store, addrs: seq<SecAddr>, data: seq<Sector>)
    requires |addrs| == |data|
    requires WriteAll(st, addrs, data).Some?
    ensures var st' := WriteAll(st, addrs, data).value;
            forall c :: 0 <= c < |st| && c !in Footprint(addrs) ==> st'[c] == st[c]
    decreases |addrs|
  {
    if addrs != [] {
      WriteAllFrame(WriteOne(st, addrs[0], data[0]).value, addrs[1..], data[1..]);
      FootprintTail(addrs);
    }
  }

  lemma FootprintTail(addrs: seq<SecAddr>)
    requires addrs != []
    ensures Footprint(addrs) == {addrs[0].chunk} + Footprint(addrs[1..])
  {
    forall c | c in Footprint(addrs) ensures c in {addrs[0].chunk} + Footprint(addrs[1..]) {
      var i :| 0 <= i < |addrs| && addrs[i].chunk == c;
      if i > 0 { assert addrs[1..][i - 1].chunk == c; }
    }
    forall c | c in Footprint(addrs[1..]) ensures c in Footprint(addrs) {
      var i :| 0 <= i < |addrs[1..]| && addrs[1..][i].chunk == c;
      assert addrs[i + 1].chunk == c;
    }
    assert addrs[0].chunk in Footprint(addrs);
  }

  /** A command sees, and changes, only the chunks in its footprint. */
  lemma {:induction false} WriteAllLocal(s: Store, t: Store, addrs: seq<SecAddr>, data: seq<Sector>)
    requires |addrs| == |data|
    requires AgreeOn(s, t, Footprint(addrs))
    ensures WriteAll(s, addrs, data).Some? == WriteAll(t, addrs, data).Some?
    ensures WriteAll(s, addrs, data).Some? ==>
              AgreeOn(WriteAll(s, addrs, data).value, WriteAll(t, addrs, data).value, Footprint(addrs))
    decreases |addrs|
  {
    if addrs != [] {
      FootprintTail(addrs);
      assert addrs[0].chunk in Footprint(addrs);
      var s1, t1 := WriteOne(s, addrs[0], data[0]), WriteOne(t, addrs[0], data[0]);
      if s1.Some? {
        WriteAllLocal(s1.value, t1.value, addrs[1..], data[1..]);
        if WriteAll(s, addrs, data).Some? {
          LocalHead(s1.value, t1.value, addrs[0].chunk, addrs[1..], data[1..]);
        }
      }
    }
  }

  lemma LocalHead(s: Store, t: Store, c: nat, addrs: seq<SecAddr>, data: seq<Sector>)
    requires |addrs| == |data| && |s| == |t| && c < |s| && s[c] == t[c]
    requires WriteAll(s, addrs, data).Some? && WriteAll(t, addrs, data).Some?
    requires AgreeOn(WriteAll(s, addrs, data).value, WriteAll(t, addrs, data).value, Footprint(addrs))
    ensures WriteAll(s, addrs, data).value[c] == WriteAll(t, addrs, data).value[c]
  {
    if c !in Footprint(addrs) {
      WriteAllFrame(s, addrs, data);
      WriteAllFrame(t, addrs, data);
    }
  }

  lemma {:induction false} WriteAllConcat(st: Store, a: seq<SecAddr>, x: seq<Sector>, b: seq<SecAddr>, y: seq<Sector>)
    requires |a| == |x| && |b| == |y|
    ensures WriteAll(st, a, x).None? ==> WriteAll(st, a + b, x + y).None?
    ensures WriteAll(st, a, x).Some? ==>
              WriteAll(st, a + b, x + y) == WriteAll(WriteAll(st, a, x).value, b, y)
    decreases |a|
  {
    if a == [] {
      assert a + b == b && x + y == y;
    } else {
      assert (a + b)[1..] == a[1..] + b && (x + y)[1..] == x[1..] + y;
      var st1 := WriteOne(st, a[0], x[0]);
      if st1.Some? { WriteAllConcat(st1.value, a[1..], x[1..], b, y); }
    }
  }

  lemma {:induction false} ResetAllConcat(st: Store, a: seq<nat>, b: seq<nat>, multiReset: bool)
    ensures ResetAll(st, a, multiReset).None? ==> ResetAll(st, a + b, multiReset).None?
    ensures ResetAll(st, a, multiReset).Some? ==>
              ResetAll(st, a + b, multiReset) == ResetAll(ResetAll(st, a, multiReset).value, b, multiReset)
    decreases |a|
  {
    if a == [] {
      assert a + b == b;
    } else {
      assert (a + b)[1..] == a[1..] + b;
      if a[0] < |st| && ResetChunk(st[a[0]], multiReset).Some? {
        ResetAllConcat(st[a[0] := ResetChunk(st[a[0]], multiReset).value], a[1..], b, multiReset);
      }
    }
  }

  /** Chunks a reset takes. */
  predicate Resettable(st: Store, chunks: seq<nat>, multiReset: bool) {
    forall i :: 0 <= i < |chunks| ==>
      chunks[i] < |st| && (st[chunks[i]].state == Closed || (st[chunks[i]].state == Free && multiReset))
  }

  /** A reset of distinct chunks is accepted exactly when each of them is closed, or
      free on a device that allows repeated resets. */
  lemma {:induction false} ResetAllIff(st: Store, chunks: seq<nat>, multiReset: bool)
    requires forall i, j :: 0 <= i < j < |chunks| ==> chunks[i] != chunks[j]
    ensures ResetAll(st, chunks, multiReset).Some? <==> Resettable(st, chunks, multiReset)
    decreases |chunks|
  {
    if chunks != [] && chunks[0] < |st| && ResetChunk(st[chunks[0]], multiReset).Some? {
      var st1, rest := st[chunks[0] := ResetChunk(st[chunks[0]], multiReset).value], chunks[1..];
      ResetAllIff(st1, rest, multiReset);
      forall i | 0 <= i < |rest| ensures rest[i] < |st| ==> st1[rest[i]] == st[rest[i]] {
        assert rest[i] == chunks[i + 1];
      }
      if Resettable(st1, rest, multiReset) {
        forall i | 0 <= i < |chunks|
          ensures chunks[i] < |st| && (st[chunks[i]].state == Closed || (st[chunks[i]].state == Free && multiReset))
        {
          if i > 0 { assert rest[i - 1] == chunks[i]; }
        }
      }
    }
  }

  /** A reset that is accepted leaves its chunks free. */
  lemma {:induction false} ResetAllFrees(st: Store, chunks: seq<nat>, multiReset: bool, c: nat)
    requires ResetAll(st, chunks, multiReset).Some? && c < |st| && st[c].Valid()
    ensures var ch := ResetAll(st, chunks, multiReset).value[c];
            && ch.Valid() && ch.cap == st[c].cap
            && (c in chunks || st[c].state == Free ==> ch.state == Free)
    decreases |chunks|
  {
    if chunks != [] {
      var c0 := chunks[0];
      ResetAllFrees(st[c0 := ResetChunk(st[c0], multiReset).value], chunks[1..], multiReset, c);
      assert c in chunks ==> c == c0 || c in chunks[1..];
    }
  }

  // ---- what has been written stays readable --------------------------------

  /** Accepted writes append: written sectors keep their content. */
  lemma {:induction false} WriteAllKeeps(st: Store, addrs: seq<SecAddr>, data: seq<Sector>, a: SecAddr)
    requires |addrs| == |data| && WriteAll(st, addrs, data).Some? && ReadOne(st, a).Some?
    ensures ReadOne(WriteAll(st, addrs, data).value, a) == ReadOne(st, a)
    decreases |addrs|
  {
    if addrs != [] {
      WriteAllKeeps(WriteOne(st, addrs[0], data[0]).value, addrs[1..], data[1..], a);
    }
  }

  /** Write pointers only grow. */
  lemma {:induction false} WriteAllGrows(st: Store, addrs: seq<SecAddr>, data: seq<Sector>, c: nat)
    requires |addrs| == |data| && WriteAll(st, addrs, data).Some? && c < |st|
    ensures WriteAll(st, addrs, data).value[c].Wp() >= st[c].Wp()
    decreases |addrs|
  {
    if addrs != [] {
      WriteAllGrows(WriteOne(st, addrs[0], data[0]).value, addrs[1..], data[1..], c);
    }
  }

  /** Every sector that could be read still reads the same. */
  ghost predicate Kept(st: Store, st': Store) {
    forall a :: ReadOne(st, a).Some? ==> ReadOne(st', a) == ReadOne(st, a)
  }

  lemma WriteAllKept(st: Store, addrs: seq<SecAddr>, data: seq<Sector>)
    requires |addrs| == |data| && WriteAll(st, addrs, data).Some?
    ensures Kept(st, WriteAll(st, addrs, data).value)
  {
    forall a | ReadOne(st, a).Some? ensures ReadOne(WriteAll(st, addrs, data).value, a) == ReadOne(st, a) {
      WriteAllKeeps(st, addrs, data, a);
    }
  }

  lemma KeptTransitive(st: Store, st1: Store, st2: Store)
    requires Kept(st, st1) && Kept(st1, st2)
    ensures Kept(st, st2)
  {
  }

  /** Every sector of an accepted command reads back. */
  lemma {:induction false} WriteAllReadsBack(st: Store, addrs: seq<SecAddr>, data: seq<Sector>, i: nat)
    requires |addrs| == |data| && WriteAll(st, addrs, data).Some? && i < |addrs|
    ensures ReadOne(WriteAll(st, addrs, data).value, addrs[i]) == Some(data[i])
    decreases |addrs|
  {
    var st1 := WriteOne(st, addrs[0], data[0]).value;
    if i == 0 {
      WriteAllKeeps(st1, addrs[1..], data[1..], addrs[0]);
    } else {
      WriteAllReadsBack(st1, addrs[1..], data[1..], i - 1);
    }
  }
}
