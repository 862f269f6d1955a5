/** Read commands carried out in some order: each leaves the device as it is and
    fills its own part of the caller's buffer. */
module ReadBuffer {
  import opened Arith
  import opened Device
  import opened Schedule
  import opened OrderedLoop

  // ---- filling a buffer piece by piece --------------------------------------------------

  function PutAt(buf: seq<Sector>, at: nat, piece: seq<Sector>): (r: seq<Sector>)
    requires at + |piece| <= |buf|
    ensures |r| == |buf|
    ensures forall j :: 0 <= j < |buf| ==> r[j] == if at <= j < at + |piece| then piece[j - at] else buf[j]
  {
    buf[..at] + piece + buf[at + |piece|..]
  }

  /** Piece `k` has its place in the buffer, from sector k * c on. */
  ghost predicate PieceFits(buf: seq<Sector>, c: nat, pieces: seq<seq<Sector>>, k: nat)
    requires k < |pieces|
  {
    |pieces[k]| <= c && k * c + |pieces[k]| <= |buf|
  }

  ghost predicate Fits(buf: seq<Sector>, c: nat, pieces: seq<seq<Sector>>) {
    forall k :: 0 <= k < |pieces| ==> PieceFits(buf, c, pieces, k)
  }

  /** The buffer after the commands of `tr`, in that order. Commands take `c`
      sectors each; a command that fails has an empty piece. */
  function Fill(buf: seq<Sector>, c: nat, pieces: seq<seq<Sector>>, tr: seq<nat>): (r: seq<Sector>)
    requires Fits(buf, c, pieces) && forall b :: 0 <= b < |tr| ==> tr[b] < |pieces|
    ensures |r| == |buf|
    decreases |tr|
  {
    if tr == [] then buf
    else
      var k := tr[|tr| - 1];
      assert PieceFits(buf, c, pieces, k);
      PutAt(Fill(buf, c, pieces, tr[..|tr| - 1]), k * c, pieces[k])
  }

  lemma OtherPiece(k: nat, i: nat, j: nat, other: nat, len: nat, c: nat)
    requires i < c && len <= c && k != other && j == k * c + i
    ensures !(other * c <= j < other * c + len)
  {
    assert (k + 1) * c == k * c + c && (other + 1) * c == other * c + c;
    if k < other { MulLe(k + 1, other, c); } else { MulLe(other + 1, k, c); }
  }

  /** Whatever the order, sector `i` of part `k`, sector `j` of the buffer, is what
      command `k` delivered, if it was carried out and reached that far, and what
      the buffer held before otherwise. */
  lemma {:induction false} FillAt(buf: seq<Sector>, c: nat, pieces: seq<seq<Sector>>, tr: seq<nat>, k: nat, i: nat, j: nat)
    requires Fits(buf, c, pieces) && forall b :: 0 <= b < |tr| ==> tr[b] < |pieces|
    requires k < |pieces| && i < c && j == k * c + i && j < |buf|
    ensures Fill(buf, c, pieces, tr)[j] == if k in tr && i < |pieces[k]| then pieces[k][i] else buf[j]
    decreases |tr|
  {
    if tr != [] {
      hide Fits;
      var front, last := tr[..|tr| - 1], tr[|tr| - 1];
      FillAt(buf, c, pieces, front, k, i, j);
      FitsAt(buf, c, pieces, last);
      FillLast(buf, c, pieces, tr);
      assert tr == front + [last];
      if last != k { OtherPiece(k, i, j, last, |pieces[last]|, c); }
    }
  }

  lemma FitsAt(buf: seq<Sector>, c: nat, pieces: seq<seq<Sector>>, k: nat)
    requires Fits(buf, c, pieces) && k < |pieces|
    ensures |pieces[k]| <= c && k * c + |pieces[k]| <= |buf|
  {
    assert PieceFits(buf, c, pieces, k);
  }

  lemma FillLast(buf: seq<Sector>, c: nat, pieces: seq<seq<Sector>>, tr: seq<nat>)
    requires Fits(buf, c, pieces) && (forall b :: 0 <= b < |tr| ==> tr[b] < |pieces|) && tr != []
    ensures var k := tr[|tr| - 1];
            && k * c + |pieces[k]| <= |buf|
            && Fill(buf, c, pieces, tr) == PutAt(Fill(buf, c, pieces, tr[..|tr| - 1]), k * c, pieces[k])
  {
    FitsAt(buf, c, pieces, tr[|tr| - 1]);
  }

  /** The pieces cut `whole` into parts of `c` sectors. */
  ghost predicate Cuts(whole: seq<Sector>, c: nat, pieces: seq<seq<Sector>>) {
    && |whole| <= |pieces| * c
    && forall k, i :: 0 <= k < |pieces| && 0 <= i < c && k * c + i < |whole| ==> SectorOf(whole, c, pieces, k, i)
  }

  ghost predicate SectorOf(whole: seq<Sector>, c: nat, pieces: seq<seq<Sector>>, k: nat, i: nat)
    requires k < |pieces| && k * c + i < |whole|
  {
    i < |pieces[k]| && pieces[k][i] == whole[k * c + i]
  }

  /** Once every command has been carried out, in whatever order, the buffer starts
      with the whole and is otherwise as it was. */
  lemma FillWhole(buf: seq<Sector>, c: nat, pieces: seq<seq<Sector>>, tr: seq<nat>, whole: seq<Sector>)
    requires c > 0 && Fits(buf, c, pieces) && Cuts(whole, c, pieces)
    requires forall k: nat :: k in tr <==> k < |pieces|
    requires |whole| <= |buf| && forall k :: 0 <= k < |pieces| ==> k * c + |pieces[k]| <= |whole|
    ensures (forall b :: 0 <= b < |tr| ==> tr[b] < |pieces|) && Fill(buf, c, pieces, tr) == whole + buf[|whole|..]
  {
    assert forall b :: 0 <= b < |tr| ==> tr[b] in tr;
    var r := Fill(buf, c, pieces, tr);
    forall j | 0 <= j < |buf| ensures r[j] == (whole + buf[|whole|..])[j] {
      WholeAt(buf, c, pieces, tr, whole, j);
    }
  }

  lemma WholeAt(buf: seq<Sector>, c: nat, pieces: seq<seq<Sector>>, tr: seq<nat>, whole: seq<Sector>, j: nat)
    requires c > 0 && Fits(buf, c, pieces) && Cuts(whole, c, pieces) && j < |buf|
    requires (forall k: nat :: k in tr <==> k < |pieces|) && forall b :: 0 <= b < |tr| ==> tr[b] < |pieces|
    requires |whole| <= |buf| && forall k :: 0 <= k < |pieces| ==> k * c + |pieces[k]| <= |whole|
    ensures Fill(buf, c, pieces, tr)[j] == if j < |whole| then whole[j] else buf[j]
  {
    hide Fill, Fits, Cuts;
    var k, i := j / c, j % c;
    assert j == k * c + i;
    assert |whole| <= |pieces| * c by { CutsLength(whole, c, pieces); }
    if j < |whole| { DivBelow(j, |pieces|, c); }
    if k < |pieces| {
      FillAt(buf, c, pieces, tr, k, i, j);
      if j < |whole| { CutsAt(whole, c, pieces, k, i, j); }
    } else {
      NotInPieces(j, c, |pieces|);
      BeyondFill(buf, c, pieces, tr, j);
    }
  }

  lemma CutsLength(whole: seq<Sector>, c: nat, pieces: seq<seq<Sector>>)
    requires Cuts(whole, c, pieces)
    ensures |whole| <= |pieces| * c
  {
  }

  lemma CutsAt(whole: seq<Sector>, c: nat, pieces: seq<seq<Sector>>, k: nat, i: nat, j: nat)
    requires Cuts(whole, c, pieces) && k < |pieces| && i < c && j == k * c + i && j < |whole|
    ensures i < |pieces[k]| && pieces[k][i] == whole[j]
  {
    assert SectorOf(whole, c, pieces, k, i);
  }

  lemma NotInPieces(j: nat, c: nat, n: nat)
    requires c > 0 && j / c >= n
    ensures n * c <= j
  {
    MulLe(n, j / c, c);
  }

  lemma {:induction false} BeyondFill(buf: seq<Sector>, c: nat, pieces: seq<seq<Sector>>, tr: seq<nat>, j: nat)
    requires Fits(buf, c, pieces) && forall b :: 0 <= b < |tr| ==> tr[b] < |pieces|
    requires |pieces| * c <= j < |buf|
    ensures Fill(buf, c, pieces, tr)[j] == buf[j]
    decreases |tr|
  {
    if tr != [] {
      var last := tr[|tr| - 1];
      BeyondFill(buf, c, pieces, tr[..|tr| - 1], j);
      FitsAt(buf, c, pieces, last);
      FillLast(buf, c, pieces, tr);
      PieceEnds(last, |pieces|, |pieces[last]|, c);
    }
  }

  lemma PieceEnds(k: nat, n: nat, len: nat, c: nat)
    requires k < n && len <= c
    ensures k * c + len <= n * c
  {
    MulLe(k + 1, n, c);
    assert (k + 1) * c == k * c + c;
  }

  // ---- reads in the schedulers -----------------------------------------------------------

  /** To the device a read is a command that changes no chunk. */
  function ReadCmds(m: nat): (r: seq<Cmd>)
    ensures |r| == m && AllValid(r)
  {
    seq(m, k => Cmd([], []))
  }

  lemma ReadsSeparated(m: nat, d: nat)
    ensures Separated(ReadCmds(m), d)
  {
  }

  lemma ReadApplied(m: Media, n: nat, failing: set<nat>, k: nat)
    requires k < n
    ensures Apply(m, ReadCmds(n), failing, k) == Media(m.st, m.ok[k := k !in failing])
  {
  }

  /** In program order and in any other, reads leave the device alone and fail as
      they would on their own. */
  lemma {:induction false} ReadOutcomes(st: Store, m: nat, failing: set<nat>, tr: seq<nat>)
    requires Trace(ReadCmds(m), tr)
    ensures var r := Exec(Media(st, map[]), ReadCmds(m), failing, tr);
            && r.st == st
            && (forall k: nat :: k in r.ok <==> k in tr)
            && (forall k: nat :: k in tr ==> r.ok[k] == (k !in failing))
    decreases |tr|
  {
    hide ReadCmds, Apply;
    if tr != [] {
      var front, last := tr[..|tr| - 1], tr[|tr| - 1];
      ReadOutcomes(st, m, failing, front);
      assert tr == front + [last];
      ReadApplied(Exec(Media(st, map[]), ReadCmds(m), failing, front), m, failing, last);
    }
  }

  /** Every schedule of a parallel loop of reads, with or without an ordered region
      and for any team: each iteration carried out has been carried out once, the
      device is unchanged, and an iteration fails if and only if it is in
      `failing`. */
  lemma {:induction false} ReadLoopAlways(st: Store, m: nat, failing: set<nat>, team: nat, ordered: bool, sched: seq<Step>)
    requires team > 0 && Legal(Program(ReadCmds(m), Media(st, map[]), failing, team, ordered), sched)
    ensures var p := Program(ReadCmds(m), Media(st, map[]), failing, team, ordered);
            var s := After(p, sched);
            && TraceOk(p, s) && s.media == Exec(p.start, p.cmds, failing, s.trace)
    decreases |sched|
  {
    hide ReadCmds, Apply, Exec;
    var p := Program(ReadCmds(m), Media(st, map[]), failing, team, ordered);
    if sched == [] {
      assert Exec(p.start, p.cmds, failing, []) == p.start by { ExecNothing(p.start, p.cmds, failing); }
    } else {
      var front, step := sched[..|sched| - 1], sched[|sched| - 1];
      ReadLoopAlways(st, m, failing, team, ordered, front);
      var s := After(p, front);
      TraceStep(p, s, step);
      if step.Execute? { ExecSnoc(p.start, p.cmds, failing, s.trace, step.k); }
    }
  }

  lemma ExecNothing(m: Media, cmds: seq<Cmd>, faults: set<nat>)
    requires AllValid(cmds)
    ensures Exec(m, cmds, faults, []) == m
  {
  }
}
