/** The display walk of scripts/dbgrbyd.py: after a block is chosen, its
    tags are walked again from offset 4 up to a bound (the committed
    offset, or the block size when everything is shown), with the same
    parity and checksum bookkeeping as `fetch`. Where `fetch` stops at a
    mismatch, the walk goes on and attaches a note to the tag instead.
    It also keeps the run of alt tags seen since the last non-alt tag,
    which the tree view prints, most recent first, as a margin of
    r/b/y colours in front of the tag that ends the run. */
module Walk {
  import opened Bits
  import opened Castagnoli
  import opened Tags
  import opened Commit

  /** `v!=%x`: the parity bit the running checksum called for, and
      `crc!=%08x`: the checksum a crc tag's stored word did not match. */
  datatype Note = ParityMismatch(parity: nat) | CrcMismatch(crc: nat)

  /** The notes the walk attaches to a step, parity first. */
  function Notes(s: Step): (r: seq<Note>)
    ensures r == [] <==> Accepted(s)
    ensures |r| <= 2
  {
    (if s.parityOk then [] else [ParityMismatch(Parity(s.crcIn))])
      + (if s.crcOk then [] else [CrcMismatch(s.hdrCrc)])
  }

  /** One tag as the walk shows it: its offset, its header, its notes,
      and the run of alt tags pending in front of it. */
  datatype Row = Row(at: nat, hdr: TagHeader, notes: seq<Note>, alts: seq<nat>)

  /** The run of pending alts after a tag: an alt joins it, any other
      tag ends it. */
  function NextRun(alts: seq<nat>, tag: nat): seq<nat> {
    if IsAlt(tag) then alts + [tag] else []
  }

  /** What a walk shows, where it stops, and whether it stopped because
      it ran past the data: there `fromtag` reads nothing and the source
      loop makes no progress, so it never ends. */
  datatype Shown = Shown(rows: seq<Row>, end: nat, spins: bool)

  /** The walk from `j` with running checksum `crc` and pending run
      `alts`, up to `bound`. */
  function WalkFrom(data: seq<byte>, bound: nat, j: nat, crc: nat, alts: seq<nat>): Shown
    decreases bound - j
  {
    if j >= bound then Shown([], j, false)
    else if j >= |data| then Shown([], j, true)
    else
      var s := StepAt(data, j, crc);
      StepProgress(data, j, crc);
      var w := WalkFrom(data, bound, s.next, s.crcOut, NextRun(alts, s.hdr.tag));
      Shown([Row(j, s.hdr, Notes(s), alts)] + w.rows, w.end, w.spins)
  }

  /** The walk of the whole display, from the first tag after the
      revision. */
  function Display(data: seq<byte>, bound: nat): Shown {
    WalkFrom(data, bound, 4, Seed(data), [])
  }

  /** `rows` shown before the rest of a walk `w`. */
  function Then(rows: seq<Row>, w: Shown): Shown {
    Shown(rows + w.rows, w.end, w.spins)
  }

  /** One pass of the display loop over the tag at `j` whose header
      reads `h`: its notes, where the next tag starts, and the running
      checksum after it. */
  method WalkTag(data: seq<byte>, j: nat, h: TagHeader, crc0: nat)
    returns (notes: seq<Note>, next: nat, crc: nat)
    ensures var s := StepWith(data, j, h, crc0);
      notes == Notes(s) && next == s.next && crc == s.crcOut
  {
    StepChecks(data, j, h, crc0);
    notes := [];
    if h.parity != Parity(crc0) {
      notes := [ParityMismatch(Parity(crc0))];
    }
    var crcOk;
    next, crc, crcOk := FoldTag(data, j, h, crc0);
    if !crcOk {
      notes := notes + [CrcMismatch(crc)];
    }
  }

  /** The display loop up to `bound`, keeping the run of pending alts.
      Where the source would loop forever past the end of the data, the
      loop stops and says so. */
  method DisplayWalk(data: seq<byte>, bound: nat) returns (rows: seq<Row>, end: nat, spins: bool)
    ensures Shown(rows, end, spins) == Display(data, bound)
  {
    var crc := Crc32c(Slice(data, 0, 4), 0);
    var alts: seq<nat> := [];
    var j := 4;
    rows, spins := [], false;
    while j < bound
      invariant Then(rows, WalkFrom(data, bound, j, crc, alts)) == Display(data, bound)
      decreases bound - j
    {
      if j >= |data| {
        spins := true;
        break;
      }
      rows, j, crc, alts := WalkNext(data, bound, rows, j, crc, alts);
    }
    end := j;
  }

  /** One pass of the display loop: show the tag at `j` and move past it. */
  method WalkNext(data: seq<byte>, bound: nat, rows0: seq<Row>, j0: nat, crc0: nat, alts0: seq<nat>)
    returns (rows: seq<Row>, j: nat, crc: nat, alts: seq<nat>)
    requires j0 < bound && j0 < |data|
    ensures j > j0
    ensures Then(rows, WalkFrom(data, bound, j, crc, alts)) == Then(rows0, WalkFrom(data, bound, j0, crc0, alts0))
  {
    var h := FromTag(Drop(data, j0));
    WalkStepWith(data, bound, j0, crc0, alts0, h);
    var notes;
    notes, j, crc := WalkTag(data, j0, h, crc0);
    var row := Row(j0, h, notes, alts0);
    rows := rows0 + [row];
    if IsAlt(h.tag) {
      alts := alts0 + [h.tag];
    } else {
      alts := [];
    }
    ThenThen(rows0, row, WalkFrom(data, bound, j, crc, alts));
  }

  /** Showing `rows0` and then `row` in front of a walk is showing
      `rows0 + [row]` in front of it. */
  lemma ThenThen(rows0: seq<Row>, row: Row, w: Shown)
    ensures Then(rows0 + [row], w) == Then(rows0, Then([row], w))
  {
    assert rows0 + [row] + w.rows == rows0 + ([row] + w.rows);
  }

  /** A walk that stays inside the data always ends. */
  lemma {:induction false} WalkEnds(data: seq<byte>, bound: nat, j: nat, crc: nat, alts: seq<nat>)
    requires bound <= |data|
    ensures !WalkFrom(data, bound, j, crc, alts).spins
    ensures j < bound ==> WalkFrom(data, bound, j, crc, alts).end >= bound
    decreases bound - j
  {
    if j < bound {
      var s := StepAt(data, j, crc);
      StepProgress(data, j, crc);
      WalkEnds(data, bound, s.next, s.crcOut, NextRun(alts, s.hdr.tag));
    }
  }

  /** A walk that ends on `r` without spinning and shows no note. */
  predicate Clean(w: Shown, r: nat) {
    !w.spins && w.end == r && forall i :: 0 <= i < |w.rows| ==> w.rows[i].notes == []
  }

  /** A row without notes in front of a clean walk keeps it clean. */
  lemma CleanThen(row: Row, w: Shown, r: nat)
    requires row.notes == [] && Clean(w, r)
    ensures Clean(Then([row], w), r)
  {
    forall i | 0 < i < |Then([row], w).rows|
      ensures Then([row], w).rows[i].notes == []
    {
      assert Then([row], w).rows[i] == w.rows[i - 1];
    }
  }

  /** Walking up to the offset `r` that `fetch` returns from `j`, when
      that offset is a commit reached from `j`, shows no note and stops
      exactly there. */
  lemma {:induction false} WalkToCommit(data: seq<byte>, bs: nat, j: nat, crc: nat, off: nat, alts: seq<nat>, r: nat)
    requires bs <= |data| && off <= j
    requires r == ValidateFrom(data, bs, j, crc, off) && r != off
    ensures Clean(WalkFrom(data, r, j, crc, alts), r)
    decreases bs - j
  {
    var s := StepAt(data, j, crc);
    StepProgress(data, j, crc);
    var off' := if KindOf(s.hdr.tag) == Seal then s.next else off;
    ValidateGrows(data, bs, s.next, s.crcOut, off');
    WalkStep(data, r, j, crc, alts);
    var row := Row(j, s.hdr, Notes(s), alts);
    var w' := WalkFrom(data, r, s.next, s.crcOut, NextRun(alts, s.hdr.tag));
    if r != off' {
      WalkToCommit(data, bs, s.next, s.crcOut, off', NextRun(alts, s.hdr.tag), r);
    } else {
      assert w' == Shown([], r, false);
    }
    CleanThen(row, w', r);
  }

  /** One step of a walk that has not reached its bound or the end of
      the data. */
  lemma WalkStep(data: seq<byte>, bound: nat, j: nat, crc: nat, alts: seq<nat>)
    requires j < bound && j < |data|
    ensures WalkFrom(data, bound, j, crc, alts)
         == Then([Row(j, StepAt(data, j, crc).hdr, Notes(StepAt(data, j, crc)), alts)],
                 WalkFrom(data, bound, StepAt(data, j, crc).next, StepAt(data, j, crc).crcOut,
                          NextRun(alts, StepAt(data, j, crc).hdr.tag)))
  {
  }

  /** The same step, for the header `h` read at `j`: the tag shown is
      the one `fetch` steps over, and the walk moves forward. */
  lemma WalkStepWith(data: seq<byte>, bound: nat, j: nat, crc: nat, alts: seq<nat>, h: TagHeader)
    requires j < bound && j < |data| && h == Header(data, j)
    ensures StepWith(data, j, h, crc).next > j
    ensures WalkFrom(data, bound, j, crc, alts)
         == Then([Row(j, h, Notes(StepWith(data, j, h, crc)), alts)],
                 WalkFrom(data, bound, StepWith(data, j, h, crc).next, StepWith(data, j, h, crc).crcOut,
                          NextRun(alts, h.tag)))
  {
    StepProgress(data, j, crc);
    WalkStep(data, bound, j, crc, alts);
  }

  /** Walking a block up to its committed offset agrees with `fetch`:
      when there is a commit, no row of the walk carries a parity or crc
      note, the walk does not run past the data, and it stops exactly on
      the committed offset; when there is none, nothing is shown. */
  lemma DisplayAgrees(data: seq<byte>, bs: nat)
    requires bs <= |data|
    ensures CommittedOffset(data, bs) == 0 ==> Display(data, 0) == Shown([], 4, false)
    ensures CommittedOffset(data, bs) != 0 ==> Clean(Display(data, CommittedOffset(data, bs)), CommittedOffset(data, bs))
  {
    if CommittedOffset(data, bs) != 0 {
      WalkToCommit(data, bs, 4, Seed(data), 0, [], CommittedOffset(data, bs));
    }
  }

  /** The run of pending alts in front of each row follows the rows
      before it: each alt joins it, each other tag empties it. */
  predicate RunsLinked(rows: seq<Row>, alts: seq<nat>) {
    && (|rows| > 0 ==> rows[0].alts == alts)
    && forall i :: 0 <= i < |rows| - 1 ==> rows[i + 1].alts == NextRun(rows[i].alts, rows[i].hdr.tag)
  }

  /** The walk keeps its run of pending alts as the source does. */
  lemma {:induction false} WalkRuns(data: seq<byte>, bound: nat, j: nat, crc: nat, alts: seq<nat>)
    ensures RunsLinked(WalkFrom(data, bound, j, crc, alts).rows, alts)
    decreases bound - j
  {
    if j < bound && j < |data| {
      var s := StepAt(data, j, crc);
      StepProgress(data, j, crc);
      var alts' := NextRun(alts, s.hdr.tag);
      var w := WalkFrom(data, bound, s.next, s.crcOut, alts');
      WalkRuns(data, bound, s.next, s.crcOut, alts');
      var rows := WalkFrom(data, bound, j, crc, alts).rows;
      assert rows == [Row(j, s.hdr, Notes(s), alts)] + w.rows;
      forall i | 0 < i < |rows| - 1
        ensures rows[i + 1].alts == NextRun(rows[i].alts, rows[i].hdr.tag)
      {
        assert rows[i] == w.rows[i - 1] && rows[i + 1] == w.rows[i];
      }
    }
  }

  /** The run in front of row `i` is exactly the alt tags of the rows
      just before it, in order: every one of those rows is an alt, and
      the row before them, if any, is not. */
  predicate IsRun(rows: seq<Row>, i: nat)
    requires i < |rows|
  {
    var a := rows[i].alts;
    && |a| <= i
    && (forall m :: 0 <= m < |a| ==> a[m] == rows[i - |a| + m].hdr.tag && IsAlt(a[m]))
    && (|a| < i ==> !IsAlt(rows[i - |a| - 1].hdr.tag))
  }

  /** In a walk that starts with no pending alts, the run in front of
      every row is the maximal run of alts right before it. */
  lemma {:induction false} RunsAreMaximal(rows: seq<Row>, i: nat)
    requires RunsLinked(rows, []) && i < |rows|
    ensures IsRun(rows, i)
    decreases i
  {
    if i > 0 {
      RunsAreMaximal(rows, i - 1);
      var a := rows[i - 1].alts;
      if IsAlt(rows[i - 1].hdr.tag) {
        assert rows[i].alts == a + [rows[i - 1].hdr.tag];
        forall m | 0 <= m < |rows[i].alts|
          ensures rows[i].alts[m] == rows[i - |rows[i].alts| + m].hdr.tag && IsAlt(rows[i].alts[m])
        {
          if m < |a| {
            assert rows[i].alts[m] == a[m];
          }
        }
      }
    }
  }

  /** The colours of the tree view: `b` for a black alt, `r` for a red
      alt, `y` for a red alt followed by another red one. */
  datatype Colour = B | R | Y

  /** The colour of an alt `tag`, given the tag that follows it, if any.
      Only the low bit of each is looked at. */
  function AltColour(tag: nat, next: Option<nat>): (c: Colour)
    ensures c == B <==> !Red(tag)
    ensures c == Y <==> Red(tag) && next.Some? && Red(next.value)
  {
    if Red(tag) then (if next.Some? && Red(next.value) then Y else R) else B
  }

  /** The margin printed for a run of alts, newest alt first. */
  function Margin(alts: seq<nat>): (r: seq<Colour>)
    ensures |r| == |alts|
  {
    MarginOf(alts, |alts|)
  }

  /** The colours of the first `n` alts of the run, newest first; each
      alt is coloured against the alt after it in the run. */
  function MarginOf(alts: seq<nat>, n: nat): (r: seq<Colour>)
    requires n <= |alts|
    ensures |r| == n
  {
    if n == 0 then []
    else [AltColour(alts[n - 1], if n < |alts| then Some(alts[n]) else None)] + MarginOf(alts, n - 1)
  }

  /** Position `p` of the margin shows alt `|alts| - 1 - p` of the run:
      `b` when its low bit is clear, `y` when its low bit and that of
      the alt after it in the run are set, `r` otherwise. */
  lemma MarginColours(alts: seq<nat>)
    ensures forall p :: 0 <= p < |alts| ==>
      var i := |alts| - 1 - p;
      && (Margin(alts)[p] == B <==> !Red(alts[i]))
      && (Margin(alts)[p] == Y <==> Red(alts[i]) && i + 1 < |alts| && Red(alts[i + 1]))
      && (Margin(alts)[p] == R <==> Red(alts[i]) && !(i + 1 < |alts| && Red(alts[i + 1])))
  {
    forall p | 0 <= p < |alts|
      ensures Margin(alts)[p] == AltColour(alts[|alts| - 1 - p], if |alts| - p < |alts| then Some(alts[|alts| - p]) else None)
    {
      MarginAt(alts, |alts|, p);
    }
  }

  /** Position `p` of the first `n` alts' margin is alt `n - 1 - p`. */
  lemma {:induction false} MarginAt(alts: seq<nat>, n: nat, p: nat)
    requires n <= |alts| && p < n
    ensures MarginOf(alts, n)[p] == AltColour(alts[n - 1 - p], if n - p < |alts| then Some(alts[n - p]) else None)
    decreases n
  {
    if p > 0 {
      MarginAt(alts, n - 1, p - 1);
    }
  }

  /** What the tree view prints after a row: its notes when it has any;
      otherwise the margin of pending alts, for a tag whose low three
      bits are clear. */
  function RowMargin(row: Row): (r: Option<seq<Colour>>)
    ensures r.Some? <==> row.notes == [] && row.hdr.tag % 8 == 0
  {
    if row.notes == [] && row.hdr.tag % 8 == 0 then Some(Margin(row.alts)) else None
  }
}
