/** The jump view of scripts/dbgrbyd.py: before the tags are shown, the
    walk is made once more to collect one jump per alt, from the alt to
    the tag it points back to, coloured by the alt and the tag right
    after it; then each jump, in order, is given the lowest lane (x
    offset) that no earlier jump it overlaps already uses. */
module Jumps {
  import opened Bits
  import opened Tags
  import opened Commit
  import opened Walk

  /** `(a, b, x, c)`: a jump from the alt at `from` back to `to`, drawn
      in lane `lane` with colour `colour`. `to` is `from - size` without
      wrap-around, so it may be negative. */
  datatype Jump = Jump(from: nat, to: int, lane: nat, colour: Colour)

  /** The jumps collected by a walk, and whether the walk ran past the
      data (where the source loop makes no progress and never ends). */
  datatype Arcs = Arcs(jumps: seq<Jump>, spins: bool)

  /** Where the jump walk goes after the tag at `j` with header `h`: over
      the header, and over the payload unless the tag is an alt. */
  function Advance(j: nat, h: TagHeader): nat {
    j + h.delta + (if IsAlt(h.tag) then 0 else h.size)
  }

  /** The jump for the alt at `j` with header `h`, in lane 0. Its colour
      looks at the low bit of the tag read right after the alt. */
  function ArcOf(data: seq<byte>, j: nat, h: TagHeader): Jump {
    Jump(j, j - h.size, 0, AltColour(h.tag, Some(Header(data, j + h.delta).tag)))
  }

  /** The jumps collected from `j` up to `bound`. */
  function JumpsFrom(data: seq<byte>, bound: nat, j: nat): Arcs
    decreases bound - j
  {
    if j >= bound then Arcs([], false)
    else if j >= |data| then Arcs([], true)
    else
      var h := Header(data, j);
      var rest := JumpsFrom(data, bound, Advance(j, h));
      if IsAlt(h.tag) then Arcs([ArcOf(data, j, h)] + rest.jumps, rest.spins) else rest
  }

  /** `jumps` collected before the rest of a walk `a`. */
  function Before(jumps: seq<Jump>, a: Arcs): Arcs {
    Arcs(jumps + a.jumps, a.spins)
  }

  /** One step of a jump walk that has not reached its bound or the end
      of the data, for the header `h` read at `j`. */
  lemma JumpsStep(data: seq<byte>, bound: nat, j: nat, h: TagHeader)
    requires j < bound && j < |data| && h == Header(data, j)
    ensures Advance(j, h) > j
    ensures JumpsFrom(data, bound, j)
         == Before(if IsAlt(h.tag) then [ArcOf(data, j, h)] else [], JumpsFrom(data, bound, Advance(j, h)))
  {
  }

  /** The jump-collecting loop up to `bound`. Where the source would loop
      forever past the end of the data, the loop stops and says so. */
  method CollectJumps(data: seq<byte>, bound: nat) returns (jumps: seq<Jump>, spins: bool)
    ensures Arcs(jumps, spins) == JumpsFrom(data, bound, 4)
  {
    jumps, spins := [], false;
    var j := 4;
    while j < bound
      invariant Before(jumps, JumpsFrom(data, bound, j)) == JumpsFrom(data, bound, 4)
      decreases bound - j
    {
      if j >= |data| {
        spins := true;
        break;
      }
      jumps, j := CollectNext(data, bound, jumps, j);
    }
  }

  /** One pass of the jump-collecting loop: step over the tag at `j`,
      and record a jump if it is an alt. */
  method CollectNext(data: seq<byte>, bound: nat, jumps0: seq<Jump>, j0: nat)
    returns (jumps: seq<Jump>, j: nat)
    requires j0 < bound && j0 < |data|
    ensures j > j0
    ensures Before(jumps, JumpsFrom(data, bound, j)) == Before(jumps0, JumpsFrom(data, bound, j0))
  {
    var h := FromTag(Drop(data, j0));
    JumpsStep(data, bound, j0, h);
    j := j0 + h.delta;
    if !IsAlt(h.tag) {
      j := j + h.size;
    }
    assert j == Advance(j0, h);
    ghost var rest := JumpsFrom(data, bound, j);
    if IsAlt(h.tag) {
      var c := ColourAt(data, j0, h, j);
      jumps := jumps0 + [Jump(j0, j0 - h.size, 0, c)];
      assert Jump(j0, j0 - h.size, 0, c) == ArcOf(data, j0, h);
      BeforeBefore(jumps0, [ArcOf(data, j0, h)], rest);
    } else {
      jumps := jumps0;
      BeforeNothing(rest);
    }
  }

  /** The colour of the alt at `j0` with header `h`, whose next tag
      starts at `j`: `b` when the alt is black, else `y` when the next
      tag's low bit is set too, else `r`. */
  method ColourAt(data: seq<byte>, j0: nat, h: TagHeader, j: nat) returns (c: Colour)
    requires j == j0 + h.delta
    ensures c == ArcOf(data, j0, h).colour
  {
    if Red(h.tag) {
      var n := FromTag(Drop(data, j));
      if Red(n.tag) {
        c := Y;
      } else {
        c := R;
      }
    } else {
      c := B;
    }
  }

  /** Collecting `a` and then `b` in front of a walk is collecting
      `a + b` in front of it. */
  lemma BeforeBefore(a: seq<Jump>, b: seq<Jump>, w: Arcs)
    ensures Before(a + b, w) == Before(a, Before(b, w))
  {
    assert a + b + w.jumps == a + (b + w.jumps);
  }

  /** Collecting nothing in front of a walk leaves it as it is. */
  lemma BeforeNothing(w: Arcs)
    ensures Before([], w) == w
  {
    assert [] + w.jumps == w.jumps;
  }

  /** The jumps for the alt rows of a walk, in order. */
  function AltJumps(data: seq<byte>, rows: seq<Row>): seq<Jump> {
    if |rows| == 0 then []
    else
      (if IsAlt(rows[0].hdr.tag) then [ArcOf(data, rows[0].at, rows[0].hdr)] else [])
        + AltJumps(data, rows[1..])
  }

  /** The jumps `a` are those of the alt rows of the display walk `w`,
      and the two run past the data together. */
  predicate Agrees(data: seq<byte>, a: Arcs, w: Shown) {
    a.jumps == AltJumps(data, w.rows) && a.spins == w.spins
  }

  /** One more row in front of a walk, and its jump if it is an alt in
      front of the jumps, keeps the two in agreement. */
  lemma AgreesThen(data: seq<byte>, row: Row, a: Arcs, w: Shown)
    requires Agrees(data, a, w)
    ensures Agrees(data, Before(if IsAlt(row.hdr.tag) then [ArcOf(data, row.at, row.hdr)] else [], a), Then([row], w))
  {
    assert Then([row], w).rows[1..] == w.rows;
  }

  /** The jump walk visits the same tags as the display walk, whatever
      the running checksum and pending run: there is one jump per alt row,
      in order, and the two walks run past the data together. */
  lemma {:induction false} JumpsMatchWalk(data: seq<byte>, bound: nat, j: nat, crc: nat, alts: seq<nat>)
    ensures Agrees(data, JumpsFrom(data, bound, j), WalkFrom(data, bound, j, crc, alts))
    decreases bound - j
  {
    if j < bound && j < |data| {
      var h := Header(data, j);
      WalkStepWith(data, bound, j, crc, alts, h);
      JumpsStep(data, bound, j, h);
      StepChecks(data, j, h, crc);
      var s := StepWith(data, j, h, crc);
      assert s.next == Advance(j, h);
      JumpsMatchWalk(data, bound, s.next, s.crcOut, NextRun(alts, h.tag));
      AgreesThen(data, Row(j, h, Notes(s), alts), JumpsFrom(data, bound, s.next),
                 WalkFrom(data, bound, s.next, s.crcOut, NextRun(alts, h.tag)));
    } else {
      assert WalkFrom(data, bound, j, crc, alts).rows == [];
    }
  }

  /** The lowest and highest offsets a jump spans. */
  function Lo(p: Jump): int { if p.from <= p.to then p.from else p.to }
  function Hi(p: Jump): int { if p.from <= p.to then p.to else p.from }

  /** Two jumps whose spans share an offset. */
  predicate Overlap(p: Jump, q: Jump) {
    Hi(p) >= Lo(q) && Hi(q) >= Lo(p)
  }

  /** Lane `x` is used by an earlier jump that overlaps `p`. */
  predicate Taken(prev: seq<Jump>, p: Jump, x: nat) {
    exists k :: 0 <= k < |prev| && Overlap(p, prev[k]) && prev[k].lane == x
  }

  /** The lowest lane from `x` on that no earlier jump overlapping `p`
      uses. Earlier jumps use lanes below their count, so one of the
      lanes up to `|prev|` is free. */
  function LeastFree(prev: seq<Jump>, p: Jump, x: nat): (r: nat)
    requires forall k :: 0 <= k < |prev| ==> prev[k].lane < |prev|
    requires x <= |prev|
    ensures x <= r <= |prev|
    ensures !Taken(prev, p, r)
    ensures forall y :: x <= y < r ==> Taken(prev, p, y)
    decreases |prev| - x
  {
    if Taken(prev, p, x) then LeastFree(prev, p, x + 1) else x
  }

  /** The jumps with their lanes assigned in order, each one the lowest
      lane free of the earlier jumps it overlaps. Only lanes change, and
      a jump's lane is at most its index. */
  function Lanes(js: seq<Jump>): (r: seq<Jump>)
    ensures |r| == |js|
    ensures forall k :: 0 <= k < |r| ==>
      r[k].from == js[k].from && r[k].to == js[k].to && r[k].colour == js[k].colour && r[k].lane <= k
  {
    if |js| == 0 then []
    else
      var p := Lanes(js[..|js| - 1]);
      var last := js[|js| - 1];
      p + [last.(lane := LeastFree(p, last, 0))]
  }

  /** A jump's lane is taken by an earlier one whatever lane it has itself. */
  lemma TakenIgnoresLane(prev: seq<Jump>, p: Jump, x: nat, lane: nat)
    ensures Taken(prev, p.(lane := lane), x) <==> Taken(prev, p, x)
  {
    if Taken(prev, p, x) {
      var k :| 0 <= k < |prev| && Overlap(p, prev[k]) && prev[k].lane == x;
      assert Overlap(p.(lane := lane), prev[k]);
    }
  }

  /** Overlapping jumps never share a lane, and no jump could have a
      lower lane: each lane below its own is used by an earlier jump it
      overlaps. */
  lemma {:induction false} LanesSound(js: seq<Jump>)
    ensures forall m, k :: 0 <= k < m < |js| && Overlap(Lanes(js)[m], Lanes(js)[k]) ==>
      Lanes(js)[m].lane != Lanes(js)[k].lane
    ensures forall m, y :: 0 <= m < |js| && 0 <= y < Lanes(js)[m].lane ==> Taken(Lanes(js)[..m], Lanes(js)[m], y)
  {
    if |js| > 0 {
      var n := |js| - 1;
      var r := Lanes(js);
      var p := Lanes(js[..n]);
      LanesSound(js[..n]);
      assert r[..n] == p;
      var x := r[n].lane;
      forall m, k | 0 <= k < m < |js| && Overlap(r[m], r[k])
        ensures r[m].lane != r[k].lane
      {
        if m == n {
          TakenIgnoresLane(p, js[n], x, x);
          assert !Taken(p, r[n], x);
          assert Overlap(r[n], p[k]);
        } else {
          assert r[m] == p[m] && r[k] == p[k];
        }
      }
      forall m, y | 0 <= m < |js| && 0 <= y < r[m].lane
        ensures Taken(r[..m], r[m], y)
      {
        if m == n {
          assert Taken(p, js[n], y);
          TakenIgnoresLane(p, js[n], y, x);
        } else {
          assert r[..m] == p[..m] && r[m] == p[m];
        }
      }
    }
  }

  /** Lanes assigned to a prefix are the prefix of the lanes. */
  lemma LanesSnoc(js: seq<Jump>, n: nat)
    requires n < |js|
    ensures Lanes(js[..n + 1]) == Lanes(js[..n]) + [js[n].(lane := LeastFree(Lanes(js[..n]), js[n], 0))]
  {
    assert js[..n + 1][..n] == js[..n];
  }

  /** A lane that is free while every lower one is taken is the least
      free lane. */
  lemma LeastFreeIs(prev: seq<Jump>, p: Jump, x: nat)
    requires forall k :: 0 <= k < |prev| ==> prev[k].lane < |prev|
    requires !Taken(prev, p, x)
    requires forall y :: 0 <= y < x ==> Taken(prev, p, y)
    ensures LeastFree(prev, p, 0) == x
  {
  }

  /** The lane loop, in place over the collected jumps. */
  method AssignLanes(jumps: array<Jump>)
    modifies jumps
    ensures jumps[..] == Lanes(old(jumps[..]))
  {
    ghost var js := jumps[..];
    for j := 0 to jumps.Length
      invariant jumps[..j] == Lanes(js[..j])
      invariant jumps[j..] == js[j..]
    {
      assert jumps[j] == js[j];
      var x := LaneFor(jumps[..j], jumps[j]);
      LanesSnoc(js, j);
      jumps[j] := jumps[j].(lane := x);
      assert jumps[..j + 1] == jumps[..j] + [jumps[j]];
    }
    assert jumps[..] == jumps[..jumps.Length];
    assert js[..jumps.Length] == js;
  }

  /** The `while any(...)` loop: move to the next lane while an earlier
      jump that overlaps `p` uses this one. */
  method LaneFor(prev: seq<Jump>, p: Jump) returns (x: nat)
    requires forall k :: 0 <= k < |prev| ==> prev[k].lane <= k
    ensures x == LeastFree(prev, p, 0)
  {
    x := 0;
    while Taken(prev, p, x)
      invariant x <= |prev|
      invariant forall y :: 0 <= y < x ==> Taken(prev, p, y)
      decreases |prev| - x
    {
      x := x + 1;
    }
    LeastFreeIs(prev, p, x);
  }

  /** The jump view's preprocessing: collect the jumps up to `bound` and
      assign their lanes. */
  method PreprocessJumps(data: seq<byte>, bound: nat) returns (jumps: array<Jump>, spins: bool)
    ensures fresh(jumps)
    ensures jumps[..] == Lanes(JumpsFrom(data, bound, 4).jumps) && spins == JumpsFrom(data, bound, 4).spins
  {
    var js;
    js, spins := CollectJumps(data, bound);
    jumps := new Jump[|js|](i => if 0 <= i < |js| then js[i] else Jump(0, 0, 0, B));
    assert jumps[..] == js;
    AssignLanes(jumps);
  }
}
