/** The commit validator, `fetch` in scripts/dbgrbyd.py. A block starts
    with a four-byte revision; the running checksum is seeded with the
    CRC-32C of those bytes. Each tag that follows must carry, as its
    parity bit, the parity of the running checksum's set bits; its header
    is folded into the checksum, and so is its payload unless it is an
    alt (which has none) or a crc tag. A crc tag stores the checksum of
    everything folded so far; when it matches, the block is committed up
    to the end of that crc tag. The first failed parity or checksum ends
    the walk, and the last commit reached is the committed offset. */
module Commit {
  import opened Bits
  import opened Castagnoli
  import opened Tags

  /** The bookkeeping for one tag: where it starts, its header, the
      running checksum before and after it, whether its parity bit and
      (for a crc tag) its stored checksum matched, and where it ends. */
  datatype Step = Step(at: nat, hdr: TagHeader, crcIn: nat, hdrCrc: nat,
                       parityOk: bool, crcOk: bool, crcOut: nat, next: nat)

  /** `fromtag(data[j:])`. */
  function Header(data: seq<byte>, j: nat): TagHeader {
    FromTag(Drop(data, j))
  }

  /** `struct.unpack('<I', data[j:j+4].ljust(4, b'\0'))`. */
  function Stored(data: seq<byte>, j: nat): nat {
    LeU32(Slice(data, j, j + 4))
  }

  /** The bytes a tag at `j` with header `h` folds into the running
      checksum: its header, and its payload unless it is an alt or a
      crc tag. */
  function Folded(data: seq<byte>, j: nat, h: TagHeader): seq<byte> {
    var j1 := j + h.delta;
    if KindOf(h.tag) == Record then Slice(data, j, j1) + Slice(data, j1, j1 + h.size)
    else Slice(data, j, j1)
  }

  /** One tag at `j` whose header reads `h`, with running checksum `crc`,
      as both `fetch` and the display walk account for it. */
  function StepWith(data: seq<byte>, j: nat, h: TagHeader, crc: nat): Step {
    var j1 := j + h.delta;
    var hc := Crc(Slice(data, j, j1), crc);
    var parityOk := h.parity == Parity(crc);
    match KindOf(h.tag)
    case Branch => Step(j, h, crc, hc, parityOk, true, hc, j1)
    case Record => Step(j, h, crc, hc, parityOk, true, Crc(Slice(data, j1, j1 + h.size), hc), j1 + h.size)
    case Seal => Step(j, h, crc, hc, parityOk, hc == Stored(data, j1), hc, j1 + h.size)
  }

  /** The tag at `j`. */
  function StepAt(data: seq<byte>, j: nat, crc: nat): Step {
    StepWith(data, j, Header(data, j), crc)
  }

  /** What a step checks and where it goes: the parity bit must be the
      parity of the running checksum; only a crc tag compares a stored
      checksum, the one just after its header; an alt advances over its
      header only, every other tag over its header and payload. */
  lemma StepChecks(data: seq<byte>, j: nat, h: TagHeader, crc: nat)
    ensures var s := StepWith(data, j, h, crc);
      && s.at == j && s.hdr == h && s.crcIn == crc
      && (s.parityOk <==> h.parity == Parity(crc))
      && (s.crcOk <==> KindOf(h.tag) != Seal || s.hdrCrc == Stored(data, j + h.delta))
      && s.next == j + h.delta + (if KindOf(h.tag) == Branch then 0 else h.size)
  {
  }

  /** The checksum after a step is the checksum of exactly the bytes the
      step folds (the header, and the payload of a record), continued
      from the checksum before it; a crc tag compares the checksum of
      everything up to its own header. */
  lemma StepFolds(data: seq<byte>, j: nat, h: TagHeader, crc: nat)
    ensures var s := StepWith(data, j, h, crc);
      && s.crcOut == Crc(Folded(data, j, h), crc)
      && s.hdrCrc == Crc(Slice(data, j, j + h.delta), crc)
  {
    var j1 := j + h.delta;
    if KindOf(h.tag) == Record {
      CrcChain(Slice(data, j, j1), Slice(data, j1, j1 + h.size), crc);
    }
  }

  /** The tag at `j` is the step for the header it reads there. */
  lemma StepAtHeader(data: seq<byte>, j: nat, crc: nat)
    ensures StepAt(data, j, crc) == StepWith(data, j, StepAt(data, j, crc).hdr, crc)
  {
  }

  /** A nonempty remainder of the block always moves the walk forward:
      `fromtag` reads at least one byte. */
  lemma StepProgress(data: seq<byte>, j: nat, crc: nat)
    requires j < |data|
    ensures StepAt(data, j, crc).next > j
  {
  }

  /** A step that `fetch` accepts. */
  predicate Accepted(s: Step) {
    s.parityOk && s.crcOk
  }

  /** A step that commits: an accepted crc tag. */
  predicate Commits(s: Step) {
    Accepted(s) && KindOf(s.hdr.tag) == Seal
  }

  /** The loop of `fetch` from offset `j`, running checksum `crc` and
      committed offset `off` so far, to the offset it returns. */
  function ValidateFrom(data: seq<byte>, bs: nat, j: nat, crc: nat, off: nat): nat
    requires bs <= |data|
    decreases bs - j
  {
    if j >= bs then off
    else
      var s := StepAt(data, j, crc);
      StepProgress(data, j, crc);
      if !Accepted(s) then off
      else ValidateFrom(data, bs, s.next, s.crcOut, if KindOf(s.hdr.tag) == Seal then s.next else off)
  }

  /** The seed of the running checksum: the CRC-32C of the revision bytes. */
  function Seed(data: seq<byte>): nat {
    Crc(Slice(data, 0, 4), 0)
  }

  /** The revision: the first four bytes, little-endian, zero-padded. */
  function Revision(data: seq<byte>): nat {
    LeU32(Slice(data, 0, 4))
  }

  /** The offset `fetch` returns for a block of `bs` bytes. */
  function CommittedOffset(data: seq<byte>, bs: nat): nat
    requires bs <= |data|
  {
    ValidateFrom(data, bs, 4, Seed(data), 0)
  }

  /** One pass of the loop of `fetch` over the tag at `j` whose header
      reads `h`: whether the walk goes on, and if so where, with which
      running checksum, and whether the tag committed the block. */
  method FetchTag(data: seq<byte>, j: nat, h: TagHeader, crc0: nat)
    returns (ok: bool, next: nat, crc: nat, sealed: bool)
    ensures var s := StepWith(data, j, h, crc0);
      && ok == Accepted(s)
      && (ok ==> next == s.next && crc == s.crcOut && (sealed <==> KindOf(h.tag) == Seal))
  {
    StepChecks(data, j, h, crc0);
    if h.parity != Parity(crc0) {
      return false, j, crc0, false;
    }
    var crcOk;
    next, crc, crcOk := FoldTag(data, j, h, crc0);
    if !crcOk {
      return false, next, crc, false;
    }
    ok, sealed := true, KindOf(h.tag) == Seal;
  }

  /** The checksum half of a pass of `fetch` or of the display walk:
      fold the header, then fold the payload of a record or compare a crc
      tag's stored checksum, and step over the tag. */
  method FoldTag(data: seq<byte>, j: nat, h: TagHeader, crc0: nat)
    returns (next: nat, crc: nat, crcOk: bool)
    ensures var s := StepWith(data, j, h, crc0);
      next == s.next && crc == s.crcOut && crcOk == s.crcOk && (!crcOk ==> crc == s.hdrCrc)
  {
    crc := Crc32c(Slice(data, j, j + h.delta), crc0);
    next := j + h.delta;
    crcOk := true;
    match KindOf(h.tag)
    case Branch =>
    case Record =>
      crc := Crc32c(Slice(data, next, next + h.size), crc);
      next := next + h.size;
    case Seal =>
      var stored := LeU32(Slice(data, next, next + 4));
      crcOk := crc == stored;
      next := next + h.size;
  }

  /** `fetch(data)`. */
  method Fetch(data: seq<byte>, blockSize: nat) returns (rev: nat, off: nat)
    requires blockSize <= |data|
    ensures rev == Revision(data)
    ensures off == CommittedOffset(data, blockSize)
  {
    rev := LeU32(Slice(data, 0, 4));
    var crc := Crc32c(Slice(data, 0, 4), 0);
    off := 0;
    var j := 4;
    while j < blockSize
      invariant ValidateFrom(data, blockSize, j, crc, off) == CommittedOffset(data, blockSize)
      decreases blockSize - j
    {
      var h := FromTag(Drop(data, j));
      StepProgress(data, j, crc);
      var ok, next, crc', sealed := FetchTag(data, j, h, crc);
      if !ok {
        break;
      }
      if sealed {
        off := next;
      }
      j, crc := next, crc';
    }
  }

  /** The steps `fetch` accepts from `j` with running checksum `crc`, in
      the order it takes them. */
  function Trace(data: seq<byte>, bs: nat, j: nat, crc: nat): seq<Step>
    requires bs <= |data|
    decreases bs - j
  {
    if j >= bs then []
    else
      var s := StepAt(data, j, crc);
      StepProgress(data, j, crc);
      if !Accepted(s) then [] else [s] + Trace(data, bs, s.next, s.crcOut)
  }

  /** Where a walk that took `steps` from `j` with `crc` stands. */
  function EndAt(steps: seq<Step>, j: nat): nat {
    if |steps| == 0 then j else steps[|steps| - 1].next
  }

  function EndCrc(steps: seq<Step>, crc: nat): nat {
    if |steps| == 0 then crc else steps[|steps| - 1].crcOut
  }

  /** The end of the last committing step among `steps`, or `off`. */
  function LastCommit(steps: seq<Step>, off: nat): nat
    decreases |steps|
  {
    if |steps| == 0 then off
    else LastCommit(steps[1..], if Commits(steps[0]) then steps[0].next else off)
  }

  /** The bytes all of `steps` fold into the running checksum. */
  function FoldedAll(data: seq<byte>, steps: seq<Step>): seq<byte>
    decreases |steps|
  {
    if |steps| == 0 then []
    else FoldedAll(data, steps[..|steps| - 1]) + Folded(data, steps[|steps| - 1].at, steps[|steps| - 1].hdr)
  }

  /** Every step of the trace is the tag at its offset, accepted, and
      inside the block, and the walk starts at `j`. */
  lemma {:induction false} TraceSteps(data: seq<byte>, bs: nat, j: nat, crc: nat, t: seq<Step>)
    requires bs <= |data| && t == Trace(data, bs, j, crc)
    ensures |t| > 0 ==> t[0].at == j && t[0].crcIn == crc
    ensures forall k :: 0 <= k < |t| ==>
      t[k] == StepAt(data, t[k].at, t[k].crcIn) && Accepted(t[k]) && j <= t[k].at < bs
    decreases bs - j
  {
    if j < bs {
      var s := StepAt(data, j, crc);
      StepProgress(data, j, crc);
      if Accepted(s) {
        var t' := Trace(data, bs, s.next, s.crcOut);
        assert t == [s] + t';
        TraceSteps(data, bs, s.next, s.crcOut, t');
        forall k | 0 < k < |t|
          ensures t[k] == StepAt(data, t[k].at, t[k].crcIn) && Accepted(t[k]) && j <= t[k].at < bs
        {
          assert t[k] == t'[k - 1];
        }
      }
    }
  }

  /** Each step starts where the one before it ended, with the checksum
      the one before it left. */
  lemma {:induction false} TraceLinked(data: seq<byte>, bs: nat, j: nat, crc: nat, t: seq<Step>)
    requires bs <= |data| && t == Trace(data, bs, j, crc)
    ensures forall k :: 0 <= k < |t| - 1 ==> t[k + 1].at == t[k].next && t[k + 1].crcIn == t[k].crcOut
    decreases bs - j
  {
    if j < bs {
      var s := StepAt(data, j, crc);
      StepProgress(data, j, crc);
      if Accepted(s) {
        var t' := Trace(data, bs, s.next, s.crcOut);
        assert t == [s] + t';
        TraceLinked(data, bs, s.next, s.crcOut, t');
        TraceSteps(data, bs, s.next, s.crcOut, t');
        forall k | 0 < k < |t| - 1
          ensures t[k + 1].at == t[k].next && t[k + 1].crcIn == t[k].crcOut
        {
          assert t[k] == t'[k - 1] && t[k + 1] == t'[k];
        }
      }
    }
  }

  /** The walk stops at the end of the block or at the first tag whose
      parity or stored checksum does not match, and nowhere else. */
  lemma {:induction false} TraceStops(data: seq<byte>, bs: nat, j: nat, crc: nat, t: seq<Step>)
    requires bs <= |data| && t == Trace(data, bs, j, crc)
    ensures EndAt(t, j) >= bs || !Accepted(StepAt(data, EndAt(t, j), EndCrc(t, crc)))
    decreases bs - j
  {
    if j < bs {
      var s := StepAt(data, j, crc);
      StepProgress(data, j, crc);
      if Accepted(s) {
        var t' := Trace(data, bs, s.next, s.crcOut);
        assert t == [s] + t';
        TraceStops(data, bs, s.next, s.crcOut, t');
        if |t'| > 0 {
          assert t[|t| - 1] == t'[|t'| - 1];
        }
      }
    }
  }

  /** `fetch` returns the end of the last commit its walk reaches. */
  lemma {:induction false} ValidateTrace(data: seq<byte>, bs: nat, j: nat, crc: nat, off: nat, t: seq<Step>)
    requires bs <= |data| && t == Trace(data, bs, j, crc)
    ensures ValidateFrom(data, bs, j, crc, off) == LastCommit(t, off)
    decreases bs - j
  {
    if j < bs {
      var s := StepAt(data, j, crc);
      StepProgress(data, j, crc);
      if Accepted(s) {
        var t' := Trace(data, bs, s.next, s.crcOut);
        assert t == [s] + t';
        assert t[1..] == t';
        ValidateTrace(data, bs, s.next, s.crcOut, if KindOf(s.hdr.tag) == Seal then s.next else off, t');
      }
    }
  }

  /** The last commit is `off` when no step commits, and otherwise the
      end of a committing step after which no step commits. */
  lemma {:induction false} LastCommitIsLast(steps: seq<Step>, off: nat)
    ensures || (LastCommit(steps, off) == off && forall k :: 0 <= k < |steps| ==> !Commits(steps[k]))
            || exists k :: 0 <= k < |steps| && Commits(steps[k]) && LastCommit(steps, off) == steps[k].next
                 && forall k' :: k < k' < |steps| ==> !Commits(steps[k'])
    decreases |steps|
  {
    if |steps| > 0 {
      var off' := if Commits(steps[0]) then steps[0].next else off;
      LastCommitIsLast(steps[1..], off');
      var r := LastCommit(steps, off);
      if r == off' && forall k :: 0 <= k < |steps| - 1 ==> !Commits(steps[1..][k]) {
        if Commits(steps[0]) {
          forall k' | 0 < k' < |steps|
            ensures !Commits(steps[k'])
          {
            assert steps[k'] == steps[1..][k' - 1];
          }
        }
      } else {
        var k :| 0 <= k < |steps| - 1 && Commits(steps[1..][k]) && r == steps[1..][k].next
           && forall k' :: k < k' < |steps| - 1 ==> !Commits(steps[1..][k']);
        forall k' | k + 1 < k' < |steps|
          ensures !Commits(steps[k'])
        {
          assert steps[k'] == steps[1..][k' - 1];
        }
      }
    }
  }

  /** A step of the walk, as the checksums it computes: the checksum
      after it covers the bytes it folds, and the one a crc tag compares
      covers its header. */
  lemma StepAtFolds(data: seq<byte>, s: Step)
    requires s == StepAt(data, s.at, s.crcIn)
    ensures s.crcOut == Crc(Folded(data, s.at, s.hdr), s.crcIn)
    ensures s.hdrCrc == Crc(Slice(data, s.at, s.at + s.hdr.delta), s.crcIn)
  {
    StepAtHeader(data, s.at, s.crcIn);
    StepFolds(data, s.at, s.hdr, s.crcIn);
  }

  /** A step that commits is a tag of the crc family, accepted because
      the word stored after its header equals the running checksum, and
      it ends after its payload. */
  lemma CommitFacts(data: seq<byte>, s: Step)
    requires s == StepAt(data, s.at, s.crcIn) && Commits(s)
    ensures IsCrc(s.hdr.tag) && s.parityOk
    ensures s.hdrCrc == Stored(data, s.at + s.hdr.delta)
    ensures s.next == s.at + s.hdr.delta + s.hdr.size
  {
    StepAtHeader(data, s.at, s.crcIn);
    StepChecks(data, s.at, s.hdr, s.crcIn);
  }

  /** The offset `fetch` returns is 0 when its walk reaches no commit, and
      otherwise the end of the last step of the walk that commits. Every
      tag the walk went over passed its parity check. */
  lemma CommittedOffsetIsCommit(data: seq<byte>, bs: nat, t: seq<Step>)
    requires bs <= |data| && t == Trace(data, bs, 4, Seed(data))
    ensures forall k :: 0 <= k < |t| ==> t[k].parityOk
    ensures || (CommittedOffset(data, bs) == 0 && forall k :: 0 <= k < |t| ==> !Commits(t[k]))
            || exists k :: 0 <= k < |t| && Commits(t[k]) && CommittedOffset(data, bs) == t[k].next
                 && forall k' :: k < k' < |t| ==> !Commits(t[k'])
  {
    ValidateTrace(data, bs, 4, Seed(data), 0, t);
    LastCommitIsLast(t, 0);
    TraceSteps(data, bs, 4, Seed(data), t);
  }

  /** The committed offset never decreases along the walk, and a new
      commit always lies beyond the tag the walk had reached. */
  lemma {:induction false} ValidateGrows(data: seq<byte>, bs: nat, j: nat, crc: nat, off: nat)
    requires bs <= |data| && off <= j
    ensures off <= ValidateFrom(data, bs, j, crc, off)
    ensures ValidateFrom(data, bs, j, crc, off) == off || j < ValidateFrom(data, bs, j, crc, off)
    decreases bs - j
  {
    if j < bs {
      var s := StepAt(data, j, crc);
      StepProgress(data, j, crc);
      if Accepted(s) {
        ValidateGrows(data, bs, s.next, s.crcOut, if KindOf(s.hdr.tag) == Seal then s.next else off);
      }
    }
  }

  /** The running checksum at each step is the CRC-32C of everything the
      steps before it folded, continued from the walk's first checksum. */
  lemma TraceCrc(data: seq<byte>, bs: nat, j: nat, crc: nat, t: seq<Step>, k: nat)
    requires bs <= |data| && t == Trace(data, bs, j, crc) && k < |t|
    ensures t[k].crcIn == Crc(FoldedAll(data, t[..k]), crc)
  {
    TraceSteps(data, bs, j, crc, t);
    TraceLinked(data, bs, j, crc, t);
    forall i | 0 <= i < |t|
      ensures t[i].crcOut == Crc(Folded(data, t[i].at, t[i].hdr), t[i].crcIn)
    {
      StepAtFolds(data, t[i]);
    }
    ChainCrc(data, t, crc, k);
  }

  /** Along any chain of steps that each fold their own bytes, the
      checksum entering step `k` covers the bytes of all steps before. */
  lemma {:induction false} ChainCrc(data: seq<byte>, t: seq<Step>, crc: nat, k: nat)
    requires k < |t| && t[0].crcIn == crc
    requires forall i :: 0 <= i < |t| - 1 ==> t[i + 1].crcIn == t[i].crcOut
    requires forall i :: 0 <= i < |t| ==> t[i].crcOut == Crc(Folded(data, t[i].at, t[i].hdr), t[i].crcIn)
    ensures t[k].crcIn == Crc(FoldedAll(data, t[..k]), crc)
    decreases k
  {
    if k == 0 {
      assert t[..0] == [];
      CrcEmpty(crc);
    } else {
      ChainCrc(data, t, crc, k - 1);
      var p := t[k - 1];
      CrcChain(FoldedAll(data, t[..k - 1]), Folded(data, p.at, p.hdr), crc);
      assert t[..k][..k - 1] == t[..k - 1];
    }
  }

  /** The word a committing crc tag stores is the CRC-32C of the revision
      bytes, of every byte folded by the tags before it, and of its own
      header. */
  lemma CommitChecksum(data: seq<byte>, bs: nat, t: seq<Step>, k: nat)
    requires bs <= |data| && t == Trace(data, bs, 4, Seed(data))
    requires k < |t| && Commits(t[k])
    ensures Stored(data, t[k].at + t[k].hdr.delta)
         == Crc(Slice(data, 0, 4) + FoldedAll(data, t[..k]) + Slice(data, t[k].at, t[k].at + t[k].hdr.delta), 0)
  {
    TraceCrc(data, bs, 4, Seed(data), t, k);
    TraceStepAt(data, bs, 4, Seed(data), t, k);
    SealMatches(data, t[k]);
    SealCovers(data, t, k);
  }

  /** Step `k` of the walk is the tag at its offset. */
  lemma TraceStepAt(data: seq<byte>, bs: nat, j: nat, crc: nat, t: seq<Step>, k: nat)
    requires bs <= |data| && t == Trace(data, bs, j, crc) && k < |t|
    ensures t[k] == StepAt(data, t[k].at, t[k].crcIn)
  {
    TraceSteps(data, bs, j, crc, t);
  }

  /** The checksum chain closing at a crc tag, for any list of steps. */
  lemma SealCovers(data: seq<byte>, t: seq<Step>, k: nat)
    requires k < |t|
    requires t[k].crcIn == Crc(FoldedAll(data, t[..k]), Seed(data))
    requires Stored(data, t[k].at + t[k].hdr.delta) == Crc(Slice(data, t[k].at, t[k].at + t[k].hdr.delta), t[k].crcIn)
    ensures Stored(data, t[k].at + t[k].hdr.delta)
         == Crc(Slice(data, 0, 4) + FoldedAll(data, t[..k]) + Slice(data, t[k].at, t[k].at + t[k].hdr.delta), 0)
  {
    CrcChain3(Slice(data, 0, 4), FoldedAll(data, t[..k]), Slice(data, t[k].at, t[k].at + t[k].hdr.delta));
  }

  /** A committing step compares the stored word with the checksum of
      its header. */
  lemma SealMatches(data: seq<byte>, s: Step)
    requires s == StepAt(data, s.at, s.crcIn) && Commits(s)
    ensures Stored(data, s.at + s.hdr.delta) == Crc(Slice(data, s.at, s.at + s.hdr.delta), s.crcIn)
  {
    CommitFacts(data, s);
    StepAtFolds(data, s);
  }

  /** Checksumming three pieces one after the other from a zero seed. */
  lemma CrcChain3(a: seq<byte>, b: seq<byte>, c: seq<byte>)
    ensures Crc(c, Crc(b, Crc(a, 0))) == Crc(a + b + c, 0)
  {
    CrcChain(a, b, 0);
    CrcChain(a + b, c, 0);
  }
}
