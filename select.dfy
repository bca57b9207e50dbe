/** Choosing the block to show, the loop after `fetch` in `main` of
    scripts/dbgrbyd.py. Every block is validated in turn; the pick starts
    at the first block and moves to a later block when that block has a
    commit and its revision compares against the pick's by the sign bit
    of their difference modulo 2^32 (serial-number arithmetic, as in
    section 3.2 of RFC 1982).

    As written, the loop moves when the difference has its sign bit set,
    that is to a block whose revision is *behind* the pick's. The order
    is a parameter here: `AsWritten` is that comparison, `Corrected` the
    one that moves to a block whose revision is not behind. */
module Select {
  import opened Bits
  import opened Leb128
  import opened Commit

  /** 2^31: the sign bit of a 32-bit difference. */
  const Half: nat := 0x8000_0000

  /** `(a - b) & 0x80000000` is set: `a` is behind `b` modulo 2^32. */
  predicate Behind(a: nat, b: nat) {
    (a - b) % Modulus >= Half
  }

  /** Which revision comparison moves the pick. */
  datatype Order = AsWritten | Corrected

  /** Whether the pick moves from a block with revision `cur` to a later
      committed block with revision `rev`. */
  predicate Moves(order: Order, rev: nat, cur: nat) {
    match order
    case AsWritten => Behind(rev, cur)
    case Corrected => !Behind(rev, cur)
  }

  /** The index picked among the first `n` blocks, whose revisions and
      committed offsets are `revs` and `offs`. */
  function Pick(order: Order, revs: seq<nat>, offs: seq<nat>, n: nat): (r: nat)
    requires n <= |revs| && n <= |offs|
    ensures n == 0 ==> r == 0
    ensures n > 0 ==> r < n
  {
    if n == 0 then 0
    else
      var i := Pick(order, revs, offs, n - 1);
      if offs[n - 1] != 0 && Moves(order, revs[n - 1], revs[i]) then n - 1 else i
  }

  /** The revisions `fetch` returns for `datas`, block by block. */
  function Revisions(datas: seq<seq<byte>>): (r: seq<nat>)
    ensures |r| == |datas|
    ensures forall k :: 0 <= k < |datas| ==> r[k] == Revision(datas[k])
  {
    if |datas| == 0 then [] else Revisions(datas[..|datas| - 1]) + [Revision(datas[|datas| - 1])]
  }

  /** The committed offsets `fetch` returns for `datas`, block by block. */
  function Offsets(datas: seq<seq<byte>>, blockSize: nat): (r: seq<nat>)
    requires forall k :: 0 <= k < |datas| ==> blockSize <= |datas[k]|
    ensures |r| == |datas|
    ensures forall k :: 0 <= k < |datas| ==> r[k] == CommittedOffset(datas[k], blockSize)
  {
    if |datas| == 0 then []
    else
      var last := datas[|datas| - 1];
      var init := datas[..|datas| - 1];
      assert forall k :: 0 <= k < |init| ==> init[k] == datas[k];
      Offsets(init, blockSize) + [CommittedOffset(last, blockSize)]
  }

  /** The selection loop over the blocks read from the device, each
      validated by `fetch`. */
  method SelectBlock(order: Order, datas: seq<seq<byte>>, blockSize: nat)
    returns (revs: seq<nat>, offs: seq<nat>, i: nat)
    requires forall k :: 0 <= k < |datas| ==> blockSize <= |datas[k]|
    ensures revs == Revisions(datas) && offs == Offsets(datas, blockSize)
    ensures i == Pick(order, revs, offs, |datas|)
    ensures |datas| > 0 ==> i < |datas|
  {
    revs, offs := [], [];
    i := 0;
    for n := 0 to |datas|
      invariant revs == Revisions(datas[..n]) && offs == Offsets(datas[..n], blockSize)
      invariant i == Pick(order, revs, offs, n)
    {
      revs, offs, i := SelectNext(order, datas, blockSize, n, revs, offs, i);
    }
    assert datas[..|datas|] == datas;
  }

  /** One pass of the selection loop: fetch block `n`, record its
      revision and committed offset, and move the pick to it if it
      compares against the block picked so far. */
  method SelectNext(order: Order, datas: seq<seq<byte>>, blockSize: nat, n: nat,
                    revs0: seq<nat>, offs0: seq<nat>, i0: nat)
    returns (revs: seq<nat>, offs: seq<nat>, i: nat)
    requires forall k :: 0 <= k < |datas| ==> blockSize <= |datas[k]|
    requires n < |datas|
    requires revs0 == Revisions(datas[..n]) && offs0 == Offsets(datas[..n], blockSize)
    requires i0 == Pick(order, revs0, offs0, n)
    ensures revs == Revisions(datas[..n + 1]) && offs == Offsets(datas[..n + 1], blockSize)
    ensures i == Pick(order, revs, offs, n + 1)
  {
    var rev, off := Fetch(datas[n], blockSize);
    FetchedSnoc(datas, blockSize, n);
    PickStep(order, revs0, offs0, rev, off);
    revs, offs, i := revs0 + [rev], offs0 + [off], i0;
    if off != 0 && Moves(order, rev, revs[i]) {
      i := |revs| - 1;
    }
  }

  /** Fetching one more block extends both lists by its results. */
  lemma FetchedSnoc(datas: seq<seq<byte>>, blockSize: nat, n: nat)
    requires forall k :: 0 <= k < |datas| ==> blockSize <= |datas[k]|
    requires n < |datas|
    ensures Revisions(datas[..n + 1]) == Revisions(datas[..n]) + [Revision(datas[n])]
    ensures Offsets(datas[..n + 1], blockSize) == Offsets(datas[..n], blockSize) + [CommittedOffset(datas[n], blockSize)]
  {
    assert datas[..n + 1][..n] == datas[..n];
  }

  /** One more block: the pick moves to it or stays where it was. */
  lemma PickStep(order: Order, revs: seq<nat>, offs: seq<nat>, rev: nat, off: nat)
    requires |revs| == |offs|
    ensures var n := |revs|; var i := Pick(order, revs, offs, n);
      Pick(order, revs + [rev], offs + [off], n + 1)
        == if off != 0 && Moves(order, rev, (revs + [rev])[i]) then n else i
  {
    PickPrefix(order, revs + [rev], offs + [off], |revs|);
    assert (revs + [rev])[..|revs|] == revs;
    assert (offs + [off])[..|revs|] == offs;
  }

  /** The pick among the first `n` blocks depends on those blocks only. */
  lemma {:induction false} PickPrefix(order: Order, revs: seq<nat>, offs: seq<nat>, n: nat)
    requires n < |revs| && n < |offs|
    ensures Pick(order, revs, offs, n) == Pick(order, revs[..n], offs[..n], n)
  {
    if n > 0 {
      PickPrefix(order, revs, offs, n - 1);
      PickPrefix(order, revs[..n], offs[..n], n - 1);
      assert revs[..n][..n - 1] == revs[..n - 1];
      assert offs[..n][..n - 1] == offs[..n - 1];
    }
  }

  /** Once the pick moves off the first block, it sits on a block that
      has a commit, and it moved there because that block's revision
      compared against the block picked just before it. */
  lemma {:induction false} PickMoved(order: Order, revs: seq<nat>, offs: seq<nat>, n: nat)
    requires n <= |revs| && n <= |offs|
    ensures var r := Pick(order, revs, offs, n);
      r == 0 || (offs[r] != 0 && Moves(order, revs[r], revs[Pick(order, revs, offs, r)]))
  {
    if n > 0 {
      var i := Pick(order, revs, offs, n - 1);
      if !(offs[n - 1] != 0 && Moves(order, revs[n - 1], revs[i])) {
        PickMoved(order, revs, offs, n - 1);
      }
    }
  }

  /** When no block after the first has a commit, the first block stays
      picked, whether or not it has a commit itself. */
  lemma {:induction false} PickStays(order: Order, revs: seq<nat>, offs: seq<nat>, n: nat)
    requires n <= |revs| && n <= |offs|
    requires forall k :: 0 < k < n ==> offs[k] == 0
    ensures Pick(order, revs, offs, n) == 0
  {
    if n > 1 {
      PickStays(order, revs, offs, n - 1);
    }
  }

  /** No block after the pick that has a commit would have moved it:
      as written, none is behind the picked revision; corrected, every
      one is. */
  lemma {:induction false} PickFinal(order: Order, revs: seq<nat>, offs: seq<nat>, n: nat)
    requires n <= |revs| && n <= |offs|
    ensures forall k :: Pick(order, revs, offs, n) < k < n && offs[k] != 0 ==>
      !Moves(order, revs[k], revs[Pick(order, revs, offs, n)])
  {
    if n > 0 {
      PickFinal(order, revs, offs, n - 1);
    }
  }

  /** With the two blocks of an rbyd pair, the second is picked exactly
      when it has a commit and compares against the first. */
  lemma PickOfTwo(order: Order, revs: seq<nat>, offs: seq<nat>)
    requires |revs| == 2 && |offs| == 2
    ensures Pick(order, revs, offs, 2) == 1 <==> offs[1] != 0 && Moves(order, revs[1], revs[0])
  {
    assert Pick(order, revs, offs, 1) == 0;
  }

  /** As written, a pair of committed blocks with revisions 3 and 2
      selects the second, older one; revisions 2 and 3 keep the first,
      older one. */
  lemma AsWrittenPicksOlder()
    ensures Pick(AsWritten, [3, 2], [8, 8], 2) == 1
    ensures Pick(AsWritten, [2, 3], [8, 8], 2) == 0
  {
    PickOfTwo(AsWritten, [3, 2], [8, 8]);
    PickOfTwo(AsWritten, [2, 3], [8, 8]);
    assert (2 - 3) % Modulus == 0xffff_ffff;
    assert (3 - 2) % Modulus == 1;
  }

  /** Corrected, a committed second block is picked exactly when the
      first block's revision is behind it or equal to it, so the pick
      has the newer revision, across wrap-around too. */
  lemma CorrectedPicksNewer(revs: seq<nat>, offs: seq<nat>)
    requires |revs| == 2 && |offs| == 2
    requires revs[0] < Modulus && revs[1] < Modulus && offs[1] != 0
    ensures Pick(Corrected, revs, offs, 2) == 1 <==> !Behind(revs[1], revs[0])
    ensures revs[1] == (revs[0] + 1) % Modulus ==> Pick(Corrected, revs, offs, 2) == 1
  {
    PickOfTwo(Corrected, revs, offs);
    if revs[1] == (revs[0] + 1) % Modulus {
      if revs[0] == Modulus - 1 {
        assert revs[1] == 0;
        assert (revs[1] - revs[0]) % Modulus == 1;
      } else {
        assert (revs[1] - revs[0]) % Modulus == 1;
      }
    }
  }
}
