# rbyd block decoder and validator

This project models the decode-and-validate engine of `scripts/dbgrbyd.py`, the littlefs debugging script for "rbyd" metadata blocks, and proves properties of it in Dafny.

A block has three parts:
- a four-byte little-endian revision;
- a stream of tags, each a LEB128 tag word (with the parity bit in its low bit) and a LEB128 size;
- crc tags, which seal the stream so that each prefix ending at a matching crc tag is a commit.

The model covers the following.
- **Byte-level codecs** (`bits.dfy`, `crc32c.dfy`, `leb128.dfy`, `tags.dfy`):
  - CRC-32C, the checksum of section 12.1 of RFC 3720, computed bit by bit on integers;
  - unsigned LEB128 decoding (section 7.6 of DWARF version 4), truncated to 32 bits;
  - the tag header reader;
  - the set-bit count.
- **Tag classification** (`tags.dfy`): the branches of `tagrepr`, returning a category datatype instead of a string.
- **Commit validation** (`commit.dfy`): `fetch`. The running checksum is seeded from the revision bytes. The walk checks each tag's parity bit against the parity of the checksum. It folds headers and record payloads, and compares each crc tag's stored word. It returns the last committed offset.
- **Block selection** (`select.dfy`): the loop that picks one of the blocks by its committed offset and by serial-number comparison of revisions (section 3.2 of RFC 1982).
- **Display walk** (`walk.dfy`):
  - the second walk over the chosen block, which notes parity and checksum mismatches instead of stopping;
  - the run of pending alts;
  - the r/b/y margin printed for that run.
- **Jumps** (`jumps.dfy`):
  - the jump collection with its one-tag colour lookahead;
  - the greedy lane assignment, done in place on an array.

Every statement loop of the source (`for` and `while`) is a `method` with a loop, proved equal to a recursive specification function. The margin generator is the recursive function `Walk.MarginOf`, and the `any(...)` test is the predicate `Jumps.Taken`. The properties are proved as lemmas about those functions. Integers are unbounded. The source's 32-bit masks are written out as `% 0x1_0000_0000`, which agrees with Python's `& 0xffffffff` because Dafny's `%` is Euclidean. Shifts and masks are `/` and `%` by constants. Exclusive-or is `Bits.Xor`, defined bit by bit.

Python's clamping slices are `Bits.Slice` and `Bits.Drop`. The zero-padded little-endian read is `Bits.LeU32`.

Where the source loops would never end (see below), the model's walks stop and report `spins`.

## Model

| member | source | states |
|---|---|---|
| Bits.LeU32 | scripts/dbgrbyd.py:124 | the zero-padded little-endian read of up to four bytes is a 32-bit value |
| Bits.LeU32OfLeBytes | scripts/dbgrbyd.py:140 | reading back the four bytes a writer stores for a 32-bit word gives that word |
| Bits.XorXor | scripts/dbgrbyd.py:9-14 | exclusive-or with the same value twice cancels, as the register inversion on entry and exit relies on |
| Bits.XorBound32 | scripts/dbgrbyd.py:9-14 | exclusive-or of two 32-bit values is a 32-bit value |
| Bits.Popc | scripts/dbgrbyd.py:30-31 | the count of set bits is at most the value itself, and is 0 exactly for 0 |
| Bits.PopcBound | scripts/dbgrbyd.py:30-31 | a k-bit value has at most k set bits |
| Castagnoli.CrcByte | scripts/dbgrbyd.py:11-13 | one byte step of the register: xor the byte in, then eight shifts with the reflected polynomial 0x82f63b78; proved equal to the inner loop by Castagnoli.FoldByte |
| Castagnoli.Fold | scripts/dbgrbyd.py:10-13 | the register after the bytes, first byte first; its splitting over `a + b` is Castagnoli.FoldAppend |
| Castagnoli.Crc | scripts/dbgrbyd.py:8-14 | the checksum: the register inverted on entry and exit around Castagnoli.Fold; its properties are Castagnoli.CrcChain, CrcEmpty and CrcBound |
| Castagnoli.FoldByte | scripts/dbgrbyd.py:11-13 | the eight-shift inner loop computes the byte step of the register |
| Castagnoli.Crc32c | scripts/dbgrbyd.py:8-14 | the loop computes the CRC-32C of the data continued from the given checksum |
| Castagnoli.CrcChain | scripts/dbgrbyd.py:8-14 | the checksum of `a + b` from `c` is the checksum of `b` continued from that of `a` |
| Castagnoli.CrcEmpty | scripts/dbgrbyd.py:8-14 | the checksum of no bytes is the checksum passed in |
| Castagnoli.CrcBound | scripts/dbgrbyd.py:8-14 | the checksum of a 32-bit register is a 32-bit value |
| Castagnoli.FoldAppend | scripts/dbgrbyd.py:10-13 | folding `a + b` into the register is folding `a` and then `b` |
| Leb128.Decode | scripts/dbgrbyd.py:16-23 | the word is below 2^32, the count is the LEB128 length, and empty input gives (0, 0) |
| Leb128.LebLength | scripts/dbgrbyd.py:18-23 | the count is at most the input length, and is 0 exactly for empty input |
| Leb128.LebLengthStops | scripts/dbgrbyd.py:21-23 | every byte before the last one counted has bit 0x80 set, and the last one counted has it clear unless the input ran out |
| Leb128.LebLengthUnique | scripts/dbgrbyd.py:21-23 | the count is the only length with that stopping property: one plus the index of the first byte with bit 0x80 clear, or the input length |
| Leb128.LebValueSnoc | scripts/dbgrbyd.py:19-20 | one more byte adds its seven bits at weight 128^i, modulo 2^32 |
| Leb128.LebValueBelow | scripts/dbgrbyd.py:19-20 | the value of the first i groups lies below 128^i, so the next group's OR sets only clear bits |
| Leb128.FromLeb128 | scripts/dbgrbyd.py:16-23 | the loop returns the decoded word and the count of bytes consumed; the bits read so far stay below the next group, so adding each digit is the OR at :19 |
| Leb128.DecodeEncode | scripts/dbgrbyd.py:16-23 | decoding the encoding of a 32-bit word, followed by any bytes, gives the word and the encoding's length |
| Leb128.EncodeLength | scripts/dbgrbyd.py:21-22 | decoding stops at the end of an encoding whatever follows it |
| Leb128.EncodeValue | scripts/dbgrbyd.py:19-20 | the encoding of a 32-bit word decodes to that word |
| Tags.FromTag | scripts/dbgrbyd.py:25-28 | the parity is a bit, the tag is below 2^31, the size is below 2^32, and the header length is 0 exactly for empty input and never more than the input |
| Tags.FromTagEncodeTag | scripts/dbgrbyd.py:25-28 | reading a stored header back gives its parity, tag and size, and a length equal to the sum of the two varints' lengths |
| Tags.Type1 | scripts/dbgrbyd.py:44 | `tag & 0x7f`, the low seven bits; with Type2 and Id it holds the whole tag (Tags.TagFields) |
| Tags.Type2 | scripts/dbgrbyd.py:45 | `(tag >> 7) & 0xff`, the next eight bits |
| Tags.Id | scripts/dbgrbyd.py:46 | `(tag >> 15) & 0xffff`, the next sixteen bits |
| Tags.Family | scripts/dbgrbyd.py:48 | `type1 & 0x7e`, the low type bits without the weak bit, which every branch of `tagrepr` before `fcrc` tests |
| Tags.TagFields | scripts/dbgrbyd.py:44-46 | `type1`, `type2` and `id` together hold every bit of a 31-bit tag |
| Tags.Shown | scripts/dbgrbyd.py:48-81 | the size is shown exactly for tags whose weak bit is clear |
| Tags.AltTarget | scripts/dbgrbyd.py:96 | the alt target is a 32-bit value congruent to `off - size` modulo 2^32 |
| Tags.AltKey | scripts/dbgrbyd.py:95 | `tag & ~0x7` is the multiple of 8 at most 7 below the tag |
| Tags.FamiliesClearBit2 | scripts/dbgrbyd.py:47-91 | no category tested before the alt branch has bit 2 set |
| Tags.Bit2OfType1 | scripts/dbgrbyd.py:91 | bit 2 of `type1` is bit 2 of the tag, so `type1 & 0x4` and `tag & 0x4` agree |
| Tags.CrcNotAlt | scripts/dbgrbyd.py:135-136 | a crc tag is never an alt |
| Tags.KindOf | scripts/dbgrbyd.py:135-145 | a tag is stepped over as an alt exactly when `tag & 0x4`, and as a crc exactly when `(tag & 0x7e) == 0x2` |
| Tags.Classify | scripts/dbgrbyd.py:43-100 | `tagrepr` as a category: an alt's key is the multiple of 8 just at or below the tag and its target is the 32-bit `off - size`; the fallback is never an alt or a crc and keeps `type1`; see also Tags.ClassifyAlt, ClassifyCrc and ClassifyWeak |
| Tags.ClassifyAlt | scripts/dbgrbyd.py:91-98 | `tagrepr` names a tag an alt exactly when the walks treat it as one |
| Tags.ClassifyCrc | scripts/dbgrbyd.py:82-86 | `tagrepr` names a tag a crc exactly when the walks compare a stored checksum for it |
| Tags.ClassifyWeak | scripts/dbgrbyd.py:47-81 | create, delete, struct, uattr, tail and gstate tags show their size exactly when not weak |
| Commit.Revision | scripts/dbgrbyd.py:124 | the revision is the zero-padded little-endian read of the first four bytes (a 32-bit value by Bits.LeU32) |
| Commit.Seed | scripts/dbgrbyd.py:125 | the running checksum starts as the CRC-32C of the first four bytes, clamped to the data |
| Commit.Stored | scripts/dbgrbyd.py:140 | the word a crc tag stores: the zero-padded little-endian read of the four bytes after its header |
| Commit.StepWith | scripts/dbgrbyd.py:129-145 | one step of the tag walk for the header read at the cursor: parity check, header fold, payload fold or stored comparison, next offset; its meaning is Commit.StepChecks and Commit.StepFolds |
| Commit.StepChecks | scripts/dbgrbyd.py:129-145 | a step checks parity against the running checksum, compares a stored word only for a crc tag, and advances over the header only for an alt, otherwise over header and payload |
| Commit.StepFolds | scripts/dbgrbyd.py:132-137 | the checksum after a step covers the header, plus the payload of a record; a crc tag compares the checksum of its header |
| Commit.StepProgress | scripts/dbgrbyd.py:129-133 | inside the data, every step advances |
| Commit.FoldTag | scripts/dbgrbyd.py:132-145 | the header fold, payload fold or stored comparison computes the step's checksum, its check and its next offset |
| Commit.FetchTag | scripts/dbgrbyd.py:129-145 | one pass of the `fetch` loop accepts the tag exactly when its parity and crc check pass, and then moves to the step's next offset and checksum |
| Commit.ValidateFrom | scripts/dbgrbyd.py:126-145 | the offset the `fetch` loop returns from a given cursor, checksum and last commit; Commit.ValidateGrows, TraceStops and CommittedOffsetIsCommit state what it is |
| Commit.CommittedOffset | scripts/dbgrbyd.py:123-147 | the offset `fetch` returns for a block: the loop started after the revision with the seed checksum and no commit; Commit.CommittedOffsetIsCommit and CommitChecksum state what it is |
| Commit.Fetch | scripts/dbgrbyd.py:123-147 | `fetch` returns the block's revision and committed offset |
| Commit.TraceSteps | scripts/dbgrbyd.py:128-145 | every tag `fetch` walks over is accepted and lies between the start and the block size |
| Commit.TraceLinked | scripts/dbgrbyd.py:132-145 | each tag starts where the previous one ended, with the checksum it left |
| Commit.TraceStops | scripts/dbgrbyd.py:128-142 | the walk ends at the block size or at the first tag whose parity or crc check fails |
| Commit.ValidateTrace | scripts/dbgrbyd.py:128-147 | the committed offset is the end of the last crc tag of the accepted walk, or 0 |
| Commit.LastCommitIsLast | scripts/dbgrbyd.py:144 | the last commit is either the initial offset with no commit at all, or the end of a committing tag with no later one |
| Commit.CommittedOffsetIsCommit | scripts/dbgrbyd.py:123-147 | every tag before the committed offset passed parity, and the offset is 0 with no commit, or the end of the last committing crc tag |
| Commit.ValidateGrows | scripts/dbgrbyd.py:126-144 | the committed offset never decreases, and moves only past the current position |
| Commit.CommitChecksum | scripts/dbgrbyd.py:125-144 | a committing crc tag stores the CRC-32C of the revision bytes, of every byte folded before it, and of its own header |
| Commit.CommitFacts | scripts/dbgrbyd.py:136-144 | a committing tag is a crc tag that passed parity, its stored word equals its header checksum, and it ends after its payload |
| Commit.SealMatches | scripts/dbgrbyd.py:140-141 | a committing crc tag's stored word is the checksum of its header, continued from the running checksum |
| Commit.ChainCrc | scripts/dbgrbyd.py:132-137 | along linked steps, the checksum before step k is that of everything the earlier steps folded |
| Commit.TraceCrc | scripts/dbgrbyd.py:125-137 | the running checksum before each accepted tag covers every byte folded before it |
| Select.Behind | scripts/dbgrbyd.py:157 | `(a - b) & 0x80000000` is set: the difference modulo 2^32 has its sign bit set, so `a` is behind `b` in serial-number order |
| Select.Moves | scripts/dbgrbyd.py:157 | the move condition of the selection loop: Behind as written, its negation when corrected; Select.PickOfTwo, AsWrittenPicksOlder and CorrectedPicksNewer state what it does |
| Select.Pick | scripts/dbgrbyd.py:149-158 | the pick is an index of the blocks seen, and 0 with none |
| Select.Revisions | scripts/dbgrbyd.py:153 | one revision per block, entry k being `fetch`'s revision of block k |
| Select.Offsets | scripts/dbgrbyd.py:154 | one committed offset per block, entry k being `fetch`'s committed offset of block k |
| Select.SelectBlock | scripts/dbgrbyd.py:149-158 | the loop records each block's revision and committed offset from `fetch`, and picks as the comparison says, an index of the blocks |
| Select.SelectNext | scripts/dbgrbyd.py:152-158 | one pass appends the block's results and moves the pick only to a committed block that compares against the current pick |
| Select.PickStep | scripts/dbgrbyd.py:157-158 | one more block either takes the pick or leaves it where it was |
| Select.PickMoved | scripts/dbgrbyd.py:157-158 | the pick is block 0, or a committed block whose revision compared against the pick before it |
| Select.PickStays | scripts/dbgrbyd.py:150-158 | with no committed block after the first, block 0 stays picked, even without a commit of its own |
| Select.PickFinal | scripts/dbgrbyd.py:151-158 | no committed block after the pick would have moved it |
| Select.PickOfTwo | scripts/dbgrbyd.py:151-158 | of two blocks, the second is picked exactly when it has a commit and compares against the first |
| Select.AsWrittenPicksOlder | scripts/dbgrbyd.py:157 | as written, committed revisions 3 then 2 pick the older second block, and 2 then 3 keep the older first one |
| Select.CorrectedPicksNewer | scripts/dbgrbyd.py:157 | corrected, a committed second block is picked exactly when the first is not ahead of it, so the next revision modulo 2^32 wins |
| Walk.NextRun | scripts/dbgrbyd.py:323-327 | the pending alt run after a tag: the run plus the tag for an alt, empty otherwise; Walk.RunsAreMaximal states what it yields |
| Walk.WalkFrom | scripts/dbgrbyd.py:239-258 | the rows the display loop shows from a cursor up to the bound, where it stops and whether it runs past the data; Walk.WalkEnds, WalkToCommit and DisplayAgrees state what it is |
| Walk.Display | scripts/dbgrbyd.py:239-258 | the display walk of a block: from offset 4, with the checksum of the revision bytes (:172) and no pending alts |
| Walk.Notes | scripts/dbgrbyd.py:245-257 | a tag gets no note exactly when `fetch` would accept it, and at most a parity and a crc note |
| Walk.WalkTag | scripts/dbgrbyd.py:241-258 | one pass of the display loop gives the step's notes, next offset and checksum |
| Walk.WalkNext | scripts/dbgrbyd.py:240-258 | one pass shows the tag at the cursor, moves forward, and leaves the rest of the walk as specified |
| Walk.DisplayWalk | scripts/dbgrbyd.py:239-258 | the display loop shows exactly the rows of the walk to the bound, and says whether it ran past the data |
| Walk.WalkEnds | scripts/dbgrbyd.py:240-258 | a walk whose bound lies within the data ends, at or past the bound |
| Walk.WalkToCommit | scripts/dbgrbyd.py:240-258 | walking from any point of `fetch`'s walk to the commit it reaches shows no note and lands exactly on that offset |
| Walk.DisplayAgrees | scripts/dbgrbyd.py:240-258 | the display walk to the committed offset attaches no parity or crc note to any tag and lands exactly on the committed offset |
| Walk.WalkStepWith | scripts/dbgrbyd.py:243-258 | the row shown for the tag at the cursor is the step `fetch` takes there, and the cursor moves forward |
| Walk.WalkRuns | scripts/dbgrbyd.py:238 | each row's pending run is the previous run plus the previous tag if it was an alt, and empty otherwise |
| Walk.RunsAreMaximal | scripts/dbgrbyd.py:323-327 | the pending run in front of a row is exactly the maximal run of alt tags just before it |
| Walk.AltColour | scripts/dbgrbyd.py:187-194 | an alt is `b` exactly when bit 0 is clear, and `y` exactly when bit 0 of it and of the tag after it are set |
| Walk.MarginOf | scripts/dbgrbyd.py:283-291 | the margin letters for the first `n` alts of the run, one letter per alt |
| Walk.Margin | scripts/dbgrbyd.py:283-291 | the margin for the whole run has one letter per alt; what each letter is, is Walk.MarginColours |
| Walk.MarginColours | scripts/dbgrbyd.py:283-291 | position p of the margin shows alt `len - 1 - p` as `b`, `y` or `r` by bit 0 of it and of the next alt in the run |
| Walk.RowMargin | scripts/dbgrbyd.py:282-292 | the margin is printed exactly for a row without notes whose tag has its low three bits clear |
| Jumps.Advance | scripts/dbgrbyd.py:182-185 | the jump walk moves over the header, and over the payload unless the tag is an alt |
| Jumps.ArcOf | scripts/dbgrbyd.py:186-196 | the jump of an alt at `j`: from `j` back to `j - size`, lane 0, coloured by the alt and the tag read right after its header |
| Jumps.JumpsFrom | scripts/dbgrbyd.py:177-196 | the jumps collected from a cursor up to the bound, and whether the walk runs past the data; Jumps.JumpsMatchWalk states what it is |
| Jumps.JumpsStep | scripts/dbgrbyd.py:181-196 | the jump walk steps over the tag at the cursor, adds its jump if it is an alt, and moves forward |
| Jumps.CollectJumps | scripts/dbgrbyd.py:177-196 | the loop collects exactly the jumps of the walk to the bound, and says whether it ran past the data |
| Jumps.CollectNext | scripts/dbgrbyd.py:181-196 | one pass adds the alt's jump, or nothing, and moves forward |
| Jumps.ColourAt | scripts/dbgrbyd.py:187-194 | the lookahead reads the tag after the alt and colours the jump by bit 0 of both |
| Jumps.JumpsMatchWalk | scripts/dbgrbyd.py:177-196 | the jump walk has one jump per alt row of the display walk, in order, and runs past the data exactly when the display walk does |
| Jumps.Overlap | scripts/dbgrbyd.py:203-204 | two jumps overlap when each one's highest offset reaches the other's lowest, as `max(a, b) >= min(a_, b_) and max(a_, b_) >= min(a, b)` |
| Jumps.Taken | scripts/dbgrbyd.py:202-206 | the `any(...)`: some earlier jump overlaps this one and uses lane `x` |
| Jumps.LeastFree | scripts/dbgrbyd.py:202-207 | the lane is the least one from the start that no earlier overlapping jump uses, and at most the number of earlier jumps |
| Jumps.Lanes | scripts/dbgrbyd.py:199-208 | lane assignment keeps every jump's endpoints and colour, and gives jump k a lane at most k |
| Jumps.LanesSound | scripts/dbgrbyd.py:199-208 | overlapping jumps never share a lane, and every lane below a jump's own is used by an earlier jump it overlaps |
| Jumps.TakenIgnoresLane | scripts/dbgrbyd.py:202-205 | whether a lane is taken does not depend on the lane the jump already carries |
| Jumps.AssignLanes | scripts/dbgrbyd.py:199-208 | the in-place loop leaves the array holding the assigned lanes |
| Jumps.LaneFor | scripts/dbgrbyd.py:201-207 | the `while any(...)` loop stops at the least free lane |
| Jumps.PreprocessJumps | scripts/dbgrbyd.py:176-208 | the jumps preprocessed are the collected jumps with their lanes assigned |

## Left out

- Reading the blocks from the disk (scripts/dbgrbyd.py:114-120): the model takes the blocks' bytes as input.
- Argument parsing and exit codes (scripts/dbgrbyd.py:330-387), and choosing the colour mode with `isatty` (scripts/dbgrbyd.py:106-112).
- All printing and terminal escapes, which are presentation:
  - the header lines (scripts/dbgrbyd.py:160-173);
  - the `xxd` hex dump (scripts/dbgrbyd.py:33-41, :260-268);
  - the truncated payload column (scripts/dbgrbyd.py:277-280);
  - the device view (scripts/dbgrbyd.py:296-311);
  - `jumprepr` (scripts/dbgrbyd.py:210-234);
  - `tagrepr`'s strings (modelled as the `Tags.TagView` category it prints).
- The `in_tree` and `raw` filters on which rows are printed (scripts/dbgrbyd.py:260, :270): the display walk models every tag.
- The `'-%d' % off` branch of `tagrepr` (scripts/dbgrbyd.py:98): every caller passes an offset, so the alt target is always computed.
- The unused imports (scripts/dbgrbyd.py:3-4).
- The `rbyd` flag (scripts/dbgrbyd.py:237, :323): the pending alt run is modelled for every walk; the flag only decides whether it is kept and printed.
- The `jumps` and `all` flags choose what runs and which bound is used. The bound is a parameter of the walks.
- Commit.Fetch: `requires blockSize <= |data|` excludes every buffer shorter than the block size, such as the short block `f.read(block_size)` returns at the end of the disk image (scripts/dbgrbyd.py:120). On such a buffer the source's cursor can pass the data. There `fromtag` of no bytes reads parity 0, so `fetch` stops with a result when the running checksum has odd parity, and loops forever when it has even parity. The model says nothing about either outcome.
- Walk.DisplayWalk: where the source loop would spin forever, with its cursor past the data and below the bound, the method stops and reports `spins`. Walk.WalkEnds and Walk.DisplayAgrees prove that this never happens with a bound inside the data or at the committed offset.
- Jumps.CollectJumps: stops and reports `spins` in the same way; Jumps.JumpsMatchWalk proves that it does so exactly when the display walk does.
- Castagnoli.Crc32c: no lemma evaluates the standard check value (the CRC-32C of "123456789"). The checksum is proved only through its algebraic properties, since evaluating 32-bit exclusive-or on integers is far beyond what the verifier can do by computation.
- Walk.DisplayAgrees: states that the rows carry no notes and that the walk lands on the committed offset. The rows are the same tags `fetch` walks over, but the model does not state that row by row.
- Select.SelectBlock: when no block has a commit, the selection keeps block 0 and goes on to show it with committed offset 0. The code has no other outcome for that case, and the model follows it (Select.PickStays).

## Findings

| source | as written | input that shows it | evidently intended | confidence | as-written member | corrected member |
|---|---|---|---|---|---|---|
| scripts/dbgrbyd.py:157 | the pick moves to a later committed block when `(rev - revs[i]) & 0x80000000` is set, that is when the later block's revision is behind the current pick modulo 2^32 | two committed blocks with revisions 3 then 2: the second block (revision 2) is picked; revisions 2 then 3 keep the first block (revision 2) | move when the sign bit is clear, so that the block with the newer revision wins. The comment at scripts/dbgrbyd.py:122 says the loop finds the block with "the most recent revision", and the comment at :156 calls the test sequence arithmetic. In serial-number arithmetic (section 3.2 of RFC 1982) a set sign bit in `rev - revs[i]` means `rev` is behind `revs[i]`, so the test as written moves to the older block | not executed | Select.AsWrittenPicksOlder | Select.CorrectedPicksNewer |

The selection methods are parameterised by `Select.Order`. `AsWritten` is the comparison on line 157, and the model's other lemmas hold for both orders. `Corrected` is the evidently intended one.
