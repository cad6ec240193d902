/**
 * Reading an RT-11 volume directory: the disk image as a sequence of blocks,
 * the two-block directory segments, and the walk along the chain of segments
 * from segment 1 that lists every entry with its start block.
 */
module Directory {
  import opened Wrappers
  import opened Words
  import Rad50

  const BLOCK_WORDS: nat := 256

  /** One 512-byte block, as 256 little-endian words. */
  type Block = s: seq<Word> | |s| == BLOCK_WORDS witness seq(BLOCK_WORDS, _ => 0)

  /**
   * A disk image. Its block count is the image size in whole blocks, and a
   * block read fails exactly for a block at or past the end.
   */
  datatype Volume = Volume(blocks: seq<Block>)

  const HOME_BLOCK: nat := 1
  const HOME_FIRST_DIR_WORD: nat := 234
  const DEFAULT_FIRST_DIR_BLOCK: nat := 6
  const MAX_SEGMENTS: nat := 31

  datatype ReadError = BlockUnreadable(block: nat) | FirstBlockOutOfRange

  /** getFirstDirectoryBlock: word 234 of the home block, 6 when that word is 0. */
  function FirstDirectoryBlock(v: Volume): (r: Result<nat, ReadError>)
    ensures r.Ok? <==> HOME_BLOCK < |v.blocks|
    ensures r.Ok? ==> r.value >= 1
    ensures r.Ok? ==> r.value == (if v.blocks[HOME_BLOCK][HOME_FIRST_DIR_WORD] == 0 then DEFAULT_FIRST_DIR_BLOCK else v.blocks[HOME_BLOCK][HOME_FIRST_DIR_WORD])
    ensures r.Err? ==> r.error == BlockUnreadable(HOME_BLOCK)
  {
    if HOME_BLOCK >= |v.blocks| then Err(BlockUnreadable(HOME_BLOCK))
    else
      var w := v.blocks[HOME_BLOCK][HOME_FIRST_DIR_WORD];
      Ok(if w == 0 then DEFAULT_FIRST_DIR_BLOCK else w)
  }

  /** Reads the two blocks of a segment as 512 words; the error names the block that failed. */
  function ReadSegment(v: Volume, block: nat): (r: Result<seq<Word>, ReadError>)
    ensures r.Ok? <==> block + 1 < |v.blocks|
    ensures r.Ok? ==>
      |r.value| == SEGMENT_WORDS && r.value[..BLOCK_WORDS] == v.blocks[block] && r.value[BLOCK_WORDS..] == v.blocks[block + 1]
    ensures r.Err? ==> r.error == BlockUnreadable(if block < |v.blocks| then block + 1 else block)
  {
    if block >= |v.blocks| then Err(BlockUnreadable(block))
    else if block + 1 >= |v.blocks| then Err(BlockUnreadable(block + 1))
    else Ok(SegmentWordsAt(v, block))
  }

  /** Writes 512 words back as the two blocks of a segment; nothing else changes. */
  function WriteSegment(v: Volume, block: nat, words: seq<Word>): (v': Volume)
    requires block + 1 < |v.blocks| && |words| == SEGMENT_WORDS
    ensures |v'.blocks| == |v.blocks|
    ensures ReadSegment(v', block) == Ok(words) && SegmentWordsAt(v', block) == words
    ensures forall b :: 0 <= b < |v.blocks| && b != block && b != block + 1 ==> v'.blocks[b] == v.blocks[b]
  {
    var lo: Block := words[..BLOCK_WORDS];
    var hi: Block := words[BLOCK_WORDS..];
    var v' := Volume(v.blocks[block := lo][block + 1 := hi]);
    assert SegmentWordsAt(v', block) == words;
    v'
  }

  /** totalSegments as the reader uses it: 0 or more than 31 counts as 1. */
  function ClampSegments(n: Word): (ts: nat)
    ensures 1 <= ts <= MAX_SEGMENTS
    ensures 1 <= n <= MAX_SEGMENTS ==> ts == n
    ensures (n == 0 || n > MAX_SEGMENTS) ==> ts == 1
  {
    if n == 0 || n > MAX_SEGMENTS then 1 else n
  }

  /**
   * One decoded directory entry (its flags are tests on the status word).
   * The three RAD50 name words are kept as read; `Name` gives the text.
   */
  datatype Entry = Entry(
    nameWords: NameWords,
    startBlock: Word,
    lengthBlocks: Word,
    status: Word,
    dateWord: Word,
    segNumber: nat,
    wordIndex: nat)

  datatype NameWords = NameWords(name1: Word, name2: Word, ext: Word)

  /** The entry's file name as text, NAME.EXT or NAME. */
  function Name(e: Entry): string
  {
    Rad50.DecodeFileName(e.nameWords.name1, e.nameWords.name2, e.nameWords.ext)
  }

  predicate Tentative(e: Entry) { HasBit(e.status, E_TENT) }
  predicate Empty(e: Entry) { HasBit(e.status, E_MPTY) }
  predicate Permanent(e: Entry) { HasBit(e.status, E_PERM) }

  /** The low 16 bits of a count: a cast to uint16_t. */
  function Low16(x: nat): Word
  {
    x % 0x10000
  }

  /** Sum of the lengths of a run of entries. */
  function SumLengths(es: seq<Entry>): nat
  {
    if es == [] then 0 else es[0].lengthBlocks + SumLengths(es[1..])
  }

  lemma {:induction false} SumLengthsAppend(a: seq<Entry>, b: seq<Entry>)
    ensures SumLengths(a + b) == SumLengths(a) + SumLengths(b)
    decreases |a|
  {
    if a != [] {
      assert (a + b)[1..] == a[1..] + b;
      SumLengthsAppend(a[1..], b);
    } else {
      assert a + b == b;
    }
  }

  /**
   * Start blocks run on from `base`: the first entry starts at `base` and
   * each next one where the one before it ends, all cut to 16 bits.
   */
  predicate StartsRunFrom(es: seq<Entry>, base: nat)
  {
    es == [] || (es[0].startBlock == Low16(base) && StartsRunFrom(es[1..], base + es[0].lengthBlocks))
  }

  /** In closed form: entry j starts at `base` plus the lengths of the entries before it. */
  lemma {:induction false} StartAt(es: seq<Entry>, base: nat, j: nat)
    requires StartsRunFrom(es, base) && j < |es|
    ensures es[j].startBlock == Low16(base + SumLengths(es[..j]))
  {
    if j > 0 {
      StartAt(es[1..], base + es[0].lengthBlocks, j - 1);
      assert es[..j][1..] == es[1..][..j - 1];
    } else {
      assert es[..0] == [];
    }
  }

  lemma {:induction false} StartsRunConcat(a: seq<Entry>, b: seq<Entry>, base: nat)
    requires StartsRunFrom(a, base) && StartsRunFrom(b, base + SumLengths(a))
    ensures StartsRunFrom(a + b, base)
    decreases |a|
  {
    if a != [] {
      assert (a + b)[1..] == a[1..] + b;
      assert (a + b)[0] == a[0];
      StartsRunConcat(a[1..], b, base + a[0].lengthBlocks);
    } else {
      assert a + b == b;
    }
  }

  /**
   * The entries of one segment from word `idx` on. The start block is the
   * data start block plus the running offset, cut to 16 bits; the offset
   * itself is a 32-bit counter in the reader, and since 2^16 divides 2^32
   * the 16-bit result is the same as with an unbounded offset.
   */
  function DecodeEntries(words: seq<Word>, ew: nat, idx: nat, seg: nat, dsb: nat, offset: nat): (es: seq<Entry>)
    requires |words| == SEGMENT_WORDS && ew >= 7
    decreases SEGMENT_WORDS - idx
  {
    if EndsEntries(words, ew, idx) then []
    else [SlotEntry(words, idx, seg, dsb, offset)] + DecodeEntries(words, ew, idx + ew, seg, dsb, offset + words[idx + 4])
  }

  /** The entry read from the slot at word `idx`, starting `offset` blocks after the data start block. */
  function SlotEntry(words: seq<Word>, idx: nat, seg: nat, dsb: nat, offset: nat): Entry
    requires idx + 7 <= |words|
  {
    Entry(
      NameWords(words[idx + 1], words[idx + 2], words[idx + 3]),
      Low16(dsb + offset),
      words[idx + 4],
      words[idx],
      words[idx + 6],
      seg,
      idx)
  }

  /** Entry `e` is the one stored in the slot at word `p` of segment `seg`. */
  predicate EntryDecodedAt(words: seq<Word>, e: Entry, p: nat, seg: nat)
    requires |words| == SEGMENT_WORDS
  {
    p + 7 <= SEGMENT_WORDS
    && e.wordIndex == p && e.segNumber == seg
    && e.status == words[p] && e.lengthBlocks == words[p + 4] && e.dateWord == words[p + 6]
    && e.nameWords == NameWords(words[p + 1], words[p + 2], words[p + 3])
    && !HasBit(e.status, E_EOS) && e.status != 0
  }

  /**
   * The entries decoded from word `idx` on are the slots the scan passes,
   * one per entry position, each read from its own seven words.
   */
  lemma DecodeAtPositions(words: seq<Word>, ew: nat, idx: nat, seg: nat, dsb: nat, offset: nat)
    requires |words| == SEGMENT_WORDS && ew >= 7
    ensures var es := DecodeEntries(words, ew, idx, seg, dsb, offset);
      var ps := EntryPositions(words, ew, idx);
      |es| == |ps| && forall j :: 0 <= j < |es| ==> EntryDecodedAt(words, es[j], ps[j], seg)
  {
    DecodeLength(words, ew, idx, seg, dsb, offset);
    var es := DecodeEntries(words, ew, idx, seg, dsb, offset);
    var ps := EntryPositions(words, ew, idx);
    forall j | 0 <= j < |es| ensures EntryDecodedAt(words, es[j], ps[j], seg) {
      DecodedAt(words, ew, idx, seg, dsb, offset, j);
    }
  }

  /** One entry decoded per entry position. */
  lemma {:induction false} DecodeLength(words: seq<Word>, ew: nat, idx: nat, seg: nat, dsb: nat, offset: nat)
    requires |words| == SEGMENT_WORDS && ew >= 7
    ensures |DecodeEntries(words, ew, idx, seg, dsb, offset)| == |EntryPositions(words, ew, idx)|
    decreases SEGMENT_WORDS - idx
  {
    if !EndsEntries(words, ew, idx) {
      DecodeLength(words, ew, idx + ew, seg, dsb, offset + words[idx + 4]);
      PositionsCons(words, ew, idx);
      DecodeCons(words, ew, idx, seg, dsb, offset);
    } else {
      PositionsNil(words, ew, idx);
    }
  }

  lemma DecodeCons(words: seq<Word>, ew: nat, idx: nat, seg: nat, dsb: nat, offset: nat)
    requires |words| == SEGMENT_WORDS && ew >= 7 && !EndsEntries(words, ew, idx)
    ensures |DecodeEntries(words, ew, idx, seg, dsb, offset)|
      == 1 + |DecodeEntries(words, ew, idx + ew, seg, dsb, offset + words[idx + 4])|
  {
  }

  /** The j-th decoded entry is read from the slot at the j-th entry position. */
  lemma {:induction false} DecodedAt(words: seq<Word>, ew: nat, idx: nat, seg: nat, dsb: nat, offset: nat, j: nat)
    requires |words| == SEGMENT_WORDS && ew >= 7
    requires j < |DecodeEntries(words, ew, idx, seg, dsb, offset)|
    ensures j < |EntryPositions(words, ew, idx)|
    ensures EntryDecodedAt(words, DecodeEntries(words, ew, idx, seg, dsb, offset)[j], EntryPositions(words, ew, idx)[j], seg)
    decreases j
  {
    DecodeLength(words, ew, idx, seg, dsb, offset);
    PositionsCons(words, ew, idx);
    if j > 0 {
      DecodedAt(words, ew, idx + ew, seg, dsb, offset + words[idx + 4], j - 1);
    }
  }

  /** Each entry starts where the entries before it in the segment end. */
  lemma {:induction false} DecodeStartBlocks(words: seq<Word>, ew: nat, idx: nat, seg: nat, dsb: nat, offset: nat)
    requires |words| == SEGMENT_WORDS && ew >= 7
    ensures StartsRunFrom(DecodeEntries(words, ew, idx, seg, dsb, offset), dsb + offset)
    decreases SEGMENT_WORDS - idx
  {
    if !EndsEntries(words, ew, idx) {
      var es := DecodeEntries(words, ew, idx, seg, dsb, offset);
      var rest := DecodeEntries(words, ew, idx + ew, seg, dsb, offset + words[idx + 4]);
      assert es[1..] == rest;
      DecodeStartBlocks(words, ew, idx + ew, seg, dsb, offset + words[idx + 4]);
    }
  }

  // ---------------------------------------------------------------
  // The chain walk
  // ---------------------------------------------------------------

  datatype StopReason = EndOfChain | InvalidSegment(seg: nat) | LoopDetected(seg: nat) | BeyondVolume(seg: nat)

  /** What the reader produces: the entries in chain order, the segments it decoded, and why it stopped. */
  datatype Listing = Listing(entries: seq<Entry>, chain: seq<nat>, stop: StopReason)

  /** How many of the segment numbers 1..n are not in `visited`. */
  function Unvisited(n: nat, visited: set<nat>): nat
  {
    if n == 0 then 0 else Unvisited(n - 1, visited) + (if n in visited then 0 else 1)
  }

  lemma {:induction false} VisitShrinks(n: nat, visited: set<nat>, cur: nat)
    requires 1 <= cur <= n && cur !in visited
    ensures Unvisited(n, visited + {cur}) < Unvisited(n, visited)
  {
    if cur < n {
      VisitShrinks(n - 1, visited, cur);
    } else {
      UnvisitedBelow(n - 1, visited, cur);
    }
  }

  lemma {:induction false} UnvisitedBelow(n: nat, visited: set<nat>, cur: nat)
    requires n < cur
    ensures Unvisited(n, visited + {cur}) == Unvisited(n, visited)
  {
    if n > 0 {
      UnvisitedBelow(n - 1, visited, cur);
    }
  }

  /** Width of the entry slots of a segment, from its header. */
  function SlotWords(words: seq<Word>): (ew: nat)
    requires |words| >= FIRST_ENTRY
    ensures ew >= 7
  {
    EntryWords(ParseSegmentHeader(words).extraBytes)
  }

  /** The words of a segment that lies inside the image. */
  function SegmentWordsAt(v: Volume, block: nat): (words: seq<Word>)
    requires block + 1 < |v.blocks|
    ensures |words| == SEGMENT_WORDS
  {
    var lo: seq<Word> := v.blocks[block];
    var hi: seq<Word> := v.blocks[block + 1];
    lo + hi
  }

  function Prepend(es: seq<Entry>, segs: seq<nat>, l: Listing): Listing
  {
    Listing(es + l.entries, segs + l.chain, l.stop)
  }

  lemma PrependTwice(es1: seq<Entry>, segs1: seq<nat>, es2: seq<Entry>, segs2: seq<nat>, l: Listing)
    ensures Prepend(es1, segs1, Prepend(es2, segs2, l)) == Prepend(es1 + es2, segs1 + segs2, l)
  {
    assert es1 + (es2 + l.entries) == (es1 + es2) + l.entries;
    assert segs1 + (segs2 + l.chain) == (segs1 + segs2) + l.chain;
  }

  /**
   * The walk from segment `cur` on, with the segments in `visited` already
   * decoded and `offset` blocks of entries already counted. It stops at a
   * zero link, a link outside 1..ts, a segment seen before, or a segment
   * whose second block is not inside the volume.
   */
  function Walk(v: Volume, fdb: nat, ts: nat, dsb: nat, cur: nat, visited: set<nat>, offset: nat): (l: Listing)
    decreases Unvisited(ts, visited)
  {
    if cur == 0 then Listing([], [], EndOfChain)
    else if cur < 1 || cur > ts then Listing([], [], InvalidSegment(cur))
    else if cur in visited then Listing([], [], LoopDetected(cur))
    else
      var segBlock := SegmentBlock(fdb, cur);
      if segBlock + 1 >= |v.blocks| then Listing([], [], BeyondVolume(cur))
      else
        var es := SegmentEntries(v, fdb, cur, dsb, offset);
        VisitShrinks(ts, visited, cur);
        var rest := Walk(v, fdb, ts, dsb, NextLink(v, fdb, cur), visited + {cur}, offset + SumLengths(es));
        Prepend(es, [cur], rest)
  }

  /** The entries of segment `cur`, decoded with its own slot width, starting `offset` blocks on. */
  function SegmentEntries(v: Volume, fdb: nat, cur: nat, dsb: nat, offset: nat): seq<Entry>
    requires cur >= 1 && SegmentBlock(fdb, cur) + 1 < |v.blocks|
  {
    var words := SegmentWordsAt(v, SegmentBlock(fdb, cur));
    DecodeEntries(words, SlotWords(words), FIRST_ENTRY, cur, dsb, offset)
  }

  /** One step of the walk: a segment inside the volume, not yet visited, is decoded and the walk goes on at its link. */
  lemma WalkStep(v: Volume, fdb: nat, ts: nat, dsb: nat, cur: nat, visited: set<nat>, offset: nat)
    requires 1 <= cur <= ts && cur !in visited && SegmentBlock(fdb, cur) + 1 < |v.blocks|
    ensures var es := SegmentEntries(v, fdb, cur, dsb, offset);
      Walk(v, fdb, ts, dsb, cur, visited, offset)
        == Prepend(es, [cur], Walk(v, fdb, ts, dsb, NextLink(v, fdb, cur), visited + {cur}, offset + SumLengths(es)))
  {
  }

  /** Where the walk stops at once: a zero link, a link out of range, a repeat, or a segment past the end of the volume. */
  lemma WalkStops(v: Volume, fdb: nat, ts: nat, dsb: nat, cur: nat, visited: set<nat>, offset: nat, stop: StopReason)
    requires
      || (cur == 0 && stop == EndOfChain)
      || (cur != 0 && (cur < 1 || cur > ts) && stop == InvalidSegment(cur))
      || (1 <= cur <= ts && cur in visited && stop == LoopDetected(cur))
      || (1 <= cur <= ts && cur !in visited && SegmentBlock(fdb, cur) + 1 >= |v.blocks| && stop == BeyondVolume(cur))
    ensures Walk(v, fdb, ts, dsb, cur, visited, offset) == Listing([], [], stop)
  {
  }

  /** The link word of a segment inside the volume. */
  function NextLink(v: Volume, fdb: nat, seg: nat): Word
    requires seg >= 1 && SegmentBlock(fdb, seg) + 1 < |v.blocks|
  {
    ParseSegmentHeader(SegmentWordsAt(v, SegmentBlock(fdb, seg))).nextSegment
  }

  /** The segments the walk decodes are numbered 1..ts, were not visited before, and lie inside the volume. */
  lemma {:induction false} WalkChainInRange(v: Volume, fdb: nat, ts: nat, dsb: nat, cur: nat, visited: set<nat>, offset: nat)
    ensures var l := Walk(v, fdb, ts, dsb, cur, visited, offset);
      forall i :: 0 <= i < |l.chain| ==>
        1 <= l.chain[i] <= ts && l.chain[i] !in visited && SegmentBlock(fdb, l.chain[i]) + 1 < |v.blocks|
    decreases Unvisited(ts, visited)
  {
    var l := Walk(v, fdb, ts, dsb, cur, visited, offset);
    if 1 <= cur <= ts && cur !in visited && SegmentBlock(fdb, cur) + 1 < |v.blocks| {
      var next, offset' := WalkStepParts(v, fdb, ts, dsb, cur, visited, offset);
      WalkChainInRange(v, fdb, ts, dsb, next, visited + {cur}, offset');
    } else {
      WalkStopsEarly(v, fdb, ts, dsb, cur, visited, offset);
    }
  }

  /** The walk never decodes a segment twice. */
  lemma {:induction false} WalkChainDistinct(v: Volume, fdb: nat, ts: nat, dsb: nat, cur: nat, visited: set<nat>, offset: nat)
    ensures var l := Walk(v, fdb, ts, dsb, cur, visited, offset);
      forall i, k :: 0 <= i < k < |l.chain| ==> l.chain[i] != l.chain[k]
    decreases Unvisited(ts, visited)
  {
    var l := Walk(v, fdb, ts, dsb, cur, visited, offset);
    if 1 <= cur <= ts && cur !in visited && SegmentBlock(fdb, cur) + 1 < |v.blocks| {
      var next, offset' := WalkStepParts(v, fdb, ts, dsb, cur, visited, offset);
      WalkChainDistinct(v, fdb, ts, dsb, next, visited + {cur}, offset');
      WalkChainInRange(v, fdb, ts, dsb, next, visited + {cur}, offset');
      var rest := Walk(v, fdb, ts, dsb, next, visited + {cur}, offset');
      forall i, k | 0 <= i < k < |l.chain| ensures l.chain[i] != l.chain[k] {
        assert l.chain[k] == rest.chain[k - 1];
        if i > 0 {
          assert l.chain[i] == rest.chain[i - 1];
        }
      }
    } else {
      WalkStopsEarly(v, fdb, ts, dsb, cur, visited, offset);
    }
  }

  /** The walk starts at `cur` and goes from each segment to the one its link word names. */
  lemma {:induction false} WalkChainLinked(v: Volume, fdb: nat, ts: nat, dsb: nat, cur: nat, visited: set<nat>, offset: nat)
    ensures var l := Walk(v, fdb, ts, dsb, cur, visited, offset);
      (|l.chain| > 0 ==> l.chain[0] == cur)
      && forall i :: 0 <= i < |l.chain| - 1 ==>
        1 <= l.chain[i] && SegmentBlock(fdb, l.chain[i]) + 1 < |v.blocks| && l.chain[i + 1] == NextLink(v, fdb, l.chain[i])
    decreases Unvisited(ts, visited)
  {
    var l := Walk(v, fdb, ts, dsb, cur, visited, offset);
    if 1 <= cur <= ts && cur !in visited && SegmentBlock(fdb, cur) + 1 < |v.blocks| {
      var next, offset' := WalkStepParts(v, fdb, ts, dsb, cur, visited, offset);
      WalkChainLinked(v, fdb, ts, dsb, next, visited + {cur}, offset');
      WalkChainInRange(v, fdb, ts, dsb, next, visited + {cur}, offset');
      var rest := Walk(v, fdb, ts, dsb, next, visited + {cur}, offset');
      forall i | 0 < i < |l.chain| - 1
        ensures 1 <= l.chain[i] && SegmentBlock(fdb, l.chain[i]) + 1 < |v.blocks| && l.chain[i + 1] == NextLink(v, fdb, l.chain[i])
      {
        assert l.chain[i] == rest.chain[i - 1] && l.chain[i + 1] == rest.chain[i];
      }
    } else {
      WalkStopsEarly(v, fdb, ts, dsb, cur, visited, offset);
    }
  }

  /**
   * The decoding step named by its parts: the walk from `cur` is the
   * segment's own entries and `cur`, then the walk from the link word with
   * `cur` visited and the segment's lengths added to the offset.
   */
  lemma WalkStepParts(v: Volume, fdb: nat, ts: nat, dsb: nat, cur: nat, visited: set<nat>, offset: nat)
    returns (next: Word, offset': nat)
    requires 1 <= cur <= ts && cur !in visited && SegmentBlock(fdb, cur) + 1 < |v.blocks|
    ensures next == NextLink(v, fdb, cur)
    ensures Unvisited(ts, visited + {cur}) < Unvisited(ts, visited)
    ensures offset' == offset + SumLengths(SegmentEntries(v, fdb, cur, dsb, offset))
    ensures Walk(v, fdb, ts, dsb, cur, visited, offset)
      == Prepend(SegmentEntries(v, fdb, cur, dsb, offset), [cur], Walk(v, fdb, ts, dsb, next, visited + {cur}, offset'))
  {
    WalkStep(v, fdb, ts, dsb, cur, visited, offset);
    VisitShrinks(ts, visited, cur);
    next := NextLink(v, fdb, cur);
    offset' := offset + SumLengths(SegmentEntries(v, fdb, cur, dsb, offset));
  }

  /**
   * The link the walk stopped at: `cur` when nothing was decoded, else the
   * last decoded segment's link (decoded segments lie inside the volume, by
   * WalkChainInRange; the 0 is never used).
   */
  function StopLink(v: Volume, fdb: nat, cur: nat, chain: seq<nat>): nat
  {
    if chain == [] then cur
    else
      var last := chain[|chain| - 1];
      if last >= 1 && SegmentBlock(fdb, last) + 1 < |v.blocks| then NextLink(v, fdb, last) else 0
  }

  /**
   * Why the walk stopped, in terms of the link it stopped at: a zero link
   * ends the chain, a link above ts is invalid, a link to a segment already
   * visited (before or on this walk) is a loop, and otherwise the segment
   * lies past the end of the volume.
   */
  lemma {:induction false} WalkStopReason(v: Volume, fdb: nat, ts: nat, dsb: nat, cur: nat, visited: set<nat>, offset: nat)
    ensures var l := Walk(v, fdb, ts, dsb, cur, visited, offset);
      var s := StopLink(v, fdb, cur, l.chain);
      match l.stop
      case EndOfChain => s == 0
      case InvalidSegment(t) => t == s && s > ts
      case LoopDetected(t) => t == s && 1 <= s <= ts && (s in visited || s in l.chain)
      case BeyondVolume(t) =>
        t == s && 1 <= s <= ts && s !in visited && s !in l.chain && SegmentBlock(fdb, s) + 1 >= |v.blocks|
    decreases Unvisited(ts, visited)
  {
    var l := Walk(v, fdb, ts, dsb, cur, visited, offset);
    WalkChainInRange(v, fdb, ts, dsb, cur, visited, offset);
    if 1 <= cur <= ts && cur !in visited && SegmentBlock(fdb, cur) + 1 < |v.blocks| {
      var next, offset' := WalkStepParts(v, fdb, ts, dsb, cur, visited, offset);
      WalkStopReason(v, fdb, ts, dsb, next, visited + {cur}, offset');
      WalkChainInRange(v, fdb, ts, dsb, next, visited + {cur}, offset');
      var rest := Walk(v, fdb, ts, dsb, next, visited + {cur}, offset');
      assert l.chain == [cur] + rest.chain && l.stop == rest.stop;
      assert StopLink(v, fdb, cur, l.chain) == StopLink(v, fdb, next, rest.chain);
      assert forall t :: t in visited + {cur} || t in rest.chain <==> t in visited || t in l.chain;
    } else {
      WalkStopsEarly(v, fdb, ts, dsb, cur, visited, offset);
    }
  }

  /**
   * Start blocks run on across segment boundaries: every listed entry starts
   * at the data start block plus the offset so far plus the lengths of all
   * entries listed before it, cut to 16 bits.
   */
  lemma {:induction false} WalkStartBlocks(v: Volume, fdb: nat, ts: nat, dsb: nat, cur: nat, visited: set<nat>, offset: nat)
    ensures StartsRunFrom(Walk(v, fdb, ts, dsb, cur, visited, offset).entries, dsb + offset)
    decreases Unvisited(ts, visited)
  {
    if 1 <= cur <= ts && cur !in visited && SegmentBlock(fdb, cur) + 1 < |v.blocks| {
      var next, offset' := WalkStepParts(v, fdb, ts, dsb, cur, visited, offset);
      var words := SegmentWordsAt(v, SegmentBlock(fdb, cur));
      var seg := DecodeEntries(words, EntryWords(ParseSegmentHeader(words).extraBytes), FIRST_ENTRY, cur, dsb, offset);
      var rest := Walk(v, fdb, ts, dsb, next, visited + {cur}, offset').entries;
      DecodeStartBlocks(words, EntryWords(ParseSegmentHeader(words).extraBytes), FIRST_ENTRY, cur, dsb, offset);
      WalkStartBlocks(v, fdb, ts, dsb, next, visited + {cur}, offset');
      StartsRunConcat(seg, rest, dsb + offset);
    } else {
      WalkStopsEarly(v, fdb, ts, dsb, cur, visited, offset);
    }
  }

  /**
   * Every listed entry was read from a decoded segment, from the seven words
   * at its own word index, and its status word is neither zero nor an
   * end-of-segment mark.
   */
  lemma {:induction false} WalkEntriesDecoded(v: Volume, fdb: nat, ts: nat, dsb: nat, cur: nat, visited: set<nat>, offset: nat)
    ensures var l := Walk(v, fdb, ts, dsb, cur, visited, offset);
      forall e :: e in l.entries ==>
        e.segNumber in l.chain && 1 <= e.segNumber && SegmentBlock(fdb, e.segNumber) + 1 < |v.blocks|
        && FIRST_ENTRY <= e.wordIndex
        && EntryDecodedAt(SegmentWordsAt(v, SegmentBlock(fdb, e.segNumber)), e, e.wordIndex, e.segNumber)
        && e.wordIndex in EntryPositions(SegmentWordsAt(v, SegmentBlock(fdb, e.segNumber)),
                                         SlotWords(SegmentWordsAt(v, SegmentBlock(fdb, e.segNumber))), FIRST_ENTRY)
    decreases Unvisited(ts, visited)
  {
    var l := Walk(v, fdb, ts, dsb, cur, visited, offset);
    if 1 <= cur <= ts && cur !in visited && SegmentBlock(fdb, cur) + 1 < |v.blocks| {
      var next, offset' := WalkStepParts(v, fdb, ts, dsb, cur, visited, offset);
      var words := SegmentWordsAt(v, SegmentBlock(fdb, cur));
      var ew := SlotWords(words);
      var seg := DecodeEntries(words, ew, FIRST_ENTRY, cur, dsb, offset);
      var rest := Walk(v, fdb, ts, dsb, next, visited + {cur}, offset');
      assert l.entries == seg + rest.entries && l.chain == [cur] + rest.chain;
      DecodeAtPositions(words, ew, FIRST_ENTRY, cur, dsb, offset);
      WalkEntriesDecoded(v, fdb, ts, dsb, next, visited + {cur}, offset');
      forall e | e in seg
        ensures e.segNumber == cur && FIRST_ENTRY <= e.wordIndex && EntryDecodedAt(words, e, e.wordIndex, cur)
        ensures e.wordIndex in EntryPositions(words, ew, FIRST_ENTRY)
      {
        var j :| 0 <= j < |seg| && seg[j] == e;
        assert EntryDecodedAt(words, seg[j], EntryPositions(words, ew, FIRST_ENTRY)[j], cur);
      }
    } else {
      WalkStopsEarly(v, fdb, ts, dsb, cur, visited, offset);
    }
  }

  /** Outside the decoding case the walk decodes nothing. */
  lemma WalkStopsEarly(v: Volume, fdb: nat, ts: nat, dsb: nat, cur: nat, visited: set<nat>, offset: nat)
    requires !(1 <= cur <= ts && cur !in visited && SegmentBlock(fdb, cur) + 1 < |v.blocks|)
    ensures Walk(v, fdb, ts, dsb, cur, visited, offset).chain == []
    ensures Walk(v, fdb, ts, dsb, cur, visited, offset).entries == []
  {
  }

  /** readDirectory: the whole directory of an image, or the read error that stopped it. */
  function DirectoryOf(v: Volume): (r: Result<Listing, ReadError>)
  {
    match FirstDirectoryBlock(v)
    case Err(e) => Err(e)
    case Ok(fdb) =>
      if fdb >= |v.blocks| then Err(FirstBlockOutOfRange)
      else match ReadSegment(v, fdb)
        case Err(e) => Err(e)
        case Ok(words) =>
          var first := ParseSegmentHeader(words);
          Ok(Walk(v, fdb, ClampSegments(first.totalSegments), first.dataStartBlock, 1, {}, 0))
  }

  /**
   * The scan of one segment's entries from the first slot: it stops at an
   * end-of-segment mark, a zero status word, or a slot that would not fit.
   */
  method ScanSegment(words: seq<Word>, ew: nat, seg: nat, dsb: nat, offset: nat)
    returns (es: seq<Entry>, offset': nat)
    requires |words| == SEGMENT_WORDS && ew >= 7
    ensures es == DecodeEntries(words, ew, FIRST_ENTRY, seg, dsb, offset)
    ensures offset' == offset + SumLengths(es)
  {
    es := [];
    offset' := offset;
    var idx: nat := FIRST_ENTRY;
    while idx + ew <= SEGMENT_WORDS
      invariant Scanned(words, ew, seg, dsb, offset, idx, es, offset')
      decreases SEGMENT_WORDS - idx
    {
      var status := words[idx];
      if HasBit(status, E_EOS) {
        break;
      }
      if status == 0 {
        break;
      }
      var e := Entry(
        NameWords(words[idx + 1], words[idx + 2], words[idx + 3]),
        Low16(dsb + offset'),
        words[idx + 4],
        status,
        words[idx + 6],
        seg,
        idx);
      ScanStep(words, ew, seg, dsb, offset, idx, es, offset');
      es := es + [e];
      offset' := offset' + words[idx + 4];
      idx := idx + ew;
    }
    ScanDone(words, ew, seg, dsb, offset, idx, es, offset');
  }

  /** What the scan has decoded before slot `idx`, and its running offset. */
  ghost predicate Scanned(words: seq<Word>, ew: nat, seg: nat, dsb: nat, offset: nat, idx: nat, es: seq<Entry>, offset': nat)
    requires |words| == SEGMENT_WORDS && ew >= 7
  {
    && DecodeEntries(words, ew, FIRST_ENTRY, seg, dsb, offset) == es + DecodeEntries(words, ew, idx, seg, dsb, offset')
    && offset' == offset + SumLengths(es)
  }

  lemma ScanStep(words: seq<Word>, ew: nat, seg: nat, dsb: nat, offset: nat, idx: nat, es: seq<Entry>, offset': nat)
    requires |words| == SEGMENT_WORDS && ew >= 7 && !EndsEntries(words, ew, idx)
    requires Scanned(words, ew, seg, dsb, offset, idx, es, offset')
    ensures Scanned(words, ew, seg, dsb, offset, idx + ew, es + [SlotEntry(words, idx, seg, dsb, offset')], offset' + words[idx + 4])
  {
    var e := SlotEntry(words, idx, seg, dsb, offset');
    var rest := DecodeEntries(words, ew, idx + ew, seg, dsb, offset' + words[idx + 4]);
    assert DecodeEntries(words, ew, idx, seg, dsb, offset') == [e] + rest;
    assert es + ([e] + rest) == (es + [e]) + rest;
    SumLengthsAppend(es, [e]);
    assert [e][..0] == [];
  }

  lemma ScanDone(words: seq<Word>, ew: nat, seg: nat, dsb: nat, offset: nat, idx: nat, es: seq<Entry>, offset': nat)
    requires |words| == SEGMENT_WORDS && ew >= 7 && EndsEntries(words, ew, idx)
    requires Scanned(words, ew, seg, dsb, offset, idx, es, offset')
    ensures DecodeEntries(words, ew, FIRST_ENTRY, seg, dsb, offset) == es
    ensures offset' == offset + SumLengths(es)
  {
    assert es + [] == es;
  }

  /**
   * The directory of an image: it is read exactly when the home block and
   * both blocks of segment 1 are inside the image; the chain then starts at
   * segment 1 and visits segments numbered up to the (clamped) count in
   * segment 1, and the start blocks run on from segment 1's data start block.
   */
  lemma DirectoryOfShape(v: Volume)
    ensures DirectoryOf(v).Ok? <==> HOME_BLOCK < |v.blocks| && FirstDirectoryBlock(v).value + 1 < |v.blocks|
    ensures DirectoryOf(v).Ok? ==>
      var fdb := FirstDirectoryBlock(v).value;
      var first := ParseSegmentHeader(SegmentWordsAt(v, fdb));
      var l := DirectoryOf(v).value;
      (|l.chain| > 0 ==> l.chain[0] == 1)
      && (forall i :: 0 <= i < |l.chain| ==> 1 <= l.chain[i] <= ClampSegments(first.totalSegments))
      && StartsRunFrom(l.entries, first.dataStartBlock)
  {
    if DirectoryOf(v).Ok? {
      var fdb := FirstDirectoryBlock(v).value;
      var first := ParseSegmentHeader(SegmentWordsAt(v, fdb));
      var ts := ClampSegments(first.totalSegments);
      WalkChainLinked(v, fdb, ts, first.dataStartBlock, 1, {}, 0);
      WalkChainInRange(v, fdb, ts, first.dataStartBlock, 1, {}, 0);
      WalkStartBlocks(v, fdb, ts, first.dataStartBlock, 1, {}, 0);
    }
  }

  /** readDirectory: locate and read segment 1, take the segment count and data start block from it, and walk the chain. */
  method ReadDirectory(v: Volume) returns (r: Result<Listing, ReadError>)
    ensures r == DirectoryOf(v)
  {
    var fdbOrError := FirstDirectoryBlock(v);
    if fdbOrError.Err? {
      return Err(fdbOrError.error);
    }
    var fdb := fdbOrError.value;
    if fdb >= |v.blocks| {
      return Err(FirstBlockOutOfRange);
    }
    var firstOrError := ReadSegment(v, fdb);
    if firstOrError.Err? {
      return Err(firstOrError.error);
    }
    var firstHeader := ParseSegmentHeader(firstOrError.value);
    var ts: nat := firstHeader.totalSegments;
    if ts == 0 || ts > MAX_SEGMENTS {
      ts := 1;
    }
    assert ts == ClampSegments(firstHeader.totalSegments);
    var listing := FollowChain(v, fdb, ts, firstHeader.dataStartBlock);
    return Ok(listing);
  }

  /** The body of the reader's loop for one segment: read it, then scan its entries. */
  method ReadChainSegment(v: Volume, fdb: nat, ts: nat, dsb: nat, cur: nat, ghost seen: set<nat>, offset: nat)
    returns (es: seq<Entry>, offset': nat, next: Word)
    requires 1 <= cur <= ts && cur !in seen && SegmentBlock(fdb, cur) + 1 < |v.blocks|
    ensures offset' == offset + SumLengths(es) && next == NextLink(v, fdb, cur)
    ensures Walk(v, fdb, ts, dsb, cur, seen, offset) == Prepend(es, [cur], Walk(v, fdb, ts, dsb, next, seen + {cur}, offset'))
    ensures Unvisited(ts, seen + {cur}) < Unvisited(ts, seen)
  {
    ghost var n, o := WalkStepParts(v, fdb, ts, dsb, cur, seen, offset);
    var words := SegmentWordsAt(v, SegmentBlock(fdb, cur));
    var hdr := ParseSegmentHeader(words);
    es, offset' := ScanSegment(words, EntryWords(hdr.extraBytes), cur, dsb, offset);
    next := hdr.nextSegment;
    assert next == n && offset' == o;
  }

  /** What the reader has collected before it reaches segment `cur` with the segments `seen` visited. */
  ghost predicate Walked(v: Volume, fdb: nat, ts: nat, dsb: nat, entries: seq<Entry>, chain: seq<nat>,
                         cur: nat, seen: set<nat>, offset: nat)
  {
    && offset == SumLengths(entries)
    && Walk(v, fdb, ts, dsb, 1, {}, 0) == Prepend(entries, chain, Walk(v, fdb, ts, dsb, cur, seen, offset))
  }

  /** Reads segment `cur`, adds its entries and its number to those collected, and moves to its link. */
  method VisitSegment(v: Volume, fdb: nat, ts: nat, dsb: nat, cur: nat, ghost seen: set<nat>, offset: nat,
                      entries: seq<Entry>, chain: seq<nat>)
    returns (entries': seq<Entry>, chain': seq<nat>, offset': nat, next: Word)
    requires 1 <= cur <= ts && cur !in seen && SegmentBlock(fdb, cur) + 1 < |v.blocks|
    requires Walked(v, fdb, ts, dsb, entries, chain, cur, seen, offset)
    ensures Walked(v, fdb, ts, dsb, entries', chain', next, seen + {cur}, offset')
    ensures chain' == chain + [cur] && Unvisited(ts, seen + {cur}) < Unvisited(ts, seen)
  {
    var segEntries, segOffset;
    segEntries, segOffset, next := ReadChainSegment(v, fdb, ts, dsb, cur, seen, offset);
    ghost var tail := Walk(v, fdb, ts, dsb, next, seen + {cur}, segOffset);
    SumLengthsAppend(entries, segEntries);
    PrependTwice(entries, chain, segEntries, [cur], tail);
    entries' := entries + segEntries;
    offset' := segOffset;
    chain' := chain + [cur];
  }

  /**
   * The loop of readDirectory: from segment 1 along the links, marking each
   * segment visited and carrying the running block offset across segments.
   */
  method FollowChain(v: Volume, fdb: nat, ts: nat, dsb: nat) returns (l: Listing)
    ensures l == Walk(v, fdb, ts, dsb, 1, {}, 0)
  {
    var cur: nat := 1;
    var visited: seq<bool> := seq(ts + 1, _ => false);
    ghost var seen: set<nat> := {};
    var offset: nat := 0;
    var entries: seq<Entry> := [];
    var chain: seq<nat> := [];
    var stop := EndOfChain;
    assert Prepend([], [], Walk(v, fdb, ts, dsb, 1, {}, 0)) == Walk(v, fdb, ts, dsb, 1, {}, 0);
    while cur != 0
      invariant |visited| == ts + 1
      invariant forall s {:trigger visited[s]} :: 0 <= s <= ts ==> (visited[s] <==> s in seen)
      invariant Walked(v, fdb, ts, dsb, entries, chain, cur, seen, offset)
      decreases Unvisited(ts, seen)
    {
      if cur < 1 || cur > ts {
        stop := InvalidSegment(cur);
        break;
      }
      if visited[cur] {
        stop := LoopDetected(cur);
        break;
      }
      visited := visited[cur := true];
      var segBlock := fdb + (cur - 1) * DIR_SEGMENT_BLOCKS;
      if segBlock + 1 >= |v.blocks| {
        stop := BeyondVolume(cur);
        break;
      }
      var next;
      entries, chain, offset, next := VisitSegment(v, fdb, ts, dsb, cur, seen, offset, entries, chain);
      seen := seen + {cur};
      cur := next;
    }
    WalkStops(v, fdb, ts, dsb, cur, seen, offset, stop);
    assert entries + [] == entries && chain + [] == chain;
    return Listing(entries, chain, stop);
  }
}
