/** Option and Result, for the error paths of the directory engine. */
module Wrappers {
  datatype Option<+T> = None | Some(value: T)

  datatype Result<+T, +E> = Ok(value: T) | Err(error: E)
}

/**
 * The 16-bit words of an RT-11 directory segment: the status bits of an
 * entry, the five-word segment header, and the scan that finds where the
 * entry list of a segment ends.
 *
 * A segment occupies two 512-byte blocks, that is 512 little-endian words.
 * Words 0..4 are the header; entries of `7 + extraBytes / 2` words follow
 * from word 5 until a status word with E_EOS set, a zero status word, or a
 * slot that would not fit in the 512 words.
 */
module Words {
  type Word = x: int | 0 <= x < 0x10000

  const SEGMENT_WORDS: nat := 512
  const FIRST_ENTRY: nat := 5
  const DIR_SEGMENT_BLOCKS: nat := 2

  // Status word bits
  const E_TENT: Word := 0x0100
  const E_MPTY: Word := 0x0200
  const E_PERM: Word := 0x0400
  const E_EOS: Word := 0x0800
  const E_READ: Word := 0x4000
  const E_PRE: Word := 0x8000

  /** `w & bit != 0`, for a mask `bit` with a single bit set. */
  predicate HasBit(w: Word, bit: Word)
  {
    bit > 0 && (w / bit) % 2 == 1
  }

  /** The five header words of a segment. */
  datatype SegmentHeader = SegmentHeader(
    totalSegments: Word,
    nextSegment: Word,
    highestInUse: Word,
    extraBytes: Word,
    dataStartBlock: Word)

  function HeaderWords(h: SegmentHeader): (ws: seq<Word>)
    ensures |ws| == FIRST_ENTRY
  {
    [h.totalSegments, h.nextSegment, h.highestInUse, h.extraBytes, h.dataStartBlock]
  }

  function ParseSegmentHeader(words: seq<Word>): (h: SegmentHeader)
    requires |words| >= FIRST_ENTRY
    ensures HeaderWords(h) == words[..FIRST_ENTRY]
  {
    SegmentHeader(words[0], words[1], words[2], words[3], words[4])
  }

  /** Parsing reads back exactly the five words a header is made of. */
  lemma ParseHeaderRoundTrip(h: SegmentHeader, words: seq<Word>)
    requires |words| >= FIRST_ENTRY
    ensures ParseSegmentHeader(HeaderWords(h) + words) == h
    ensures HeaderWords(ParseSegmentHeader(words)) == words[..FIRST_ENTRY]
  {
  }

  /** Width of one entry: seven words plus the volume's extra bytes, as words. */
  function EntryWords(extraBytes: Word): (ew: nat)
    ensures 7 <= ew <= 7 + 0xFFFF / 2
    ensures extraBytes < 2 ==> ew == 7
    ensures ew == 7 + extraBytes / 2
  {
    7 + extraBytes / 2
  }

  /** Physical block of a segment: two blocks per segment after the first directory block. */
  function SegmentBlock(firstDirBlock: nat, seg: nat): nat
    requires seg >= 1
  {
    firstDirBlock + (seg - 1) * DIR_SEGMENT_BLOCKS
  }

  /**
   * The entry slot at word `idx` ends the entry list: it does not fit in the
   * segment, or its status word has E_EOS set or is zero.
   */
  predicate EndsEntries(words: seq<Word>, ew: nat, idx: nat)
    requires |words| == SEGMENT_WORDS && ew >= 7
  {
    idx + ew > SEGMENT_WORDS || HasBit(words[idx], E_EOS) || words[idx] == 0
  }

  /** Word after the last of the positions `ps` (or `idx` when there are none). */
  function PositionsEnd(ps: seq<nat>, idx: nat, ew: nat): nat
  {
    if |ps| == 0 then idx else ps[|ps| - 1] + ew
  }

  /**
   * Word positions of the entries of a segment from word `idx` on: one slot
   * every `ew` words, up to the first slot that ends the list.
   */
  function EntryPositions(words: seq<Word>, ew: nat, idx: nat): (ps: seq<nat>)
    requires |words| == SEGMENT_WORDS && ew >= 7
    ensures forall j :: 0 <= j < |ps| ==> idx <= ps[j] && ps[j] + ew <= SEGMENT_WORDS && !EndsEntries(words, ew, ps[j])
    ensures |ps| > 0 ==> ps[0] == idx
    ensures EndsEntries(words, ew, PositionsEnd(ps, idx, ew))
    ensures idx <= PositionsEnd(ps, idx, ew)
    ensures idx <= SEGMENT_WORDS ==> PositionsEnd(ps, idx, ew) <= SEGMENT_WORDS
    decreases SEGMENT_WORDS - idx
  {
    if EndsEntries(words, ew, idx) then []
    else [idx] + EntryPositions(words, ew, idx + ew)
  }

  /** Consecutive entry positions are one slot apart. */
  lemma {:induction false} PositionStep(words: seq<Word>, ew: nat, idx: nat, i: nat)
    requires |words| == SEGMENT_WORDS && ew >= 7
    requires i + 1 < |EntryPositions(words, ew, idx)|
    ensures EntryPositions(words, ew, idx)[i + 1] == EntryPositions(words, ew, idx)[i] + ew
    decreases SEGMENT_WORDS - idx
  {
    if i > 0 {
      PositionStep(words, ew, idx + ew, i - 1);
    }
  }

  /** Where the scan that starts at word 5 stops: the end-of-segment slot. */
  function EndOfEntries(words: seq<Word>, ew: nat): nat
    requires |words| == SEGMENT_WORDS && ew >= 7
  {
    PositionsEnd(EntryPositions(words, ew, FIRST_ENTRY), FIRST_ENTRY, ew)
  }

  /** The j-th entry of a segment starts `j * ew` words after the first one. */
  lemma {:induction false} PositionIsLinear(words: seq<Word>, ew: nat, idx: nat, j: nat)
    requires |words| == SEGMENT_WORDS && ew >= 7
    requires j < |EntryPositions(words, ew, idx)|
    ensures EntryPositions(words, ew, idx)[j] == idx + j * ew
    decreases j
  {
    var ps := EntryPositions(words, ew, idx);
    if j > 0 {
      PositionIsLinear(words, ew, idx, j - 1);
      PositionStep(words, ew, idx, j - 1);
      MulStep(j, ew);
    }
  }

  lemma MulStep(j: nat, ew: nat)
    requires j > 0
    ensures (j - 1) * ew + ew == j * ew
  {
  }

  /**
   * The scan only looks at the status words of the slots it passes: two
   * segments that agree on those (and on where the first one stops) have the
   * same entry positions.
   */
  lemma {:induction false} PositionsDependOnStatus(a: seq<Word>, b: seq<Word>, ew: nat, idx: nat)
    requires |a| == SEGMENT_WORDS && |b| == SEGMENT_WORDS && ew >= 7
    requires forall p :: p in EntryPositions(a, ew, idx) ==> a[p] == b[p]
    requires EndsEntries(b, ew, PositionsEnd(EntryPositions(a, ew, idx), idx, ew))
    ensures EntryPositions(b, ew, idx) == EntryPositions(a, ew, idx)
    decreases SEGMENT_WORDS - idx
  {
    var ps := EntryPositions(a, ew, idx);
    if !EndsEntries(a, ew, idx) {
      var rest := EntryPositions(a, ew, idx + ew);
      assert ps == [idx] + rest;
      assert ps[0] == idx;
      assert a[idx] == b[idx];
      assert !EndsEntries(b, ew, idx);
      assert PositionsEnd(rest, idx + ew, ew) == PositionsEnd(ps, idx, ew);
      forall p | p in rest ensures a[p] == b[p] {
        assert p in ps;
      }
      PositionsDependOnStatus(a, b, ew, idx + ew);
    }
  }

  /**
   * A run of slots `ps`, one every `ew` words from `idx`, none of which ends
   * the list, followed by a slot that does: these are exactly the entry
   * positions from `idx`.
   */
  lemma PositionsFrom(words: seq<Word>, ew: nat, idx: nat, ps: seq<nat>)
    requires |words| == SEGMENT_WORDS && ew >= 7
    requires |ps| > 0 ==> ps[0] == idx
    requires forall k :: 0 < k < |ps| ==> ps[k] == ps[k - 1] + ew
    requires forall k :: 0 <= k < |ps| ==> !EndsEntries(words, ew, ps[k])
    requires EndsEntries(words, ew, PositionsEnd(ps, idx, ew))
    ensures EntryPositions(words, ew, idx) == ps
  {
    RunOfSlots(words, ew, idx, ps);
    RunPositions(words, ew, idx, ps);
  }

  /** `ps` lists the slots from `idx` on, one every `ew` words, up to a slot that ends the list. */
  ghost predicate IsRun(words: seq<Word>, ew: nat, idx: nat, ps: seq<nat>)
    requires |words| == SEGMENT_WORDS && ew >= 7
    decreases |ps|
  {
    if ps == [] then EndsEntries(words, ew, idx)
    else ps[0] == idx && !EndsEntries(words, ew, idx) && IsRun(words, ew, idx + ew, ps[1..])
  }

  lemma {:induction false} RunOfSlots(words: seq<Word>, ew: nat, idx: nat, ps: seq<nat>)
    requires |words| == SEGMENT_WORDS && ew >= 7
    requires |ps| > 0 ==> ps[0] == idx
    requires forall k :: 0 < k < |ps| ==> ps[k] == ps[k - 1] + ew
    requires forall k :: 0 <= k < |ps| ==> !EndsEntries(words, ew, ps[k])
    requires EndsEntries(words, ew, PositionsEnd(ps, idx, ew))
    ensures IsRun(words, ew, idx, ps)
    decreases |ps|
  {
    if ps != [] {
      RestOfRun(words, ew, idx, ps);
      RunOfSlots(words, ew, idx + ew, ps[1..]);
    }
  }

  lemma {:induction false} RunPositions(words: seq<Word>, ew: nat, idx: nat, ps: seq<nat>)
    requires |words| == SEGMENT_WORDS && ew >= 7 && IsRun(words, ew, idx, ps)
    ensures EntryPositions(words, ew, idx) == ps
    decreases |ps|
  {
    if ps != [] {
      RunPositions(words, ew, idx + ew, ps[1..]);
      PositionsCons(words, ew, idx);
      ConsIs(EntryPositions(words, ew, idx), EntryPositions(words, ew, idx + ew), ps);
    } else {
      PositionsNil(words, ew, idx);
    }
  }

  lemma PositionsCons(words: seq<Word>, ew: nat, idx: nat)
    requires |words| == SEGMENT_WORDS && ew >= 7 && !EndsEntries(words, ew, idx)
    ensures EntryPositions(words, ew, idx) == [idx] + EntryPositions(words, ew, idx + ew)
  {
  }

  lemma PositionsNil(words: seq<Word>, ew: nat, idx: nat)
    requires |words| == SEGMENT_WORDS && ew >= 7 && EndsEntries(words, ew, idx)
    ensures EntryPositions(words, ew, idx) == []
  {
  }

  /** A sequence that is the head of `ps` followed by the rest of `ps` is `ps`. */
  lemma ConsIs(a: seq<nat>, b: seq<nat>, ps: seq<nat>)
    requires ps != [] && a == [ps[0]] + b && b == ps[1..]
    ensures a == ps
  {
  }

  /** The run after its first slot is a run from the next slot, with the same end. */
  lemma RestOfRun(words: seq<Word>, ew: nat, idx: nat, ps: seq<nat>)
    requires |words| == SEGMENT_WORDS && ew >= 7 && ps != [] && ps[0] == idx
    requires forall k :: 0 < k < |ps| ==> ps[k] == ps[k - 1] + ew
    requires forall k :: 0 <= k < |ps| ==> !EndsEntries(words, ew, ps[k])
    requires EndsEntries(words, ew, PositionsEnd(ps, idx, ew))
    ensures !EndsEntries(words, ew, idx)
    ensures var rest := ps[1..];
      && (|rest| > 0 ==> rest[0] == idx + ew)
      && (forall k :: 0 < k < |rest| ==> rest[k] == rest[k - 1] + ew)
      && (forall k :: 0 <= k < |rest| ==> !EndsEntries(words, ew, rest[k]))
      && EndsEntries(words, ew, PositionsEnd(rest, idx + ew, ew))
  {
    var rest := ps[1..];
    forall k | 0 < k < |rest| ensures rest[k] == rest[k - 1] + ew {
      assert rest[k] == ps[k + 1] && rest[k - 1] == ps[k];
    }
    forall k | 0 <= k < |rest| ensures !EndsEntries(words, ew, rest[k]) {
      assert rest[k] == ps[k + 1];
    }
    if |rest| > 0 {
      assert rest[0] == ps[1];
    }
    assert PositionsEnd(rest, idx + ew, ew) == PositionsEnd(ps, idx, ew);
  }

  /** Entry positions are at least one slot apart, and all lie a slot or more before the end. */
  lemma {:induction false} PositionsSpaced(words: seq<Word>, ew: nat, idx: nat, k: nat, m: nat)
    requires |words| == SEGMENT_WORDS && ew >= 7
    requires k < m <= |EntryPositions(words, ew, idx)|
    ensures var ps := EntryPositions(words, ew, idx);
      ps[k] + ew <= if m == |ps| then PositionsEnd(ps, idx, ew) else ps[m]
    decreases m - k
  {
    if k + 1 < m {
      PositionsSpaced(words, ew, idx, k + 1, m);
    }
    if k + 1 < |EntryPositions(words, ew, idx)| {
      PositionStep(words, ew, idx, k);
    }
  }
}
