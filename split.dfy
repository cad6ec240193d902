/**
 * splitDirectorySegment: when a segment has no room left, its entries from
 * a split point on move to a segment number that is not in the chain; the
 * old segment ends at the split point and links to the new one, and the
 * new one links to where the old one used to.
 */
module Split {
  import opened Wrappers
  import opened Words
  import opened Directory
  import opened Allocation

  // ---------------------------------------------------------------
  // The two segments a split produces, as values
  // ---------------------------------------------------------------

  /** A slot the split prefers to split at: a permanent or tentative file. */
  predicate Movable(status: Word)
  {
    HasBit(status, E_PERM) || HasBit(status, E_TENT)
  }

  /** The indices, from `i` on, of the slots at `ps` that hold a movable entry, in order. */
  function MovableFrom(words: seq<Word>, ps: seq<nat>, i: nat): (ms: seq<nat>)
    requires forall k :: 0 <= k < |ps| ==> ps[k] < |words|
    requires i <= |ps|
    ensures forall t :: 0 <= t < |ms| ==> i <= ms[t] < |ps| && Movable(words[ps[ms[t]]])
    ensures forall t, u :: 0 <= t < u < |ms| ==> ms[t] < ms[u]
    ensures forall k :: i <= k < |ps| && Movable(words[ps[k]]) ==> k in ms
    decreases |ps| - i
  {
    if i == |ps| then []
    else if Movable(words[ps[i]]) then [i] + MovableFrom(words, ps, i + 1)
    else MovableFrom(words, ps, i + 1)
  }

  /**
   * The split point: the middle one of the movable entries, or the middle
   * entry when there is none; a point on the last entry or past it is moved
   * back to the middle entry. The new segment always gets an entry.
   */
  function SplitPoint(words: seq<Word>, ps: seq<nat>): (mid: nat)
    requires forall k :: 0 <= k < |ps| ==> ps[k] < |words|
    requires |ps| > 0
    ensures mid < |ps|
    ensures var ms := MovableFrom(words, ps, 0);
      if |ms| > 0 && ms[|ms| / 2] < |ps| - 1 then mid == ms[|ms| / 2] && Movable(words[ps[mid]])
      else mid == |ps| / 2
  {
    var ms := MovableFrom(words, ps, 0);
    var mid := if |ms| > 0 then ms[|ms| / 2] else |ps| / 2;
    if mid >= |ps| - 1 then |ps| / 2 else mid
  }

  /** The old segment after the split: an end mark on the split slot, and the link to the new segment. */
  function OldSegmentWords(words: seq<Word>, middleIdx: nat, newSeg: Word): (r: seq<Word>)
    requires |words| == SEGMENT_WORDS && FIRST_ENTRY <= middleIdx < SEGMENT_WORDS
    ensures |r| == SEGMENT_WORDS
    ensures r[1] == newSeg && r[middleIdx] == E_EOS
    ensures forall p :: 0 <= p < SEGMENT_WORDS && p != 1 && p != middleIdx ==> r[p] == words[p]
  {
    words[middleIdx := E_EOS][1 := newSeg]
  }

  /**
   * The new segment: the header of the old one with `link` as its next
   * segment, the words `from..end` of the old one moved down to word 5, an
   * end mark right after them when it lies inside the segment, and zeros.
   */
  function NewSegmentWords(words: seq<Word>, from: nat, end: nat, link: Word): (r: seq<Word>)
    requires |words| == SEGMENT_WORDS && FIRST_ENTRY <= from <= end <= SEGMENT_WORDS
    ensures |r| == SEGMENT_WORDS
    ensures r[0] == words[0] && r[1] == link && r[2] == words[2] && r[3] == words[3] && r[4] == words[4]
    ensures forall p :: FIRST_ENTRY <= p < FIRST_ENTRY + (end - from) ==> r[p] == words[p - FIRST_ENTRY + from]
    ensures FIRST_ENTRY + (end - from) < SEGMENT_WORDS ==> r[FIRST_ENTRY + (end - from)] == E_EOS
    ensures forall p :: FIRST_ENTRY + (end - from) < p < SEGMENT_WORDS ==> r[p] == 0
  {
    seq(SEGMENT_WORDS, p requires 0 <= p < SEGMENT_WORDS =>
      if p == 1 then link
      else if p < FIRST_ENTRY then words[p]
      else if p < FIRST_ENTRY + (end - from) then words[p - FIRST_ENTRY + from]
      else if p == FIRST_ENTRY + (end - from) then E_EOS
      else 0)
  }

  /** The old segment when the split point is the mid-th entry of a list of `ew`-word slots. */
  function OldSegment(words: seq<Word>, ew: nat, mid: nat, newSeg: Word): (r: seq<Word>)
    requires |words| == SEGMENT_WORDS && ew >= 7
    requires mid < |EntryPositions(words, ew, FIRST_ENTRY)|
  {
    OldSegmentWords(words, EntryPositions(words, ew, FIRST_ENTRY)[mid], newSeg)
  }

  /** The new segment when the split point is the mid-th entry, linked to `link`. */
  function NewSegment(words: seq<Word>, ew: nat, mid: nat, link: Word): (r: seq<Word>)
    requires |words| == SEGMENT_WORDS && ew >= 7
    requires mid < |EntryPositions(words, ew, FIRST_ENTRY)|
  {
    PositionsLaid(words, ew);
    NewSegmentWords(words, EntryPositions(words, ew, FIRST_ENTRY)[mid], EndOfEntries(words, ew), link)
  }

  /** The entry positions of a segment, one slot apart, each a slot before the end of the list. */
  ghost predicate Laid(ps: seq<nat>, ew: nat, eos: nat)
  {
    && (|ps| > 0 ==> ps[0] == FIRST_ENTRY)
    && (forall k :: 0 <= k < |ps| ==> FIRST_ENTRY <= ps[k])
    && (forall k :: 0 < k < |ps| ==> ps[k] == ps[k - 1] + ew)
    && (forall k, m :: 0 <= k < m < |ps| ==> ps[k] + ew <= ps[m])
    && (forall k :: 0 <= k < |ps| ==> ps[k] + ew <= eos)
    && eos == PositionsEnd(ps, FIRST_ENTRY, ew)
    && eos <= SEGMENT_WORDS
  }

  lemma PositionsLaid(words: seq<Word>, ew: nat)
    requires |words| == SEGMENT_WORDS && ew >= 7
    ensures Laid(EntryPositions(words, ew, FIRST_ENTRY), ew, EndOfEntries(words, ew))
  {
    var ps := EntryPositions(words, ew, FIRST_ENTRY);
    forall k | 0 < k < |ps| ensures ps[k] == ps[k - 1] + ew {
      PositionStep(words, ew, FIRST_ENTRY, k - 1);
    }
    forall k | 0 <= k < |ps| ensures ps[k] + ew <= EndOfEntries(words, ew) {
      PositionsSpaced(words, ew, FIRST_ENTRY, k, |ps|);
    }
    PositionsApart(words, ew);
  }

  lemma PositionsApart(words: seq<Word>, ew: nat)
    requires |words| == SEGMENT_WORDS && ew >= 7
    ensures var ps := EntryPositions(words, ew, FIRST_ENTRY);
      forall k, m :: 0 <= k < m < |ps| ==> ps[k] + ew <= ps[m]
  {
    var ps := EntryPositions(words, ew, FIRST_ENTRY);
    forall k, m | 0 <= k < m < |ps| ensures ps[k] + ew <= ps[m] {
      PositionsSpaced(words, ew, FIRST_ENTRY, k, m);
    }
  }

  /** The old segment lists exactly the entries before the split point. */
  lemma OldSegmentSlots(words: seq<Word>, ew: nat, mid: nat, newSeg: Word)
    requires |words| == SEGMENT_WORDS && ew >= 7
    requires mid < |EntryPositions(words, ew, FIRST_ENTRY)|
    ensures var ps := EntryPositions(words, ew, FIRST_ENTRY);
      var r := OldSegment(words, ew, mid, newSeg);
      && EntryPositions(r, ew, FIRST_ENTRY) == ps[..mid]
      && EntrySlots(r, ew) == EntrySlots(words, ew)[..mid]
  {
    var ps := EntryPositions(words, ew, FIRST_ENTRY);
    PositionsLaid(words, ew);
    var r := OldSegmentWords(words, ps[mid], newSeg);
    OldPositions(words, r, ew, ps, mid, newSeg);
    OldHeads(words, r, ew, ps, mid, newSeg);
  }

  lemma OldPositions(words: seq<Word>, r: seq<Word>, ew: nat, ps: seq<nat>, mid: nat, newSeg: Word)
    requires |words| == SEGMENT_WORDS && ew >= 7 && mid < |ps|
    requires Laid(ps, ew, PositionsEnd(ps, FIRST_ENTRY, ew))
    requires forall k :: 0 <= k < |ps| ==> !EndsEntries(words, ew, ps[k])
    requires r == OldSegmentWords(words, ps[mid], newSeg)
    ensures EntryPositions(r, ew, FIRST_ENTRY) == ps[..mid]
  {
    var qs := ps[..mid];
    forall k | 0 <= k < |qs| ensures !EndsEntries(r, ew, qs[k]) {
      assert qs[k] + ew <= ps[mid];
      assert r[qs[k]] == words[qs[k]];
    }
    assert PositionsEnd(qs, FIRST_ENTRY, ew) == ps[mid];
    PositionsFrom(r, ew, FIRST_ENTRY, qs);
  }

  lemma OldHeads(words: seq<Word>, r: seq<Word>, ew: nat, ps: seq<nat>, mid: nat, newSeg: Word)
    requires |words| == SEGMENT_WORDS && ew >= 7 && mid < |ps|
    requires Laid(ps, ew, PositionsEnd(ps, FIRST_ENTRY, ew))
    requires r == OldSegmentWords(words, ps[mid], newSeg)
    ensures SlotHeads(r, ps[..mid]) == SlotHeads(words, ps)[..mid]
  {
    forall k | 0 <= k < mid ensures r[ps[k]..ps[k] + 7] == words[ps[k]..ps[k] + 7] {
      assert ps[k] + ew <= ps[mid];
    }
  }

  /** The new segment lists exactly the entries from the split point on. */
  lemma NewSegmentSlots(words: seq<Word>, ew: nat, mid: nat, link: Word)
    requires |words| == SEGMENT_WORDS && ew >= 7
    requires mid < |EntryPositions(words, ew, FIRST_ENTRY)|
    ensures var ps := EntryPositions(words, ew, FIRST_ENTRY);
      var r := NewSegment(words, ew, mid, link);
      && |EntryPositions(r, ew, FIRST_ENTRY)| == |ps| - mid
      && EntrySlots(r, ew) == EntrySlots(words, ew)[mid..]
  {
    var ps := EntryPositions(words, ew, FIRST_ENTRY);
    var eos := EndOfEntries(words, ew);
    PositionsLaid(words, ew);
    var r := NewSegmentWords(words, ps[mid], eos, link);
    var qs := Moved(ps, mid);
    NewPositions(words, r, ew, ps, eos, mid, link, qs);
    NewHeads(words, r, ew, ps, eos, mid, link, qs);
  }

  /** The positions `ps[mid..]` moved down so that the first is word 5. */
  function Moved(ps: seq<nat>, mid: nat): (qs: seq<nat>)
    requires mid < |ps| && FIRST_ENTRY <= ps[mid]
    requires forall k :: mid <= k < |ps| ==> ps[mid] <= ps[k]
    ensures |qs| == |ps| - mid
    ensures forall i :: 0 <= i < |qs| ==> qs[i] == ps[mid + i] - ps[mid] + FIRST_ENTRY
  {
    seq(|ps| - mid, i requires 0 <= i < |ps| - mid => ps[mid + i] - ps[mid] + FIRST_ENTRY)
  }

  lemma NewPositions(words: seq<Word>, r: seq<Word>, ew: nat, ps: seq<nat>, eos: nat, mid: nat, link: Word, qs: seq<nat>)
    requires |words| == SEGMENT_WORDS && ew >= 7 && mid < |ps|
    requires Laid(ps, ew, eos)
    requires forall k :: 0 <= k < |ps| ==> !EndsEntries(words, ew, ps[k])
    requires r == NewSegmentWords(words, ps[mid], eos, link)
    requires |qs| == |ps| - mid
    requires forall i :: 0 <= i < |qs| ==> qs[i] == ps[mid + i] - ps[mid] + FIRST_ENTRY
    ensures EntryPositions(r, ew, FIRST_ENTRY) == qs
  {
    forall k | 0 < k < |qs| ensures qs[k] == qs[k - 1] + ew {
      assert ps[mid + k] == ps[mid + k - 1] + ew;
    }
    forall k | 0 <= k < |qs| ensures !EndsEntries(r, ew, qs[k]) {
      assert ps[mid + k] + ew <= eos;
      assert r[qs[k]] == words[ps[mid + k]];
    }
    assert PositionsEnd(qs, FIRST_ENTRY, ew) == FIRST_ENTRY + (eos - ps[mid]);
    PositionsFrom(r, ew, FIRST_ENTRY, qs);
  }

  lemma NewHeads(words: seq<Word>, r: seq<Word>, ew: nat, ps: seq<nat>, eos: nat, mid: nat, link: Word, qs: seq<nat>)
    requires |words| == SEGMENT_WORDS && ew >= 7 && mid < |ps|
    requires FIRST_ENTRY <= ps[mid] && eos <= SEGMENT_WORDS
    requires forall k :: 0 <= k < |ps| ==> ps[k] + 7 <= |words|
    requires forall i :: mid <= i < |ps| ==> ps[mid] <= ps[i] && ps[i] + ew <= eos
    requires r == NewSegmentWords(words, ps[mid], eos, link)
    requires |qs| == |ps| - mid
    requires forall i :: 0 <= i < |qs| ==> qs[i] == ps[mid + i] - ps[mid] + FIRST_ENTRY
    ensures SlotHeads(r, qs) == SlotHeads(words, ps)[mid..]
  {
    forall i | 0 <= i < |qs| ensures r[qs[i]..qs[i] + 7] == words[ps[mid + i]..ps[mid + i] + 7] {
      NewHead(words, r, ps[mid], eos, link, ps[mid + i]);
    }
  }

  /** A slot head moved into the new segment reads as it did in the old one. */
  lemma NewHead(words: seq<Word>, r: seq<Word>, from: nat, eos: nat, link: Word, src: nat)
    requires |words| == SEGMENT_WORDS && FIRST_ENTRY <= from <= src && src + 7 <= eos <= SEGMENT_WORDS
    requires r == NewSegmentWords(words, from, eos, link)
    ensures r[src - from + FIRST_ENTRY..src - from + FIRST_ENTRY + 7] == words[src..src + 7]
  {
    var q := src - from + FIRST_ENTRY;
    forall p | q <= p < q + 7 ensures r[p] == words[p - q + src] {
    }
  }


  /**
   * Nothing is lost or duplicated: the entries of the old segment followed
   * by those of the new one are the entries of the segment before the split,
   * both keep its slot width, and the block total is unchanged.
   */
  lemma SplitKeepsEntries(words: seq<Word>, mid: nat, newSeg: Word, link: Word)
    requires |words| == SEGMENT_WORDS
    requires mid < |EntryPositions(words, SlotWords(words), FIRST_ENTRY)|
    ensures var ew := SlotWords(words);
      var o := OldSegment(words, ew, mid, newSeg);
      var n := NewSegment(words, ew, mid, link);
      && SlotWords(o) == ew && SlotWords(n) == ew
      && EntrySlots(o, ew) + EntrySlots(n, ew) == EntrySlots(words, ew)
      && LengthTotal(EntrySlots(o, ew)) + LengthTotal(EntrySlots(n, ew)) == LengthTotal(EntrySlots(words, ew))
  {
    var ew := SlotWords(words);
    SplitKeepsWidth(words, ew, mid, newSeg, link);
    SplitKeepsSlots(words, ew, mid, newSeg, link);
    LengthTotalAppend(EntrySlots(OldSegment(words, ew, mid, newSeg), ew), EntrySlots(NewSegment(words, ew, mid, link), ew));
  }

  lemma SplitKeepsWidth(words: seq<Word>, ew: nat, mid: nat, newSeg: Word, link: Word)
    requires |words| == SEGMENT_WORDS && ew >= 7
    requires mid < |EntryPositions(words, ew, FIRST_ENTRY)|
    ensures SlotWords(OldSegment(words, ew, mid, newSeg)) == SlotWords(words)
    ensures SlotWords(NewSegment(words, ew, mid, link)) == SlotWords(words)
  {
    assert OldSegment(words, ew, mid, newSeg)[3] == words[3];
  }

  lemma SplitKeepsSlots(words: seq<Word>, ew: nat, mid: nat, newSeg: Word, link: Word)
    requires |words| == SEGMENT_WORDS && ew >= 7
    requires mid < |EntryPositions(words, ew, FIRST_ENTRY)|
    ensures var o := OldSegment(words, ew, mid, newSeg);
      var n := NewSegment(words, ew, mid, link);
      EntrySlots(o, ew) + EntrySlots(n, ew) == EntrySlots(words, ew)
  {
    OldSegmentSlots(words, ew, mid, newSeg);
    NewSegmentSlots(words, ew, mid, link);
    Rejoined(EntrySlots(words, ew), mid);
  }

  lemma Rejoined(hs: seq<seq<Word>>, mid: nat)
    requires mid <= |hs|
    ensures hs[..mid] + hs[mid..] == hs
  {
  }

  // ---------------------------------------------------------------
  // The split on the volume
  // ---------------------------------------------------------------

  datatype SplitError =
    | ReadFailed(e: ReadError)   // a block of segment 1, of the chain, or of the new segment could not be read
    | InvalidSegmentCount        // segment 1 counts 0 or more than 31 segments
    | LinkLoop                   // the chain comes back to a segment it passed
    | NotInChain                 // the segment to split is not in the chain
    | DirectoryFull              // every segment number is in the chain
    | EmptySegment               // the segment to split has no entry

  /** The volume after a split attempt, and the new segment number or what stopped it. */
  datatype SplitRun = SplitRun(v: Volume, r: Result<nat, SplitError>)

  /**
   * The segments of the chain from `cur` on, added to `used`: the walk stops
   * at a link of 0 or outside 1..ts, and fails on a segment it has passed
   * before or one whose blocks cannot be read.
   */
  function ChainUsed(v: Volume, fdb: nat, ts: nat, cur: nat, used: set<nat>): (r: Result<set<nat>, SplitError>)
    requires forall s :: s in used ==> 1 <= s <= ts
    ensures r.Ok? ==> used <= r.value && forall s :: s in r.value ==> 1 <= s <= ts
    ensures r.Ok? ==> forall s :: s in r.value && s !in used ==> SegmentBlock(fdb, s) + 1 < |v.blocks|
    ensures r.Ok? && 1 <= cur <= ts ==> cur in r.value
    ensures r.Err? ==> r.error.LinkLoop? || r.error.ReadFailed?
    decreases Unvisited(ts, used)
  {
    if cur == 0 || cur < 1 || cur > ts then Ok(used)
    else if cur in used then Err(LinkLoop)
    else match ReadSegment(v, SegmentBlock(fdb, cur))
      case Err(e) => Err(ReadFailed(e))
      case Ok(w) =>
        VisitShrinks(ts, used, cur);
        ChainUsed(v, fdb, ts, w[1], used + {cur})
  }

  /**
   * When the split's walk succeeds it marks exactly the segments the
   * directory reader decodes, and the reader stops on a zero or out-of-range
   * link rather than a loop or a segment past the end of the volume.
   */
  lemma {:induction false} ChainMatchesReader(v: Volume, fdb: nat, ts: nat, dsb: nat, cur: nat, used: set<nat>, offset: nat)
    requires forall s :: s in used ==> 1 <= s <= ts
    requires ChainUsed(v, fdb, ts, cur, used).Ok?
    ensures var l := Walk(v, fdb, ts, dsb, cur, used, offset);
      && ChainUsed(v, fdb, ts, cur, used).value == used + Members(l.chain)
      && (l.stop.EndOfChain? || l.stop.InvalidSegment?)
    decreases Unvisited(ts, used)
  {
    if cur == 0 || cur < 1 || cur > ts {
      var stop := if cur == 0 then EndOfChain else InvalidSegment(cur);
      WalkStops(v, fdb, ts, dsb, cur, used, offset, stop);
    } else {
      var next, offset' := WalkStepParts(v, fdb, ts, dsb, cur, used, offset);
      ChainStep(v, fdb, ts, cur, used);
      ChainMatchesReader(v, fdb, ts, dsb, next, used + {cur}, offset');
      var rest := Walk(v, fdb, ts, dsb, next, used + {cur}, offset');
      MembersCons(cur, rest.chain);
    }
  }

  /** One step of the split's walk: a segment in range and not yet used is marked, and the walk goes on at its link. */
  lemma ChainStep(v: Volume, fdb: nat, ts: nat, cur: nat, used: set<nat>)
    requires forall s :: s in used ==> 1 <= s <= ts
    requires 1 <= cur <= ts && ChainUsed(v, fdb, ts, cur, used).Ok?
    ensures cur !in used && SegmentBlock(fdb, cur) + 1 < |v.blocks|
    ensures ChainUsed(v, fdb, ts, cur, used) == ChainUsed(v, fdb, ts, NextLink(v, fdb, cur), used + {cur})
  {
  }

  lemma MembersCons(x: nat, chain: seq<nat>)
    ensures Members([x] + chain) == {x} + Members(chain)
  {
  }

  /** The segment numbers of a chain, as a set. */
  function Members(chain: seq<nat>): (m: set<nat>)
    ensures forall x :: x in m <==> x in chain
  {
    set x | x in chain
  }

  /** The smallest segment number from `s` to `ts` that is not in `used`, if any. */
  function FirstUnused(ts: nat, used: set<nat>, s: nat): (r: Option<nat>)
    ensures r.Some? ==> s <= r.value <= ts && r.value !in used
    ensures r.Some? ==> forall m :: s <= m < r.value ==> m in used
    ensures r.None? ==> forall m :: s <= m <= ts ==> m in used
    decreases ts + 1 - s
  {
    if s > ts then None
    else if s !in used then Some(s)
    else FirstUnused(ts, used, s + 1)
  }

  /** Segment 1 as the split reads it at the start, with its segment count, and the segments of the chain. */
  datatype Chain = Chain(fdb: nat, seg1: seq<Word>, ts: nat, used: set<nat>)

  /**
   * The first checks of a split: read segment 1, check its segment count
   * (0 or more than 31 is an error, not clamped as the reader does), and
   * walk the chain from segment 1.
   */
  function SplitChain(v: Volume): (r: Result<Chain, SplitError>)
    ensures r.Ok? ==>
      && r.value.fdb + 1 < |v.blocks| && r.value.seg1 == SegmentWordsAt(v, r.value.fdb)
      && 1 <= r.value.ts <= MAX_SEGMENTS && r.value.ts == r.value.seg1[0]
      && 1 in r.value.used
      && (forall s :: s in r.value.used ==> 1 <= s <= r.value.ts && SegmentBlock(r.value.fdb, s) + 1 < |v.blocks|)
  {
    match FirstDirectoryBlock(v)
    case Err(e) => Err(ReadFailed(e))
    case Ok(fdb) =>
      match ReadSegment(v, fdb)
      case Err(e) => Err(ReadFailed(e))
      case Ok(seg1) =>
        var ts := seg1[0];
        if ts == 0 || ts > MAX_SEGMENTS then Err(InvalidSegmentCount)
        else match ChainUsed(v, fdb, ts, 1, {})
          case Err(e) => Err(e)
          case Ok(used) => Ok(Chain(fdb, seg1, ts, used))
  }

  /**
   * The chain the split walks is the one the directory reader lists: when
   * the walk succeeds, its segments are exactly the reader's, and the
   * reader's listing was read. The segment count is refused exactly when it
   * is 0 or above 31.
   */
  lemma SplitChainIsReaders(v: Volume)
    ensures SplitChain(v).Ok? ==> DirectoryOf(v).Ok? && SplitChain(v).value.used == Members(DirectoryOf(v).value.chain)
    ensures (SplitChain(v) == Err(InvalidSegmentCount)) <==>
      FirstDirectoryBlock(v).Ok? && FirstDirectoryBlock(v).value + 1 < |v.blocks|
      && var ts := SegmentWordsAt(v, FirstDirectoryBlock(v).value)[0]; ts == 0 || ts > MAX_SEGMENTS
  {
    if SplitChain(v).Ok? {
      var c := SplitChain(v).value;
      var first := ParseSegmentHeader(c.seg1);
      assert ClampSegments(first.totalSegments) == c.ts;
      ChainMatchesReader(v, c.fdb, c.ts, first.dataStartBlock, 1, {}, 0);
    }
  }

  /** What the checks of a split settle. */
  datatype Plan = Plan(
    chain: Chain,          // segment 1 and the segments in the chain
    seg: nat,              // the segment to split
    newSeg: nat,           // the new segment's number
    words: seq<Word>,      // the segment to split
    ew: nat,               // its slot width
    mid: nat)              // the split point, as an index into its entries

  /** The plan fits the volume: the segments lie inside it, and the split point is one of the entries. */
  ghost predicate PlanFits(v: Volume, p: Plan)
  {
    && p.chain.fdb + 1 < |v.blocks| && |p.chain.seg1| == SEGMENT_WORDS
    && p.chain.seg1 == SegmentWordsAt(v, p.chain.fdb)
    && 1 <= p.seg && 2 <= p.newSeg && p.seg != p.newSeg && p.newSeg < 0x10000
    && SegmentBlock(p.chain.fdb, p.seg) + 1 < |v.blocks|
    && p.words == SegmentWordsAt(v, SegmentBlock(p.chain.fdb, p.seg))
    && p.ew == SlotWords(p.words)
    && p.mid < |EntryPositions(p.words, p.ew, FIRST_ENTRY)|
  }

  /**
   * The rest of the checks, on the chain: the segment to split must be in
   * it, an unused segment number must exist (the smallest is taken), and the
   * segment must hold an entry; then the split point is chosen.
   */
  function SplitPlan(v: Volume, c: Chain, segToSplit: nat): (r: Result<Plan, SplitError>)
    requires SplitChain(v) == Ok(c)
    ensures r.Ok? ==> PlanFits(v, r.value) && r.value.chain == c && r.value.seg == segToSplit
  {
    if segToSplit < 1 || segToSplit > c.ts || segToSplit !in c.used then Err(NotInChain)
    else match FirstUnused(c.ts, c.used, 1)
      case None => Err(DirectoryFull)
      case Some(newSeg) =>
        var words := SegmentWordsAt(v, SegmentBlock(c.fdb, segToSplit));
        var ew := SlotWords(words);
        var ps := EntryPositions(words, ew, FIRST_ENTRY);
        if |ps| == 0 then Err(EmptySegment)
        else Ok(Plan(c, segToSplit, newSeg, words, ew, SplitPoint(words, ps)))
  }

  /**
   * The checks on the chain, each exactly when it is the first to fail; on
   * success the new segment number is the smallest one not in the chain,
   * and it is never segment 1.
   */
  lemma SplitPlanChecks(v: Volume, c: Chain, segToSplit: nat)
    requires SplitChain(v) == Ok(c)
    ensures var r := SplitPlan(v, c, segToSplit);
      && (r == Err(NotInChain) <==> segToSplit !in c.used)
      && (r == Err(DirectoryFull) <==> segToSplit in c.used && forall s :: 1 <= s <= c.ts ==> s in c.used)
      && (r == Err(EmptySegment) <==>
            && segToSplit in c.used && (exists s :: 1 <= s <= c.ts && s !in c.used)
            && var words := SegmentWordsAt(v, SegmentBlock(c.fdb, segToSplit));
               EntryPositions(words, SlotWords(words), FIRST_ENTRY) == [])
      && (r.Ok? ==>
            && r.value.newSeg !in c.used && 2 <= r.value.newSeg <= c.ts
            && (forall s :: 1 <= s < r.value.newSeg ==> s in c.used)
            && r.value.mid == SplitPoint(r.value.words, EntryPositions(r.value.words, r.value.ew, FIRST_ENTRY)))
  {
    if segToSplit in c.used && FirstUnused(c.ts, c.used, 1).None? {
      forall s | 1 <= s <= c.ts ensures s in c.used {
      }
    }
    if segToSplit in c.used && FirstUnused(c.ts, c.used, 1).Some? {
      var n := FirstUnused(c.ts, c.used, 1).value;
      assert 1 <= n <= c.ts && n !in c.used;
    }
  }

  /** The old segment of a plan. */
  function PlanOld(v: Volume, p: Plan): (r: seq<Word>)
    requires PlanFits(v, p)
  {
    OldSegment(p.words, p.ew, p.mid, p.newSeg)
  }

  /** The new segment of a plan, linked to where the old segment linked. */
  function PlanNew(v: Volume, p: Plan): (r: seq<Word>)
    requires PlanFits(v, p)
  {
    NewSegment(p.words, p.ew, p.mid, p.words[1])
  }

  /**
   * The two segment writes: the old segment first, then the new one's
   * blocks are read (a failure leaves the old segment written) and written.
   */
  function WriteSegments(v: Volume, p: Plan): (run: SplitRun)
    requires PlanFits(v, p)
    ensures |run.v.blocks| == |v.blocks|
    ensures run.r.Ok? <==> SegmentBlock(p.chain.fdb, p.newSeg) + 1 < |v.blocks|
    ensures run.r.Ok? ==> run.r.value == p.newSeg
  {
    var v1 := WriteSegment(v, SegmentBlock(p.chain.fdb, p.seg), PlanOld(v, p));
    var newBlock := SegmentBlock(p.chain.fdb, p.newSeg);
    match ReadSegment(v1, newBlock)
    case Err(e) => SplitRun(v1, Err(ReadFailed(e)))
    case Ok(_) => SplitRun(WriteSegment(v1, newBlock, PlanNew(v, p)), Ok(p.newSeg))
  }

  /** The highest segment in use after the split: the larger of segment 1's count and the new number, as 16 bits. */
  function NewHighest(p: Plan): (h: Word)
    requires |p.chain.seg1| == SEGMENT_WORDS && p.newSeg < 0x10000
    ensures h >= p.chain.seg1[2] && h >= p.newSeg
    ensures h == p.chain.seg1[2] || h == p.newSeg
  {
    if p.chain.seg1[2] >= p.newSeg then p.chain.seg1[2] else p.newSeg
  }

  /**
   * Segment 1's highest-in-use word, as the program records it: when it
   * grows, segment 1 is written back from the words read at the start.
   */
  function RecordHighestAsWritten(v: Volume, p: Plan): (v': Volume)
    requires p.chain.fdb + 1 < |v.blocks| && |p.chain.seg1| == SEGMENT_WORDS && p.newSeg < 0x10000
    ensures |v'.blocks| == |v.blocks|
  {
    var h := NewHighest(p);
    if h != p.chain.seg1[2] then WriteSegment(v, p.chain.fdb, p.chain.seg1[2 := h]) else v
  }

  /** The same, with segment 1 as it stands after the segment writes. */
  function RecordHighest(v: Volume, p: Plan): (v': Volume)
    requires p.chain.fdb + 1 < |v.blocks| && |p.chain.seg1| == SEGMENT_WORDS && p.newSeg < 0x10000
    ensures |v'.blocks| == |v.blocks|
  {
    var h := NewHighest(p);
    if h != p.chain.seg1[2] then WriteSegment(v, p.chain.fdb, SegmentWordsAt(v, p.chain.fdb)[2 := h]) else v
  }

  /** splitDirectorySegment as the program performs it, with the write of segment 1 from its stale copy. */
  function SplitAsWritten(v: Volume, segToSplit: nat): (run: SplitRun)
    ensures |run.v.blocks| == |v.blocks|
    ensures run.r.Ok? ==> SplitChain(v).Ok? && SplitPlan(v, SplitChain(v).value, segToSplit).Ok?
  {
    match SplitChain(v)
    case Err(e) => SplitRun(v, Err(e))
    case Ok(c) =>
      match SplitPlan(v, c, segToSplit)
      case Err(e) => SplitRun(v, Err(e))
      case Ok(p) =>
        var w := WriteSegments(v, p);
        if w.r.Err? then w else SplitRun(RecordHighestAsWritten(w.v, p), w.r)
  }

  /** splitDirectorySegment with segment 1's highest-in-use word set on segment 1 as the split left it. */
  function SplitOutcome(v: Volume, segToSplit: nat): (run: SplitRun)
    ensures |run.v.blocks| == |v.blocks|
    ensures run.r.Ok? ==> SplitChain(v).Ok? && SplitPlan(v, SplitChain(v).value, segToSplit).Ok?
  {
    match SplitChain(v)
    case Err(e) => SplitRun(v, Err(e))
    case Ok(c) =>
      match SplitPlan(v, c, segToSplit)
      case Err(e) => SplitRun(v, Err(e))
      case Ok(p) =>
        var w := WriteSegments(v, p);
        if w.r.Err? then w else SplitRun(RecordHighest(w.v, p), w.r)
  }

  /** Setting a segment's word 2 (the highest segment in use) leaves its link, slot width and entries as they were. */
  lemma WordTwoKeepsEntries(w: seq<Word>, x: Word)
    requires |w| == SEGMENT_WORDS
    ensures var w' := w[2 := x];
      && w'[1] == w[1] && SlotWords(w') == SlotWords(w)
      && EntrySlots(w', SlotWords(w)) == EntrySlots(w, SlotWords(w))
  {
    var w' := w[2 := x];
    var ew := SlotWords(w);
    assert w'[3] == w[3];
    var ps := EntryPositions(w, ew, FIRST_ENTRY);
    assert EndsEntries(w', ew, PositionsEnd(ps, FIRST_ENTRY, ew));
    PositionsDependOnStatus(w, w', ew, FIRST_ENTRY);
    assert SlotHeads(w', ps) == SlotHeads(w, ps);
  }

  /** What a completed split leaves on the volume, for a plan whose new segment lies inside it. */
  ghost predicate SplitDone(v: Volume, p: Plan, v': Volume)
    requires PlanFits(v, p) && SegmentBlock(p.chain.fdb, p.newSeg) + 1 < |v.blocks|
  {
    var oldB := SegmentBlock(p.chain.fdb, p.seg);
    var newB := SegmentBlock(p.chain.fdb, p.newSeg);
    && |v'.blocks| == |v.blocks|
    && OldHalf(p, SegmentWordsAt(v', oldB))
    && NewHalf(p, SegmentWordsAt(v', newB))
    && SegmentWordsAt(v', p.chain.fdb)[2] == NewHighest(p)
    && (p.seg != 1 ==>
          SegmentWordsAt(v', p.chain.fdb) == (if NewHighest(p) != p.chain.seg1[2] then p.chain.seg1[2 := NewHighest(p)] else p.chain.seg1))
    && OthersKept(v, v', [oldB, newB, p.chain.fdb])
  }

  /** The old segment keeps the entries before the split point and links to the new segment. */
  ghost predicate OldHalf(p: Plan, o: seq<Word>)
    requires |p.words| == SEGMENT_WORDS && p.ew >= 7 && |o| == SEGMENT_WORDS
    requires p.mid < |EntryPositions(p.words, p.ew, FIRST_ENTRY)|
  {
    o[1] == p.newSeg && SlotWords(o) == p.ew && EntrySlots(o, p.ew) == EntrySlots(p.words, p.ew)[..p.mid]
  }

  /** The new segment holds the rest of the entries and links where the old one did. */
  ghost predicate NewHalf(p: Plan, n: seq<Word>)
    requires |p.words| == SEGMENT_WORDS && p.ew >= 7 && |n| == SEGMENT_WORDS
    requires p.mid < |EntryPositions(p.words, p.ew, FIRST_ENTRY)|
  {
    n[1] == p.words[1] && SlotWords(n) == p.ew && EntrySlots(n, p.ew) == EntrySlots(p.words, p.ew)[p.mid..]
  }

  /** Every block outside the segments starting at `segBlocks` is as it was. */
  ghost predicate OthersKept(v: Volume, v': Volume, segBlocks: seq<nat>)
  {
    |v'.blocks| == |v.blocks| &&
    forall b :: 0 <= b < |v.blocks| && (forall s :: s in segBlocks ==> b != s && b != s + 1) ==> v'.blocks[b] == v.blocks[b]
  }

  /** The two segment writes of a plan whose new segment lies inside the volume. */
  lemma WrittenSegments(v: Volume, p: Plan)
    requires PlanFits(v, p) && SegmentBlock(p.chain.fdb, p.newSeg) + 1 < |v.blocks|
    ensures var v2 := WriteSegments(v, p).v;
      var oldB := SegmentBlock(p.chain.fdb, p.seg);
      var newB := SegmentBlock(p.chain.fdb, p.newSeg);
      && |v2.blocks| == |v.blocks|
      && SegmentWordsAt(v2, oldB) == PlanOld(v, p)
      && SegmentWordsAt(v2, newB) == PlanNew(v, p)
      && forall b :: 0 <= b < |v.blocks| && b != oldB && b != oldB + 1 && b != newB && b != newB + 1 ==> v2.blocks[b] == v.blocks[b]
  {
    var oldB := SegmentBlock(p.chain.fdb, p.seg);
    var newB := SegmentBlock(p.chain.fdb, p.newSeg);
    var v1 := WriteSegment(v, oldB, PlanOld(v, p));
    var v2 := WriteSegment(v1, newB, PlanNew(v, p));
    assert WriteSegments(v, p).v == v2;
    assert v2.blocks[oldB] == v1.blocks[oldB] && v2.blocks[oldB + 1] == v1.blocks[oldB + 1];
    assert SegmentWordsAt(v2, oldB) == SegmentWordsAt(v1, oldB);
  }

  /** Segment 1 after the highest-in-use word is recorded on the volume as it stands. */
  lemma RecordedHighest(v: Volume, p: Plan)
    requires p.chain.fdb + 1 < |v.blocks| && |p.chain.seg1| == SEGMENT_WORDS && p.newSeg < 0x10000
    ensures var v' := RecordHighest(v, p);
      && |v'.blocks| == |v.blocks|
      && SegmentWordsAt(v', p.chain.fdb) ==
           (if NewHighest(p) != p.chain.seg1[2] then SegmentWordsAt(v, p.chain.fdb)[2 := NewHighest(p)] else SegmentWordsAt(v, p.chain.fdb))
      && forall b :: 0 <= b < |v.blocks| && b != p.chain.fdb && b != p.chain.fdb + 1 ==> v'.blocks[b] == v.blocks[b]
  {
    if NewHighest(p) != p.chain.seg1[2] {
      var v' := RecordHighest(v, p);
    }
  }

  /**
   * A split that succeeds leaves the entries before the split point in the
   * old segment, linked to the new segment, and the rest in the new
   * segment, linked where the old one was; segment 1 records the highest
   * segment in use (rewritten only when that number changes, and otherwise
   * kept as read when another segment is split), and no other block changes.
   */
  lemma SplitOutcomeDone(v: Volume, segToSplit: nat)
    requires SplitOutcome(v, segToSplit).r.Ok?
    ensures var c := SplitChain(v).value;
      var p := SplitPlan(v, c, segToSplit).value;
      && SegmentBlock(p.chain.fdb, p.newSeg) + 1 < |v.blocks|
      && SplitOutcome(v, segToSplit).r == Ok(p.newSeg)
      && SplitDone(v, p, SplitOutcome(v, segToSplit).v)
  {
    var c := SplitChain(v).value;
    var p := SplitPlan(v, c, segToSplit).value;
    PlanDone(v, p);
  }

  lemma PlanDone(v: Volume, p: Plan)
    requires PlanFits(v, p) && SegmentBlock(p.chain.fdb, p.newSeg) + 1 < |v.blocks|
    ensures SplitDone(v, p, RecordHighest(WriteSegments(v, p).v, p))
  {
    var v2 := WriteSegments(v, p).v;
    WrittenSegments(v, p);
    RecordedHighest(v2, p);
    OldHalfDone(v, p);
    NewHalfDone(v, p);
    HighestDone(v, p);
    FirstKeptDone(v, p);
    OthersDone(v, p);
  }

  lemma FirstKeptDone(v: Volume, p: Plan)
    requires PlanFits(v, p) && SegmentBlock(p.chain.fdb, p.newSeg) + 1 < |v.blocks|
    ensures var v3 := RecordHighest(WriteSegments(v, p).v, p);
      && |v3.blocks| == |v.blocks|
      && (p.seg != 1 ==>
            SegmentWordsAt(v3, p.chain.fdb) == (if NewHighest(p) != p.chain.seg1[2] then p.chain.seg1[2 := NewHighest(p)] else p.chain.seg1))
  {
    var v2 := WriteSegments(v, p).v;
    WrittenSegments(v, p);
    FirstSegmentWritten(v, p);
    RecordedHighest(v2, p);
  }

  lemma OthersDone(v: Volume, p: Plan)
    requires PlanFits(v, p) && SegmentBlock(p.chain.fdb, p.newSeg) + 1 < |v.blocks|
    ensures var oldB := SegmentBlock(p.chain.fdb, p.seg);
      OthersKept(v, RecordHighest(WriteSegments(v, p).v, p), [oldB, SegmentBlock(p.chain.fdb, p.newSeg), p.chain.fdb])
  {
    var v2 := WriteSegments(v, p).v;
    WrittenSegments(v, p);
    RecordedHighest(v2, p);
    var v3 := RecordHighest(v2, p);
    var segBlocks := [SegmentBlock(p.chain.fdb, p.seg), SegmentBlock(p.chain.fdb, p.newSeg), p.chain.fdb];
    forall b | 0 <= b < |v.blocks| && (forall s :: s in segBlocks ==> b != s && b != s + 1)
      ensures v3.blocks[b] == v.blocks[b]
    {
      assert segBlocks[0] in segBlocks && segBlocks[1] in segBlocks && segBlocks[2] in segBlocks;
    }
  }

  lemma OldHalfDone(v: Volume, p: Plan)
    requires PlanFits(v, p) && SegmentBlock(p.chain.fdb, p.newSeg) + 1 < |v.blocks|
    ensures var v3 := RecordHighest(WriteSegments(v, p).v, p);
      |v3.blocks| == |v.blocks| && OldHalf(p, SegmentWordsAt(v3, SegmentBlock(p.chain.fdb, p.seg)))
  {
    var v2 := WriteSegments(v, p).v;
    WrittenSegments(v, p);
    RecordedHighest(v2, p);
    HalvesWritten(v, p);
    if p.seg == 1 {
      WordTwoKeepsEntries(PlanOld(v, p), NewHighest(p));
    } else {
      var v3 := RecordHighest(v2, p);
      var oldB := SegmentBlock(p.chain.fdb, p.seg);
      assert SegmentWordsAt(v3, oldB) == SegmentWordsAt(v2, oldB);
    }
  }

  lemma NewHalfDone(v: Volume, p: Plan)
    requires PlanFits(v, p) && SegmentBlock(p.chain.fdb, p.newSeg) + 1 < |v.blocks|
    ensures var v3 := RecordHighest(WriteSegments(v, p).v, p);
      |v3.blocks| == |v.blocks| && NewHalf(p, SegmentWordsAt(v3, SegmentBlock(p.chain.fdb, p.newSeg)))
  {
    var v2 := WriteSegments(v, p).v;
    WrittenSegments(v, p);
    RecordedHighest(v2, p);
    HalvesWritten(v, p);
    var v3 := RecordHighest(v2, p);
    var newB := SegmentBlock(p.chain.fdb, p.newSeg);
    assert SegmentWordsAt(v3, newB) == SegmentWordsAt(v2, newB);
  }

  lemma HighestDone(v: Volume, p: Plan)
    requires PlanFits(v, p) && SegmentBlock(p.chain.fdb, p.newSeg) + 1 < |v.blocks|
    ensures var v3 := RecordHighest(WriteSegments(v, p).v, p);
      |v3.blocks| == |v.blocks| && SegmentWordsAt(v3, p.chain.fdb)[2] == NewHighest(p)
  {
    var v2 := WriteSegments(v, p).v;
    WrittenSegments(v, p);
    FirstSegmentWritten(v, p);
    RecordedHighest(v2, p);
  }

  /**
   * Segment 1 after the two segment writes: rewritten when it is the one
   * split, untouched otherwise; either way its highest-in-use word is the one
   * read at the start.
   */
  lemma FirstSegmentWritten(v: Volume, p: Plan)
    requires PlanFits(v, p) && SegmentBlock(p.chain.fdb, p.newSeg) + 1 < |v.blocks|
    ensures p.chain.fdb + 1 < |WriteSegments(v, p).v.blocks|
    ensures SegmentWordsAt(WriteSegments(v, p).v, p.chain.fdb)[2] == p.chain.seg1[2]
    ensures p.seg != 1 ==> SegmentWordsAt(WriteSegments(v, p).v, p.chain.fdb) == p.chain.seg1
  {
    var v2 := WriteSegments(v, p).v;
    WrittenSegments(v, p);
    if p.seg == 1 {
      assert SegmentWordsAt(v2, p.chain.fdb) == PlanOld(v, p);
      assert p.words == p.chain.seg1;
      var middleIdx := EntryPositions(p.words, p.ew, FIRST_ENTRY)[p.mid];
      assert middleIdx != 2;
    } else {
      SameSegment(v, v2, p.chain.fdb);
    }
  }

  /** A segment whose two blocks are unchanged reads the same. */
  lemma SameSegment(v: Volume, v': Volume, block: nat)
    requires block + 1 < |v.blocks| && |v'.blocks| == |v.blocks|
    requires v'.blocks[block] == v.blocks[block] && v'.blocks[block + 1] == v.blocks[block + 1]
    ensures SegmentWordsAt(v', block) == SegmentWordsAt(v, block)
  {
  }

  /** The two halves a plan writes are the ones it promises. */
  lemma HalvesWritten(v: Volume, p: Plan)
    requires PlanFits(v, p)
    ensures OldHalf(p, PlanOld(v, p)) && NewHalf(p, PlanNew(v, p))
  {
    SplitKeepsEntries(p.words, p.mid, p.newSeg, p.words[1]);
    OldSegmentSlots(p.words, p.ew, p.mid, p.newSeg);
    NewSegmentSlots(p.words, p.ew, p.mid, p.words[1]);
  }

  /**
   * A split that fails a check leaves the volume as it was; one whose new
   * segment lies past the end of the volume ends with the failed read of
   * the segment writes.
   */
  lemma SplitOutcomeErrors(v: Volume, segToSplit: nat)
    ensures SplitChain(v).Err? ==> SplitOutcome(v, segToSplit) == SplitRun(v, Err(SplitChain(v).error))
    ensures SplitChain(v).Ok? && SplitPlan(v, SplitChain(v).value, segToSplit).Err? ==>
      SplitOutcome(v, segToSplit) == SplitRun(v, Err(SplitPlan(v, SplitChain(v).value, segToSplit).error))
    ensures SplitChain(v).Ok? && SplitPlan(v, SplitChain(v).value, segToSplit).Ok? ==>
      var p := SplitPlan(v, SplitChain(v).value, segToSplit).value;
      SegmentBlock(p.chain.fdb, p.newSeg) + 1 >= |v.blocks| ==> SplitOutcome(v, segToSplit) == WriteSegments(v, p)
  {
  }

  /**
   * A plan whose new segment lies past the end of the volume fails when the
   * new segment's blocks are read, after the old segment has been written:
   * only that segment changed.
   */
  lemma PartialWrite(v: Volume, p: Plan)
    requires PlanFits(v, p)
    requires SegmentBlock(p.chain.fdb, p.newSeg) + 1 >= |v.blocks|
    ensures var newB := SegmentBlock(p.chain.fdb, p.newSeg);
      var oldB := SegmentBlock(p.chain.fdb, p.seg);
      var w := WriteSegments(v, p);
      && w.r == Err(ReadFailed(BlockUnreadable(if newB < |v.blocks| then newB + 1 else newB)))
      && |w.v.blocks| == |v.blocks|
      && OldHalf(p, SegmentWordsAt(w.v, oldB))
      && OthersKept(v, w.v, [oldB])
  {
    var oldB := SegmentBlock(p.chain.fdb, p.seg);
    var newB := SegmentBlock(p.chain.fdb, p.newSeg);
    var v1 := WriteSegment(v, oldB, PlanOld(v, p));
    var e := BlockUnreadable(if newB < |v.blocks| then newB + 1 else newB);
    ReadFails(v1, newB);
    assert WriteSegments(v, p) == SplitRun(v1, Err(ReadFailed(e)));
    HalvesWritten(v, p);
    Written(v, oldB, PlanOld(v, p));
  }

  /** The read of a segment that runs past the end of the volume. */
  lemma ReadFails(v: Volume, block: nat)
    requires block + 1 >= |v.blocks|
    ensures ReadSegment(v, block) == Err(BlockUnreadable(if block < |v.blocks| then block + 1 else block))
  {
  }

  /** A segment write changes no block outside the segment. */
  lemma Written(v: Volume, block: nat, words: seq<Word>)
    requires block + 1 < |v.blocks| && |words| == SEGMENT_WORDS
    ensures OthersKept(v, WriteSegment(v, block, words), [block])
  {
    var v' := WriteSegment(v, block, words);
    forall b | 0 <= b < |v.blocks| && (forall s :: s in [block] ==> b != s && b != s + 1)
      ensures v'.blocks[b] == v.blocks[b]
    {
      assert block in [block];
    }
  }

  /**
   * The program as written and the corrected split agree on every result,
   * and on the volume whenever the segment split is not segment 1.
   */
  lemma AsWrittenAgrees(v: Volume, segToSplit: nat)
    ensures SplitAsWritten(v, segToSplit).r == SplitOutcome(v, segToSplit).r
    ensures segToSplit != 1 ==> SplitAsWritten(v, segToSplit) == SplitOutcome(v, segToSplit)
  {
    if SplitOutcome(v, segToSplit).r.Ok? && segToSplit != 1 {
      var p := SplitPlan(v, SplitChain(v).value, segToSplit).value;
      StaleCopyIsCurrent(v, p);
    }
  }

  /** When the segment split is not segment 1, the words of segment 1 read at the start are still on the volume after the segment writes. */
  lemma StaleCopyIsCurrent(v: Volume, p: Plan)
    requires PlanFits(v, p) && p.seg != 1 && SegmentBlock(p.chain.fdb, p.newSeg) + 1 < |v.blocks|
    ensures RecordHighestAsWritten(WriteSegments(v, p).v, p) == RecordHighest(WriteSegments(v, p).v, p)
  {
    FirstSegmentWritten(v, p);
  }

  /**
   * As written, splitting segment 1 when the new segment number exceeds its
   * highest-in-use word writes segment 1 back from the words read before the
   * split: it keeps its old link, which is never the new segment, and every
   * one of its entries, the moved ones included.
   */
  lemma StaleWriteUndoesSplit(v: Volume)
    requires SplitAsWritten(v, 1).r.Ok?
    ensures var c := SplitChain(v).value;
      var p := SplitPlan(v, c, 1).value;
      var s1 := SegmentWordsAt(SplitAsWritten(v, 1).v, c.fdb);
      p.newSeg > c.seg1[2] ==>
        && s1 == c.seg1[2 := p.newSeg]
        && s1[1] == c.seg1[1] && s1[1] != p.newSeg
        && EntrySlots(s1, p.ew) == EntrySlots(c.seg1, p.ew)
  {
    var c := SplitChain(v).value;
    var p := SplitPlan(v, c, 1).value;
    if p.newSeg > c.seg1[2] {
      StaleWrite(v, p);
      WordTwoKeepsEntries(c.seg1, p.newSeg);
      LinkIsInChain(v, c);
    }
  }

  lemma StaleWrite(v: Volume, p: Plan)
    requires PlanFits(v, p) && SegmentBlock(p.chain.fdb, p.newSeg) + 1 < |v.blocks|
    requires p.newSeg > p.chain.seg1[2]
    ensures var v3 := RecordHighestAsWritten(WriteSegments(v, p).v, p);
      |v3.blocks| == |v.blocks| && SegmentWordsAt(v3, p.chain.fdb) == p.chain.seg1[2 := p.newSeg]
  {
    var v2 := WriteSegments(v, p).v;
    WrittenSegments(v, p);
    var v3 := WriteSegment(v2, p.chain.fdb, p.chain.seg1[2 := p.newSeg]);
  }

  /** Segment 1's link is 0, out of range, or a segment of the chain. */
  lemma LinkIsInChain(v: Volume, c: Chain)
    requires SplitChain(v) == Ok(c)
    ensures 1 <= c.seg1[1] <= c.ts ==> c.seg1[1] in c.used
  {
    assert ReadSegment(v, SegmentBlock(c.fdb, 1)).value == c.seg1;
  }

  // ---------------------------------------------------------------
  // splitDirectorySegment, step by step
  // ---------------------------------------------------------------

  /** The chain walk of a split: each segment is marked before its link is followed; a segment met twice is a loop. */
  method MarkChain(v: Volume, fdb: nat, ts: nat) returns (r: Result<set<nat>, SplitError>)
    ensures r == ChainUsed(v, fdb, ts, 1, {})
  {
    var used: set<nat> := {};
    var cur: nat := 1;
    while cur != 0 && 1 <= cur <= ts
      invariant forall s :: s in used ==> 1 <= s <= ts
      invariant ChainUsed(v, fdb, ts, cur, used) == ChainUsed(v, fdb, ts, 1, {})
      decreases Unvisited(ts, used)
    {
      if cur in used {
        return Err(LinkLoop);
      }
      var w := ReadSegment(v, SegmentBlock(fdb, cur));
      if w.Err? {
        return Err(ReadFailed(w.error));
      }
      VisitShrinks(ts, used, cur);
      used := used + {cur};
      cur := w.value[1];
    }
    return Ok(used);
  }

  /** The smallest segment number from 1 to `ts` that is not in use. */
  method FindUnused(ts: nat, used: set<nat>) returns (r: Option<nat>)
    ensures r == FirstUnused(ts, used, 1)
  {
    var s := 1;
    while s <= ts
      invariant 1 <= s
      invariant FirstUnused(ts, used, s) == FirstUnused(ts, used, 1)
      decreases ts + 1 - s
    {
      if s !in used {
        return Some(s);
      }
      s := s + 1;
    }
    return None;
  }

  /** The word positions of a segment's entries, collected up to the end of the list. */
  method CollectEntries(words: seq<Word>, ew: nat) returns (ps: seq<nat>)
    requires |words| == SEGMENT_WORDS && ew >= 7
    ensures ps == EntryPositions(words, ew, FIRST_ENTRY)
  {
    ps := [];
    var idx: nat := FIRST_ENTRY;
    while idx + ew <= SEGMENT_WORDS
      invariant Collected(words, ew, idx, ps)
      decreases SEGMENT_WORDS - idx
    {
      var st := words[idx];
      if HasBit(st, E_EOS) {
        break;
      }
      if st == 0 {
        break;
      }
      ps, idx := CollectStep(words, ew, idx, ps);
    }
    CollectDone(words, ew, idx, ps);
  }

  /** `ps` followed by the positions from `idx` on are all the positions of the segment. */
  ghost predicate Collected(words: seq<Word>, ew: nat, idx: nat, ps: seq<nat>)
    requires |words| == SEGMENT_WORDS && ew >= 7
  {
    ps + EntryPositions(words, ew, idx) == EntryPositions(words, ew, FIRST_ENTRY)
  }

  /** Records the entry at word `idx` and moves on to the next slot. */
  method CollectStep(words: seq<Word>, ew: nat, idx: nat, ps: seq<nat>) returns (ps': seq<nat>, idx': nat)
    requires |words| == SEGMENT_WORDS && ew >= 7 && !EndsEntries(words, ew, idx)
    requires Collected(words, ew, idx, ps)
    ensures idx' == idx + ew && Collected(words, ew, idx', ps')
  {
    ps' := ps + [idx];
    idx' := idx + ew;
    PositionsCons(words, ew, idx);
    Regroup(ps, idx, EntryPositions(words, ew, idx + ew), EntryPositions(words, ew, idx));
  }

  lemma Regroup(ps: seq<nat>, idx: nat, rest: seq<nat>, all: seq<nat>)
    requires all == [idx] + rest
    ensures ps + all == (ps + [idx]) + rest
  {
  }

  lemma CollectDone(words: seq<Word>, ew: nat, idx: nat, ps: seq<nat>)
    requires |words| == SEGMENT_WORDS && ew >= 7 && EndsEntries(words, ew, idx)
    requires Collected(words, ew, idx, ps)
    ensures ps == EntryPositions(words, ew, FIRST_ENTRY)
  {
    assert EntryPositions(words, ew, idx) == [];
    assert ps + [] == ps;
  }

  /** The indices of the entries that hold a permanent or tentative file, in order. */
  method CollectMovable(words: seq<Word>, ps: seq<nat>) returns (ms: seq<nat>)
    requires forall k :: 0 <= k < |ps| ==> ps[k] < |words|
    ensures ms == MovableFrom(words, ps, 0)
  {
    ms := [];
    var i := 0;
    while i < |ps|
      invariant i <= |ps|
      invariant Gathered(words, ps, i, ms)
    {
      ms := GatherOne(words, ps, i, ms);
      i := i + 1;
    }
    GatheredAll(words, ps, ms);
  }

  /** Adds entry `i` when it holds a file. */
  method GatherOne(words: seq<Word>, ps: seq<nat>, i: nat, ms: seq<nat>) returns (ms': seq<nat>)
    requires forall k :: 0 <= k < |ps| ==> ps[k] < |words|
    requires i < |ps| && Gathered(words, ps, i, ms)
    ensures ms' == if Movable(words[ps[i]]) then ms + [i] else ms
    ensures Gathered(words, ps, i + 1, ms')
  {
    GatherStep(words, ps, i, ms);
    ms' := ms;
    if Movable(words[ps[i]]) {
      ms' := ms + [i];
    }
  }

  lemma GatheredAll(words: seq<Word>, ps: seq<nat>, ms: seq<nat>)
    requires forall k :: 0 <= k < |ps| ==> ps[k] < |words|
    requires Gathered(words, ps, |ps|, ms)
    ensures ms == MovableFrom(words, ps, 0)
  {
    assert MovableFrom(words, ps, |ps|) == [];
    assert ms + [] == ms;
  }

  /** The split point: the middle movable entry, moved back to the middle entry when it is the last. */
  method ChooseSplitPoint(words: seq<Word>, ps: seq<nat>) returns (mid: nat)
    requires forall k :: 0 <= k < |ps| ==> ps[k] < |words|
    requires |ps| > 0
    ensures mid == SplitPoint(words, ps)
  {
    var ms := CollectMovable(words, ps);
    if |ms| > 0 {
      mid := ms[|ms| / 2];
    } else {
      mid := |ps| / 2;
    }
    if mid >= |ps| - 1 {
      mid := |ps| / 2;
    }
  }

  /** `ms` followed by the movable indices from `i` on are all the movable indices. */
  ghost predicate Gathered(words: seq<Word>, ps: seq<nat>, i: nat, ms: seq<nat>)
    requires forall k :: 0 <= k < |ps| ==> ps[k] < |words|
    requires i <= |ps|
  {
    ms + MovableFrom(words, ps, i) == MovableFrom(words, ps, 0)
  }

  lemma GatherStep(words: seq<Word>, ps: seq<nat>, i: nat, ms: seq<nat>)
    requires forall k :: 0 <= k < |ps| ==> ps[k] < |words|
    requires i < |ps| && Gathered(words, ps, i, ms)
    ensures Gathered(words, ps, i + 1, if Movable(words[ps[i]]) then ms + [i] else ms)
  {
    ghost var rest := MovableFrom(words, ps, i + 1);
    if Movable(words[ps[i]]) {
      assert ms + ([i] + rest) == (ms + [i]) + rest;
    }
  }

  /** The old segment: a copy of the segment with an end mark at the split slot and the link to the new segment. */
  method BuildOldSegment(words: seq<Word>, middleIdx: nat, newSeg: Word) returns (a: array<Word>)
    requires |words| == SEGMENT_WORDS && FIRST_ENTRY <= middleIdx < SEGMENT_WORDS
    ensures fresh(a) && a[..] == OldSegmentWords(words, middleIdx, newSeg)
  {
    a := new Word[SEGMENT_WORDS](i requires 0 <= i < SEGMENT_WORDS => words[i]);
    a[middleIdx] := E_EOS;
    a[1] := newSeg;
  }

  /** Copies one entry slot of `ew` words from word `src` of the old segment to word `dest` of the new one. */
  method CopySlot(a: array<Word>, words: seq<Word>, src: nat, dest: nat, ew: nat)
    requires src + ew <= |words| && dest + ew <= a.Length
    modifies a
    ensures forall k :: 0 <= k < a.Length ==> a[k] == if dest <= k < dest + ew then words[src + k - dest] else old(a[k])
  {
    var w := 0;
    while w < ew
      invariant w <= ew
      invariant forall k :: 0 <= k < a.Length ==> a[k] == if dest <= k < dest + w then words[src + k - dest] else old(a[k])
    {
      a[dest + w] := words[src + w];
      w := w + 1;
    }
  }

  /**
   * The new segment while it is built: the old header with the link set,
   * the words from `from` on copied to word 5 up to word `dest`, and zeros
   * beyond.
   */
  ghost function Partial(words: seq<Word>, from: nat, dest: nat, link: Word): (r: seq<Word>)
    requires |words| == SEGMENT_WORDS && FIRST_ENTRY <= dest && dest - FIRST_ENTRY + from <= SEGMENT_WORDS
    ensures |r| == SEGMENT_WORDS
  {
    seq(SEGMENT_WORDS, k requires 0 <= k < SEGMENT_WORDS =>
      if k == 1 then link else if k < FIRST_ENTRY then words[k] else if k < dest then words[k - FIRST_ENTRY + from] else 0)
  }

  /** Moves the slot at word `dest - 5 + from` of the old segment to word `dest` of the new one. */
  method MoveSlot(a: array<Word>, words: seq<Word>, from: nat, dest: nat, ew: nat, link: Word)
    requires |words| == SEGMENT_WORDS && a.Length == SEGMENT_WORDS
    requires FIRST_ENTRY <= dest && dest + ew <= SEGMENT_WORDS && dest - FIRST_ENTRY + from + ew <= SEGMENT_WORDS
    requires a[..] == Partial(words, from, dest, link)
    modifies a
    ensures a[..] == Partial(words, from, dest + ew, link)
  {
    CopySlot(a, words, dest - FIRST_ENTRY + from, dest, ew);
    assert forall k :: 0 <= k < SEGMENT_WORDS ==> a[..][k] == Partial(words, from, dest + ew, link)[k];
  }

  /**
   * The new segment: the old header with the old link, the entries from the
   * split point to the end of the list moved up to word 5, an end mark after
   * them, and zeros beyond.
   */
  method BuildNewSegment(words: seq<Word>, ew: nat, mid: nat, link: Word) returns (a: array<Word>)
    requires |words| == SEGMENT_WORDS && ew >= 7
    requires mid < |EntryPositions(words, ew, FIRST_ENTRY)|
    ensures fresh(a) && a[..] == NewSegment(words, ew, mid, link)
  {
    var ps := EntryPositions(words, ew, FIRST_ENTRY);
    var eos := EndOfEntries(words, ew);
    var from := ps[mid];
    SlotAt(words, ew, ps, eos, mid);
    a := NewHeader(words, link);
    var i := mid;
    var dest := FIRST_ENTRY;
    while i < |ps|
      invariant mid <= i <= |ps| && FIRST_ENTRY <= dest
      invariant dest + from == FIRST_ENTRY + (if i < |ps| then ps[i] else eos)
      invariant a[..] == Partial(words, from, dest, link)
    {
      if dest + ew > SEGMENT_WORDS {
        break;
      }
      i, dest := MoveEntry(a, words, ew, ps, eos, from, i, dest, link);
    }
    assert dest == FIRST_ENTRY + (eos - from);
    PutNewEnd(a, words, from, eos, link);
  }

  /** One step of the move: the i-th entry goes to `dest`, and the next one to the slot after it. */
  method MoveEntry(a: array<Word>, words: seq<Word>, ew: nat, ps: seq<nat>, eos: nat, from: nat, i: nat, dest: nat, link: Word)
    returns (i': nat, dest': nat)
    requires |words| == SEGMENT_WORDS && ew >= 7 && a.Length == SEGMENT_WORDS
    requires ps == EntryPositions(words, ew, FIRST_ENTRY) && eos == EndOfEntries(words, ew)
    requires i < |ps| && FIRST_ENTRY <= dest && FIRST_ENTRY <= from && dest + from == FIRST_ENTRY + ps[i]
    requires a[..] == Partial(words, from, dest, link)
    modifies a
    ensures i' == i + 1 && dest' == dest + ew
    ensures dest' + from == FIRST_ENTRY + (if i' < |ps| then ps[i'] else eos)
    ensures a[..] == Partial(words, from, dest', link)
  {
    SlotAt(words, ew, ps, eos, i);
    MoveSlot(a, words, from, dest, ew, link);
    i' := i + 1;
    dest' := dest + ew;
  }

  /** The slot after the i-th entry: the next entry, or the end of the list after the last one. */
  lemma SlotAt(words: seq<Word>, ew: nat, ps: seq<nat>, eos: nat, i: nat)
    requires |words| == SEGMENT_WORDS && ew >= 7
    requires ps == EntryPositions(words, ew, FIRST_ENTRY) && eos == EndOfEntries(words, ew)
    requires i < |ps|
    ensures FIRST_ENTRY <= ps[i] && ps[i] + ew <= SEGMENT_WORDS && eos <= SEGMENT_WORDS
    ensures (if i + 1 < |ps| then ps[i + 1] else eos) == ps[i] + ew
  {
    if i + 1 < |ps| {
      PositionStep(words, ew, FIRST_ENTRY, i);
    }
  }

  /** Places the end mark after the moved entries, when it fits. */
  method PutNewEnd(a: array<Word>, words: seq<Word>, from: nat, eos: nat, link: Word)
    requires |words| == SEGMENT_WORDS && FIRST_ENTRY <= from <= eos <= SEGMENT_WORDS && a.Length == SEGMENT_WORDS
    requires a[..] == Partial(words, from, FIRST_ENTRY + (eos - from), link)
    modifies a
    ensures a[..] == NewSegmentWords(words, from, eos, link)
  {
    var dest := FIRST_ENTRY + (eos - from);
    if dest < SEGMENT_WORDS {
      a[dest] := E_EOS;
    }
    NewSegmentBuilt(words, from, eos, link);
  }

  /** An array holding the header of the new segment, zeros elsewhere. */
  method NewHeader(words: seq<Word>, link: Word) returns (a: array<Word>)
    requires |words| == SEGMENT_WORDS
    ensures fresh(a) && a[..] == Partial(words, 0, FIRST_ENTRY, link)
  {
    a := new Word[SEGMENT_WORDS](_ => 0);
    a[0] := words[0];
    a[1] := link;
    a[2] := words[2];
    a[3] := words[3];
    a[4] := words[4];
    assert forall k :: 0 <= k < SEGMENT_WORDS ==> a[..][k] == Partial(words, 0, FIRST_ENTRY, link)[k];
  }

  /** With every entry moved and the end mark placed, the new segment is complete. */
  lemma NewSegmentBuilt(words: seq<Word>, from: nat, eos: nat, link: Word)
    requires |words| == SEGMENT_WORDS && FIRST_ENTRY <= from <= eos <= SEGMENT_WORDS
    ensures var dest := FIRST_ENTRY + (eos - from);
      var r := Partial(words, from, dest, link);
      (if dest < SEGMENT_WORDS then r[dest := E_EOS] else r) == NewSegmentWords(words, from, eos, link)
  {
  }

  /** The checks on segment 1 and the chain walk. */
  method CheckChain(v: Volume) returns (r: Result<Chain, SplitError>)
    ensures r == SplitChain(v)
  {
    var fdbOrError := FirstDirectoryBlock(v);
    if fdbOrError.Err? {
      return Err(ReadFailed(fdbOrError.error));
    }
    var fdb := fdbOrError.value;
    var seg1OrError := ReadSegment(v, fdb);
    if seg1OrError.Err? {
      return Err(ReadFailed(seg1OrError.error));
    }
    var seg1 := seg1OrError.value;
    var ts := seg1[0];
    if ts == 0 || ts > MAX_SEGMENTS {
      return Err(InvalidSegmentCount);
    }
    var used := MarkChain(v, fdb, ts);
    if used.Err? {
      return Err(used.error);
    }
    return Ok(Chain(fdb, seg1, ts, used.value));
  }

  /** The checks on the segment to split, the new segment number, and the split point. */
  method MakePlan(v: Volume, c: Chain, segToSplit: nat) returns (r: Result<Plan, SplitError>)
    requires SplitChain(v) == Ok(c)
    ensures r == SplitPlan(v, c, segToSplit)
  {
    if segToSplit < 1 || segToSplit > c.ts || segToSplit !in c.used {
      return Err(NotInChain);
    }
    var newSeg := FindUnused(c.ts, c.used);
    if newSeg.None? {
      return Err(DirectoryFull);
    }
    var words := SegmentWordsAt(v, SegmentBlock(c.fdb, segToSplit));
    var ew := SlotWords(words);
    var ps := CollectEntries(words, ew);
    if |ps| == 0 {
      return Err(EmptySegment);
    }
    var mid := ChooseSplitPoint(words, ps);
    return Ok(Plan(c, segToSplit, newSeg.value, words, ew, mid));
  }

  /** The old segment is written, then the new segment's blocks are read and the new segment written. */
  method WriteHalves(v: Volume, p: Plan) returns (run: SplitRun)
    requires PlanFits(v, p)
    ensures run == WriteSegments(v, p)
  {
    var ps := EntryPositions(p.words, p.ew, FIRST_ENTRY);
    var oldWords := BuildOldSegment(p.words, ps[p.mid], p.newSeg);
    var v1 := WriteSegment(v, SegmentBlock(p.chain.fdb, p.seg), oldWords[..]);
    var newBlock := SegmentBlock(p.chain.fdb, p.newSeg);
    var check := ReadSegment(v1, newBlock);
    if check.Err? {
      return SplitRun(v1, Err(ReadFailed(check.error)));
    }
    var newWords := BuildNewSegment(p.words, p.ew, p.mid, p.words[1]);
    return SplitRun(WriteSegment(v1, newBlock, newWords[..]), Ok(p.newSeg));
  }

  /**
   * splitDirectorySegment: the checks, the two segment writes, and segment
   * 1's highest-in-use word, set on segment 1 as the writes left it.
   */
  method SplitDirectorySegment(v: Volume, segToSplit: nat) returns (run: SplitRun)
    ensures run == SplitOutcome(v, segToSplit)
  {
    var c := CheckChain(v);
    if c.Err? {
      return SplitRun(v, Err(c.error));
    }
    var p := MakePlan(v, c.value, segToSplit);
    if p.Err? {
      return SplitRun(v, Err(p.error));
    }
    run := WriteHalves(v, p.value);
    if run.r.Err? {
      return;
    }
    var oldHighest := c.value.seg1[2];
    var newHighest: Word := if oldHighest >= p.value.newSeg then oldHighest else p.value.newSeg;
    if newHighest != oldHighest {
      var seg1 := SegmentWordsAt(run.v, c.value.fdb);
      run := SplitRun(WriteSegment(run.v, c.value.fdb, seg1[2 := newHighest]), run.r);
    }
  }
}
