/**
 * copySingleToRt11: one attempt to copy a host file onto an RT-11 volume.
 * It reads the directory, refuses to replace a permanent file when asked
 * not to, takes the first empty area that is large enough, and rewrites
 * that area's directory segment. When the segment has no room for the
 * empty entry of the blocks left over, the attempt stops with the segment
 * to split; the caller splits it and makes a fresh attempt.
 */
module Copy {
  import opened Wrappers
  import opened Words
  import Rad50
  import Names
  import opened Directory
  import opened Allocation

  datatype CopyError =
    | BadName                    // the host name has no name part
    | EmptyImage                 // the image holds no whole block
    | ReadFailed(e: ReadError)   // reading the directory failed
    | NoSpace                    // no empty area is large enough
    | InvalidRange               // the chosen area starts at block 0 or runs past the image
    | ChosenTooSmall             // the chosen slot's length word is below the need

  datatype Outcome =
    | Copied(v: Volume)          // the volume with the updated segment
    | Skipped                    // no-replace, and a permanent file of that name exists
    | SplitNeeded(seg: nat)      // segment `seg` must be split before the copy can go on

  /** What the update of the chosen segment comes to. */
  datatype SegmentStep = TooSmall | NoRoom | Updated(words: seq<Word>)

  /** The date of the new entry: the date given, or the system date when none (0) is given. */
  function DateFor(optionalDate: Word, systemDate: Word): (d: Word)
    ensures d == optionalDate || d == systemDate
    ensures d == 0 ==> optionalDate == 0
    ensures optionalDate != 0 ==> d == optionalDate
    ensures optionalDate == 0 ==> d == systemDate
  {
    if optionalDate != 0 then optionalDate else systemDate
  }

  /** The name words of the new entry, from the normalized name. */
  function NameWordsOf(rtname: string): NameWords
  {
    var (n1, n2, x) := Rad50.EncodeFileName(rtname);
    NameWords(n1, n2, x)
  }

  /**
   * The update of the segment `words` for the slot at `idx`: check the
   * slot's length word, work out the blocks left over, find the end of the
   * list, ask for a split when the list cannot grow by a slot and an end
   * slot, and otherwise write the permanent entry (and the empty entry).
   */
  function UpdateChosen(words: seq<Word>, idx: nat, needed: nat, nw: NameWords, date: Word): (s: SegmentStep)
    requires |words| == SEGMENT_WORDS
    requires idx in EntryPositions(words, SlotWords(words), FIRST_ENTRY)
  {
    var ew := SlotWords(words);
    var originalLen := words[idx + 4];
    if originalLen < needed then TooSmall
    else
      var remaining: Word := originalLen - needed;
      var eos := EndOfEntries(words, ew);
      if NeedsSplit(eos, ew, remaining) then NoRoom
      else
        SlotBeforeEnd(words, ew, idx);
        Updated(UpdateCorrected(words, ew, idx, eos, PermanentWords(nw, needed, date), remaining))
  }

  /** A slot of the entry list ends at or before the end of the list. */
  lemma SlotBeforeEnd(words: seq<Word>, ew: nat, idx: nat)
    requires |words| == SEGMENT_WORDS && ew >= 7
    requires idx in EntryPositions(words, ew, FIRST_ENTRY)
    ensures FIRST_ENTRY <= idx && idx + ew <= EndOfEntries(words, ew)
  {
    var ps := EntryPositions(words, ew, FIRST_ENTRY);
    var j :| 0 <= j < |ps| && ps[j] == idx;
    PositionsSpaced(words, ew, FIRST_ENTRY, j, |ps|);
  }

  /**
   * The chosen entry lies in a segment the reader decoded: its segment is
   * inside the image, and its word index is one of that segment's slots.
   */
  lemma ChosenSlot(v: Volume, k: nat)
    requires DirectoryOf(v).Ok? && k < |DirectoryOf(v).value.entries|
    ensures FirstDirectoryBlock(v).Ok?
    ensures var e := DirectoryOf(v).value.entries[k];
      var fdb := FirstDirectoryBlock(v).value;
      && 1 <= e.segNumber && SegmentBlock(fdb, e.segNumber) + 1 < |v.blocks|
      && var words := SegmentWordsAt(v, SegmentBlock(fdb, e.segNumber));
      && e.wordIndex in EntryPositions(words, SlotWords(words), FIRST_ENTRY)
      && EntryDecodedAt(words, e, e.wordIndex, e.segNumber)
  {
    var fdb := FirstDirectoryBlock(v).value;
    var first := ParseSegmentHeader(SegmentWordsAt(v, fdb));
    WalkEntriesDecoded(v, fdb, ClampSegments(first.totalSegments), first.dataStartBlock, 1, {}, 0);
    assert DirectoryOf(v).value.entries[k] in DirectoryOf(v).value.entries;
  }

  /** Some permanent entry of the listing already carries the name `rtname`. */
  predicate AnyPermanentNamed(es: seq<Entry>, rtname: string)
  {
    exists k :: 0 <= k < |es| && PermanentNamed(es[k], rtname)
  }

  /**
   * One copy attempt on volume `v` of a host file named `hostName` holding
   * `size` bytes. `systemDate` stands for the clock's date word.
   */
  function CopyOnce(v: Volume, hostName: string, size: nat, noReplace: bool, optionalDate: Word, systemDate: Word)
    : (r: Result<Outcome, CopyError>)
  {
    match Names.NormalizeRt11Name(hostName)
    case Err(_) => Err(BadName)
    case Ok(rtname) =>
      if |v.blocks| == 0 then Err(EmptyImage)
      else match DirectoryOf(v)
        case Err(re) => Err(ReadFailed(re))
        case Ok(l) => PlaceInListing(v, l, rtname, size, noReplace, DateFor(optionalDate, systemDate))
  }

  /** The copy attempt once the directory has been read into `l`: the no-replace test, first fit, and the allocation. */
  function PlaceInListing(v: Volume, l: Listing, rtname: string, size: nat, noReplace: bool, date: Word)
    : (r: Result<Outcome, CopyError>)
    requires DirectoryOf(v) == Ok(l)
  {
    if noReplace && AnyPermanentNamed(l.entries, rtname) then Ok(Skipped)
    else
      var needed := BlocksNeeded(size);
      match FirstFit(l.entries, needed)
      case None => Err(NoSpace)
      case Some(k) => AllocateAt(v, k, needed, NameWordsOf(rtname), date)
  }

  /** The first block of the segment that holds the k-th listed entry. */
  function ChosenBlock(v: Volume, k: nat): (b: nat)
    requires DirectoryOf(v).Ok? && k < |DirectoryOf(v).value.entries|
    ensures b + 1 < |v.blocks|
  {
    ChosenSlot(v, k);
    SegmentBlock(FirstDirectoryBlock(v).value, DirectoryOf(v).value.entries[k].segNumber)
  }

  /** The position of the slot at word `idx` in the list of slot positions. */
  ghost function SlotIndex(words: seq<Word>, idx: nat): (j: nat)
    requires |words| == SEGMENT_WORDS
    requires idx in EntryPositions(words, SlotWords(words), FIRST_ENTRY)
    ensures j < |EntryPositions(words, SlotWords(words), FIRST_ENTRY)|
    ensures EntryPositions(words, SlotWords(words), FIRST_ENTRY)[j] == idx
  {
    var ps := EntryPositions(words, SlotWords(words), FIRST_ENTRY);
    var j :| 0 <= j < |ps| && ps[j] == idx;
    j
  }

  /**
   * The attempt once the k-th listed entry is chosen for `needed` blocks:
   * refuse a range that starts at block 0 or runs past the image, then
   * update the chosen entry's segment and write it back.
   */
  function AllocateAt(v: Volume, k: nat, needed: nat, nw: NameWords, date: Word): (r: Result<Outcome, CopyError>)
    requires DirectoryOf(v).Ok? && k < |DirectoryOf(v).value.entries|
  {
    var e := DirectoryOf(v).value.entries[k];
    if e.startBlock == 0 || e.startBlock + needed - 1 >= |v.blocks| then Err(InvalidRange)
    else
      ChosenSlot(v, k);
      var segBlock := ChosenBlock(v, k);
      var words := SegmentWordsAt(v, segBlock);
      match UpdateChosen(words, e.wordIndex, needed, nw, date)
      case TooSmall => Err(ChosenTooSmall)
      case NoRoom => Ok(SplitNeeded(e.segNumber))
      case Updated(words') => Ok(Copied(WriteSegment(v, segBlock, words')))
  }

  /** The slots of a segment, with the width its header gives. */
  function Slots(words: seq<Word>): seq<seq<Word>>
    requires |words| == SEGMENT_WORDS
  {
    EntrySlots(words, SlotWords(words))
  }

  /**
   * Which way the update of the j-th slot goes: it fails exactly when the
   * slot's length word is below the need, and asks for a split exactly when
   * blocks are left over and the list has no room to grow.
   */
  lemma UpdateChosenOutcome(words: seq<Word>, j: nat, needed: nat, nw: NameWords, date: Word)
    requires |words| == SEGMENT_WORDS
    requires j < |EntryPositions(words, SlotWords(words), FIRST_ENTRY)|
    ensures var ew := SlotWords(words);
      var idx := EntryPositions(words, ew, FIRST_ENTRY)[j];
      var s := UpdateChosen(words, idx, needed, nw, date);
      && (s == TooSmall <==> words[idx + 4] < needed)
      && (s == NoRoom <==> needed <= words[idx + 4] && NeedsSplit(EndOfEntries(words, ew), ew, words[idx + 4] - needed))
  {
    var ps := EntryPositions(words, SlotWords(words), FIRST_ENTRY);
    assert ps[j] in ps;
  }

  /**
   * When the update of the j-th slot goes through, the segment keeps its
   * header, the j-th slot holds the new permanent entry, the empty entry for
   * the blocks left over (if any) follows it, every other entry is kept in
   * order, and the total of the length words is unchanged.
   */
  lemma UpdateChosenSlots(words: seq<Word>, j: nat, needed: nat, nw: NameWords, date: Word)
    requires |words| == SEGMENT_WORDS
    requires j < |EntryPositions(words, SlotWords(words), FIRST_ENTRY)|
    ensures var idx := EntryPositions(words, SlotWords(words), FIRST_ENTRY)[j];
      UpdateChosen(words, idx, needed, nw, date).Updated? ==>
        UpdatedAsPromised(words, j, needed, PermanentWords(nw, needed, date),
                          UpdateChosen(words, idx, needed, nw, date).words)
  {
    var ew := SlotWords(words);
    var ps := EntryPositions(words, ew, FIRST_ENTRY);
    var idx := ps[j];
    assert idx in ps;
    var s := UpdateChosen(words, idx, needed, nw, date);
    if s.Updated? {
      var eos := EndOfEntries(words, ew);
      ChosenFits(words, idx, needed, nw, date);
      var remaining: Word := words[idx + 4] - needed;
      var perm := PermanentWords(nw, needed, date);
      ChosenUpdated(words, ew, idx, eos, needed, nw, date, remaining);
      UpdatedAt(words, j, idx, needed, perm, remaining);
    }
  }

  lemma ChosenFits(words: seq<Word>, idx: nat, needed: nat, nw: NameWords, date: Word)
    requires |words| == SEGMENT_WORDS
    requires idx in EntryPositions(words, SlotWords(words), FIRST_ENTRY)
    requires UpdateChosen(words, idx, needed, nw, date).Updated?
    ensures needed <= words[idx + 4]
  {
  }

  lemma ChosenUpdated(words: seq<Word>, ew: nat, idx: nat, eos: nat, needed: nat, nw: NameWords, date: Word, remaining: Word)
    requires |words| == SEGMENT_WORDS && ew == SlotWords(words) && eos == EndOfEntries(words, ew)
    requires idx in EntryPositions(words, ew, FIRST_ENTRY)
    requires UpdateChosen(words, idx, needed, nw, date).Updated?
    requires remaining as int == words[idx + 4] - needed
    ensures !NeedsSplit(eos, ew, remaining) && idx + ew <= eos
    ensures UpdateChosen(words, idx, needed, nw, date).words
      == UpdateCorrected(words, ew, idx, eos, PermanentWords(nw, needed, date), remaining)
  {
    SlotBeforeEnd(words, ew, idx);
    assert (words[idx + 4] - needed) as Word == remaining;
  }

  /**
   * `w'` is the segment `words` after the j-th slot took the permanent entry
   * `perm` of `needed` blocks: the header is kept, the j-th slot holds
   * `perm`, the empty entry for the blocks left over (if any) follows it,
   * every other entry is kept in order, and the total of the length words is
   * unchanged.
   */
  ghost predicate UpdatedAsPromised(words: seq<Word>, j: nat, needed: nat, perm: seq<Word>, w': seq<Word>)
    requires |words| == SEGMENT_WORDS
    requires j < |EntryPositions(words, SlotWords(words), FIRST_ENTRY)|
  {
    var hs := Slots(words);
    && needed <= hs[j][4]
    && |w'| == SEGMENT_WORDS
    && w'[..FIRST_ENTRY] == words[..FIRST_ENTRY]
    && Slots(w') == UpdatedSlots(hs, j, perm, needed)
    && LengthTotal(Slots(w')) == LengthTotal(hs)
  }

  /**
   * The slot list after the j-th slot takes `perm` for `needed` of its
   * blocks, followed by an empty entry for the blocks left over, if any.
   */
  function UpdatedSlots(hs: seq<seq<Word>>, j: nat, perm: seq<Word>, needed: nat): seq<seq<Word>>
    requires j < |hs| && |hs[j]| > 4 && needed <= hs[j][4]
  {
    var remaining: Word := hs[j][4] - needed;
    if remaining == 0 then hs[j := perm] else Inserted(hs, j, perm, EmptyWords(remaining))
  }

  /** `UpdatedSlots` with the number of blocks left over named. */
  lemma UpdatedSlotsIs(hs: seq<seq<Word>>, j: nat, perm: seq<Word>, needed: nat, remaining: Word)
    requires j < |hs| && |hs[j]| > 4 && needed <= hs[j][4]
    requires remaining as int == hs[j][4] - needed
    ensures UpdatedSlots(hs, j, perm, needed)
      == if remaining == 0 then hs[j := perm] else Inserted(hs, j, perm, EmptyWords(remaining))
  {
  }

  /**
   * The update of the j-th slot with the permanent entry `perm` of `needed`
   * blocks, when the list has room for it, does what `UpdatedAsPromised`
   * says.
   */
  lemma UpdatedAt(words: seq<Word>, j: nat, idx: nat, needed: nat, perm: seq<Word>, remaining: Word)
    requires |words| == SEGMENT_WORDS && |perm| == 7 && perm[0] == E_PERM && perm[4] == needed
    requires j < |EntryPositions(words, SlotWords(words), FIRST_ENTRY)|
    requires idx == EntryPositions(words, SlotWords(words), FIRST_ENTRY)[j]
    requires remaining as int == words[idx + 4] - needed
    requires !NeedsSplit(EndOfEntries(words, SlotWords(words)), SlotWords(words), remaining)
    ensures idx + SlotWords(words) <= EndOfEntries(words, SlotWords(words))
    ensures UpdatedAsPromised(words, j, needed, perm,
      UpdateCorrected(words, SlotWords(words), idx, EndOfEntries(words, SlotWords(words)), perm, remaining))
  {
    UpdateKeepsEntries(words, SlotWords(words), j, perm, remaining);
    SlotHeadIs(words, j, idx);
    UpdatedHeader(words, j, idx, perm, remaining);
    UpdatedSlotsOf(words, j, idx, needed, perm, remaining);
    UpdatedSlotsTotal(Slots(words), j, perm, needed);
    Promised(words, j, needed, perm,
      UpdateCorrected(words, SlotWords(words), idx, EndOfEntries(words, SlotWords(words)), perm, remaining));
  }

  /** The head of the j-th slot is the seven words at its position. */
  lemma SlotHeadIs(words: seq<Word>, j: nat, idx: nat)
    requires |words| == SEGMENT_WORDS && j < |EntryPositions(words, SlotWords(words), FIRST_ENTRY)|
    requires idx == EntryPositions(words, SlotWords(words), FIRST_ENTRY)[j]
    ensures |Slots(words)[j]| == 7 && Slots(words)[j][4] == words[idx + 4]
  {
    assert Slots(words) == SlotHeads(words, EntryPositions(words, SlotWords(words), FIRST_ENTRY));
  }

  /** The update keeps the segment header, and so the slot size. */
  lemma UpdatedHeader(words: seq<Word>, j: nat, idx: nat, perm: seq<Word>, remaining: Word)
    requires |words| == SEGMENT_WORDS && |perm| == 7 && j < |EntryPositions(words, SlotWords(words), FIRST_ENTRY)|
    requires idx == EntryPositions(words, SlotWords(words), FIRST_ENTRY)[j]
    requires idx + SlotWords(words) <= EndOfEntries(words, SlotWords(words))
    requires !NeedsSplit(EndOfEntries(words, SlotWords(words)), SlotWords(words), remaining)
    ensures var r := UpdateCorrected(words, SlotWords(words), idx, EndOfEntries(words, SlotWords(words)), perm, remaining);
      r[..FIRST_ENTRY] == words[..FIRST_ENTRY] && SlotWords(r) == SlotWords(words)
  {
    UpdateKeepsHeader(words, SlotWords(words), idx, EndOfEntries(words, SlotWords(words)), perm, remaining);
  }

  /** The slots after the update, as `UpdatedSlots` gives them. */
  lemma UpdatedSlotsOf(words: seq<Word>, j: nat, idx: nat, needed: nat, perm: seq<Word>, remaining: Word)
    requires |words| == SEGMENT_WORDS && |perm| == 7 && perm[0] == E_PERM
    requires j < |EntryPositions(words, SlotWords(words), FIRST_ENTRY)|
    requires idx == EntryPositions(words, SlotWords(words), FIRST_ENTRY)[j]
    requires |Slots(words)[j]| == 7 && Slots(words)[j][4] == words[idx + 4]
    requires remaining as int == words[idx + 4] - needed
    requires !NeedsSplit(EndOfEntries(words, SlotWords(words)), SlotWords(words), remaining)
    requires idx + SlotWords(words) <= EndOfEntries(words, SlotWords(words))
    requires var r := UpdateCorrected(words, SlotWords(words), idx, EndOfEntries(words, SlotWords(words)), perm, remaining);
      SlotWords(r) == SlotWords(words)
    ensures var r := UpdateCorrected(words, SlotWords(words), idx, EndOfEntries(words, SlotWords(words)), perm, remaining);
      Slots(r) == UpdatedSlots(Slots(words), j, perm, needed)
  {
    var r := UpdateCorrected(words, SlotWords(words), idx, EndOfEntries(words, SlotWords(words)), perm, remaining);
    UpdateKeepsEntries(words, SlotWords(words), j, perm, remaining);
    assert Slots(r) == EntrySlots(r, SlotWords(words));
    UpdatedSlotsIs(Slots(words), j, perm, needed, remaining);
  }

  /** The conjuncts of `UpdatedAsPromised`, gathered. */
  lemma Promised(words: seq<Word>, j: nat, needed: nat, perm: seq<Word>, r: seq<Word>)
    requires |words| == SEGMENT_WORDS && j < |EntryPositions(words, SlotWords(words), FIRST_ENTRY)|
    requires |Slots(words)[j]| == 7 && needed <= Slots(words)[j][4]
    requires |r| == SEGMENT_WORDS && r[..FIRST_ENTRY] == words[..FIRST_ENTRY]
    requires Slots(r) == UpdatedSlots(Slots(words), j, perm, needed)
    requires LengthTotal(UpdatedSlots(Slots(words), j, perm, needed)) == LengthTotal(Slots(words))
    ensures UpdatedAsPromised(words, j, needed, perm, r)
  {
  }

  /** Either way the update goes, the length words of the slots keep their total. */
  lemma UpdatedSlotsTotal(hs: seq<seq<Word>>, j: nat, perm: seq<Word>, needed: nat)
    requires j < |hs| && |hs[j]| > 4 && needed <= hs[j][4]
    requires |perm| == 7 && perm[4] == needed
    ensures LengthTotal(UpdatedSlots(hs, j, perm, needed)) == LengthTotal(hs)
  {
    var remaining: Word := hs[j][4] - needed;
    if remaining == 0 {
      ReplacedLengthTotal(hs, j, perm);
    } else {
      InsertedLengthTotal(hs, j, perm, EmptyWords(remaining));
    }
  }

  // ---------------------------------------------------------------
  // What one copy attempt comes to
  // ---------------------------------------------------------------

  /**
   * The refusals before an area is chosen, each exactly when its test is the
   * first to fail: a name with no name part, an image with no block, a
   * directory that cannot be read (with the reader's error), a permanent
   * file of the same name under no-replace, and no empty area large enough.
   */
  lemma CopyOnceRefusals(v: Volume, hostName: string, size: nat, noReplace: bool, optionalDate: Word, systemDate: Word)
    ensures var r := CopyOnce(v, hostName, size, noReplace, optionalDate, systemDate);
      var name := Names.NormalizeRt11Name(hostName);
      && (r == Err(BadName) <==> name.Err?)
      && (r == Err(EmptyImage) <==> name.Ok? && |v.blocks| == 0)
      && (r.Err? && r.error.ReadFailed? <==> name.Ok? && |v.blocks| > 0 && DirectoryOf(v).Err?)
      && (r.Err? && r.error.ReadFailed? ==> r.error.e == DirectoryOf(v).error)
      && (r == Ok(Skipped) <==>
            name.Ok? && |v.blocks| > 0 && DirectoryOf(v).Ok? && noReplace
            && AnyPermanentNamed(DirectoryOf(v).value.entries, name.value))
      && (r == Err(NoSpace) <==>
            name.Ok? && |v.blocks| > 0 && DirectoryOf(v).Ok?
            && !(noReplace && AnyPermanentNamed(DirectoryOf(v).value.entries, name.value))
            && forall k :: 0 <= k < |DirectoryOf(v).value.entries| ==> !Usable(DirectoryOf(v).value.entries[k], BlocksNeeded(size)))
  {
    var name := Names.NormalizeRt11Name(hostName);
    if name.Ok? && |v.blocks| > 0 && DirectoryOf(v).Ok? {
      var es := DirectoryOf(v).value.entries;
      var needed := BlocksNeeded(size);
      if FirstFit(es, needed).Some? {
        AllocateAtOutcome(v, FirstFit(es, needed).value, needed,
          NameWordsOf(name.value), DateFor(optionalDate, systemDate));
      }
    }
  }

  /**
   * When a usable area is chosen, the attempt refuses exactly a range that
   * starts at block 0 or runs past the image, and otherwise ends in a copy
   * or a split request, never in an error: the chosen slot is never found
   * too small. The split is asked for the chosen entry's segment, exactly
   * when blocks are left over and the list cannot take one more slot and
   * the end slot.
   */
  lemma AllocateAtOutcome(v: Volume, k: nat, needed: nat, nw: NameWords, date: Word)
    requires DirectoryOf(v).Ok? && k < |DirectoryOf(v).value.entries|
    requires Usable(DirectoryOf(v).value.entries[k], needed)
    ensures var r := AllocateAt(v, k, needed, nw, date);
      var e := DirectoryOf(v).value.entries[k];
      var words := SegmentWordsAt(v, ChosenBlock(v, k));
      && (r == Err(InvalidRange) <==> e.startBlock == 0 || e.startBlock + needed - 1 >= |v.blocks|)
      && r != Err(ChosenTooSmall)
      && (r.Err? ==> r == Err(InvalidRange))
      && (r.Ok? && r.value.SplitNeeded? ==> r.value.seg == e.segNumber)
      && (r.Ok? ==> (r.value.SplitNeeded? <==> NeedsSplit(EndOfEntries(words, SlotWords(words)), SlotWords(words), e.lengthBlocks - needed)))
  {
    var e := DirectoryOf(v).value.entries[k];
    ChosenSlot(v, k);
    var words := SegmentWordsAt(v, ChosenBlock(v, k));
    UpdateChosenOutcome(words, SlotIndex(words, e.wordIndex), needed, nw, date);
  }

  /**
   * A copy changes the volume only in the two blocks of the chosen entry's
   * segment, whose words are the old ones with the chosen slot taken by the
   * permanent entry for the file, as `UpdatedAsPromised` says.
   */
  lemma AllocateAtCopies(v: Volume, k: nat, needed: nat, nw: NameWords, date: Word)
    requires DirectoryOf(v).Ok? && k < |DirectoryOf(v).value.entries|
    requires AllocateAt(v, k, needed, nw, date).Ok? && AllocateAt(v, k, needed, nw, date).value.Copied?
    ensures var v' := AllocateAt(v, k, needed, nw, date).value.v;
      var segBlock := ChosenBlock(v, k);
      var words := SegmentWordsAt(v, segBlock);
      && |v'.blocks| == |v.blocks|
      && (forall b :: 0 <= b < |v.blocks| && b != segBlock && b != segBlock + 1 ==> v'.blocks[b] == v.blocks[b])
      && DirectoryOf(v).value.entries[k].wordIndex in EntryPositions(words, SlotWords(words), FIRST_ENTRY)
      && UpdatedAsPromised(words, SlotIndex(words, DirectoryOf(v).value.entries[k].wordIndex), needed,
           PermanentWords(nw, needed, date), SegmentWordsAt(v', segBlock))
  {
    var e := DirectoryOf(v).value.entries[k];
    ChosenSlot(v, k);
    var segBlock := ChosenBlock(v, k);
    var words := SegmentWordsAt(v, segBlock);
    var s := UpdateChosen(words, e.wordIndex, needed, nw, date);
    UpdateChosenSlots(words, SlotIndex(words, e.wordIndex), needed, nw, date);
    var v' := WriteSegment(v, segBlock, s.words);
    assert SegmentWordsAt(v', segBlock) == s.words;
  }

  // ---------------------------------------------------------------
  // The update of the chosen segment as written
  // ---------------------------------------------------------------

  /**
   * What the update as written comes to: the same outcomes as the corrected
   * one, or a shift that would write past word 511 of the segment buffer.
   */
  datatype StepAsWritten = Step(s: SegmentStep) | ShiftOverrun

  /**
   * The update of the slot at `idx` exactly as the copy performs it: the
   * length test, the end of the list, the room test on the chosen slot
   * alone (a split when the empty entry and one more slot after it would
   * pass word 512), then the update that puts the end slot right after the
   * empty entry. When blocks are left over and the shifted list would pass
   * word 512, the program writes outside its buffer; that is `ShiftOverrun`.
   */
  function UpdateChosenAsWritten(words: seq<Word>, idx: nat, needed: nat, nw: NameWords, date: Word): (s: StepAsWritten)
    requires |words| == SEGMENT_WORDS
    requires idx in EntryPositions(words, SlotWords(words), FIRST_ENTRY)
  {
    var ew := SlotWords(words);
    var originalLen := words[idx + 4];
    if originalLen < needed then Step(TooSmall)
    else
      var remaining: Word := originalLen - needed;
      var eos := EndOfEntries(words, ew);
      SlotBeforeEnd(words, ew, idx);
      if NeedsSplitAsWritten(idx, ew, remaining) then Step(NoRoom)
      else if remaining > 0 && eos + ew > SEGMENT_WORDS then ShiftOverrun
      else Step(Updated(UpdateAsWritten(words, ew, idx, eos, PermanentWords(nw, needed, date), remaining)))
  }

  /**
   * When the chosen slot is the last one before the end of the list, the
   * room test as written and the intended one agree, nothing is shifted and
   * the end slot lands in the same place: the update as written is the
   * corrected one.
   */
  lemma AsWrittenAgreesAtEnd(words: seq<Word>, idx: nat, needed: nat, nw: NameWords, date: Word)
    requires |words| == SEGMENT_WORDS
    requires idx in EntryPositions(words, SlotWords(words), FIRST_ENTRY)
    requires idx + SlotWords(words) == EndOfEntries(words, SlotWords(words))
    ensures UpdateChosenAsWritten(words, idx, needed, nw, date) == Step(UpdateChosen(words, idx, needed, nw, date))
  {
    var ew := SlotWords(words);
    if words[idx + 4] >= needed {
      var remaining: Word := words[idx + 4] - needed;
      var eos := EndOfEntries(words, ew);
      if !NeedsSplit(eos, ew, remaining) {
        UpdateAtEnd(words, ew, idx, eos, PermanentWords(nw, needed, date), remaining);
      }
    }
  }

  /** With no entry after the chosen slot, both updates write the same words. */
  lemma UpdateAtEnd(w: seq<Word>, ew: nat, idx: nat, eos: nat, perm: seq<Word>, remaining: Word)
    requires |w| == SEGMENT_WORDS && ew >= 7 && |perm| == 7
    requires idx + ew == eos && eos <= SEGMENT_WORDS
    requires remaining > 0 ==> eos + 2 * ew <= SEGMENT_WORDS
    ensures UpdateAsWritten(w, ew, idx, eos, perm, remaining) == UpdateCorrected(w, ew, idx, eos, perm, remaining)
  {
  }

  /**
   * When the update as written goes through, the j-th slot holds the new
   * permanent entry; with nothing left over every other entry is kept, and
   * otherwise the empty entry follows it and the list ends there, so every
   * entry after the chosen one is lost.
   */
  lemma AsWrittenChosenSlots(words: seq<Word>, j: nat, needed: nat, nw: NameWords, date: Word)
    requires |words| == SEGMENT_WORDS
    requires j < |EntryPositions(words, SlotWords(words), FIRST_ENTRY)|
    ensures var ew := SlotWords(words);
      var idx := EntryPositions(words, ew, FIRST_ENTRY)[j];
      var s := UpdateChosenAsWritten(words, idx, needed, nw, date);
      s.Step? && s.s.Updated? ==>
        && needed <= words[idx + 4]
        && var perm := PermanentWords(nw, needed, date);
        && EntrySlots(s.s.words, ew)
             == if words[idx + 4] == needed then EntrySlots(words, ew)[j := perm]
                else EntrySlots(words, ew)[..j] + [perm, EmptyWords(words[idx + 4] - needed)]
  {
    var ew := SlotWords(words);
    var ps := EntryPositions(words, ew, FIRST_ENTRY);
    var idx := ps[j];
    assert idx in ps;
    var s := UpdateChosenAsWritten(words, idx, needed, nw, date);
    if s.Step? && s.s.Updated? {
      assert needed <= words[idx + 4];
      var remaining: Word := words[idx + 4] - needed;
      var eos := EndOfEntries(words, ew);
      var perm := PermanentWords(nw, needed, date);
      SlotBeforeEnd(words, ew, idx);
      assert s.s.words == UpdateAsWritten(words, ew, idx, eos, perm, remaining);
      if remaining == 0 {
        NoRemainder(words, ew, idx, eos, perm);
        UpdateKeepsEntries(words, ew, j, perm, 0);
      } else {
        AsWrittenSlots(words, ew, j, perm, remaining);
      }
    }
  }

  /**
   * On a full segment of 7-word slots with no end mark, taking one block of
   * the first slot's empty area passes the room test as written but runs
   * the shift past the buffer, where the intended test asks for a split.
   */
  lemma AsWrittenOverrunExample(nw: NameWords, date: Word)
    ensures var w := FullSegment();
      && SlotWords(w) == 7
      && FIRST_ENTRY in EntryPositions(w, SlotWords(w), FIRST_ENTRY)
      && UpdateChosenAsWritten(w, FIRST_ENTRY, 1, nw, date) == ShiftOverrun
      && UpdateChosen(w, FIRST_ENTRY, 1, nw, date) == NoRoom
  {
    var w := FullSegment();
    ShiftOverrunExample();
    assert EntryPositions(w, 7, FIRST_ENTRY)[0] in EntryPositions(w, 7, FIRST_ENTRY);
  }

  /**
   * The update of the chosen segment as the copy performs it, in its
   * 512-word buffer: the length test, the scan for the end of the list, the
   * room test on the chosen slot, then the permanent entry, the shift, the
   * empty entry and the end slot right after it. Where the program would
   * shift past the buffer it stops with `ShiftOverrun`.
   */
  method UpdateSegmentAsWritten(words: seq<Word>, idx: nat, needed: nat, nw: NameWords, date: Word) returns (s: StepAsWritten)
    requires |words| == SEGMENT_WORDS
    requires idx in EntryPositions(words, SlotWords(words), FIRST_ENTRY)
    ensures s == UpdateChosenAsWritten(words, idx, needed, nw, date)
  {
    var a := new Word[SEGMENT_WORDS](i requires 0 <= i < SEGMENT_WORDS => words[i]);
    assert a[..] == words;
    var hdr := ParseSegmentHeader(a[..]);
    var ew := EntryWords(hdr.extraBytes);
    SlotBeforeEnd(words, ew, idx);
    var originalLen := a[idx + 4];
    if originalLen < needed {
      return Step(TooSmall);
    }
    var remaining: Word := originalLen - needed;
    var eos := FindEndOfSegment(a, ew);
    if remaining > 0 {
      var insertIdx := idx + ew;
      if insertIdx + ew + ew > SEGMENT_WORDS {
        return Step(NoRoom);
      }
      if eos + ew > SEGMENT_WORDS {
        return ShiftOverrun;
      }
    }
    ApplyUpdateAsWritten(a, ew, idx, eos, PermanentWords(nw, needed, date), remaining);
    return Step(Updated(a[..]));
  }

  // ---------------------------------------------------------------
  // The copy with the corrected update
  // ---------------------------------------------------------------

  /**
   * The corrected update of the chosen segment in its 512-word buffer: the
   * length test, the scan for the end of the list, the room test on the end
   * of the list, then the permanent entry, the shift, the empty entry and
   * the end slot after the shifted entries.
   */
  method UpdateSegment(words: seq<Word>, idx: nat, needed: nat, nw: NameWords, date: Word) returns (s: SegmentStep)
    requires |words| == SEGMENT_WORDS
    requires idx in EntryPositions(words, SlotWords(words), FIRST_ENTRY)
    ensures s == UpdateChosen(words, idx, needed, nw, date)
  {
    var a := new Word[SEGMENT_WORDS](i requires 0 <= i < SEGMENT_WORDS => words[i]);
    assert a[..] == words;
    var hdr := ParseSegmentHeader(a[..]);
    var ew := EntryWords(hdr.extraBytes);
    SlotBeforeEnd(words, ew, idx);
    var originalLen := a[idx + 4];
    if originalLen < needed {
      return TooSmall;
    }
    var remaining: Word := originalLen - needed;
    var eos := FindEndOfSegment(a, ew);
    if remaining > 0 && eos + 2 * ew > SEGMENT_WORDS {
      return NoRoom;
    }
    ApplyUpdateCorrected(a, ew, idx, eos, PermanentWords(nw, needed, date), remaining);
    return Updated(a[..]);
  }

  /**
   * copySingleToRt11, one attempt: the name, the image size, the directory,
   * the no-replace test, the first-fit search, the range test, and the
   * update of the chosen entry's segment, written back to the volume.
   */
  method CopySingleToRt11(v: Volume, hostName: string, size: nat, noReplace: bool, optionalDate: Word, systemDate: Word)
    returns (r: Result<Outcome, CopyError>)
    ensures r == CopyOnce(v, hostName, size, noReplace, optionalDate, systemDate)
  {
    var name := Names.NormalizeRt11Name(hostName);
    if name.Err? {
      return Err(BadName);
    }
    var rtname := name.value;
    if |v.blocks| == 0 {
      return Err(EmptyImage);
    }
    var listing := ReadDirectory(v);
    if listing.Err? {
      return Err(ReadFailed(listing.error));
    }
    r := PlaceFile(v, listing.value, rtname, size, noReplace, DateFor(optionalDate, systemDate));
  }

  /** The no-replace test and the first-fit search on the listing read, then the allocation. */
  method PlaceFile(v: Volume, l: Listing, rtname: string, size: nat, noReplace: bool, date: Word)
    returns (r: Result<Outcome, CopyError>)
    requires DirectoryOf(v) == Ok(l)
    ensures r == PlaceInListing(v, l, rtname, size, noReplace, date)
  {
    if noReplace {
      var found := HasPermanentNamed(l.entries, rtname);
      if found {
        return Ok(Skipped);
      }
    }
    var needed := BlocksNeeded(size);
    var fit := FindFirstFit(l.entries, needed);
    if fit.None? {
      return Err(NoSpace);
    }
    r := AllocateInPlace(v, fit.value, needed, NameWordsOf(rtname), date);
  }

  /** The range test on the chosen area, then the update of its segment, written back to the volume. */
  method AllocateInPlace(v: Volume, k: nat, needed: nat, nw: NameWords, date: Word) returns (r: Result<Outcome, CopyError>)
    requires DirectoryOf(v).Ok? && k < |DirectoryOf(v).value.entries|
    ensures r == AllocateAt(v, k, needed, nw, date)
  {
    var e := DirectoryOf(v).value.entries[k];
    if e.startBlock == 0 || e.startBlock + needed - 1 >= |v.blocks| {
      return Err(InvalidRange);
    }
    var segBlock := ChosenBlock(v, k);
    var segment := ReadSegment(v, segBlock);
    ChosenSlot(v, k);
    var s := UpdateSegment(segment.value, e.wordIndex, needed, nw, date);
    match s {
      case TooSmall =>
        return Err(ChosenTooSmall);
      case NoRoom =>
        return Ok(SplitNeeded(e.segNumber));
      case Updated(words') =>
        return Ok(Copied(WriteSegment(v, segBlock, words')));
    }
  }
}
