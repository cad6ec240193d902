/**
 * Copying a host file onto an RT-11 volume: first-fit choice of an empty
 * area, and the in-place update of the directory segment that turns the
 * chosen empty entry into a permanent one and inserts an empty entry for the
 * blocks left over.
 */
module Allocation {
  import opened Wrappers
  import opened Words
  import Rad50
  import Names
  import opened Directory

  const BLOCK_BYTES: nat := 512
  const UINT32: nat := 0x1_0000_0000

  // ---------------------------------------------------------------
  // How many blocks, and where
  // ---------------------------------------------------------------

  /**
   * Blocks for a file of `size` bytes: the size rounded up to whole blocks,
   * kept to 32 bits, and at least one block (an empty file still gets one).
   */
  function BlocksNeeded(size: nat): (n: nat)
    ensures 1 <= n < UINT32
    ensures size <= (UINT32 - 1) * BLOCK_BYTES && size > 0 ==> (n - 1) * BLOCK_BYTES < size <= n * BLOCK_BYTES
    ensures size == 0 ==> n == 1
  {
    var n := ((size + BLOCK_BYTES - 1) / BLOCK_BYTES) % UINT32;
    if n == 0 then 1 else n
  }

  /** An entry the allocator may take: empty, neither permanent nor tentative, and long enough. */
  predicate Usable(e: Entry, needed: nat)
  {
    Empty(e) && !Permanent(e) && !Tentative(e) && e.lengthBlocks >= needed
  }

  /** The allocator's first-fit search over the listed entries, in directory order. */
  method FindFirstFit(entries: seq<Entry>, needed: nat) returns (r: Option<nat>)
    ensures r == FirstFit(entries, needed)
  {
    var k := 0;
    while k < |entries|
      invariant k <= |entries|
      invariant forall t :: 0 <= t < k ==> !Usable(entries[t], needed)
    {
      var e := entries[k];
      if Empty(e) && !Permanent(e) && !Tentative(e) && e.lengthBlocks >= needed {
        return Some(k);
      }
      k := k + 1;
    }
    return None;
  }

  /** The first usable entry, as a function of the listing. */
  function FirstFit(entries: seq<Entry>, needed: nat): (r: Option<nat>)
    ensures r.Some? ==> r.value < |entries| && Usable(entries[r.value], needed)
    ensures r.Some? ==> forall k :: 0 <= k < r.value ==> !Usable(entries[k], needed)
    ensures r.None? ==> forall k :: 0 <= k < |entries| ==> !Usable(entries[k], needed)
    decreases |entries|
  {
    if entries == [] then None
    else if Usable(entries[0], needed) then Some(0)
    else match FirstFit(entries[1..], needed)
      case None => None
      case Some(k) => Some(k + 1)
  }

  /** Names compared as the copy does: same length, and letter case ignored. */
  predicate SameNameIgnoringCase(a: string, b: string)
  {
    |a| == |b| && forall i :: 0 <= i < |a| ==> Rad50.ToUpper(a[i]) == Rad50.ToUpper(b[i])
  }

  /** iequals: the length test, then character by character through toupper. */
  method IEquals(a: string, b: string) returns (eq: bool)
    ensures eq <==> SameNameIgnoringCase(a, b)
  {
    if |a| != |b| {
      return false;
    }
    var i := 0;
    while i < |a|
      invariant i <= |a|
      invariant forall t :: 0 <= t < i ==> Rad50.ToUpper(a[t]) == Rad50.ToUpper(b[t])
    {
      if Rad50.ToUpper(a[i]) != Rad50.ToUpper(b[i]) {
        return false;
      }
      i := i + 1;
    }
    return true;
  }

  /** A permanent entry that carries the name `rtname`. */
  predicate PermanentNamed(e: Entry, rtname: string)
  {
    Permanent(e) && SameNameIgnoringCase(Name(e), rtname)
  }

  /** The no-replace test: some permanent entry already carries the name. */
  method HasPermanentNamed(entries: seq<Entry>, rtname: string) returns (found: bool)
    ensures found <==> exists k :: 0 <= k < |entries| && PermanentNamed(entries[k], rtname)
  {
    var k := 0;
    while k < |entries|
      invariant k <= |entries|
      invariant forall t :: 0 <= t < k ==> !PermanentNamed(entries[t], rtname)
    {
      var named := IsPermanentNamed(entries[k], rtname);
      if named {
        return true;
      }
      NoneNamedStep(entries, rtname, k);
      k := k + 1;
    }
    return false;
  }

  lemma NoneNamedStep(entries: seq<Entry>, rtname: string, k: nat)
    requires k < |entries| && !PermanentNamed(entries[k], rtname)
    requires forall t :: 0 <= t < k ==> !PermanentNamed(entries[t], rtname)
    ensures forall t :: 0 <= t < k + 1 ==> !PermanentNamed(entries[t], rtname)
  {
  }

  /** The test on one entry: permanent, and its decoded name equal to `rtname` ignoring case. */
  method IsPermanentNamed(e: Entry, rtname: string) returns (named: bool)
    ensures named == PermanentNamed(e, rtname)
  {
    named := false;
    if Permanent(e) {
      named := IEquals(Name(e), rtname);
    }
  }

  // ---------------------------------------------------------------
  // The words of a segment after the update, as values
  // ---------------------------------------------------------------

  /** `w` with the words from `p` on replaced by `ws`. */
  function Overwrite(w: seq<Word>, p: nat, ws: seq<Word>): (r: seq<Word>)
    requires p + |ws| <= |w|
    ensures |r| == |w|
    ensures forall k {:trigger r[k]} :: 0 <= k < |w| ==> r[k] == if p <= k < p + |ws| then ws[k - p] else w[k]
  {
    seq(|w|, k requires 0 <= k < |w| => if p <= k < p + |ws| then ws[k - p] else w[k])
  }

  /** The words `from..to` moved up by `d`; the words they leave keep their old values. */
  function ShiftedUp(w: seq<Word>, from: nat, to: nat, d: nat): (r: seq<Word>)
    requires from <= to && to + d <= |w|
    ensures |r| == |w|
    ensures forall k {:trigger r[k]} :: 0 <= k < |w| ==> r[k] == if from + d <= k < to + d then w[k - d] else w[k]
  {
    seq(|w|, k requires 0 <= k < |w| => if from + d <= k < to + d then w[k - d] else w[k])
  }

  /** The seven words of the new permanent entry: status, name, length, channel 0, date. */
  function PermanentWords(nw: NameWords, len: Word, date: Word): (ws: seq<Word>)
    ensures |ws| == 7
  {
    [E_PERM, nw.name1, nw.name2, nw.ext, len, 0, date]
  }

  /** The seven words of the empty entry for the blocks left over. */
  function EmptyWords(remaining: Word): (ws: seq<Word>)
    ensures |ws| == 7
  {
    [E_MPTY, 0, 0, 0, remaining, 0, 0]
  }

  /** A cleared slot of `ew` words holding only the end-of-segment mark. */
  function EosSlot(ew: nat): (ws: seq<Word>)
    requires ew >= 1
    ensures |ws| == ew && ws[0] == E_EOS
    ensures forall k :: 1 <= k < ew ==> ws[k] == 0
  {
    [E_EOS] + seq(ew - 1, _ => 0)
  }

  /**
   * The segment after the update as the copy writes it: the permanent entry
   * over the chosen slot at `idx`; when blocks are left over, the entries
   * from the next slot up to the end `eos` shifted up one slot, the empty
   * entry in the freed slot, and then the end-of-segment slot written right
   * after the empty entry, at `idx + 2 * ew`.
   */
  function UpdateAsWritten(w: seq<Word>, ew: nat, idx: nat, eos: nat, perm: seq<Word>, remaining: Word): (r: seq<Word>)
    requires |w| == SEGMENT_WORDS && ew >= 7 && |perm| == 7
    requires idx + ew <= eos && eos <= SEGMENT_WORDS
    requires remaining > 0 ==> idx + 3 * ew <= SEGMENT_WORDS && eos + ew <= SEGMENT_WORDS
    ensures |r| == SEGMENT_WORDS
  {
    var w1 := Overwrite(w, idx, perm);
    if remaining == 0 then w1
    else
      var ins := idx + ew;
      var w2 := if ins < eos then ShiftedUp(w1, ins, eos, ew) else w1;
      var w3 := Overwrite(w2, ins, EmptyWords(remaining));
      Overwrite(w3, ins + ew, EosSlot(ew))
  }

  /**
   * The update as intended: the same, except that the end-of-segment slot
   * goes after the shifted entries, at `eos + ew`.
   */
  function UpdateCorrected(w: seq<Word>, ew: nat, idx: nat, eos: nat, perm: seq<Word>, remaining: Word): (r: seq<Word>)
    requires |w| == SEGMENT_WORDS && ew >= 7 && |perm| == 7
    requires idx + ew <= eos && eos <= SEGMENT_WORDS
    requires remaining > 0 ==> eos + 2 * ew <= SEGMENT_WORDS
    ensures |r| == SEGMENT_WORDS
  {
    var w1 := Overwrite(w, idx, perm);
    if remaining == 0 then w1
    else
      var ins := idx + ew;
      var w2 := if ins < eos then ShiftedUp(w1, ins, eos, ew) else w1;
      var w3 := Overwrite(w2, ins, EmptyWords(remaining));
      Overwrite(w3, eos + ew, EosSlot(ew))
  }

  // ---------------------------------------------------------------
  // The update in place, on the segment's 512-word buffer
  // ---------------------------------------------------------------

  /** The scan for the end of the entry list (the end-of-segment slot, or where the slots run out). */
  method FindEndOfSegment(words: array<Word>, ew: nat) returns (eos: nat)
    requires words.Length == SEGMENT_WORDS && ew >= 7
    ensures eos == EndOfEntries(words[..], ew)
  {
    ghost var w := words[..];
    var eosIdx := 0;
    var scanIdx := FIRST_ENTRY;
    while scanIdx + ew <= SEGMENT_WORDS
      invariant EndOfEntries(w, ew) == PositionsEnd(EntryPositions(w, ew, scanIdx), scanIdx, ew)
      invariant FIRST_ENTRY <= scanIdx
      decreases SEGMENT_WORDS - scanIdx
    {
      var st := words[scanIdx];
      if HasBit(st, E_EOS) {
        eosIdx := scanIdx;
        break;
      }
      if st == 0 {
        eosIdx := scanIdx;
        break;
      }
      EndMovesOn(w, ew, scanIdx);
      scanIdx := scanIdx + ew;
    }
    EndFound(w, ew, scanIdx);
    if eosIdx == 0 {
      eosIdx := scanIdx;
    }
    return eosIdx;
  }

  /** Past a slot that holds an entry, the list ends where it ends from the next slot. */
  lemma EndMovesOn(w: seq<Word>, ew: nat, idx: nat)
    requires |w| == SEGMENT_WORDS && ew >= 7 && !EndsEntries(w, ew, idx)
    ensures PositionsEnd(EntryPositions(w, ew, idx), idx, ew) == PositionsEnd(EntryPositions(w, ew, idx + ew), idx + ew, ew)
  {
    PositionsCons(w, ew, idx);
    var rest := EntryPositions(w, ew, idx + ew);
    if rest != [] {
      assert ([idx] + rest)[|rest|] == rest[|rest| - 1];
    }
  }

  /** At a slot that ends the list, the list ends there. */
  lemma EndFound(w: seq<Word>, ew: nat, idx: nat)
    requires |w| == SEGMENT_WORDS && ew >= 7 && EndsEntries(w, ew, idx)
    ensures PositionsEnd(EntryPositions(w, ew, idx), idx, ew) == idx
  {
    PositionsNil(w, ew, idx);
  }

  /** Writes the seven words `ws` at `p`, one assignment per word. */
  method PutEntryWords(a: array<Word>, p: nat, ws: seq<Word>)
    requires |ws| == 7 && p + 7 <= a.Length
    modifies a
    ensures a[..] == Overwrite(old(a[..]), p, ws)
  {
    a[p] := ws[0];
    a[p + 1] := ws[1];
    a[p + 2] := ws[2];
    a[p + 3] := ws[3];
    a[p + 4] := ws[4];
    a[p + 5] := ws[5];
    a[p + 6] := ws[6];
    assert forall k :: 0 <= k < a.Length ==> a[k] == if p <= k < p + 7 then ws[k - p] else old(a[k]);
  }

  /** Moves the words `from..to` up by `d`, last word first, so that nothing is read after it is overwritten. */
  method ShiftUp(a: array<Word>, from: nat, to: nat, d: nat)
    requires from <= to && to + d <= a.Length && d > 0
    modifies a
    ensures a[..] == ShiftedUp(old(a[..]), from, to, d)
  {
    var i := to;
    while i > from
      invariant from <= i <= to
      invariant forall k :: 0 <= k < a.Length ==> a[k] == if i + d <= k < to + d then old(a[k - d]) else old(a[k])
      decreases i
    {
      i := i - 1;
      a[i + d] := a[i];
    }
  }

  /** Clears the slot of `ew` words at `p`, then puts the end-of-segment mark in its status word. */
  method PutEndOfSegment(a: array<Word>, p: nat, ew: nat)
    requires ew >= 1 && p + ew <= a.Length
    modifies a
    ensures a[..] == Overwrite(old(a[..]), p, EosSlot(ew))
  {
    var w := 0;
    while w < ew
      invariant w <= ew
      invariant forall k :: 0 <= k < a.Length ==> a[k] == if p <= k < p + w then 0 else old(a[k])
    {
      a[p + w] := 0;
      w := w + 1;
    }
    a[p] := E_EOS;
  }

  /** The words of a segment with the slot at `ins` opened by moving the entries `ins..eos` up one slot. */
  function OpenSlot(w: seq<Word>, ins: nat, eos: nat, ew: nat): (r: seq<Word>)
    requires ins <= eos && eos + ew <= |w|
    ensures |r| == |w|
  {
    if ins < eos then ShiftedUp(w, ins, eos, ew) else w
  }

  /**
   * The second half of the update: opens the slot at `ins`, writes the
   * empty entry of `remaining` blocks there and the end mark at `endAt`.
   */
  method PlaceRemainder(a: array<Word>, ew: nat, ins: nat, eos: nat, remaining: Word, endAt: nat)
    requires a.Length == SEGMENT_WORDS && ew >= 7
    requires ins <= eos && eos + ew <= SEGMENT_WORDS && endAt + ew <= SEGMENT_WORDS
    modifies a
    ensures a[..] == Overwrite(Overwrite(OpenSlot(old(a[..]), ins, eos, ew), ins, EmptyWords(remaining)), endAt, EosSlot(ew))
  {
    if ins < eos {
      ShiftUp(a, ins, eos, ew);
    }
    ghost var w2 := a[..];
    assert w2 == OpenSlot(old(a[..]), ins, eos, ew);
    PutEntryWords(a, ins, EmptyWords(remaining));
    ghost var w3 := a[..];
    PutEndOfSegment(a, endAt, ew);
    assert a[..] == Overwrite(w3, endAt, EosSlot(ew));
  }

  /** The segment update exactly as the copy performs it. */
  method ApplyUpdateAsWritten(a: array<Word>, ew: nat, idx: nat, eos: nat, perm: seq<Word>, remaining: Word)
    requires a.Length == SEGMENT_WORDS && ew >= 7 && |perm| == 7
    requires idx + ew <= eos && eos <= SEGMENT_WORDS
    requires remaining > 0 ==> idx + 3 * ew <= SEGMENT_WORDS && eos + ew <= SEGMENT_WORDS
    modifies a
    ensures a[..] == UpdateAsWritten(old(a[..]), ew, idx, eos, perm, remaining)
  {
    ghost var w := a[..];
    PutEntryWords(a, idx, perm);
    ghost var w1 := a[..];
    if remaining == 0 {
      NoRemainder(w, ew, idx, eos, perm);
    } else {
      var insertIdx := idx + ew;
      var newEosIdx := insertIdx + ew;
      PlaceRemainder(a, ew, insertIdx, eos, remaining, newEosIdx);
      AsWrittenSteps(w, w1, a[..], ew, idx, eos, perm, remaining);
    }
  }

  /** The segment update with the end-of-segment slot placed after the shifted entries. */
  method ApplyUpdateCorrected(a: array<Word>, ew: nat, idx: nat, eos: nat, perm: seq<Word>, remaining: Word)
    requires a.Length == SEGMENT_WORDS && ew >= 7 && |perm| == 7
    requires idx + ew <= eos && eos <= SEGMENT_WORDS
    requires remaining > 0 ==> eos + 2 * ew <= SEGMENT_WORDS
    modifies a
    ensures a[..] == UpdateCorrected(old(a[..]), ew, idx, eos, perm, remaining)
  {
    ghost var w := a[..];
    PutEntryWords(a, idx, perm);
    ghost var w1 := a[..];
    if remaining == 0 {
      NoRemainder(w, ew, idx, eos, perm);
    } else {
      PlaceRemainder(a, ew, idx + ew, eos, remaining, eos + ew);
      CorrectedSteps(w, w1, a[..], ew, idx, eos, perm, remaining);
    }
  }

  /** With nothing left over, both updates only write the permanent entry. */
  lemma NoRemainder(w: seq<Word>, ew: nat, idx: nat, eos: nat, perm: seq<Word>)
    requires |w| == SEGMENT_WORDS && ew >= 7 && |perm| == 7
    requires idx + ew <= eos && eos <= SEGMENT_WORDS
    ensures UpdateAsWritten(w, ew, idx, eos, perm, 0) == Overwrite(w, idx, perm)
    ensures UpdateCorrected(w, ew, idx, eos, perm, 0) == Overwrite(w, idx, perm)
  {
  }

  /** The stages the corrected update goes through. */
  lemma CorrectedSteps(w: seq<Word>, w1: seq<Word>, w4: seq<Word>, ew: nat, idx: nat, eos: nat,
                       perm: seq<Word>, remaining: Word)
    requires |w| == SEGMENT_WORDS && ew >= 7 && |perm| == 7 && remaining > 0
    requires idx + ew <= eos && eos + 2 * ew <= SEGMENT_WORDS
    requires w1 == Overwrite(w, idx, perm)
    requires w4 == Overwrite(Overwrite(OpenSlot(w1, idx + ew, eos, ew), idx + ew, EmptyWords(remaining)), eos + ew, EosSlot(ew))
    ensures w4 == UpdateCorrected(w, ew, idx, eos, perm, remaining)
  {
  }

  /** The stages the update as written goes through. */
  lemma AsWrittenSteps(w: seq<Word>, w1: seq<Word>, w4: seq<Word>, ew: nat, idx: nat, eos: nat,
                       perm: seq<Word>, remaining: Word)
    requires |w| == SEGMENT_WORDS && ew >= 7 && |perm| == 7 && remaining > 0
    requires idx + ew <= eos && eos + ew <= SEGMENT_WORDS && idx + 3 * ew <= SEGMENT_WORDS
    requires w1 == Overwrite(w, idx, perm)
    requires w4 == Overwrite(Overwrite(OpenSlot(w1, idx + ew, eos, ew), idx + ew, EmptyWords(remaining)), idx + 2 * ew, EosSlot(ew))
    ensures w4 == UpdateAsWritten(w, ew, idx, eos, perm, remaining)
  {
  }

  // ---------------------------------------------------------------
  // The update seen slot by slot
  // ---------------------------------------------------------------

  /** The first seven words (status, name, length, job, date) of the slots at `ps`. */
  function SlotHeads(w: seq<Word>, ps: seq<nat>): (hs: seq<seq<Word>>)
    requires forall k :: 0 <= k < |ps| ==> ps[k] + 7 <= |w|
    ensures |hs| == |ps|
    ensures forall k :: 0 <= k < |ps| ==> hs[k] == w[ps[k]..ps[k] + 7]
  {
    seq(|ps|, k requires 0 <= k < |ps| => w[ps[k]..ps[k] + 7])
  }

  /** The entries of a segment as the reader sees them, one seven-word head per slot, in order. */
  function EntrySlots(w: seq<Word>, ew: nat): seq<seq<Word>>
    requires |w| == SEGMENT_WORDS && ew >= 7
  {
    SlotHeads(w, EntryPositions(w, ew, FIRST_ENTRY))
  }

  /** Total of the length words of a run of entry heads. */
  function LengthTotal(hs: seq<seq<Word>>): nat
  {
    if hs == [] then 0 else (if |hs[0]| > 4 then hs[0][4] else 0) + LengthTotal(hs[1..])
  }

  lemma {:induction false} LengthTotalAppend(a: seq<seq<Word>>, b: seq<seq<Word>>)
    ensures LengthTotal(a + b) == LengthTotal(a) + LengthTotal(b)
  {
    if a != [] {
      assert (a + b)[1..] == a[1..] + b;
      LengthTotalAppend(a[1..], b);
    } else {
      assert a + b == b;
    }
  }

  /** Word `p` of the segment after the corrected update, case by case. */
  function CorrectedWord(w: seq<Word>, ew: nat, idx: nat, eos: nat, perm: seq<Word>, remaining: Word, p: nat): Word
    requires |w| == SEGMENT_WORDS && ew >= 7 && |perm| == 7
    requires idx + ew <= eos && p < SEGMENT_WORDS
  {
    var ins := idx + ew;
    if eos + ew <= p < eos + 2 * ew then (if p == eos + ew then E_EOS else 0)
    else if ins <= p < ins + 7 then EmptyWords(remaining)[p - ins]
    else if ins + ew <= p < eos + ew then w[p - ew]
    else if idx <= p < idx + 7 then perm[p - idx]
    else w[p]
  }

  lemma CorrectedWordAt(w: seq<Word>, ew: nat, idx: nat, eos: nat, perm: seq<Word>, remaining: Word)
    requires |w| == SEGMENT_WORDS && ew >= 7 && |perm| == 7
    requires idx + ew <= eos && eos + 2 * ew <= SEGMENT_WORDS && remaining > 0
    ensures IsCorrected(UpdateCorrected(w, ew, idx, eos, perm, remaining), w, ew, idx, eos, perm, remaining)
  {
  }

  /** `r` holds, word for word, the segment after the corrected update. */
  predicate IsCorrected(r: seq<Word>, w: seq<Word>, ew: nat, idx: nat, eos: nat, perm: seq<Word>, remaining: Word)
    requires |w| == SEGMENT_WORDS && ew >= 7 && |perm| == 7 && idx + ew <= eos
  {
    |r| == SEGMENT_WORDS
    && forall p {:trigger r[p]} :: 0 <= p < SEGMENT_WORDS ==> r[p] == CorrectedWord(w, ew, idx, eos, perm, remaining, p)
  }

  /** A slot whose status word is copied from a slot that does not end the list does not end it either. */
  lemma StatusCarries(r: seq<Word>, w: seq<Word>, ew: nat, p: nat, q: nat)
    requires |r| == SEGMENT_WORDS && |w| == SEGMENT_WORDS && ew >= 7
    requires p + ew <= SEGMENT_WORDS && q + ew <= SEGMENT_WORDS && r[p] == w[q]
    requires !EndsEntries(w, ew, q)
    ensures !EndsEntries(r, ew, p)
  {
  }

  lemma PositionHoldsEntry(w: seq<Word>, ew: nat, idx: nat, i: nat)
    requires |w| == SEGMENT_WORDS && ew >= 7 && i < |EntryPositions(w, ew, idx)|
    ensures !EndsEntries(w, ew, EntryPositions(w, ew, idx)[i])
  {
  }

  /**
   * Where an old entry's status word ends up after the corrected update: a
   * slot before the chosen one stays, the chosen slot becomes permanent with
   * the empty entry after it, a later one moves up one slot; and the slot
   * after the old end marks the new end.
   */
  lemma CorrectedMoves(r: seq<Word>, w: seq<Word>, ew: nat, idx: nat, eos: nat, perm: seq<Word>, remaining: Word, q: nat)
    requires |w| == SEGMENT_WORDS && ew >= 7 && |perm| == 7 && perm[0] == E_PERM
    requires idx + ew <= eos && eos + 2 * ew <= SEGMENT_WORDS && q + ew <= eos
    requires IsCorrected(r, w, ew, idx, eos, perm, remaining)
    requires q + ew <= idx || q == idx || idx + ew <= q
    requires !EndsEntries(w, ew, q)
    ensures q + ew <= idx ==> !EndsEntries(r, ew, q)
    ensures q == idx ==> !EndsEntries(r, ew, q) && !EndsEntries(r, ew, q + ew)
    ensures idx + ew <= q ==> !EndsEntries(r, ew, q + ew)
    ensures EndsEntries(r, ew, eos + ew)
  {
    assert r[q] == CorrectedWord(w, ew, idx, eos, perm, remaining, q);
    if idx + ew <= q {
      assert r[q + ew] == CorrectedWord(w, ew, idx, eos, perm, remaining, q + ew);
      StatusCarries(r, w, ew, q + ew, q);
    } else if q + ew <= idx {
      StatusCarries(r, w, ew, q, q);
    } else {
      assert r[q + ew] == CorrectedWord(w, ew, idx, eos, perm, remaining, q + ew);
    }
    assert r[eos + ew] == CorrectedWord(w, ew, idx, eos, perm, remaining, eos + ew);
  }

  /**
   * The old slot whose entry lands at the k-th position of the longer list
   * `ps + [eos]`: the k-th old slot up to the chosen one `j`, the (k-1)-th
   * after it.
   */
  lemma CorrectedSource(w: seq<Word>, ew: nat, j: nat, k: nat) returns (q: nat)
    requires |w| == SEGMENT_WORDS && ew >= 7
    requires j < |EntryPositions(w, ew, FIRST_ENTRY)| && k <= |EntryPositions(w, ew, FIRST_ENTRY)|
    ensures var ps := EntryPositions(w, ew, FIRST_ENTRY);
      var eos := EndOfEntries(w, ew);
      && q + ew <= eos && !EndsEntries(w, ew, q)
      && (k <= j ==> q == ps[k] && (ps + [eos])[k] == q)
      && (k > j ==> q == ps[k - 1] && (ps + [eos])[k] == q + ew)
      && (k < j ==> q + ew <= ps[j])
      && (k == j || k == j + 1 ==> q == ps[j])
      && (k > j + 1 ==> ps[j] + ew <= q)
  {
    var ps := EntryPositions(w, ew, FIRST_ENTRY);
    var n := |ps|;
    var i := if k <= j then k else k - 1;
    q := ps[i];
    PositionHoldsEntry(w, ew, FIRST_ENTRY, i);
    PositionsSpaced(w, ew, FIRST_ENTRY, i, n);
    if i + 1 < n {
      PositionStep(w, ew, FIRST_ENTRY, i);
    }
    if k < j {
      PositionsSpaced(w, ew, FIRST_ENTRY, k, j);
    } else if k > j + 1 {
      PositionsSpaced(w, ew, FIRST_ENTRY, j, k - 1);
    }
  }

  /**
   * Every slot of the longer list holds an entry after the corrected update,
   * given the old position `q` of the entry it holds (from `CorrectedSource`).
   */
  lemma CorrectedSlotHolds(r: seq<Word>, w: seq<Word>, ew: nat, ps: seq<nat>, eos: nat, j: nat,
                           perm: seq<Word>, remaining: Word, k: nat)
    requires |w| == SEGMENT_WORDS && ew >= 7 && |perm| == 7 && perm[0] == E_PERM
    requires ps == EntryPositions(w, ew, FIRST_ENTRY) && eos == EndOfEntries(w, ew)
    requires j < |ps| && k <= |ps| && ps[j] + ew <= eos && eos + 2 * ew <= SEGMENT_WORDS
    requires IsCorrected(r, w, ew, ps[j], eos, perm, remaining)
    ensures (ps + [eos])[k] + ew <= SEGMENT_WORDS
    ensures !EndsEntries(r, ew, (ps + [eos])[k])
  {
    var q := CorrectedSource(w, ew, j, k);
    SlotHoldsAt(r, w, ew, ps[j], eos, perm, remaining, j, k, q, (ps + [eos])[k]);
  }

  /** The slot at `pos`, the k-th of the longer list, holds the entry from the old slot `q`. */
  lemma SlotHoldsAt(r: seq<Word>, w: seq<Word>, ew: nat, idx: nat, eos: nat, perm: seq<Word>, remaining: Word,
                    j: nat, k: nat, q: nat, pos: nat)
    requires |w| == SEGMENT_WORDS && ew >= 7 && |perm| == 7 && perm[0] == E_PERM
    requires idx + ew <= eos && eos + 2 * ew <= SEGMENT_WORDS && q + ew <= eos
    requires IsCorrected(r, w, ew, idx, eos, perm, remaining)
    requires !EndsEntries(w, ew, q)
    requires k <= j ==> pos == q
    requires k > j ==> pos == q + ew
    requires k < j ==> q + ew <= idx
    requires k == j || k == j + 1 ==> q == idx
    requires k > j + 1 ==> idx + ew <= q
    ensures pos + ew <= SEGMENT_WORDS
    ensures !EndsEntries(r, ew, pos)
  {
    CorrectedMoves(r, w, ew, idx, eos, perm, remaining, q);
  }

  /** The entry positions followed by the end of the list are one slot apart. */
  lemma EndFollowsPositions(w: seq<Word>, ew: nat, ps: seq<nat>, eos: nat)
    requires |w| == SEGMENT_WORDS && ew >= 7
    requires ps == EntryPositions(w, ew, FIRST_ENTRY) && eos == EndOfEntries(w, ew)
    ensures forall k :: 0 < k < |ps + [eos]| ==> (ps + [eos])[k] == (ps + [eos])[k - 1] + ew
  {
    var qs := ps + [eos];
    forall k | 0 < k < |qs| ensures qs[k] == qs[k - 1] + ew {
      if k < |ps| {
        PositionStep(w, ew, FIRST_ENTRY, k - 1);
      }
    }
  }

  /**
   * With blocks left over, the corrected update adds exactly one slot to the
   * segment's entry list, which now ends one slot further on.
   */
  lemma CorrectedPositionsOf(r: seq<Word>, w: seq<Word>, ew: nat, j: nat, perm: seq<Word>, remaining: Word)
    requires |w| == SEGMENT_WORDS && ew >= 7 && |perm| == 7 && perm[0] == E_PERM
    requires j < |EntryPositions(w, ew, FIRST_ENTRY)| && remaining > 0
    requires EndOfEntries(w, ew) + 2 * ew <= SEGMENT_WORDS
    requires EntryPositions(w, ew, FIRST_ENTRY)[j] + ew <= EndOfEntries(w, ew)
    requires IsCorrected(r, w, ew, EntryPositions(w, ew, FIRST_ENTRY)[j], EndOfEntries(w, ew), perm, remaining)
    ensures EntryPositions(r, ew, FIRST_ENTRY) == EntryPositions(w, ew, FIRST_ENTRY) + [EndOfEntries(w, ew)]
  {
    var ps := EntryPositions(w, ew, FIRST_ENTRY);
    var eos := EndOfEntries(w, ew);
    var idx := ps[j];
    var qs := ps + [eos];
    forall k | 0 <= k < |qs| ensures !EndsEntries(r, ew, qs[k]) {
      CorrectedSlotHolds(r, w, ew, ps, eos, j, perm, remaining, k);
    }
    var q := CorrectedSource(w, ew, j, j);
    CorrectedMoves(r, w, ew, idx, eos, perm, remaining, q);
    EndFollowsPositions(w, ew, ps, eos);
    PositionsFrom(r, ew, FIRST_ENTRY, qs);
  }

  /** The same, for the segment the corrected update computes. */
  lemma CorrectedPositions(w: seq<Word>, ew: nat, j: nat, perm: seq<Word>, remaining: Word)
    requires |w| == SEGMENT_WORDS && ew >= 7 && |perm| == 7 && perm[0] == E_PERM
    requires j < |EntryPositions(w, ew, FIRST_ENTRY)| && remaining > 0
    requires EndOfEntries(w, ew) + 2 * ew <= SEGMENT_WORDS
    ensures var ps := EntryPositions(w, ew, FIRST_ENTRY);
      var eos := EndOfEntries(w, ew);
      ps[j] + ew <= eos
      && EntryPositions(UpdateCorrected(w, ew, ps[j], eos, perm, remaining), ew, FIRST_ENTRY) == ps + [eos]
  {
    var ps := EntryPositions(w, ew, FIRST_ENTRY);
    var eos := EndOfEntries(w, ew);
    PositionsSpaced(w, ew, FIRST_ENTRY, j, |ps|);
    CorrectedWordAt(w, ew, ps[j], eos, perm, remaining);
    CorrectedPositionsOf(UpdateCorrected(w, ew, ps[j], eos, perm, remaining), w, ew, j, perm, remaining);
  }

  /**
   * The seven head words of an old entry after the corrected update: in
   * place before the chosen slot, one slot up after it; the chosen slot
   * holds the permanent entry and the next one the empty entry.
   */
  lemma CorrectedHeads(r: seq<Word>, w: seq<Word>, ew: nat, idx: nat, eos: nat, perm: seq<Word>, remaining: Word, q: nat)
    requires |w| == SEGMENT_WORDS && ew >= 7 && |perm| == 7
    requires idx + ew <= eos && eos + 2 * ew <= SEGMENT_WORDS && q + ew <= eos
    requires IsCorrected(r, w, ew, idx, eos, perm, remaining)
    ensures q + ew <= idx ==> r[q..q + 7] == w[q..q + 7]
    ensures r[idx..idx + 7] == perm
    ensures r[idx + ew..idx + ew + 7] == EmptyWords(remaining)
    ensures idx + ew <= q ==> r[q + ew..q + ew + 7] == w[q..q + 7]
  {
    if q + ew <= idx {
      forall p | q <= p < q + 7 ensures r[p] == w[p] {
        assert r[p] == CorrectedWord(w, ew, idx, eos, perm, remaining, p);
      }
    }
    forall t | 0 <= t < 7 ensures r[idx + t] == perm[t] {
      assert r[idx + t] == CorrectedWord(w, ew, idx, eos, perm, remaining, idx + t);
    }
    forall t | 0 <= t < 7 ensures r[idx + ew + t] == EmptyWords(remaining)[t] {
      assert r[idx + ew + t] == CorrectedWord(w, ew, idx, eos, perm, remaining, idx + ew + t);
    }
    if idx + ew <= q {
      forall p | q + ew <= p < q + ew + 7 ensures r[p] == w[p - ew] {
        assert r[p] == CorrectedWord(w, ew, idx, eos, perm, remaining, p);
      }
    }
  }

  /** The seven head words of the entry at `p`. */
  function Head(w: seq<Word>, p: nat): seq<Word>
    requires p + 7 <= |w|
  {
    w[p..p + 7]
  }

  /** The head words after an insertion at `idx`, in the terms of `CorrectedHeads`. */
  ghost predicate HeadsMoved(r: seq<Word>, w: seq<Word>, ew: nat, idx: nat, eos: nat, perm: seq<Word>, remaining: Word)
    requires |w| == SEGMENT_WORDS && |r| == SEGMENT_WORDS && ew >= 7
    requires idx + ew <= eos && eos + 2 * ew <= SEGMENT_WORDS
  {
    && (forall q: nat {:trigger Head(w, q)} :: q + ew <= idx ==> Head(r, q) == Head(w, q))
    && Head(r, idx) == perm
    && Head(r, idx + ew) == EmptyWords(remaining)
    && (forall q: nat {:trigger Head(w, q)} :: idx + ew <= q && q + ew <= eos ==> Head(r, q + ew) == Head(w, q))
  }

  lemma CorrectedHeadFacts(r: seq<Word>, w: seq<Word>, ew: nat, idx: nat, eos: nat, perm: seq<Word>, remaining: Word)
    requires |w| == SEGMENT_WORDS && ew >= 7 && |perm| == 7
    requires idx + ew <= eos && eos + 2 * ew <= SEGMENT_WORDS
    requires IsCorrected(r, w, ew, idx, eos, perm, remaining)
    ensures HeadsMoved(r, w, ew, idx, eos, perm, remaining)
  {
    forall q: nat | q + ew <= idx ensures Head(r, q) == Head(w, q) {
      CorrectedHeads(r, w, ew, idx, eos, perm, remaining, q);
    }
    forall q: nat | idx + ew <= q && q + ew <= eos ensures Head(r, q + ew) == Head(w, q) {
      CorrectedHeads(r, w, ew, idx, eos, perm, remaining, q);
    }
    CorrectedHeads(r, w, ew, idx, eos, perm, remaining, idx);
  }

  /** The old entries with the chosen one replaced by `perm` and `empty` inserted after it. */
  function Inserted(hs: seq<seq<Word>>, j: nat, perm: seq<Word>, empty: seq<Word>): (r: seq<seq<Word>>)
    requires j < |hs|
    ensures |r| == |hs| + 1
  {
    hs[..j] + [perm, empty] + hs[j + 1..]
  }

  /** The k-th element of an insertion, case by case. */
  lemma InsertedAt(hs: seq<seq<Word>>, j: nat, perm: seq<Word>, empty: seq<Word>, k: nat)
    requires j < |hs| && k <= |hs|
    ensures Inserted(hs, j, perm, empty)[k]
      == if k < j then hs[k] else if k == j then perm else if k == j + 1 then empty else hs[k - 1]
  {
  }

  /**
   * The k-th head of the list after the corrected update, given the old
   * position `q` of the entry it holds (from `CorrectedSource`).
   */
  lemma CorrectedSlotHead(r: seq<Word>, w: seq<Word>, ew: nat, ps: seq<nat>, eos: nat, j: nat,
                          perm: seq<Word>, remaining: Word, k: nat, q: nat)
    requires |w| == SEGMENT_WORDS && |r| == SEGMENT_WORDS && ew >= 7 && |perm| == 7
    requires j < |ps| && k <= |ps| && ps[j] + ew <= eos && eos + 2 * ew <= SEGMENT_WORDS
    requires forall i :: 0 <= i < |ps| ==> ps[i] + 7 <= |w|
    requires HeadsMoved(r, w, ew, ps[j], eos, perm, remaining)
    requires q + ew <= eos
    requires k <= j ==> q == ps[k] && (ps + [eos])[k] == q
    requires k > j ==> q == ps[k - 1] && (ps + [eos])[k] == q + ew
    requires k < j ==> q + ew <= ps[j]
    requires k == j || k == j + 1 ==> q == ps[j]
    requires k > j + 1 ==> ps[j] + ew <= q
    ensures (ps + [eos])[k] + 7 <= |r|
    ensures r[(ps + [eos])[k]..(ps + [eos])[k] + 7] == Inserted(SlotHeads(w, ps), j, perm, EmptyWords(remaining))[k]
  {
    var hs := SlotHeads(w, ps);
    var e := EmptyWords(remaining);
    InsertedAt(hs, j, perm, e, k);
    if k < j {
      assert Head(r, q) == Head(w, q);
      assert hs[k] == Head(w, q);
    } else if k == j {
      assert Head(r, ps[j]) == perm;
    } else if k == j + 1 {
      assert Head(r, ps[j] + ew) == e;
    } else {
      assert Head(r, q + ew) == Head(w, q);
      assert hs[k - 1] == Head(w, q);
    }
  }

  /**
   * The corrected update with blocks left over, slot by slot: the entries
   * before the chosen one are kept, the chosen one becomes the permanent
   * entry, the empty entry for the rest follows it, and every later entry is
   * kept, in order.
   */
  lemma CorrectedSlots(w: seq<Word>, ew: nat, j: nat, perm: seq<Word>, remaining: Word)
    requires |w| == SEGMENT_WORDS && ew >= 7 && |perm| == 7 && perm[0] == E_PERM
    requires j < |EntryPositions(w, ew, FIRST_ENTRY)| && remaining > 0
    requires EndOfEntries(w, ew) + 2 * ew <= SEGMENT_WORDS
    ensures var ps := EntryPositions(w, ew, FIRST_ENTRY);
      var eos := EndOfEntries(w, ew);
      ps[j] + ew <= eos
      && EntrySlots(UpdateCorrected(w, ew, ps[j], eos, perm, remaining), ew)
        == Inserted(EntrySlots(w, ew), j, perm, EmptyWords(remaining))
  {
    var ps := EntryPositions(w, ew, FIRST_ENTRY);
    var eos := EndOfEntries(w, ew);
    CorrectedPositions(w, ew, j, perm, remaining);
    var r := UpdateCorrected(w, ew, ps[j], eos, perm, remaining);
    CorrectedWordAt(w, ew, ps[j], eos, perm, remaining);
    CorrectedHeadFacts(r, w, ew, ps[j], eos, perm, remaining);
    CorrectedHeadsAll(r, w, ew, j, perm, remaining);
  }

  lemma CorrectedHeadsAll(r: seq<Word>, w: seq<Word>, ew: nat, j: nat, perm: seq<Word>, remaining: Word)
    requires |w| == SEGMENT_WORDS && ew >= 7 && |perm| == 7 && |r| == SEGMENT_WORDS
    requires j < |EntryPositions(w, ew, FIRST_ENTRY)|
    requires EndOfEntries(w, ew) + 2 * ew <= SEGMENT_WORDS
    requires EntryPositions(w, ew, FIRST_ENTRY)[j] + ew <= EndOfEntries(w, ew)
    requires HeadsMoved(r, w, ew, EntryPositions(w, ew, FIRST_ENTRY)[j], EndOfEntries(w, ew), perm, remaining)
    requires EntryPositions(r, ew, FIRST_ENTRY) == EntryPositions(w, ew, FIRST_ENTRY) + [EndOfEntries(w, ew)]
    ensures EntrySlots(r, ew) == Inserted(EntrySlots(w, ew), j, perm, EmptyWords(remaining))
  {
    var qs := EntryPositions(r, ew, FIRST_ENTRY);
    var ins := Inserted(EntrySlots(w, ew), j, perm, EmptyWords(remaining));
    var hs := SlotHeads(r, qs);
    forall k | 0 <= k < |qs| ensures hs[k] == ins[k] {
      CorrectedHeadAt(r, w, ew, EntryPositions(w, ew, FIRST_ENTRY), EndOfEntries(w, ew), j, perm, remaining, k);
    }
  }

  /** One head of the list after the corrected update. */
  lemma CorrectedHeadAt(r: seq<Word>, w: seq<Word>, ew: nat, ps: seq<nat>, eos: nat, j: nat,
                        perm: seq<Word>, remaining: Word, k: nat)
    requires |w| == SEGMENT_WORDS && ew >= 7 && |perm| == 7 && |r| == SEGMENT_WORDS
    requires ps == EntryPositions(w, ew, FIRST_ENTRY) && eos == EndOfEntries(w, ew)
    requires j < |ps| && k <= |ps| && eos + 2 * ew <= SEGMENT_WORDS && ps[j] + ew <= eos
    requires HeadsMoved(r, w, ew, ps[j], eos, perm, remaining)
    ensures (ps + [eos])[k] + 7 <= |r|
    ensures r[(ps + [eos])[k]..(ps + [eos])[k] + 7] == Inserted(SlotHeads(w, ps), j, perm, EmptyWords(remaining))[k]
  {
    var q := CorrectedSource(w, ew, j, k);
    CorrectedSlotHead(r, w, ew, ps, eos, j, perm, remaining, k, q);
  }

  /** One slot of the segment after an exact fit: only the chosen slot changes. */
  lemma ExactFitSlot(r: seq<Word>, w: seq<Word>, ew: nat, ps: seq<nat>, j: nat, perm: seq<Word>, k: nat)
    requires |w| == SEGMENT_WORDS && ew >= 7 && |perm| == 7
    requires j < |ps| && k < |ps| && ps[j] + ew <= SEGMENT_WORDS && ps[k] + ew <= SEGMENT_WORDS
    requires k < j ==> ps[k] + ew <= ps[j]
    requires k > j ==> ps[j] + ew <= ps[k]
    requires r == Overwrite(w, ps[j], perm)
    ensures r[ps[k]] == if k == j then perm[0] else w[ps[k]]
    ensures Head(r, ps[k]) == if k == j then perm else Head(w, ps[k])
  {
  }

  /** After an exact fit the slots stay where they are. */
  lemma ExactFitPositionsOf(r: seq<Word>, w: seq<Word>, ew: nat, j: nat, perm: seq<Word>)
    requires |w| == SEGMENT_WORDS && ew >= 7 && |perm| == 7 && perm[0] == E_PERM
    requires j < |EntryPositions(w, ew, FIRST_ENTRY)|
    requires EntryPositions(w, ew, FIRST_ENTRY)[j] + ew <= EndOfEntries(w, ew)
    requires r == Overwrite(w, EntryPositions(w, ew, FIRST_ENTRY)[j], perm)
    ensures EntryPositions(r, ew, FIRST_ENTRY) == EntryPositions(w, ew, FIRST_ENTRY)
  {
    ExactFitStatus(r, w, ew, j, perm);
    PositionsConsecutive(w, ew);
    PositionsFrom(r, ew, FIRST_ENTRY, EntryPositions(w, ew, FIRST_ENTRY));
  }

  /** After an exact fit no slot of the list ends it, and the slot after the list still does. */
  lemma ExactFitStatus(r: seq<Word>, w: seq<Word>, ew: nat, j: nat, perm: seq<Word>)
    requires |w| == SEGMENT_WORDS && ew >= 7 && |perm| == 7 && perm[0] == E_PERM
    requires j < |EntryPositions(w, ew, FIRST_ENTRY)|
    requires EntryPositions(w, ew, FIRST_ENTRY)[j] + ew <= EndOfEntries(w, ew)
    requires r == Overwrite(w, EntryPositions(w, ew, FIRST_ENTRY)[j], perm)
    ensures var ps := EntryPositions(w, ew, FIRST_ENTRY);
      && (forall k :: 0 <= k < |ps| ==> !EndsEntries(r, ew, ps[k]))
      && EndsEntries(r, ew, PositionsEnd(ps, FIRST_ENTRY, ew))
  {
    var ps := EntryPositions(w, ew, FIRST_ENTRY);
    var eos := EndOfEntries(w, ew);
    SpacedAround(w, ew, j);
    forall k | 0 <= k < |ps| ensures !EndsEntries(r, ew, ps[k]) {
      ExactFitSlot(r, w, ew, ps, j, perm, k);
    }
    if eos + ew <= SEGMENT_WORDS {
      assert r[eos] == w[eos];
    }
  }

  /** The entry positions before slot `j` end before it, those after it start after it. */
  lemma SpacedAround(w: seq<Word>, ew: nat, j: nat)
    requires |w| == SEGMENT_WORDS && ew >= 7
    requires j < |EntryPositions(w, ew, FIRST_ENTRY)|
    ensures var ps := EntryPositions(w, ew, FIRST_ENTRY);
      && (forall k :: 0 <= k < j ==> ps[k] + ew <= ps[j])
      && (forall k :: j < k < |ps| ==> ps[j] + ew <= ps[k])
  {
    var ps := EntryPositions(w, ew, FIRST_ENTRY);
    forall k | 0 <= k < j ensures ps[k] + ew <= ps[j] {
      PositionsSpaced(w, ew, FIRST_ENTRY, k, j);
    }
    forall k | j < k < |ps| ensures ps[j] + ew <= ps[k] {
      PositionsSpaced(w, ew, FIRST_ENTRY, j, k);
    }
  }

  /** After an exact fit the chosen slot holds the permanent entry and the others are unchanged. */
  lemma ExactFitHeads(r: seq<Word>, w: seq<Word>, ew: nat, ps: seq<nat>, j: nat, perm: seq<Word>)
    requires |w| == SEGMENT_WORDS && ew >= 7 && |perm| == 7 && j < |ps|
    requires forall k :: 0 <= k < |ps| ==> ps[k] + ew <= SEGMENT_WORDS
    requires forall k :: 0 <= k < j ==> ps[k] + ew <= ps[j]
    requires forall k :: j < k < |ps| ==> ps[j] + ew <= ps[k]
    requires r == Overwrite(w, ps[j], perm)
    ensures SlotHeads(r, ps) == SlotHeads(w, ps)[j := perm]
  {
    forall k | 0 <= k < |ps| ensures SlotHeads(r, ps)[k] == SlotHeads(w, ps)[j := perm][k] {
      ExactFitSlot(r, w, ew, ps, j, perm, k);
    }
  }

  /**
   * When the file takes the whole empty area, the update only rewrites the
   * chosen slot: the slots stay where they are, and the chosen one now
   * holds the permanent entry.
   */
  lemma ExactFitSlots(w: seq<Word>, ew: nat, j: nat, perm: seq<Word>)
    requires |w| == SEGMENT_WORDS && ew >= 7 && |perm| == 7 && perm[0] == E_PERM
    requires j < |EntryPositions(w, ew, FIRST_ENTRY)|
    ensures EntryPositions(w, ew, FIRST_ENTRY)[j] + ew <= EndOfEntries(w, ew)
    ensures var ps := EntryPositions(w, ew, FIRST_ENTRY);
      var r := UpdateCorrected(w, ew, ps[j], EndOfEntries(w, ew), perm, 0);
      EntryPositions(r, ew, FIRST_ENTRY) == ps
      && EntrySlots(r, ew) == EntrySlots(w, ew)[j := perm]
  {
    var ps := EntryPositions(w, ew, FIRST_ENTRY);
    PositionsSpaced(w, ew, FIRST_ENTRY, j, |ps|);
    var r := UpdateCorrected(w, ew, ps[j], EndOfEntries(w, ew), perm, 0);
    ExactFitPositionsOf(r, w, ew, j, perm);
    SpacedAround(w, ew, j);
    ExactFitHeads(r, w, ew, ps, j, perm);
  }

  /** Splitting the chosen area keeps the block total: the new entry and the empty entry share its length. */
  lemma InsertedLengthTotal(hs: seq<seq<Word>>, j: nat, perm: seq<Word>, empty: seq<Word>)
    requires j < |hs| && |hs[j]| > 4 && |perm| > 4 && |empty| > 4
    requires perm[4] as int + empty[4] as int == hs[j][4] as int
    ensures LengthTotal(Inserted(hs, j, perm, empty)) == LengthTotal(hs)
  {
    assert LengthTotal([empty]) == empty[4];
    assert LengthTotal([perm, empty]) == perm[4] + empty[4];
    assert hs == hs[..j] + [hs[j]] + hs[j + 1..];
    LengthTotalAppend(hs[..j] + [hs[j]], hs[j + 1..]);
    LengthTotalAppend(hs[..j], [hs[j]]);
    LengthTotalAppend(hs[..j] + [perm, empty], hs[j + 1..]);
    LengthTotalAppend(hs[..j], [perm, empty]);
    assert [perm, empty][1..] == [empty];
  }

  /** An exact fit keeps the block total too. */
  lemma ReplacedLengthTotal(hs: seq<seq<Word>>, j: nat, perm: seq<Word>)
    requires j < |hs| && |hs[j]| > 4 && |perm| > 4 && perm[4] == hs[j][4]
    ensures LengthTotal(hs[j := perm]) == LengthTotal(hs)
  {
    assert hs == hs[..j] + [hs[j]] + hs[j + 1..];
    assert hs[j := perm] == hs[..j] + [perm] + hs[j + 1..];
    LengthTotalAppend(hs[..j] + [hs[j]], hs[j + 1..]);
    LengthTotalAppend(hs[..j], [hs[j]]);
    LengthTotalAppend(hs[..j] + [perm], hs[j + 1..]);
    LengthTotalAppend(hs[..j], [perm]);
  }

  // ---------------------------------------------------------------
  // The update as written: where the end-of-segment slot lands
  // ---------------------------------------------------------------

  /**
   * What the update as written leaves: the words below the chosen slot at
   * `idx`, the permanent entry in it, the empty entry in the next slot, and
   * the end mark two slots on.
   */
  ghost predicate AsWrittenShape(r: seq<Word>, w: seq<Word>, ew: nat, idx: nat, perm: seq<Word>, remaining: Word)
    requires |w| == SEGMENT_WORDS && ew >= 7 && idx + 3 * ew <= SEGMENT_WORDS
  {
    && |r| == SEGMENT_WORDS
    && (forall p :: 0 <= p < idx ==> r[p] == w[p])
    && Head(r, idx) == perm
    && Head(r, idx + ew) == EmptyWords(remaining)
    && r[idx + 2 * ew] == E_EOS
  }

  /**
   * The words the update as written leaves below the chosen slot, in it,
   * in the slot after it, and the end mark it puts two slots on.
   */
  lemma AsWrittenWords(w: seq<Word>, ew: nat, idx: nat, eos: nat, perm: seq<Word>, remaining: Word)
    requires |w| == SEGMENT_WORDS && ew >= 7 && |perm| == 7 && remaining > 0
    requires idx + ew <= eos && eos + ew <= SEGMENT_WORDS && idx + 3 * ew <= SEGMENT_WORDS
    ensures AsWrittenShape(UpdateAsWritten(w, ew, idx, eos, perm, remaining), w, ew, idx, perm, remaining)
  {
    var ins := idx + ew;
    var w1 := Overwrite(w, idx, perm);
    var w2 := OpenSlot(w1, ins, eos, ew);
    AsWrittenSteps(w, w1, Overwrite(Overwrite(w2, ins, EmptyWords(remaining)), idx + 2 * ew, EosSlot(ew)), ew, idx, eos, perm, remaining);
    AsWrittenBelow(w, w1, w2, ew, idx, eos, perm);
    AsWrittenTail(w, w2, ew, idx, perm, remaining);
  }

  /** The empty entry and the end mark written over a segment that already has its permanent entry. */
  lemma AsWrittenTail(w: seq<Word>, w2: seq<Word>, ew: nat, idx: nat, perm: seq<Word>, remaining: Word)
    requires |w| == SEGMENT_WORDS && |w2| == SEGMENT_WORDS && ew >= 7 && idx + 3 * ew <= SEGMENT_WORDS
    requires forall p :: 0 <= p < idx ==> w2[p] == w[p]
    requires Head(w2, idx) == perm
    ensures AsWrittenShape(Overwrite(Overwrite(w2, idx + ew, EmptyWords(remaining)), idx + 2 * ew, EosSlot(ew)),
                           w, ew, idx, perm, remaining)
  {
    var w3 := Overwrite(w2, idx + ew, EmptyWords(remaining));
    var r := Overwrite(w3, idx + 2 * ew, EosSlot(ew));
    AsWrittenAbove(w2, w3, r, ew, idx, idx + ew, remaining);
    ShapeOf(r, w2, w, ew, idx, perm, remaining);
  }

  lemma ShapeOf(r: seq<Word>, w2: seq<Word>, w: seq<Word>, ew: nat, idx: nat, perm: seq<Word>, remaining: Word)
    requires |w| == SEGMENT_WORDS && |w2| == SEGMENT_WORDS && |r| == SEGMENT_WORDS && ew >= 7
    requires idx + 3 * ew <= SEGMENT_WORDS
    requires forall p :: 0 <= p < idx + ew ==> r[p] == w2[p]
    requires forall p :: 0 <= p < idx ==> w2[p] == w[p]
    requires Head(w2, idx) == perm && Head(r, idx) == Head(w2, idx)
    requires Head(r, idx + ew) == EmptyWords(remaining) && r[idx + 2 * ew] == E_EOS
    ensures AsWrittenShape(r, w, ew, idx, perm, remaining)
  {
  }

  /** The empty entry and the end mark written over the shifted words, which stay as they are below `ins`. */
  lemma AsWrittenAbove(w2: seq<Word>, w3: seq<Word>, r: seq<Word>, ew: nat, idx: nat, ins: nat, remaining: Word)
    requires |w2| == SEGMENT_WORDS && ew >= 7 && idx + 7 <= ins && ins + 2 * ew <= SEGMENT_WORDS
    requires w3 == Overwrite(w2, ins, EmptyWords(remaining))
    requires r == Overwrite(w3, ins + ew, EosSlot(ew))
    ensures forall p :: 0 <= p < ins ==> r[p] == w2[p]
    ensures Head(r, idx) == Head(w2, idx)
    ensures Head(r, ins) == EmptyWords(remaining)
    ensures r[ins + ew] == E_EOS
  {
    forall p | ins <= p < ins + 7 ensures r[p] == w3[p] {
    }
  }

  /** The permanent entry and the words below it survive the shift. */
  lemma AsWrittenBelow(w: seq<Word>, w1: seq<Word>, w2: seq<Word>, ew: nat, idx: nat, eos: nat, perm: seq<Word>)
    requires |w| == SEGMENT_WORDS && ew >= 7 && |perm| == 7
    requires idx + ew <= eos && eos + ew <= SEGMENT_WORDS
    requires w1 == Overwrite(w, idx, perm)
    requires w2 == OpenSlot(w1, idx + ew, eos, ew)
    ensures forall p :: 0 <= p < idx ==> w2[p] == w[p]
    ensures Head(w2, idx) == perm
  {
    forall p | 0 <= p < idx + 7 ensures w2[p] == w1[p] {
    }
  }

  /** The slots after the update as written: those up to the chosen one, then the empty entry, then the end. */
  lemma AsWrittenPositionsOf(r: seq<Word>, w: seq<Word>, ew: nat, ps: seq<nat>, j: nat, perm: seq<Word>, remaining: Word)
    requires |w| == SEGMENT_WORDS && |r| == SEGMENT_WORDS && ew >= 7 && |perm| == 7 && perm[0] == E_PERM
    requires j < |ps| && ps[0] == FIRST_ENTRY && remaining > 0 && ps[j] + 3 * ew <= SEGMENT_WORDS
    requires forall k :: 0 < k < |ps| ==> ps[k] == ps[k - 1] + ew
    requires forall k :: 0 <= k < |ps| ==> ps[k] + ew <= SEGMENT_WORDS && !EndsEntries(w, ew, ps[k])
    requires forall k :: 0 <= k < j ==> ps[k] + ew <= ps[j]
    requires forall p :: 0 <= p < ps[j] ==> r[p] == w[p]
    requires Head(r, ps[j]) == perm
    requires Head(r, ps[j] + ew) == EmptyWords(remaining)
    requires r[ps[j] + 2 * ew] == E_EOS
    ensures EntryPositions(r, ew, FIRST_ENTRY) == ps[..j + 1] + [ps[j] + ew]
  {
    var idx := ps[j];
    var qs := ps[..j + 1] + [idx + ew];
    forall k | 0 <= k < |qs| ensures !EndsEntries(r, ew, qs[k]) {
      if k < j {
        StatusCarries(r, w, ew, ps[k], ps[k]);
      } else if k == j {
        assert r[idx] == perm[0];
      } else {
        assert r[idx + ew] == EmptyWords(remaining)[0];
      }
    }
    assert PositionsEnd(qs, FIRST_ENTRY, ew) == idx + 2 * ew;
    PositionsFrom(r, ew, FIRST_ENTRY, qs);
  }

  /** The heads of those slots. */
  lemma AsWrittenHeads(r: seq<Word>, w: seq<Word>, ew: nat, ps: seq<nat>, j: nat, perm: seq<Word>, remaining: Word)
    requires |w| == SEGMENT_WORDS && |r| == SEGMENT_WORDS && ew >= 7 && |perm| == 7 && j < |ps|
    requires ps[j] + 3 * ew <= SEGMENT_WORDS
    requires forall k :: 0 <= k < |ps| ==> ps[k] + ew <= SEGMENT_WORDS
    requires forall k :: 0 <= k < j ==> ps[k] + ew <= ps[j]
    requires forall p :: 0 <= p < ps[j] ==> r[p] == w[p]
    requires Head(r, ps[j]) == perm
    requires Head(r, ps[j] + ew) == EmptyWords(remaining)
    ensures SlotHeads(r, ps[..j + 1] + [ps[j] + ew]) == SlotHeads(w, ps)[..j] + [perm, EmptyWords(remaining)]
  {
    var qs := ps[..j + 1] + [ps[j] + ew];
    var hs := SlotHeads(w, ps)[..j] + [perm, EmptyWords(remaining)];
    forall k | 0 <= k < |qs| ensures SlotHeads(r, qs)[k] == hs[k] {
      if k < j {
        assert Head(r, ps[k]) == Head(w, ps[k]);
      }
    }
  }

  /** Consecutive entry positions, for all of them at once. */
  lemma PositionsConsecutive(w: seq<Word>, ew: nat)
    requires |w| == SEGMENT_WORDS && ew >= 7
    ensures var ps := EntryPositions(w, ew, FIRST_ENTRY);
      forall k :: 0 < k < |ps| ==> ps[k] == ps[k - 1] + ew
  {
    var ps := EntryPositions(w, ew, FIRST_ENTRY);
    forall k | 0 < k < |ps| ensures ps[k] == ps[k - 1] + ew {
      PositionStep(w, ew, FIRST_ENTRY, k - 1);
    }
  }

  /** The slots of any segment whose words agree with the update as written where `AsWrittenWords` says. */
  lemma AsWrittenSlotsOf(r: seq<Word>, w: seq<Word>, ew: nat, j: nat, perm: seq<Word>, remaining: Word)
    requires |w| == SEGMENT_WORDS && |r| == SEGMENT_WORDS && ew >= 7 && |perm| == 7 && perm[0] == E_PERM
    requires j < |EntryPositions(w, ew, FIRST_ENTRY)| && remaining > 0
    requires EntryPositions(w, ew, FIRST_ENTRY)[j] + 3 * ew <= SEGMENT_WORDS
    requires AsWrittenShape(r, w, ew, EntryPositions(w, ew, FIRST_ENTRY)[j], perm, remaining)
    ensures EntrySlots(r, ew) == EntrySlots(w, ew)[..j] + [perm, EmptyWords(remaining)]
  {
    var ps := EntryPositions(w, ew, FIRST_ENTRY);
    AsWrittenPositionsFor(r, w, ew, ps, j, perm, remaining);
    var qs := EntryPositions(r, ew, FIRST_ENTRY);
    AsWrittenHeadsFor(r, w, ew, ps, qs, j, perm, remaining);
    SlotsFromHeads(r, w, ew, ps, qs, qs, SlotHeads(w, ps)[..j] + [perm, EmptyWords(remaining)]);
  }

  lemma AsWrittenPositionsFor(r: seq<Word>, w: seq<Word>, ew: nat, ps: seq<nat>, j: nat, perm: seq<Word>, remaining: Word)
    requires |w| == SEGMENT_WORDS && ew >= 7 && |perm| == 7 && perm[0] == E_PERM
    requires ps == EntryPositions(w, ew, FIRST_ENTRY)
    requires j < |ps| && remaining > 0 && ps[j] + 3 * ew <= SEGMENT_WORDS
    requires AsWrittenShape(r, w, ew, ps[j], perm, remaining)
    ensures EntryPositions(r, ew, FIRST_ENTRY) == ps[..j + 1] + [ps[j] + ew]
  {
    SpacedAround(w, ew, j);
    PositionsConsecutive(w, ew);
    AsWrittenPositionsOf(r, w, ew, ps, j, perm, remaining);
  }

  lemma AsWrittenHeadsFor(r: seq<Word>, w: seq<Word>, ew: nat, ps: seq<nat>, qs: seq<nat>, j: nat, perm: seq<Word>, remaining: Word)
    requires |w| == SEGMENT_WORDS && |r| == SEGMENT_WORDS && ew >= 7 && |perm| == 7
    requires ps == EntryPositions(w, ew, FIRST_ENTRY)
    requires j < |ps| && ps[j] + 3 * ew <= SEGMENT_WORDS
    requires AsWrittenShape(r, w, ew, ps[j], perm, remaining)
    requires qs == ps[..j + 1] + [ps[j] + ew]
    requires forall k :: 0 <= k < |qs| ==> qs[k] + 7 <= |r|
    ensures SlotHeads(r, qs) == SlotHeads(w, ps)[..j] + [perm, EmptyWords(remaining)]
  {
    SpacedAround(w, ew, j);
    AsWrittenHeads(r, w, ew, ps, j, perm, remaining);
  }

  /** Entry slots of two segments, from their positions and the heads found there. */
  lemma SlotsFromHeads(r: seq<Word>, w: seq<Word>, ew: nat, ps: seq<nat>, qs: seq<nat>, qs': seq<nat>, hs: seq<seq<Word>>)
    requires |w| == SEGMENT_WORDS && |r| == SEGMENT_WORDS && ew >= 7
    requires ps == EntryPositions(w, ew, FIRST_ENTRY) && qs == EntryPositions(r, ew, FIRST_ENTRY)
    requires qs == qs' && SlotHeads(r, qs') == hs
    ensures EntrySlots(r, ew) == hs && EntrySlots(w, ew) == SlotHeads(w, ps)
  {
  }

  /**
   * The update as written, when the pre-check lets it through and the shift
   * stays inside the segment: the list now ends right after the new empty
   * entry, so only the entries up to the chosen one are kept.
   */
  lemma AsWrittenSlots(w: seq<Word>, ew: nat, j: nat, perm: seq<Word>, remaining: Word)
    requires |w| == SEGMENT_WORDS && ew >= 7 && |perm| == 7 && perm[0] == E_PERM
    requires j < |EntryPositions(w, ew, FIRST_ENTRY)| && remaining > 0
    requires EntryPositions(w, ew, FIRST_ENTRY)[j] + 3 * ew <= SEGMENT_WORDS
    requires EndOfEntries(w, ew) + ew <= SEGMENT_WORDS
    ensures EntryPositions(w, ew, FIRST_ENTRY)[j] + ew <= EndOfEntries(w, ew)
    ensures var r := UpdateAsWritten(w, ew, EntryPositions(w, ew, FIRST_ENTRY)[j], EndOfEntries(w, ew), perm, remaining);
      EntrySlots(r, ew) == EntrySlots(w, ew)[..j] + [perm, EmptyWords(remaining)]
  {
    var ps := EntryPositions(w, ew, FIRST_ENTRY);
    PositionsSpaced(w, ew, FIRST_ENTRY, j, |ps|);
    var r := UpdateAsWritten(w, ew, ps[j], EndOfEntries(w, ew), perm, remaining);
    AsWrittenWords(w, ew, ps[j], EndOfEntries(w, ew), perm, remaining);
    AsWrittenSlotsOf(r, w, ew, j, perm, remaining);
  }

  /** So whenever entries follow the chosen one, the update as written drops them. */
  lemma AsWrittenLosesEntries(w: seq<Word>, ew: nat, j: nat, perm: seq<Word>, remaining: Word)
    requires |w| == SEGMENT_WORDS && ew >= 7 && |perm| == 7 && perm[0] == E_PERM
    requires j + 1 < |EntryPositions(w, ew, FIRST_ENTRY)| && remaining > 0
    requires EntryPositions(w, ew, FIRST_ENTRY)[j] + 3 * ew <= SEGMENT_WORDS
    requires EndOfEntries(w, ew) + ew <= SEGMENT_WORDS
    ensures EntryPositions(w, ew, FIRST_ENTRY)[j] + ew <= EndOfEntries(w, ew)
    ensures var r := UpdateAsWritten(w, ew, EntryPositions(w, ew, FIRST_ENTRY)[j], EndOfEntries(w, ew), perm, remaining);
      |EntrySlots(r, ew)| == j + 2 < |EntrySlots(w, ew)| + 1
      && EntrySlots(r, ew) != Inserted(EntrySlots(w, ew), j, perm, EmptyWords(remaining))
  {
    AsWrittenSlots(w, ew, j, perm, remaining);
  }

  // ---------------------------------------------------------------
  // The pre-check that decides whether the segment must be split
  // ---------------------------------------------------------------

  /**
   * The pre-check as written: with blocks left over, split when the empty
   * entry and one more slot after the chosen one would pass word 512. It
   * looks only at the chosen slot, not at the entries that will be shifted.
   */
  predicate NeedsSplitAsWritten(idx: nat, ew: nat, remaining: Word)
  {
    remaining > 0 && idx + 3 * ew > SEGMENT_WORDS
  }

  /** The pre-check as intended: with blocks left over, split when the shifted list and its end slot would pass word 512. */
  predicate NeedsSplit(eos: nat, ew: nat, remaining: Word)
  {
    remaining > 0 && eos + 2 * ew > SEGMENT_WORDS
  }

  /** A full segment with no end mark: header words zero, every other word E_MPTY. */
  function FullSegment(): (w: seq<Word>)
    ensures |w| == SEGMENT_WORDS
    ensures forall p :: FIRST_ENTRY <= p < SEGMENT_WORDS ==> w[p] == E_MPTY
  {
    seq(SEGMENT_WORDS, p => if p < FIRST_ENTRY then 0 else E_MPTY)
  }

  /**
   * On that segment, with 7-word slots, taking part of the first slot's
   * empty area passes the pre-check as written, yet the list runs to word
   * 509, so shifting it up one slot writes words 512 to 515, past the end of
   * the 512-word buffer. The intended pre-check asks for a split instead.
   */
  lemma ShiftOverrunExample()
    ensures var w := FullSegment();
      && |EntryPositions(w, 7, FIRST_ENTRY)| == 72
      && EntryPositions(w, 7, FIRST_ENTRY)[0] == FIRST_ENTRY
      && EndOfEntries(w, 7) == 509
      && !NeedsSplitAsWritten(FIRST_ENTRY, 7, 1)
      && EndOfEntries(w, 7) + 7 > SEGMENT_WORDS
      && NeedsSplit(EndOfEntries(w, 7), 7, 1)
  {
    var w := FullSegment();
    var ps: seq<nat> := seq(72, i requires 0 <= i < 72 => FIRST_ENTRY + 7 * i);
    forall k | 0 <= k < |ps| ensures !EndsEntries(w, 7, ps[k]) {
      assert w[ps[k]] == E_MPTY;
    }
    assert PositionsEnd(ps, FIRST_ENTRY, 7) == 509;
    PositionsFrom(w, 7, FIRST_ENTRY, ps);
  }

  /**
   * Whenever the intended pre-check lets the update through, the update as
   * intended keeps every entry: an exact fit replaces the chosen slot, and
   * otherwise the empty entry is inserted after it and the rest follow.
   */
  lemma UpdateKeepsEntries(w: seq<Word>, ew: nat, j: nat, perm: seq<Word>, remaining: Word)
    requires |w| == SEGMENT_WORDS && ew >= 7 && |perm| == 7 && perm[0] == E_PERM
    requires j < |EntryPositions(w, ew, FIRST_ENTRY)|
    requires !NeedsSplit(EndOfEntries(w, ew), ew, remaining)
    ensures EntryPositions(w, ew, FIRST_ENTRY)[j] + ew <= EndOfEntries(w, ew)
    ensures var r := UpdateCorrected(w, ew, EntryPositions(w, ew, FIRST_ENTRY)[j], EndOfEntries(w, ew), perm, remaining);
      EntrySlots(r, ew)
        == if remaining == 0 then EntrySlots(w, ew)[j := perm]
           else Inserted(EntrySlots(w, ew), j, perm, EmptyWords(remaining))
  {
    if remaining == 0 {
      ExactFitSlots(w, ew, j, perm);
    } else {
      CorrectedSlots(w, ew, j, perm, remaining);
    }
  }

  /** The update never touches the five header words, so the slot width read back is the same. */
  lemma UpdateKeepsHeader(w: seq<Word>, ew: nat, idx: nat, eos: nat, perm: seq<Word>, remaining: Word)
    requires |w| == SEGMENT_WORDS && ew >= 7 && |perm| == 7 && FIRST_ENTRY <= idx
    requires idx + ew <= eos && eos <= SEGMENT_WORDS
    requires remaining > 0 ==> eos + 2 * ew <= SEGMENT_WORDS
    ensures UpdateCorrected(w, ew, idx, eos, perm, remaining)[..FIRST_ENTRY] == w[..FIRST_ENTRY]
    ensures SlotWords(UpdateCorrected(w, ew, idx, eos, perm, remaining)) == SlotWords(w)
  {
    var r := UpdateCorrected(w, ew, idx, eos, perm, remaining);
    forall p | 0 <= p < FIRST_ENTRY ensures r[p] == w[p] {
    }
    assert r[..FIRST_ENTRY] == w[..FIRST_ENTRY];
    assert r[3] == w[3];
  }
}
