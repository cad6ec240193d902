/**
 * RAD50: three characters of a 40-symbol alphabet packed into one 16-bit
 * word as `i1 * 1600 + i2 * 40 + i3`, and the 6.3 file names built from
 * three such words (two for the name, one for the extension).
 */
module Rad50 {
  import opened Words

  const RAD50_TABLE: seq<char> := " ABCDEFGHIJKLMNOPQRSTUVWXYZ$.%0123456789"

  /** `toupper` in the "C" locale: only a-z change. */
  function ToUpper(c: char): (u: char)
    ensures 'a' <= c <= 'z' ==> 'A' <= u <= 'Z' && u as int == c as int - 32
    ensures !('a' <= c <= 'z') ==> u == c
  {
    if 'a' <= c <= 'z' then (c as int - 32) as char else c
  }

  /** Every character through ToUpper, as std::transform with toupper does. */
  function UpperString(s: string): (t: string)
    ensures |t| == |s|
    ensures forall k :: 0 <= k < |s| ==> t[k] == ToUpper(s[k])
  {
    if s == [] then [] else [ToUpper(s[0])] + UpperString(s[1..])
  }

  /** Position of a character in the table, or 0 (the space) when it is not in it. */
  function Rad50Code(c: char): (i: nat)
    ensures i < 40
  {
    if 'A' <= c <= 'Z' then c as int - 'A' as int + 1
    else if c == '$' then 27
    else if c == '.' then 28
    else if c == '%' then 29
    else if '0' <= c <= '9' then c as int - '0' as int + 30
    else 0
  }

  /** Every table position is the code of the character it holds. */
  lemma CodeOfTable(k: nat)
    requires k < 40
    ensures Rad50Code(RAD50_TABLE[k]) == k
  {
  }

  /** The code of a character is the position it holds in the table, or 0 when the table lacks it. */
  lemma CodeIsTablePosition(c: char)
    ensures c in RAD50_TABLE ==> RAD50_TABLE[Rad50Code(c)] == c
    ensures c !in RAD50_TABLE ==> Rad50Code(c) == 0
  {
    var i := Rad50Code(c);
    if i != 0 {
      assert RAD50_TABLE[i] == c;
    }
    if c in RAD50_TABLE {
      var k :| 0 <= k < |RAD50_TABLE| && RAD50_TABLE[k] == c;
      CodeOfTable(k);
    }
  }

  /** rad50Index: linear search of the table for the upper-cased character; 0 when absent. */
  method Rad50Index(c: char) returns (i: nat)
    ensures i < 40
    ensures ToUpper(c) in RAD50_TABLE ==> RAD50_TABLE[i] == ToUpper(c)
    ensures ToUpper(c) !in RAD50_TABLE ==> i == 0
    ensures i == Rad50Code(ToUpper(c))
  {
    var u := ToUpper(c);
    i := 0;
    while i < 40
      invariant 0 <= i <= 40
      invariant forall j :: 0 <= j < i ==> RAD50_TABLE[j] != u
    {
      if RAD50_TABLE[i] == u {
        CodeOfTable(i);
        return;
      }
      i := i + 1;
    }
    CodeIsTablePosition(u);
    i := 0;
  }

  /** Pads a string with spaces to at least three characters, as encodeRad50 does. */
  function Pad3(s: string): (t: string)
    ensures |t| >= 3
    ensures forall k :: 0 <= k < 3 ==> t[k] == if k < |s| then s[k] else ' '
    decreases 3 - |s|
  {
    if |s| >= 3 then s else Pad3(s + " ")
  }

  function EncodeRad50(s3: string): (w: Word)
    ensures w < 64000
  {
    var t := Pad3(s3);
    Rad50Code(ToUpper(t[0])) * 1600 + Rad50Code(ToUpper(t[1])) * 40 + Rad50Code(ToUpper(t[2]))
  }

  /**
   * The three table indices decodeRad50 uses for a word. The first one is 40
   * (one past the table) for every word from 64000 on.
   */
  function Rad50Indices(w: Word): (r: (nat, nat, nat))
  {
    (w / 1600, (w % 1600) / 40, w % 40)
  }

  /** The table symbol at index `i`; a '?' stands in for the index one past the table. */
  function TableChar(i: nat): char
  {
    if i < 40 then RAD50_TABLE[i] else '?'
  }

  function DropSpaces(s: string): (t: string)
    ensures ' ' !in t
    ensures |t| <= |s|
  {
    if s == [] then []
    else if s[0] == ' ' then DropSpaces(s[1..])
    else [s[0]] + DropSpaces(s[1..])
  }

  /** decodeRad50, with an out-of-table first index decoded as '?'. */
  function DecodeRad50(w: Word): (s: string)
    ensures |s| <= 3 && ' ' !in s
  {
    var (i1, i2, i3) := Rad50Indices(w);
    DropSpaces([TableChar(i1), TableChar(i2), TableChar(i3)])
  }

  /** What a character turns into after an encode: its upper-case form if in the table, else the space. */
  function Canon(c: char): char
  {
    RAD50_TABLE[Rad50Code(ToUpper(c))]
  }

  /** Decoding an encoded word gives back its three (padded) characters, canonical and without spaces. */
  lemma {:induction false} DecodeEncode(s3: string)
    ensures var t := Pad3(s3);
      DecodeRad50(EncodeRad50(s3)) == DropSpaces([Canon(t[0]), Canon(t[1]), Canon(t[2])])
  {
    var t := Pad3(s3);
    var a, b, c := Rad50Code(ToUpper(t[0])), Rad50Code(ToUpper(t[1])), Rad50Code(ToUpper(t[2]));
    var w := EncodeRad50(s3);
    assert w == a * 1600 + b * 40 + c;
    assert w / 1600 == a;
    assert w % 1600 == b * 40 + c;
    assert (w % 1600) / 40 == b;
    assert w % 40 == c;
  }

  /** Three characters of the table (upper case) survive an encode and a decode, minus their spaces. */
  lemma Rad50RoundTrip(s3: string)
    requires |s3| == 3
    requires forall k :: 0 <= k < 3 ==> s3[k] in RAD50_TABLE
    ensures DecodeRad50(EncodeRad50(s3)) == DropSpaces(s3)
  {
    DecodeEncode(s3);
    CanonOfThree(s3, Pad3(s3));
  }

  lemma CanonOfThree(s3: string, t: string)
    requires |s3| == 3
    requires forall k :: 0 <= k < 3 ==> s3[k] in RAD50_TABLE
    requires |t| >= 3 && t[..3] == s3
    ensures [Canon(t[0]), Canon(t[1]), Canon(t[2])] == s3
  {
    assert t[0] == s3[0] && t[1] == s3[1] && t[2] == s3[2];
    CanonOfTable(s3[0]);
    CanonOfTable(s3[1]);
    CanonOfTable(s3[2]);
  }

  lemma CanonOfTable(c: char)
    requires c in RAD50_TABLE
    ensures Canon(c) == c
  {
    var k :| 0 <= k < |RAD50_TABLE| && RAD50_TABLE[k] == c;
    assert !('a' <= c <= 'z');
    CodeOfTable(k);
  }

  /** A character outside the table encodes like the space. */
  lemma UnknownIsSpace(c: char)
    requires ToUpper(c) !in RAD50_TABLE
    ensures EncodeRad50([c, ' ', ' ']) == 0
  {
    CodeIsTablePosition(ToUpper(c));
  }

  /** decodeRad50 indexes past the 40-symbol table for every word from 64000 on, and only for those. */
  lemma DecodeIndexOverrun(w: Word)
    ensures Rad50Indices(w).1 < 40 && Rad50Indices(w).2 < 40
    ensures Rad50Indices(w).0 >= |RAD50_TABLE| <==> w >= 64000
  {
  }

  /** Below 64000, the '?' stand-in is never used: the decode is the source's table lookup. */
  lemma DecodeInTable(w: Word)
    requires w < 64000
    ensures DecodeRad50(w) == DropSpaces([RAD50_TABLE[w / 1600], RAD50_TABLE[(w % 1600) / 40], RAD50_TABLE[w % 40]])
  {
  }

  // ---------------------------------------------------------------
  // File names: NAME.EXT in three RAD50 words
  // ---------------------------------------------------------------

  /** `std::string::find`: index of the first `c`, or |s| when there is none. */
  function Find(s: string, c: char): (i: nat)
    ensures i <= |s|
    ensures i < |s| ==> s[i] == c
    ensures forall k :: 0 <= k < i ==> s[k] != c
  {
    if s == [] then 0
    else if s[0] == c then 0
    else 1 + Find(s[1..], c)
  }

  /** `s.substr(0, n)`: at most the first n characters. */
  function Prefix(s: string, n: nat): (t: string)
    ensures |t| <= n && |t| <= |s| && t == s[..|t|]
    ensures |s| <= n ==> t == s
  {
    if |s| > n then s[..n] else s
  }

  /** Splits "NAME.EXT" at its first dot: the name and everything after the dot. */
  function SplitAtDot(s: string): (r: (string, string))
    ensures '.' !in r.0
    ensures Find(s, '.') == |s| ==> r == (s, "")
    ensures Find(s, '.') < |s| ==> s == r.0 + "." + r.1
  {
    var pos := Find(s, '.');
    if pos == |s| then (s, "")
    else (s[..pos], s[pos + 1..])
  }

  function DecodeFileName(name1: Word, name2: Word, ext: Word): (s: string)
    ensures |s| <= 10 && ' ' !in s
    ensures DecodeRad50(ext) == "" ==> |s| <= 6
  {
    var base := Prefix(DecodeRad50(name1) + DecodeRad50(name2), 6);
    var extension := Prefix(DecodeRad50(ext), 3);
    if extension == "" then base else base + "." + extension
  }

  function EncodeFileName(rtname: string): (r: (Word, Word, Word))
    ensures r.0 < 64000 && r.1 < 64000 && r.2 < 64000
  {
    var (base0, ext0) := SplitAtDot(rtname);
    var base := Pad6(Prefix(base0, 6));
    var extension := Pad3(Prefix(ext0, 3));
    (EncodeRad50(base[..3]), EncodeRad50(base[3..6]), EncodeRad50(extension))
  }

  /** Pads a string with spaces to at least six characters. */
  function Pad6(s: string): (t: string)
    ensures |t| >= 6
    ensures forall k :: 0 <= k < 6 ==> t[k] == if k < |s| then s[k] else ' '
    decreases 6 - |s|
  {
    if |s| >= 6 then s else Pad6(s + " ")
  }

  /** A name character that survives the round trip: in the table and not the space. */
  predicate NameChar(c: char)
  {
    c in RAD50_TABLE && c != ' '
  }

  /** Up to three table characters without spaces, padded, encoded and decoded, come back unchanged. */
  lemma {:induction false} GroupRoundTrip(s: string)
    requires |s| <= 3
    requires forall k :: 0 <= k < |s| ==> NameChar(s[k])
    ensures DecodeRad50(EncodeRad50(s)) == s
  {
    var t := Pad3(s);
    DecodeEncode(s);
    var u := [Canon(t[0]), Canon(t[1]), Canon(t[2])];
    forall k | 0 <= k < 3 ensures u[k] == if k < |s| then s[k] else ' ' {
      CanonOfTable(t[k]);
    }
    DropTrailingSpaces(s, u);
  }

  lemma {:induction false} DropTrailingSpaces(s: string, u: string)
    requires |s| <= |u|
    requires forall k :: 0 <= k < |s| ==> s[k] != ' '
    requires forall k :: 0 <= k < |u| ==> u[k] == if k < |s| then s[k] else ' '
    ensures DropSpaces(u) == s
    decreases |u|
  {
    if u != [] {
      DropTrailingSpaces(if s == [] then [] else s[1..], u[1..]);
    }
  }

  /**
   * A valid 6.3 name (at most six name characters without a dot, and an
   * extension of at most three) survives encodeFileName and decodeFileName.
   */
  lemma FileNameRoundTrip(base: string, ext: string)
    requires |base| <= 6 && |ext| <= 3
    requires forall k :: 0 <= k < |base| ==> NameChar(base[k]) && base[k] != '.'
    requires forall k :: 0 <= k < |ext| ==> NameChar(ext[k])
    ensures var name := if ext == "" then base else base + "." + ext;
      var r := EncodeFileName(name);
      DecodeFileName(r.0, r.1, r.2) == name
  {
    var lo := if |base| <= 3 then base else base[..3];
    var hi := if |base| <= 3 then "" else base[3..];
    EncodeValidName(base, ext, lo, hi);
    DecodeValidName(base, ext, lo, hi);
  }

  /** The three words of a valid name decode back to it. */
  lemma DecodeValidName(base: string, ext: string, lo: string, hi: string)
    requires |base| <= 6 && |ext| <= 3
    requires forall k :: 0 <= k < |base| ==> NameChar(base[k])
    requires forall k :: 0 <= k < |ext| ==> NameChar(ext[k])
    requires lo == (if |base| <= 3 then base else base[..3])
    requires hi == (if |base| <= 3 then "" else base[3..])
    ensures DecodeFileName(EncodeRad50(lo), EncodeRad50(hi), EncodeRad50(ext))
      == if ext == "" then base else base + "." + ext
  {
    BaseHalves(base, lo, hi);
    GroupRoundTrip(lo);
    GroupRoundTrip(hi);
    GroupRoundTrip(ext);
    DecodeFileNameOf(EncodeRad50(lo), EncodeRad50(hi), EncodeRad50(ext), lo, hi, ext);
  }

  /** The two three-character halves of a base of up to six name characters. */
  lemma BaseHalves(base: string, lo: string, hi: string)
    requires |base| <= 6
    requires forall k :: 0 <= k < |base| ==> NameChar(base[k])
    requires lo == (if |base| <= 3 then base else base[..3])
    requires hi == (if |base| <= 3 then "" else base[3..])
    ensures |lo| <= 3 && |hi| <= 3 && lo + hi == base
    ensures forall k :: 0 <= k < |lo| ==> NameChar(lo[k])
    ensures forall k :: 0 <= k < |hi| ==> NameChar(hi[k])
  {
    if |base| > 3 {
      assert base[..3] + base[3..] == base;
      forall k | 0 <= k < |hi| ensures NameChar(hi[k]) {
        assert hi[k] == base[k + 3];
      }
    } else {
      assert base + "" == base;
    }
  }

  /** decodeFileName in terms of what its three words decode to. */
  lemma DecodeFileNameOf(n1: Word, n2: Word, e: Word, a: string, b: string, c: string)
    requires DecodeRad50(n1) == a && DecodeRad50(n2) == b && DecodeRad50(e) == c
    ensures var base := Prefix(a + b, 6);
      var ext := Prefix(c, 3);
      DecodeFileName(n1, n2, e) == if ext == "" then base else base + "." + ext
  {
  }

  lemma EncodeValidName(base: string, ext: string, lo: string, hi: string)
    requires |base| <= 6 && |ext| <= 3
    requires forall k :: 0 <= k < |base| ==> base[k] != '.'
    requires lo == (if |base| <= 3 then base else base[..3])
    requires hi == (if |base| <= 3 then "" else base[3..])
    ensures EncodeFileName(if ext == "" then base else base + "." + ext)
      == (EncodeRad50(lo), EncodeRad50(hi), EncodeRad50(ext))
  {
    var name := if ext == "" then base else base + "." + ext;
    SplitValidName(base, ext);
    EncodeFileNameOf(name, base, ext);
    EncodeHalves(base, lo, hi);
    EncodeExtension(ext);
  }

  /** encodeFileName in terms of the two halves of the split name. */
  lemma EncodeFileNameOf(name: string, base: string, ext: string)
    requires SplitAtDot(name) == (base, ext)
    ensures var padded := Pad6(Prefix(base, 6));
      EncodeFileName(name) == (EncodeRad50(padded[..3]), EncodeRad50(padded[3..6]), EncodeRad50(Pad3(Prefix(ext, 3))))
  {
  }

  /** An extension of at most three characters encodes like itself once cut and padded. */
  lemma EncodeExtension(ext: string)
    requires |ext| <= 3
    ensures EncodeRad50(Pad3(Prefix(ext, 3))) == EncodeRad50(ext)
  {
    var t := Pad3(ext);
    assert Prefix(ext, 3) == ext;
    assert Pad3(t) == t;
  }

  lemma SplitValidName(base: string, ext: string)
    requires forall k :: 0 <= k < |base| ==> base[k] != '.'
    ensures SplitAtDot(if ext == "" then base else base + "." + ext) == (base, ext)
  {
    var name := if ext == "" then base else base + "." + ext;
    FindAbsent(base);
    if ext != "" {
      FindAfter(base, ext);
      assert name[..|base|] == base;
      assert name[|base| + 1..] == ext;
    }
  }

  /** The two name words encode the first and the last three characters of the padded name. */
  lemma EncodeHalves(base: string, lo: string, hi: string)
    requires |base| <= 6
    requires lo == (if |base| <= 3 then base else base[..3])
    requires hi == (if |base| <= 3 then "" else base[3..])
    ensures var padded := Pad6(Prefix(base, 6));
      EncodeRad50(padded[..3]) == EncodeRad50(lo) && EncodeRad50(padded[3..6]) == EncodeRad50(hi)
  {
    var padded := Pad6(Prefix(base, 6));
    assert Prefix(base, 6) == base;
    assert padded[..3] == Pad3(lo)[..3] by {
      forall k | 0 <= k < 3 ensures padded[k] == Pad3(lo)[k] { }
    }
    assert padded[3..6] == Pad3(hi)[..3] by {
      forall k | 0 <= k < 3 ensures padded[3 + k] == Pad3(hi)[k] { }
    }
    SamePadded(padded[..3], lo);
    SamePadded(padded[3..6], hi);
  }

  /** Encoding only looks at the first three characters after padding. */
  lemma SamePadded(a: string, b: string)
    requires |a| == 3 && |b| <= 3
    requires a == Pad3(b)[..3]
    ensures EncodeRad50(a) == EncodeRad50(b)
  {
    assert Pad3(a) == a;
  }

  lemma {:induction false} FindAbsent(s: string)
    requires forall k :: 0 <= k < |s| ==> s[k] != '.'
    ensures Find(s, '.') == |s|
  {
    if s != [] {
      FindAbsent(s[1..]);
    }
  }

  lemma {:induction false} FindAfter(s: string, t: string)
    requires forall k :: 0 <= k < |s| ==> s[k] != '.'
    ensures Find(s + "." + t, '.') == |s|
  {
    if s != [] {
      assert (s + "." + t)[1..] == s[1..] + "." + t;
      FindAfter(s[1..], t);
    }
  }
}
