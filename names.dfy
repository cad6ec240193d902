/**
 * RT-11 file names as text: normalising a host name to the 6.3 form that is
 * written into the directory, and the `*` / `?` patterns that select
 * directory entries to copy out.
 */
module Names {
  import opened Wrappers
  import opened Rad50

  datatype NameError = MissingName

  predicate NoLower(s: string)
  {
    forall k :: 0 <= k < |s| ==> !('a' <= s[k] <= 'z')
  }

  /** A name in normal form: one to six name characters, an extension of at most three, upper case, no bare dot. */
  predicate NormalName(s: string)
  {
    var parts := SplitAtDot(s);
    1 <= |parts.0| <= 6 && |parts.1| <= 3 && NoLower(s)
    && s == (if parts.1 == [] then parts.0 else parts.0 + "." + parts.1)
  }

  /**
   * normalizeRt11Name: split at the first dot, refuse an empty name part,
   * upper-case both parts, keep at most six and three characters, and drop
   * the dot when there is no extension.
   */
  function NormalizeRt11Name(name: string): (r: Result<string, NameError>)
    ensures r.Err? <==> SplitAtDot(name).0 == []
  {
    var (base, ext) := SplitAtDot(name);
    if base == [] then Err(MissingName)
    else
      var b := Prefix(UpperString(base), 6);
      var e := Prefix(UpperString(ext), 3);
      Ok(if e == [] then b else b + "." + e)
  }

  lemma UpperHasNoLower(s: string)
    ensures NoLower(UpperString(s))
    ensures forall k :: 0 <= k < |s| ==> (UpperString(s)[k] == '.' <==> s[k] == '.')
  {
  }

  lemma {:induction false} UpperOfNoLower(s: string)
    requires NoLower(s)
    ensures UpperString(s) == s
  {
    if s != [] {
      UpperOfNoLower(s[1..]);
    }
  }

  /**
   * A successful normalisation yields a name in normal form whose parts are
   * the input's parts, upper-cased and cut to six and three characters.
   */
  lemma NormalizeGivesNormal(name: string)
    requires NormalizeRt11Name(name).Ok?
    ensures NormalName(NormalizeRt11Name(name).value)
    ensures SplitAtDot(NormalizeRt11Name(name).value)
      == (Prefix(UpperString(SplitAtDot(name).0), 6), Prefix(UpperString(SplitAtDot(name).1), 3))
  {
    var (base, ext) := SplitAtDot(name);
    var b := Prefix(UpperString(base), 6);
    var e := Prefix(UpperString(ext), 3);
    UpperHasNoLower(base);
    UpperHasNoLower(ext);
    assert forall k :: 0 <= k < |b| ==> b[k] != '.';
    SplitValidName(b, e);
    var s := NormalizeRt11Name(name).value;
    assert NoLower(s) by {
      if e != [] {
        forall k | 0 <= k < |s| ensures !('a' <= s[k] <= 'z') {
          if k < |b| { assert s[k] == b[k]; }
          else if k > |b| { assert s[k] == e[k - |b| - 1]; }
        }
      }
    }
  }

  /** A name already in normal form is left as it is. */
  lemma NormalizeFixesNormal(s: string)
    requires NormalName(s)
    ensures NormalizeRt11Name(s) == Ok(s)
  {
    var (base, ext) := SplitAtDot(s);
    assert NoLower(base) by {
      forall k | 0 <= k < |base| ensures !('a' <= base[k] <= 'z') {
        assert base[k] == s[k];
      }
    }
    assert NoLower(ext) by {
      if ext != [] {
        forall k | 0 <= k < |ext| ensures !('a' <= ext[k] <= 'z') {
          assert ext[k] == s[|base| + 1 + k];
        }
      }
    }
    UpperOfNoLower(base);
    UpperOfNoLower(ext);
  }

  /** Normalising twice is normalising once. */
  lemma NormalizeIdempotent(name: string)
    requires NormalizeRt11Name(name).Ok?
    ensures NormalizeRt11Name(NormalizeRt11Name(name).value) == NormalizeRt11Name(name)
  {
    NormalizeGivesNormal(name);
    NormalizeFixesNormal(NormalizeRt11Name(name).value);
  }

  // ---------------------------------------------------------------
  // RT-11 patterns
  // ---------------------------------------------------------------

  /**
   * matchComponent: an empty pattern or "*" matches anything; a pattern
   * without '*' matches a value of its length, '?' standing for any
   * character; otherwise the text before the first '*' must start the value
   * and the text after it must end it, without overlapping (both taken
   * literally).
   */
  function MatchComponent(value: string, pattern: string): (r: bool)
    ensures pattern == [] || pattern == "*" ==> r
    ensures r && pattern != "*" ==> |pattern| - 1 <= |value|
    ensures r && pattern != [] && '*' !in pattern ==>
      |value| == |pattern| && forall i :: 0 <= i < |pattern| && pattern[i] != '?' ==> value[i] == pattern[i]
  {
    if pattern == "*" || pattern == [] then true
    else
      var starPos := Find(pattern, '*');
      if starPos == |pattern| then MatchFixed(value, pattern)
      else MatchAroundStar(value, pattern[..starPos], pattern[starPos + 1..])
  }

  /** Same length, and every pattern character other than '?' equal to the value's. */
  predicate MatchFixed(value: string, pattern: string)
  {
    |value| == |pattern|
    && forall i :: 0 <= i < |pattern| ==> pattern[i] == '?' || pattern[i] == value[i]
  }

  /** The value is long enough, starts with `prefix` and, unless it is empty, ends with `suffix`. */
  predicate MatchAroundStar(value: string, prefix: string, suffix: string)
  {
    if |value| < |prefix| + |suffix| then false
    else if value[..|prefix|] != prefix then false
    else if suffix != [] && value[|value| - |suffix|..] != suffix then false
    else true
  }

  lemma {:induction false} FindPresent(s: string, c: char)
    requires c in s
    ensures Find(s, c) < |s|
  {
    if s[0] != c {
      FindPresent(s[1..], c);
    }
  }

  lemma {:induction false} FindMissing(s: string, c: char)
    requires c !in s
    ensures Find(s, c) == |s|
  {
    if s != [] {
      FindMissing(s[1..], c);
    }
  }

  /** Every value matches itself taken as a pattern. */
  lemma MatchComponentReflexive(value: string)
    ensures MatchComponent(value, value)
  {
    if value != "*" && value != [] && '*' in value {
      FindPresent(value, '*');
    }
  }

  /** A pattern without wildcards matches exactly the value equal to it. */
  lemma MatchComponentLiteral(value: string, pattern: string)
    requires pattern != [] && '*' !in pattern && '?' !in pattern
    ensures MatchComponent(value, pattern) <==> value == pattern
  {
    FindMissing(pattern, '*');
    if MatchComponent(value, pattern) {
      assert forall i :: 0 <= i < |pattern| ==> pattern[i] == value[i];
    }
  }

  /**
   * A non-empty pattern without '*' matches exactly the values of its length
   * that agree with it at every position not holding '?'.
   */
  lemma MatchComponentFixed(value: string, pattern: string)
    requires pattern != [] && '*' !in pattern
    ensures MatchComponent(value, pattern) <==>
      |value| == |pattern| && forall i :: 0 <= i < |pattern| && pattern[i] != '?' ==> value[i] == pattern[i]
  {
    FindMissing(pattern, '*');
  }

  /**
   * A pattern with a '*' (other than "*" itself) only matches values made of
   * the text before the first star, something, and the text after it.
   */
  lemma MatchComponentStarSplits(value: string, pattern: string)
    requires pattern != "*" && '*' in pattern && MatchComponent(value, pattern)
    ensures var s := Find(pattern, '*');
      |pattern| - 1 <= |value|
      && value[..s] == pattern[..s]
      && value[|value| - (|pattern| - s - 1)..] == pattern[s + 1..]
  {
    FindPresent(pattern, '*');
    var s := Find(pattern, '*');
    var prefix := pattern[..s];
    var suffix := pattern[s + 1..];
    assert |prefix| == s && |suffix| == |pattern| - s - 1;
    assert MatchAroundStar(value, prefix, suffix);
    if suffix == [] {
      assert value[|value|..] == suffix;
    }
  }

  /** Conversely, whatever stands in for the star, the value matches. */
  lemma MatchComponentStarAccepts(pattern: string, mid: string)
    requires '*' in pattern
    ensures var s := Find(pattern, '*');
      MatchComponent(pattern[..s] + mid + pattern[s + 1..], pattern)
  {
    FindPresent(pattern, '*');
    var s := Find(pattern, '*');
    var prefix := pattern[..s];
    var suffix := pattern[s + 1..];
    var value := prefix + mid + suffix;
    if pattern != "*" {
      assert value[..|prefix|] == prefix;
      assert value[|value| - |suffix|..] == suffix;
    }
  }

  /** matchRt11Pattern: the name parts and the extension parts must each match. */
  function MatchRt11Pattern(rtName: string, pattern: string): (r: bool)
    ensures r && '*' !in pattern ==>
      && (SplitAtDot(pattern).0 == [] || |SplitAtDot(rtName).0| == |SplitAtDot(pattern).0|)
      && (SplitAtDot(pattern).1 == [] || |SplitAtDot(rtName).1| == |SplitAtDot(pattern).1|)
  {
    var (valueName, valueExt) := SplitAtDot(rtName);
    var (patName, patExt) := SplitAtDot(pattern);
    PartsWithout(pattern, '*');
    MatchComponent(valueName, patName) && MatchComponent(valueExt, patExt)
  }

  /** A character absent from a name is absent from both its parts. */
  lemma PartsWithout(s: string, c: char)
    requires c != '.'
    ensures c !in s ==> c !in SplitAtDot(s).0 && c !in SplitAtDot(s).1
  {
    var (a, b) := SplitAtDot(s);
    if c !in s && Find(s, '.') < |s| {
      assert forall k :: 0 <= k < |a| ==> a[k] == s[k];
      assert forall k :: 0 <= k < |b| ==> b[k] == s[|a| + 1 + k];
    }
  }

  /** A pattern without a dot leaves the extension free: only the name part is compared. */
  lemma PatternWithoutDot(rtName: string, pattern: string)
    requires '.' !in pattern
    ensures MatchRt11Pattern(rtName, pattern) == MatchComponent(SplitAtDot(rtName).0, pattern)
  {
    FindMissing(pattern, '.');
  }

  /** "*.*" and "*" select every name. */
  lemma StarPatternsMatchAll(rtName: string)
    ensures MatchRt11Pattern(rtName, "*.*") && MatchRt11Pattern(rtName, "*")
  {
    assert Find("*.*", '.') == 1;
    assert "*.*"[..1] == "*" && "*.*"[2..] == "*";
    assert SplitAtDot("*.*") == ("*", "*");
    PatternWithoutDot(rtName, "*");
  }

  /** Every name matches itself taken as a pattern. */
  lemma MatchRt11Reflexive(rtName: string)
    ensures MatchRt11Pattern(rtName, rtName)
  {
    MatchComponentReflexive(SplitAtDot(rtName).0);
    MatchComponentReflexive(SplitAtDot(rtName).1);
  }

  /** A wildcard-free NAME.EXT pattern selects exactly the name equal to it. */
  lemma MatchRt11Literal(rtName: string, pattern: string)
    requires '*' !in pattern && '?' !in pattern
    requires SplitAtDot(pattern).0 != [] && SplitAtDot(pattern).1 != []
    ensures MatchRt11Pattern(rtName, pattern) <==> rtName == pattern
  {
    var (vn, ve) := SplitAtDot(rtName);
    var (pn, pe) := SplitAtDot(pattern);
    assert '.' in pattern by {
      if '.' !in pattern { FindMissing(pattern, '.'); }
    }
    FindPresent(pattern, '.');
    assert pattern == pn + "." + pe;
    assert '*' !in pn && '?' !in pn by {
      forall k | 0 <= k < |pn| ensures pn[k] == pattern[k] { }
    }
    assert '*' !in pe && '?' !in pe by {
      forall k | 0 <= k < |pe| ensures pe[k] == pattern[|pn| + 1 + k] { }
    }
    MatchComponentLiteral(vn, pn);
    MatchComponentLiteral(ve, pe);
    if MatchRt11Pattern(rtName, pattern) {
      assert vn == pn && ve == pe;
      assert Find(rtName, '.') < |rtName|;
    } else {
      MatchRt11Reflexive(rtName);
    }
  }
}
