/** Character-level string helpers with Python's meaning: `str.lstrip`,
    `str.rstrip`, `str.strip` and `str.replace`. */
module Text {

  /** Python's `str.isspace` for one character: the characters `str.strip()`
      removes when called without arguments. */
  predicate IsSpace(c: char) {
    c == ' ' || ('\t' <= c <= '\r') || ('\U{1C}' <= c <= '\U{1F}')
    || c == '\U{85}' || c == '\U{A0}' || c == '\U{1680}'
    || ('\U{2000}' <= c <= '\U{200A}') || c == '\U{2028}' || c == '\U{2029}'
    || c == '\U{202F}' || c == '\U{205F}' || c == '\U{3000}'
  }

  predicate IsDot(c: char) { c == '.' }

  /** `s.lstrip(chars)` where `drop` says which characters are in `chars`. */
  function TrimStart(s: string, drop: char -> bool): (r: string)
    ensures |r| <= |s| && r == s[|s| - |r|..]
    ensures r == [] || !drop(r[0])
    ensures forall i :: 0 <= i < |s| - |r| ==> drop(s[i])
  {
    if s == [] || !drop(s[0]) then s else TrimStart(s[1..], drop)
  }

  /** `s.rstrip(chars)` where `drop` says which characters are in `chars`. */
  function TrimEnd(s: string, drop: char -> bool): (r: string)
    ensures |r| <= |s| && r == s[..|r|]
    ensures r == [] || !drop(r[|r| - 1])
    ensures forall i :: |r| <= i < |s| ==> drop(s[i])
  {
    if s == [] || !drop(s[|s| - 1]) then s else TrimEnd(s[..|s| - 1], drop)
  }

  /** A dropped character at the end makes no difference to `rstrip`. */
  lemma TrimEndDropsLast(s: string, c: char, drop: char -> bool)
    requires drop(c)
    ensures TrimEnd(s + [c], drop) == TrimEnd(s, drop)
  {
    assert (s + [c])[..|s|] == s;
  }

  /** A dropped character at the start makes no difference to `lstrip`. */
  lemma TrimStartDropsFirst(c: char, s: string, drop: char -> bool)
    requires drop(c)
    ensures TrimStart([c] + s, drop) == TrimStart(s, drop)
  {
    assert ([c] + s)[1..] == s;
  }

  /** `r` is the slice of `s` at `start`, and every character of `s` before
      or after that slice is one that `drop` removes. */
  predicate SliceBetween(s: string, start: int, r: string, drop: char -> bool) {
    && 0 <= start && start + |r| <= |s| && r == s[start..start + |r|]
    && (forall k :: 0 <= k < start ==> drop(s[k]))
    && (forall k :: start + |r| <= k < |s| ==> drop(s[k]))
  }

  /** `rstrip` after `lstrip` removes characters at both ends only. */
  lemma TrimPiece(s: string, drop: char -> bool)
    ensures exists start :: SliceBetween(s, start, TrimEnd(TrimStart(s, drop), drop), drop)
  {
    var t := TrimStart(s, drop);
    var r := TrimEnd(t, drop);
    var start := |s| - |t|;
    assert t == s[start..];
    assert r == t[..|r|];
    assert s[start..][..|r|] == s[start..start + |r|];
    assert forall k :: start + |r| <= k < |s| ==> s[k] == t[k - start];
    assert SliceBetween(s, start, r, drop);
  }

  /** `s.strip()`: whitespace is removed at both ends and only there, and
      what is left neither starts nor ends with whitespace. */
  function Strip(s: string): (r: string)
    ensures |r| <= |s|
    ensures r == [] || (!IsSpace(r[0]) && !IsSpace(r[|r| - 1]))
    ensures exists start :: SliceBetween(s, start, r, IsSpace)
  {
    TrimPiece(s, IsSpace);
    TrimEnd(TrimStart(s, IsSpace), IsSpace)
  }

  /** Whether `pat` occurs in `s` starting at index `i`. */
  predicate OccursAt(s: string, pat: string, i: int) {
    0 <= i && i + |pat| <= |s| && s[i..i + |pat|] == pat
  }

  /** `s.replace(pat, rep)`: non-overlapping occurrences, scanned left to right. */
  function ReplaceAll(s: string, pat: string, rep: string): (r: string)
    requires pat != []
    decreases |s|
  {
    if |s| < |pat| then s
    else if s[..|pat|] == pat then rep + ReplaceAll(s[|pat|..], pat, rep)
    else [s[0]] + ReplaceAll(s[1..], pat, rep)
  }

  /** A character absent from `s` and from `rep` is absent from the result. */
  lemma {:induction false} ReplaceAllKeepsAbsent(s: string, pat: string, rep: string, c: char)
    requires pat != []
    requires forall i :: 0 <= i < |s| ==> s[i] != c
    requires forall i :: 0 <= i < |rep| ==> rep[i] != c
    ensures forall i :: 0 <= i < |ReplaceAll(s, pat, rep)| ==> ReplaceAll(s, pat, rep)[i] != c
    decreases |s|
  {
    if |s| >= |pat| {
      if s[..|pat|] == pat {
        ReplaceAllKeepsAbsent(s[|pat|..], pat, rep, c);
      } else {
        ReplaceAllKeepsAbsent(s[1..], pat, rep, c);
      }
    }
  }

  /** The first character of a replacement: the replacement's own when the
      text starts with the pattern, the text's first character otherwise. */
  lemma ReplaceAllHead(s: string, pat: string, rep: string)
    requires pat != [] && rep != [] && s != []
    ensures ReplaceAll(s, pat, rep) != []
    ensures |s| >= |pat| && s[..|pat|] == pat ==> ReplaceAll(s, pat, rep)[0] == rep[0]
    ensures !(|s| >= |pat| && s[..|pat|] == pat) ==> ReplaceAll(s, pat, rep)[0] == s[0]
  {
  }

  /** Text whose characters all differ from the pattern's first character,
      put in front of text without an occurrence, creates none. */
  lemma PrependForeign(front: string, tail: string, pat: string)
    requires pat != []
    requires forall j :: 0 <= j < |front| ==> front[j] != pat[0]
    requires forall i :: !OccursAt(tail, pat, i)
    ensures forall i :: !OccursAt(front + tail, pat, i)
  {
    var r := front + tail;
    forall i ensures !OccursAt(r, pat, i) {
      if 0 <= i < |front| && i + |pat| <= |r| {
        assert r[i..i + |pat|][0] == front[i];
      } else if |front| <= i && i + |pat| <= |r| {
        var here, there := r[i..i + |pat|], tail[i - |front|..i - |front| + |pat|];
        assert forall k :: 0 <= k < |pat| ==> here[k] == there[k];
        assert !OccursAt(tail, pat, i - |front|);
      }
    }
  }

  /** One character put in front of text without an occurrence creates none
      unless the pattern starts right there. */
  lemma PrependOne(c: char, tail: string, pat: string)
    requires pat != []
    requires forall i :: !OccursAt(tail, pat, i)
    requires !OccursAt([c] + tail, pat, 0)
    ensures forall i :: !OccursAt([c] + tail, pat, i)
  {
    var r := [c] + tail;
    forall i | 1 <= i && i + |pat| <= |r| ensures !OccursAt(r, pat, i) {
      var here, there := r[i..i + |pat|], tail[i - 1..i - 1 + |pat|];
      assert forall k :: 0 <= k < |pat| ==> here[k] == there[k];
      assert !OccursAt(tail, pat, i - 1);
    }
  }

  /** After replacing a pattern of one or two characters by a text that
      shares no character with it, the pattern occurs nowhere. */
  lemma {:induction false} ReplaceAllRemoves(s: string, pat: string, rep: string)
    requires 1 <= |pat| <= 2 && rep != []
    requires forall j, k :: 0 <= j < |rep| && 0 <= k < |pat| ==> rep[j] != pat[k]
    ensures forall i :: !OccursAt(ReplaceAll(s, pat, rep), pat, i)
    decreases |s|
  {
    if |s| >= |pat| {
      if s[..|pat|] == pat {
        var rest := s[|pat|..];
        ReplaceAllRemoves(rest, pat, rep);
        PrependForeign(rep, ReplaceAll(rest, pat, rep), pat);
      } else {
        var rest := s[1..];
        var tail := ReplaceAll(rest, pat, rep);
        ReplaceAllRemoves(rest, pat, rep);
        var r := [s[0]] + tail;
        if |pat| <= |r| {
          if |pat| == 1 {
            assert r[..1] == s[..1];
          } else {
            ReplaceAllHead(rest, pat, rep);
            assert r[..2] == [s[0], tail[0]];
            assert s[..2] == [s[0], s[1]];
          }
        }
        PrependOne(s[0], tail, pat);
      }
    }
  }

  /** Text in which the pattern does not occur is left as it is. */
  lemma {:induction false} ReplaceAllIdentity(s: string, pat: string, rep: string)
    requires pat != []
    requires forall i :: !OccursAt(s, pat, i)
    ensures ReplaceAll(s, pat, rep) == s
    decreases |s|
  {
    if |s| >= |pat| {
      assert !OccursAt(s, pat, 0);
      var rest := s[1..];
      forall i ensures !OccursAt(rest, pat, i) {
        if 0 <= i && i + |pat| <= |rest| {
          var here, there := s[i + 1..i + 1 + |pat|], rest[i..i + |pat|];
          assert forall k :: 0 <= k < |pat| ==> here[k] == there[k];
          assert !OccursAt(s, pat, i + 1);
        }
      }
      ReplaceAllIdentity(rest, pat, rep);
      assert s == [s[0]] + rest;
    }
  }

  /** Replacing one character by one character works character by
      character: every `c` becomes `d` and every other character stays in
      its place. */
  lemma {:induction false} ReplaceCharPointwise(s: string, c: char, d: char)
    ensures |ReplaceAll(s, [c], [d])| == |s|
    ensures forall i :: 0 <= i < |s| ==> ReplaceAll(s, [c], [d])[i] == if s[i] == c then d else s[i]
    decreases |s|
  {
    if s != [] {
      ReplaceCharPointwise(s[1..], c, d);
      assert s[..1] == [s[0]];
      assert s[1..] == s[|[c]|..];
      var tail := ReplaceAll(s[1..], [c], [d]);
      assert ReplaceAll(s, [c], [d]) == [if s[0] == c then d else s[0]] + tail;
    }
  }

  /** The pattern on its own becomes the replacement. */
  lemma ReplaceAllPattern(pat: string, rep: string)
    requires pat != []
    ensures ReplaceAll(pat, pat, rep) == rep
  {
    assert pat[..|pat|] == pat;
    assert ReplaceAll(pat[|pat|..], pat, rep) == [];
  }

  /** An occurrence in a suffix is an occurrence in the whole text, shifted. */
  lemma OccursAtShift(s: string, m: nat, pat: string, k: nat)
    requires m <= |s|
    ensures OccursAt(s[m..], pat, k) <==> OccursAt(s, pat, k + m)
  {
    if k + m + |pat| <= |s| {
      assert s[m..][k..k + |pat|] == s[k + m..k + m + |pat|];
    }
  }

  /** A text that starts with the pattern: the scan replaces it, also when
      more text follows. */
  lemma ReplaceAllMatchStep(a: string, b: string, pat: string, rep: string)
    requires pat != [] && OccursAt(a, pat, 0)
    ensures ReplaceAll(a, pat, rep) == rep + ReplaceAll(a[|pat|..], pat, rep)
    ensures ReplaceAll(a + b, pat, rep) == rep + ReplaceAll(a[|pat|..] + b, pat, rep)
  {
    assert a[..|pat|] == a[0..|pat|];
    assert (a + b)[..|pat|] == a[0..|pat|];
    assert (a + b)[|pat|..] == a[|pat|..] + b;
  }

  /** A text that does not start with the pattern: the scan keeps its first
      character, also when more text follows, unless an occurrence begins
      at the start of the whole. */
  lemma ReplaceAllKeepStep(a: string, b: string, pat: string, rep: string)
    requires pat != [] && a != [] && !OccursAt(a, pat, 0)
    requires |a| < |pat| ==> !OccursAt(a + b, pat, 0)
    ensures ReplaceAll(a, pat, rep) == [a[0]] + ReplaceAll(a[1..], pat, rep)
    ensures ReplaceAll(a + b, pat, rep) == [a[0]] + ReplaceAll(a[1..] + b, pat, rep)
  {
    if |a| >= |pat| {
      assert a[..|pat|] == a[0..|pat|];
      assert (a + b)[..|pat|] == a[0..|pat|];
    } else {
      assert a == [a[0]] + a[1..];
    }
    assert (a + b)[1..] == a[1..] + b;
  }

  /** No occurrence of `pat` in `a + b` starts in `a` and ends in `b`. */
  predicate NoneAcross(a: string, b: string, pat: string) {
    forall k :: 0 <= k < |a| < k + |pat| ==> !OccursAt(a + b, pat, k)
  }

  /** Dropping characters from the front of the first part keeps the
      parts free of an occurrence across them. */
  lemma NoneAcrossShift(a: string, b: string, pat: string, m: nat)
    requires m <= |a| && NoneAcross(a, b, pat)
    ensures NoneAcross(a[m..], b, pat)
  {
    assert (a + b)[m..] == a[m..] + b;
    forall k | 0 <= k < |a[m..]| < k + |pat|
      ensures !OccursAt(a[m..] + b, pat, k)
    {
      OccursAtShift(a + b, m, pat, k);
    }
  }

  /** Putting a common front on the two parts of a sum. */
  lemma Regroup(head: string, x: string, y: string, hx: string, xy: string, hxy: string)
    requires hx == head + x && xy == x + y && hxy == head + xy
    ensures hxy == hx + y
  {
  }

  /** Replacing in a text made of two parts is replacing in each part, as
      long as no occurrence of the pattern starts in the first part and ends
      in the second. */
  lemma {:induction false} ReplaceAllAppend(a: string, b: string, pat: string, rep: string)
    requires pat != [] && NoneAcross(a, b, pat)
    ensures ReplaceAll(a + b, pat, rep) == ReplaceAll(a, pat, rep) + ReplaceAll(b, pat, rep)
    decreases |a|
  {
    if a == [] {
      assert a + b == b;
    } else {
      var m := if OccursAt(a, pat, 0) then |pat| else 1;
      var head := if OccursAt(a, pat, 0) then rep else [a[0]];
      if OccursAt(a, pat, 0) {
        ReplaceAllMatchStep(a, b, pat, rep);
      } else {
        assert |a| < |pat| ==> !OccursAt(a + b, pat, 0);
        ReplaceAllKeepStep(a, b, pat, rep);
      }
      NoneAcrossShift(a, b, pat, m);
      ReplaceAllAppend(a[m..], b, pat, rep);
      Regroup(head, ReplaceAll(a[m..], pat, rep), ReplaceAll(b, pat, rep),
              ReplaceAll(a, pat, rep), ReplaceAll(a[m..] + b, pat, rep), ReplaceAll(a + b, pat, rep));
    }
  }

  /** `strip()` returns a contiguous piece of its input. */
  lemma StripIsSlice(s: string) returns (start: nat)
    ensures start + |Strip(s)| <= |s| && Strip(s) == s[start..start + |Strip(s)|]
  {
    var t := TrimStart(s, IsSpace);
    start := |s| - |t|;
    assert Strip(s) == t[..|Strip(s)|];
  }

  /** Text without surrounding whitespace is left as it is by `strip()`. */
  lemma StripStripped(s: string)
    requires s == [] || (!IsSpace(s[0]) && !IsSpace(s[|s| - 1]))
    ensures Strip(s) == s
  {
  }

  /** Replacing a one-character pattern by a text without that character
      leaves no occurrence of it. */
  lemma ReplaceAllRemovesChar(s: string, c: char, rep: string)
    requires rep != [] && forall j :: 0 <= j < |rep| ==> rep[j] != c
    ensures forall i :: 0 <= i < |ReplaceAll(s, [c], rep)| ==> ReplaceAll(s, [c], rep)[i] != c
  {
    var r := ReplaceAll(s, [c], rep);
    ReplaceAllRemoves(s, [c], rep);
    forall i | 0 <= i < |r| ensures r[i] != c {
      assert !OccursAt(r, [c], i);
      assert r[i..i + 1] == [r[i]];
    }
  }

  /** A character absent from a text is absent from the stripped text. */
  lemma StripKeepsAbsent(s: string, c: char)
    requires forall i :: 0 <= i < |s| ==> s[i] != c
    ensures forall i :: 0 <= i < |Strip(s)| ==> Strip(s)[i] != c
  {
    var start := StripIsSlice(s);
  }

  /** A pattern that does not occur in a text does not occur in a piece of it. */
  lemma SliceKeepsNoOccurrence(s: string, start: nat, r: string, pat: string)
    requires start + |r| <= |s| && r == s[start..start + |r|]
    requires forall i :: 0 <= i < |s| ==> !OccursAt(s, pat, i)
    ensures forall i :: 0 <= i < |r| ==> !OccursAt(r, pat, i)
  {
    forall i | 0 <= i < |r| ensures !OccursAt(r, pat, i) {
      if i + |pat| <= |r| {
        var here, there := r[i..i + |pat|], s[start + i..start + i + |pat|];
        assert forall k :: 0 <= k < |pat| ==> here[k] == there[k];
        assert !OccursAt(s, pat, start + i);
      }
    }
  }

  /** A pattern that does not occur in a text does not occur in the stripped text. */
  lemma StripKeepsNoOccurrence(s: string, pat: string)
    requires forall i :: 0 <= i < |s| ==> !OccursAt(s, pat, i)
    ensures forall i :: 0 <= i < |Strip(s)| ==> !OccursAt(Strip(s), pat, i)
  {
    var start := StripIsSlice(s);
    SliceKeepsNoOccurrence(s, start, Strip(s), pat);
  }
}
