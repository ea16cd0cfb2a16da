/** The Python string operations the pipeline relies on: `str.lower`,
    `str.endswith`, the substring test `sub in s`, and `str.replace`
    (together with `str.split` / `str.join`, which characterise it). */
module Strings {

  /** Lower-casing of one character; only ASCII letters are mapped. */
  function LowerChar(c: char): char
  {
    if 'A' <= c <= 'Z' then (c as int + 32) as char else c
  }

  /** `s.lower()`. */
  function Lower(s: string): (r: string)
    ensures |r| == |s|
    ensures forall i :: 0 <= i < |s| ==> r[i] == LowerChar(s[i])
    ensures forall i :: 0 <= i < |r| ==> !('A' <= r[i] <= 'Z')
    ensures forall i :: 0 <= i < |s| && !('A' <= s[i] <= 'Z') ==> r[i] == s[i]
    ensures forall i :: 0 <= i < |s| && 'A' <= s[i] <= 'Z' ==> r[i] as int == s[i] as int + 32
  {
    seq(|s|, i requires 0 <= i < |s| => LowerChar(s[i]))
  }

  /** Lower-casing twice is lower-casing once, so every later test on a
      lower-cased string is insensitive to the case of its input. */
  lemma LowerIdempotent(s: string)
    ensures Lower(Lower(s)) == Lower(s)
  {
  }

  /** `s.startswith(pre)`. */
  predicate IsPrefix(pre: string, s: string)
  {
    |pre| <= |s| && s[..|pre|] == pre
  }

  /** `s.endswith(suf)`. */
  predicate IsSuffix(suf: string, s: string)
  {
    |suf| <= |s| && s[|s| - |suf|..] == suf
  }

  /** `sub` occurs in `s` starting at index `i`. */
  predicate OccursAt(s: string, sub: string, i: int)
  {
    0 <= i && i + |sub| <= |s| && s[i..i + |sub|] == sub
  }

  /** Moving the start of the string one to the right moves every
      occurrence one to the left. */
  lemma OccursShift(s: string, sub: string, i: nat)
    requires |s| > 0
    ensures OccursAt(s[1..], sub, i) <==> OccursAt(s, sub, i + 1)
  {
    if i + |sub| <= |s[1..]| {
      assert s[1..][i..i + |sub|] == s[i + 1..i + 1 + |sub|];
    }
  }

  /** `sub in s`, decided by trying each start position in turn; it holds
      exactly when `sub` occurs somewhere in `s`. */
  predicate Contains(s: string, sub: string)
    ensures Contains(s, sub) <==> exists i :: OccursAt(s, sub, i)
    decreases |s|
  {
    assert IsPrefix(sub, s) <==> OccursAt(s, sub, 0);
    assert |s| > 0 ==> ((exists i :: OccursAt(s[1..], sub, i)) <==> exists i :: i > 0 && OccursAt(s, sub, i)) by {
      if |s| > 0 {
        forall i | OccursAt(s[1..], sub, i) ensures OccursAt(s, sub, i + 1) {
          OccursShift(s, sub, i);
        }
        forall i | i > 0 && OccursAt(s, sub, i) ensures OccursAt(s[1..], sub, i - 1) {
          OccursShift(s, sub, i - 1);
        }
      }
    }
    IsPrefix(sub, s) || (|s| > 0 && Contains(s[1..], sub))
  }

  /** A string shorter than `sub` does not contain it. */
  lemma {:induction false} ShortNeverContains(s: string, sub: string)
    requires |s| < |sub|
    ensures !Contains(s, sub)
    decreases |s|
  {
    if |s| > 0 {
      ShortNeverContains(s[1..], sub);
    }
  }

  /** `s.replace(pat, rep)` for a non-empty `pat`: the string is scanned
      from the left and each occurrence found is replaced, the scan then
      resuming after it, so occurrences never overlap. */
  function Replace(s: string, pat: string, rep: string): (r: string)
    requires |pat| > 0
    ensures !Contains(s, pat) ==> r == s
    ensures forall c :: c in r ==> c in s || c in rep
    decreases |s|
  {
    if |s| < |pat| then s
    else if IsPrefix(pat, s) then rep + Replace(s[|pat|..], pat, rep)
    else [s[0]] + Replace(s[1..], pat, rep)
  }

  /** A character at which the pattern does not start is copied over. */
  lemma ReplaceSkipsChar(c: char, s: string, pat: string, rep: string)
    requires |pat| > 0 && !IsPrefix(pat, [c] + s)
    ensures Replace([c] + s, pat, rep) == [c] + Replace(s, pat, rep)
  {
    var t := [c] + s;
    assert t[1..] == s;
  }

  /** An occurrence at the front is replaced and the scan resumes after it. */
  lemma ReplaceAtPattern(s: string, pat: string, rep: string)
    requires |pat| > 0
    ensures Replace(pat + s, pat, rep) == rep + Replace(s, pat, rep)
  {
    var t := pat + s;
    assert t[..|pat|] == pat;
    assert t[|pat|..] == s;
  }

  /** A suffix ends with the last character of the string. */
  lemma SuffixLastChar(suf: string, s: string)
    requires IsSuffix(suf, s) && |suf| > 0
    ensures s[|s| - 1] == suf[|suf| - 1]
  {
    assert s[|s| - |suf|..][|suf| - 1] == s[|s| - 1];
  }

  /** `s.split(sep)` for a non-empty `sep`: the pieces between successive
      left-to-right occurrences of `sep`. */
  function Split(s: string, sep: string): (r: seq<string>)
    requires |sep| > 0
    ensures |r| >= 1
    decreases |s|
  {
    if |s| < |sep| then [s]
    else if IsPrefix(sep, s) then [""] + Split(s[|sep|..], sep)
    else
      var rest := Split(s[1..], sep);
      [[s[0]] + rest[0]] + rest[1..]
  }

  /** `sep.join(parts)`. */
  function JoinWith(parts: seq<string>, sep: string): string
    decreases |parts|
  {
    if |parts| == 0 then ""
    else if |parts| == 1 then parts[0]
    else parts[0] + sep + JoinWith(parts[1..], sep)
  }

  /** Extending the first piece by one leading character extends the join by it. */
  lemma JoinWithConsFirst(c: char, parts: seq<string>, sep: string)
    requires |parts| >= 1
    ensures JoinWith([[c] + parts[0]] + parts[1..], sep) == [c] + JoinWith(parts, sep)
  {
    var q := [[c] + parts[0]] + parts[1..];
    assert q[1..] == parts[1..];
  }

  /** The join of pieces starts with the first piece. */
  lemma JoinWithStartsWithFirst(parts: seq<string>, sep: string)
    requires |parts| >= 1
    ensures IsPrefix(parts[0], JoinWith(parts, sep))
  {
    if |parts| > 1 {
      var j := JoinWith(parts, sep);
      assert j == parts[0] + (sep + JoinWith(parts[1..], sep));
      assert j[..|parts[0]|] == parts[0];
    }
  }

  /** Round trip: joining the pieces of a split with the same separator
      gives back the original string (`sep.join(s.split(sep)) == s`). */
  lemma {:induction false} SplitJoinRoundTrip(s: string, sep: string)
    requires |sep| > 0
    ensures JoinWith(Split(s, sep), sep) == s
    decreases |s|
  {
    if |s| < |sep| {
    } else if IsPrefix(sep, s) {
      var tail := s[|sep|..];
      SplitJoinRoundTrip(tail, sep);
      var parts := [""] + Split(tail, sep);
      assert parts[1..] == Split(tail, sep);
      assert s == sep + tail;
    } else {
      var rest := Split(s[1..], sep);
      SplitJoinRoundTrip(s[1..], sep);
      JoinWithConsFirst(s[0], rest, sep);
      assert s == [s[0]] + s[1..];
    }
  }

  /** Replacement is splitting on the pattern and joining with the
      replacement (`s.replace(p, r) == r.join(s.split(p))`): every
      occurrence the scan finds is replaced, not just the first. */
  lemma {:induction false} ReplaceIsSplitJoin(s: string, pat: string, rep: string)
    requires |pat| > 0
    ensures Replace(s, pat, rep) == JoinWith(Split(s, pat), rep)
    decreases |s|
  {
    if |s| < |pat| {
    } else if IsPrefix(pat, s) {
      var tail := s[|pat|..];
      ReplaceIsSplitJoin(tail, pat, rep);
      assert Replace(s, pat, rep) == rep + Replace(tail, pat, rep);
      var parts := [""] + Split(tail, pat);
      assert Split(s, pat) == parts;
      assert parts[1..] == Split(tail, pat);
      assert JoinWith(parts, rep) == "" + rep + JoinWith(Split(tail, pat), rep);
    } else {
      ReplaceIsSplitJoin(s[1..], pat, rep);
      assert Replace(s, pat, rep) == [s[0]] + Replace(s[1..], pat, rep);
      var rest := Split(s[1..], pat);
      assert Split(s, pat) == [[s[0]] + rest[0]] + rest[1..];
      JoinWithConsFirst(s[0], rest, rep);
    }
  }

  /** No piece of a split contains the separator: the split, and hence the
      replacement, leaves no occurrence of the pattern behind. */
  lemma {:induction false} SplitPiecesFree(s: string, sep: string)
    requires |sep| > 0
    ensures forall k :: 0 <= k < |Split(s, sep)| ==> !Contains(Split(s, sep)[k], sep)
    decreases |s|
  {
    var r := Split(s, sep);
    if |s| < |sep| {
      ShortNeverContains(s, sep);
    } else if IsPrefix(sep, s) {
      var tail := s[|sep|..];
      SplitPiecesFree(tail, sep);
      ShortNeverContains("", sep);
      assert r == [""] + Split(tail, sep);
      forall k | 0 <= k < |r| ensures !Contains(r[k], sep) {
        if k > 0 { assert r[k] == Split(tail, sep)[k - 1]; }
      }
    } else {
      var rest := Split(s[1..], sep);
      SplitPiecesFree(s[1..], sep);
      var first := [s[0]] + rest[0];
      assert r == [first] + rest[1..];
      // `rest[0]` starts the tail, so `first` starts `s`; were `sep` a
      // prefix of `first` it would be a prefix of `s`.
      SplitJoinRoundTrip(s[1..], sep);
      JoinWithStartsWithFirst(rest, sep);
      assert first == s[..|first|];
      assert !IsPrefix(sep, first);
      assert first[1..] == rest[0];
      forall k | 0 <= k < |r| ensures !Contains(r[k], sep) {
        if k > 0 { assert r[k] == rest[k]; }
      }
    }
  }
}
