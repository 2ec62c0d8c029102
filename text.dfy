/** The JavaScript string operations the stream decoder relies on:
    `trim`, `startsWith`, `includes`, `split('\n')` and global `replace`. */
module Text {

  /** The characters of ECMA-262's WhiteSpace and LineTerminator productions:
      what `String.prototype.trim` removes and what the regex class `\s` matches. */
  predicate IsWhitespace(c: char) {
    c == '\t' || c == '\n' || c == '\U{000B}' || c == '\U{000C}' || c == '\r' || c == ' '
    || c == '\U{00A0}' || c == '\U{1680}' || ('\U{2000}' <= c <= '\U{200A}')
    || c == '\U{2028}' || c == '\U{2029}' || c == '\U{202F}' || c == '\U{205F}'
    || c == '\U{3000}' || c == '\U{FEFF}'
  }

  /** The characters the regex `.` does not match (ECMA-262 LineTerminator). */
  predicate IsLineTerminator(c: char) {
    c == '\n' || c == '\r' || c == '\U{2028}' || c == '\U{2029}'
  }

  /** A character outside the Basic Multilingual Plane, which UTF-16 spells as a
      surrogate pair. */
  predicate IsAstral(c: char) {
    c as int >= 0x10000
  }

  /** `s.length` in JavaScript: the number of UTF-16 code units, two for each astral
      character and one for every other. */
  function Utf16Length(s: string): (n: nat)
    ensures |s| <= n <= 2 * |s|
    decreases |s|
  {
    if s == [] then 0 else (if IsAstral(s[0]) then 2 else 1) + Utf16Length(s[1..])
  }

  /** Without astral characters, code units and characters agree. */
  lemma {:induction false} Utf16LengthBasic(s: string)
    requires forall k :: 0 <= k < |s| ==> !IsAstral(s[k])
    ensures Utf16Length(s) == |s|
    decreases |s|
  {
    if s != [] {
      Utf16LengthBasic(s[1..]);
    }
  }

  /** A text of astral characters only counts two code units per character. */
  lemma {:induction false} Utf16LengthAstral(s: string)
    requires forall k :: 0 <= k < |s| ==> IsAstral(s[k])
    ensures Utf16Length(s) == 2 * |s|
    decreases |s|
  {
    if s != [] {
      Utf16LengthAstral(s[1..]);
    }
  }

  /** `s[lo..hi]` is all white space. */
  predicate WhitespaceBetween(s: string, lo: nat, hi: nat)
    requires lo <= hi <= |s|
  {
    forall k :: lo <= k < hi ==> IsWhitespace(s[k])
  }

  /** Neither end of `s` is white space. */
  predicate IsTrimmed(s: string) {
    s == [] || (!IsWhitespace(s[0]) && !IsWhitespace(s[|s| - 1]))
  }

  /** `s.trimStart()`: the suffix left after dropping leading white space. */
  function TrimStart(s: string): (r: string)
    ensures |r| <= |s| && r == s[|s| - |r|..]
    ensures WhitespaceBetween(s, 0, |s| - |r|)
    ensures r == [] || !IsWhitespace(r[0])
  {
    if s != [] && IsWhitespace(s[0]) then TrimStart(s[1..]) else s
  }

  /** `s.trimEnd()`: the prefix left after dropping trailing white space. */
  function TrimEnd(s: string): (r: string)
    ensures |r| <= |s| && r == s[..|r|]
    ensures WhitespaceBetween(s, |r|, |s|)
    ensures r == [] || !IsWhitespace(r[|r| - 1])
  {
    if s != [] && IsWhitespace(s[|s| - 1]) then TrimEnd(s[..|s| - 1]) else s
  }

  /** `s.trim()`: `s` is white space, then the result, then white space,
      and the result neither begins nor ends with white space. */
  function Trim(s: string): (r: string)
    ensures IsTrimmed(r)
    ensures exists i :: Surrounds(s, i, r)
  {
    var e := TrimEnd(s);
    var r := TrimStart(e);
    TrimmedMiddle(s, e, r);
    r
  }

  /** `s` is white space, then `r` from position `i`, then white space. */
  predicate Surrounds(s: string, i: int, r: string) {
    0 <= i <= |s| - |r| && WhitespaceBetween(s, 0, i) && s[i..i + |r|] == r && WhitespaceBetween(s, i + |r|, |s|)
  }

  /** A white-space-free end of the trailing-trimmed prefix, then of the leading-trimmed
      suffix, leave a trimmed middle with white space on both sides. */
  lemma TrimmedMiddle(s: string, e: string, r: string)
    requires |e| <= |s| && e == s[..|e|] && WhitespaceBetween(s, |e|, |s|)
    requires e == [] || !IsWhitespace(e[|e| - 1])
    requires |r| <= |e| && r == e[|e| - |r|..] && WhitespaceBetween(e, 0, |e| - |r|)
    requires r == [] || !IsWhitespace(r[0])
    ensures IsTrimmed(r)
    ensures Surrounds(s, |e| - |r|, r)
  {
    var i := |e| - |r|;
    assert r != [] ==> r[|r| - 1] == e[|e| - 1];
    assert s[i..i + |r|] == r;
    forall k | 0 <= k < i ensures IsWhitespace(s[k]) {
      assert e[k] == s[k];
    }
  }

  /** Trimming twice is trimming once. */
  lemma TrimIdempotent(s: string)
    ensures Trim(Trim(s)) == Trim(s)
  {
    TrimmedIsFixed(Trim(s));
  }

  /** A string with no white space at either end is its own trim. */
  lemma TrimmedIsFixed(s: string)
    requires IsTrimmed(s)
    ensures Trim(s) == s
  {
  }

  /** `s.startsWith(p)`. */
  predicate StartsWith(s: string, p: string) {
    |p| <= |s| && s[..|p|] == p
  }

  /** `p` occurs in `s` starting at index `i`. */
  predicate OccursAt(s: string, p: string, i: int) {
    0 <= i && i + |p| <= |s| && s[i..i + |p|] == p
  }

  /** `s.includes(p)`, by scanning from the left; true exactly when `p` occurs somewhere in `s`. */
  function Includes(s: string, p: string): (b: bool)
    ensures b <==> exists i :: OccursAt(s, p, i)
    decreases |s|
  {
    if |s| < |p| then false
    else if s[..|p|] == p then (assert OccursAt(s, p, 0); true)
    else
      var rest := Includes(s[1..], p);
      assert !OccursAt(s, p, 0);
      assert rest ==> exists i :: OccursAt(s, p, i) by {
        if rest {
          var i :| OccursAt(s[1..], p, i);
          assert s[1..][i..i + |p|] == s[i + 1..i + 1 + |p|];
          assert OccursAt(s, p, i + 1);
        }
      }
      assert (exists i :: OccursAt(s, p, i)) ==> rest by {
        if exists i :: OccursAt(s, p, i) {
          var i :| OccursAt(s, p, i);
          assert i != 0;
          assert s[1..][i - 1..i - 1 + |p|] == s[i..i + |p|];
          assert OccursAt(s[1..], p, i - 1);
        }
      }
      rest
  }

  /** `s.split(sep)` for a one-character separator: the pieces between separators,
      always at least one and none containing the separator. */
  function Split(s: string, sep: char): (parts: seq<string>)
    ensures |parts| >= 1
    ensures forall i :: 0 <= i < |parts| ==> sep !in parts[i]
  {
    if s == [] then [[]]
    else
      var rest := Split(s[1..], sep);
      if s[0] == sep then [[]] + rest else [[s[0]] + rest[0]] + rest[1..]
  }

  /** Joining the pieces of a split with the separator gives the string back. */
  lemma {:induction false} JoinSplit(s: string, sep: char)
    ensures Join(Split(s, sep), sep) == s
    decreases |s|
  {
    if s != [] {
      JoinSplit(s[1..], sep);
      var rest := Split(s[1..], sep);
      if s[0] == sep {
        assert ([[]] + rest)[1..] == rest;
      } else {
        JoinConsChar(s[0], rest, sep);
      }
    }
  }

  /** `parts.join(sep)`. */
  function Join(parts: seq<string>, sep: char): string
    requires |parts| >= 1
  {
    if |parts| == 1 then parts[0] else parts[0] + [sep] + Join(parts[1..], sep)
  }

  lemma JoinConsChar(c: char, parts: seq<string>, sep: char)
    requires |parts| >= 1
    ensures Join([[c] + parts[0]] + parts[1..], sep) == [c] + Join(parts, sep)
  {
    var ps := [[c] + parts[0]] + parts[1..];
    assert ps[1..] == parts[1..];
  }

  /** Splitting undoes joining when no piece holds the separator. */
  lemma {:induction false} SplitJoin(parts: seq<string>, sep: char)
    requires |parts| >= 1
    requires forall i :: 0 <= i < |parts| ==> sep !in parts[i]
    ensures Split(Join(parts, sep), sep) == parts
    decreases |parts|, |parts[0]|
  {
    if parts[0] == [] {
      if |parts| > 1 {
        SplitJoin(parts[1..], sep);
        assert Join(parts, sep) == [sep] + Join(parts[1..], sep);
        assert ([sep] + Join(parts[1..], sep))[1..] == Join(parts[1..], sep);
        assert [[]] + parts[1..] == parts;
      }
    } else {
      var c := parts[0][0];
      var tail := [parts[0][1..]] + parts[1..];
      assert tail[1..] == parts[1..];
      assert [c] + parts[0][1..] == parts[0];
      assert sep !in tail[0];
      SplitJoin(tail, sep);
      JoinConsChar(c, tail, sep);
      assert [[c] + tail[0]] + tail[1..] == parts;
      var s := Join(parts, sep);
      assert s[0] == c;
      assert s[1..] == Join(tail, sep);
    }
  }

  /** A string holding a character that `s` lacks does not occur in `s`. */
  lemma AbsentCharNotIncluded(s: string, p: string, c: char)
    requires c in p && c !in s
    ensures !Includes(s, p)
  {
    var j :| 0 <= j < |p| && p[j] == c;
    forall i ensures !OccursAt(s, p, i) {
      if 0 <= i && i + |p| <= |s| {
        assert s[i..i + |p|][j] == s[i + j];
      }
    }
  }

  /** A text without the separator is one part. */
  lemma SplitNoSeparator(s: string, sep: char)
    requires sep !in s
    ensures Split(s, sep) == [s]
  {
    var one: seq<string> := [s];
    assert Join(one, sep) == s;
    SplitJoin(one, sep);
  }

  /** A text without the separator, followed by one, is that text and an empty part. */
  lemma SplitTerminatedLine(s: string, sep: char)
    requires sep !in s
    ensures Split(s + [sep], sep) == [s, []]
  {
    var two: seq<string> := [s, []];
    assert two[1..] == [[]];
    assert Join(two[1..], sep) == [];
    assert Join(two, sep) == s + [sep];
    SplitJoin(two, sep);
  }

  /** `s.replace(/x/g, y)` for a single character `x`: every `x` becomes `y`, nothing else moves. */
  function ReplaceChar(s: string, x: char, y: char): (r: string)
    ensures |r| == |s|
    ensures forall i :: 0 <= i < |s| ==> r[i] == (if s[i] == x then y else s[i])
  {
    if s == [] then [] else [if s[0] == x then y else s[0]] + ReplaceChar(s[1..], x, y)
  }

  /** `s.replace(/pat/g, rep)` for a literal, non-empty `pat`: occurrences are found from
      the left and replaced without overlapping. */
  function ReplaceAll(s: string, pat: string, rep: string): (r: string)
    requires pat != []
    ensures (forall i :: !OccursAt(s, pat, i)) ==> r == s
    decreases |s|
  {
    if |s| < |pat| then s
    else if s[..|pat|] == pat then
      (assert OccursAt(s, pat, 0); rep + ReplaceAll(s[|pat|..], pat, rep))
    else
      assert forall i :: OccursAt(s[1..], pat, i) ==> OccursAt(s, pat, i + 1) by {
        forall i | OccursAt(s[1..], pat, i) ensures OccursAt(s, pat, i + 1) {
          assert s[1..][i..i + |pat|] == s[i + 1..i + 1 + |pat|];
        }
      }
      [s[0]] + ReplaceAll(s[1..], pat, rep)
  }

  /** A global replace introduces no character that neither the input nor the replacement has. */
  lemma {:induction false} ReplaceAllKeepsOut(s: string, pat: string, rep: string, c: char)
    requires pat != []
    requires c !in s && c !in rep
    ensures c !in ReplaceAll(s, pat, rep)
    decreases |s|
  {
    if |s| < |pat| {
    } else if s[..|pat|] == pat {
      ReplaceAllKeepsOut(s[|pat|..], pat, rep, c);
    } else {
      ReplaceAllKeepsOut(s[1..], pat, rep, c);
    }
  }

  /** `a` and `b` agree on the length of the shorter. */
  predicate Compatible(a: string, b: string) {
    if |a| <= |b| then b[..|a|] == a else a[..|b|] == b
  }

  /** A replacement that cannot recreate the pattern: the pattern's first character is not
      in the replacement, and no proper suffix of the pattern runs into the replacement. */
  predicate NoRecreation(pat: string, rep: string) {
    pat != [] && pat[0] !in rep
    && forall j :: 1 <= j < |pat| ==> !Compatible(pat[j..], rep)
  }

  /** If the output of a global replace starts with a proper suffix `q[j..]` of a string
      the replacement cannot recreate, so did its input. */
  lemma {:induction false} ReplaceAllPrefix(t: string, pat: string, rep: string, q: string, j: nat)
    requires pat != [] && NoRecreation(q, rep) && 1 <= j <= |q|
    ensures StartsWith(ReplaceAll(t, pat, rep), q[j..]) ==> StartsWith(t, q[j..])
    decreases |t|
  {
    var w := q[j..];
    if w != [] && |t| >= |pat| {
      var r := ReplaceAll(t, pat, rep);
      if t[..|pat|] == pat {
        assert !Compatible(w, rep);
        assert r == rep + ReplaceAll(t[|pat|..], pat, rep);
        if |w| <= |rep| {
          assert r[..|w|] == rep[..|w|] || |r| < |w|;
        } else {
          assert r[..|rep|] == rep;
        }
      } else {
        var r' := ReplaceAll(t[1..], pat, rep);
        assert r == [t[0]] + r';
        assert q[j + 1..] == w[1..];
        ReplaceAllPrefix(t[1..], pat, rep, q, j + 1);
        if StartsWith(r, w) {
          assert r'[..|w| - 1] == r[1..|w|];
          assert t[..|w|] == [t[0]] + t[1..][..|w| - 1];
        }
      }
    }
  }

  /** `q` occurs nowhere in `s`. */
  ghost predicate Absent(s: string, q: string) {
    forall p :: !OccursAt(s, q, p)
  }

  /** A replacement that cannot spell `q` keeps `q` out when put before a text without it. */
  lemma AbsentAfterReplacement(rep: string, rest: string, q: string)
    requires NoRecreation(q, rep) && Absent(rest, q)
    ensures Absent(rep + rest, q)
  {
    var out := rep + rest;
    forall p | 0 <= p && p + |q| <= |out| ensures !OccursAt(out, q, p) {
      if p < |rep| {
        assert out[p..p + |q|][0] == rep[p] && rep[p] in rep;
      } else {
        assert out[p..p + |q|] == rest[p - |rep|..p - |rep| + |q|];
        assert !OccursAt(rest, q, p - |rep|);
      }
    }
  }

  /** A character copied in front of a text without `q` cannot complete `q`, when the
      text starts with the rest of `q` only if the input did, and the input does not
      start with `q`. */
  lemma AbsentAfterCopy(c: char, t: string, rest: string, q: string)
    requires q != [] && Absent(rest, q)
    requires StartsWith(rest, q[1..]) ==> StartsWith(t, q[1..])
    requires !StartsWith([c] + t, q)
    ensures Absent([c] + rest, q)
  {
    var out := [c] + rest;
    forall p | 0 <= p && p + |q| <= |out| ensures !OccursAt(out, q, p) {
      if p == 0 {
        assert out[..|q|] == [c] + rest[..|q| - 1];
        assert q == [q[0]] + q[1..];
        if |t| + 1 >= |q| {
          assert ([c] + t)[..|q|] == [c] + t[..|q| - 1];
        }
      } else {
        assert out[p..p + |q|] == rest[p - 1..p - 1 + |q|];
        assert !OccursAt(rest, q, p - 1);
      }
    }
  }

  /** A global replace that cannot recreate its pattern leaves no occurrence of it. */
  lemma {:induction false} ReplaceAllRemoves(s: string, pat: string, rep: string)
    requires NoRecreation(pat, rep)
    ensures Absent(ReplaceAll(s, pat, rep), pat)
    decreases |s|
  {
    if |s| < |pat| {
    } else if s[..|pat|] == pat {
      ReplaceAllRemoves(s[|pat|..], pat, rep);
      AbsentAfterReplacement(rep, ReplaceAll(s[|pat|..], pat, rep), pat);
    } else {
      ReplaceAllRemoves(s[1..], pat, rep);
      ReplaceAllPrefix(s[1..], pat, rep, pat, 1);
      assert s == [s[0]] + s[1..];
      AbsentAfterCopy(s[0], s[1..], ReplaceAll(s[1..], pat, rep), pat);
    }
  }

  /** A string absent from `s` is absent from every suffix of `s`. */
  lemma AbsentFromSuffix(s: string, q: string, k: nat)
    requires k <= |s| && Absent(s, q)
    ensures Absent(s[k..], q)
  {
    forall p | 0 <= p && p + |q| <= |s| - k ensures !OccursAt(s[k..], q, p) {
      assert s[k..][p..p + |q|] == s[p + k..p + k + |q|];
      assert !OccursAt(s, q, p + k);
    }
  }

  /** The leftmost occurrence of the pattern becomes the replacement, the text before it
      is kept, and the search goes on after it: `a` followed by all but the last character
      of `pat` holds no occurrence, so `pat` right after `a` is the first one. */
  lemma {:induction false} ReplaceAllFirst(a: string, pat: string, rep: string, b: string)
    requires pat != [] && Absent(a + pat[..|pat| - 1], pat)
    ensures ReplaceAll(a + pat + b, pat, rep) == a + rep + ReplaceAll(b, pat, rep)
    decreases |a|
  {
    if a == [] {
      assert a + pat + b == pat + b;
      ReplaceAllAtStart(pat, b, rep);
    } else {
      var front := a + pat[..|pat| - 1];
      NoMatchAtStart(a, pat, b);
      AbsentFromSuffix(front, pat, 1);
      assert front[1..] == a[1..] + pat[..|pat| - 1];
      ReplaceAllFirst(a[1..], pat, rep, b);
      CopyBeforeFirst(a, pat, rep, b);
    }
  }

  /** One copied character in front of the first occurrence: the induction step of
      `ReplaceAllFirst`. */
  lemma CopyBeforeFirst(a: string, pat: string, rep: string, b: string)
    requires a != [] && pat != [] && (a + pat + b)[..|pat|] != pat
    requires ReplaceAll(a[1..] + pat + b, pat, rep) == a[1..] + rep + ReplaceAll(b, pat, rep)
    ensures ReplaceAll(a + pat + b, pat, rep) == a + rep + ReplaceAll(b, pat, rep)
  {
    CopyFirstChar(a, pat, rep, b);
    ConsJoin(a, rep, ReplaceAll(b, pat, rep));
  }

  lemma ConsJoin(a: string, u: string, v: string)
    requires a != []
    ensures [a[0]] + (a[1..] + u + v) == a + u + v
  {
    assert a == [a[0]] + a[1..];
  }

  /** A text that starts with the pattern starts its result with the replacement. */
  lemma ReplaceAllAtStart(pat: string, b: string, rep: string)
    requires pat != []
    ensures ReplaceAll(pat + b, pat, rep) == rep + ReplaceAll(b, pat, rep)
  {
    var s := pat + b;
    assert s[..|pat|] == pat && s[|pat|..] == b;
  }

  /** With a non-empty `a` before it, the first occurrence of `pat` does not start at 0. */
  lemma NoMatchAtStart(a: string, pat: string, b: string)
    requires a != [] && pat != [] && Absent(a + pat[..|pat| - 1], pat)
    ensures (a + pat + b)[..|pat|] != pat
  {
    var front := a + pat[..|pat| - 1];
    assert forall k :: 0 <= k < |pat| ==> (a + pat + b)[k] == front[k];
    assert (a + pat + b)[..|pat|] == front[0..0 + |pat|];
    assert !OccursAt(front, pat, 0);
  }

  /** Where the pattern does not start the text, its first character is copied. */
  lemma CopyFirstChar(a: string, pat: string, rep: string, b: string)
    requires a != [] && pat != [] && (a + pat + b)[..|pat|] != pat
    ensures ReplaceAll(a + pat + b, pat, rep) == [a[0]] + ReplaceAll(a[1..] + pat + b, pat, rep)
  {
    var s := a + pat + b;
    assert s[0] == a[0] && s[1..] == a[1..] + pat + b;
  }

  /** A global replace whose replacement cannot create `q` keeps `q` out of a string
      that does not contain it. */
  lemma {:induction false} ReplaceAllPreserves(s: string, pat: string, rep: string, q: string)
    requires pat != [] && NoRecreation(q, rep)
    requires Absent(s, q)
    ensures Absent(ReplaceAll(s, pat, rep), q)
    decreases |s|
  {
    if |s| < |pat| {
    } else if s[..|pat|] == pat {
      AbsentFromSuffix(s, q, |pat|);
      ReplaceAllPreserves(s[|pat|..], pat, rep, q);
      AbsentAfterReplacement(rep, ReplaceAll(s[|pat|..], pat, rep), q);
    } else {
      AbsentFromSuffix(s, q, 1);
      ReplaceAllPreserves(s[1..], pat, rep, q);
      ReplaceAllPrefix(s[1..], pat, rep, q, 1);
      assert s == [s[0]] + s[1..];
      assert !OccursAt(s, q, 0);
      AbsentAfterCopy(s[0], s[1..], ReplaceAll(s[1..], pat, rep), q);
    }
  }
}
