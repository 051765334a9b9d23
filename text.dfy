/** String helpers with the semantics of the Rust standard library calls the
    alias engine relies on: `str::split`, `BufRead::lines`, `str::contains`,
    `str::ends_with` and `str::replace`. */
module Text {

  datatype Option<T> = None | Some(value: T)

  /** Position of the first `c` in `s`, or `|s|` when `s` holds no `c`. */
  function IndexOf(s: string, c: char): (i: nat)
    ensures i <= |s|
    ensures i < |s| ==> s[i] == c
    ensures forall k :: 0 <= k < i ==> s[k] != c
    ensures i == |s| <==> c !in s
    decreases |s|
  {
    if s == [] then 0
    else if s[0] == c then 0
    else 1 + IndexOf(s[1..], c)
  }

  lemma IndexOfAfter(x: string, c: char, y: string)
    requires c !in x
    ensures IndexOf(x + [c] + y, c) == |x|
  {
    var s := x + [c] + y;
    assert s[|x|] == c;
    assert forall k :: 0 <= k < |x| ==> s[k] == x[k];
  }

  /** The first occurrence is where `c` first appears, or the end. */
  lemma IndexOfIs(s: string, c: char, n: nat)
    requires n <= |s| && forall k :: 0 <= k < n ==> s[k] != c
    requires n == |s| || s[n] == c
    ensures IndexOf(s, c) == n
  {
  }

  // ---------------------------------------------------------------------------
  // str::split with a one-character separator

  /** The pieces of `s` between occurrences of `sep`, as Rust's `split`
      yields them: one more piece than there are separators. */
  function Split(s: string, sep: char): (parts: seq<string>)
    ensures |parts| >= 1
    ensures |parts| == 1 <==> sep !in s
    decreases |s|
  {
    var i := IndexOf(s, sep);
    if i == |s| then [s]
    else [s[..i]] + Split(s[i + 1..], sep)
  }

  /** Splitting yields exactly two pieces when `s` holds exactly one
      separator; the pieces are the text before and after it. */
  lemma {:induction false} SplitInTwo(s: string, sep: char)
    ensures |Split(s, sep)| == 2 <==>
              (sep in s && sep !in s[IndexOf(s, sep) + 1..])
    ensures |Split(s, sep)| == 2 ==>
              Split(s, sep) == [s[..IndexOf(s, sep)], s[IndexOf(s, sep) + 1..]]
  {
    var i := IndexOf(s, sep);
    if i < |s| {
      var rest := s[i + 1..];
      assert Split(s, sep) == [s[..i]] + Split(rest, sep);
      if sep !in rest {
        assert Split(rest, sep) == [rest];
      }
    }
  }

  // ---------------------------------------------------------------------------
  // BufRead::lines

  /** A line read from a file loses a carriage return that preceded its
      newline. */
  function DropCarriageReturn(line: string): (r: string)
    ensures r == line || (line == r + "\r")
  {
    if |line| > 0 && line[|line| - 1] == '\r' then line[..|line| - 1] else line
  }

  predicate EndsWithCarriageReturn(s: string) {
    |s| > 0 && s[|s| - 1] == '\r'
  }

  /** The lines of a text as Rust's `BufRead::lines` yields them: split at
      each newline, a "\r\n" ending counts as a newline, the last line need
      not end with a newline, and an empty text has no line. */
  function Lines(text: string): (lines: seq<string>)
    ensures text == [] <==> lines == []
    decreases |text|
  {
    if text == [] then []
    else
      var i := IndexOf(text, '\n');
      if i == |text| then [text]
      else [DropCarriageReturn(text[..i])] + Lines(text[i + 1..])
  }

  lemma LinesOfOne(line: string)
    requires line != [] && '\n' !in line
    ensures Lines(line) == [line]
  {
  }

  lemma LinesAfterFirst(first: string, rest: string)
    requires '\n' !in first
    ensures Lines(first + "\n" + rest) == [DropCarriageReturn(first)] + Lines(rest)
  {
    var text := first + "\n" + rest;
    IndexOfAfter(first, '\n', rest);
    assert text[..|first|] == first;
    assert text[|first| + 1..] == rest;
  }

  /** Three newline-free lines joined by newlines read back as those three
      lines, provided the last one is not empty; the first two lose a
      carriage return they end with. */
  lemma {:induction false} LinesOfThree(l1: string, l2: string, l3: string)
    requires '\n' !in l1 && '\n' !in l2 && '\n' !in l3
    requires l3 != []
    ensures Lines(l1 + "\n" + l2 + "\n" + l3)
            == [DropCarriageReturn(l1), DropCarriageReturn(l2), l3]
  {
    assert l1 + "\n" + l2 + "\n" + l3 == l1 + "\n" + (l2 + "\n" + l3);
    LinesAfterFirst(l1, l2 + "\n" + l3);
    LinesAfterFirst(l2, l3);
    LinesOfOne(l3);
  }

  // ---------------------------------------------------------------------------
  // Prefixes, suffixes, substrings

  predicate StartsWith(s: string, prefix: string) {
    |prefix| <= |s| && s[..|prefix|] == prefix
  }

  predicate EndsWith(s: string, suffix: string) {
    |suffix| <= |s| && s[|s| - |suffix|..] == suffix
  }

  /** `part` occurs in `s` at position `k`. */
  predicate OccursAt(s: string, part: string, k: int) {
    0 <= k && k + |part| <= |s| && s[k..k + |part|] == part
  }

  /** Rust's `str::contains`: `part` occurs somewhere in `s`. */
  predicate Contains(s: string, part: string) {
    exists k | 0 <= k <= |s| - |part| :: OccursAt(s, part, k)
  }

  // ---------------------------------------------------------------------------
  // str::replace

  /** No proper prefix of `pat` is also a suffix of it, so two occurrences
      of `pat` can never overlap. */
  predicate BorderFree(pat: string) {
    forall k :: 0 < k < |pat| ==> pat[..k] != pat[|pat| - k..]
  }

  /** Rust's `str::replace`: every occurrence of `pat`, found left to right
      without overlap, is replaced by `rep`; the replacement is not
      scanned again. */
  function ReplaceAll(s: string, pat: string, rep: string): string
    requires pat != []
    decreases |s|
  {
    if |s| < |pat| then s
    else if s[..|pat|] == pat then rep + ReplaceAll(s[|pat|..], pat, rep)
    else [s[0]] + ReplaceAll(s[1..], pat, rep)
  }

  /** Two overlapping occurrences of a pattern show a border of it: a
      proper prefix that is also a suffix. */
  lemma OverlapIsBorder(s: string, pat: string, a: int)
    requires 0 < a < |pat|
    requires OccursAt(s, pat, 0) && OccursAt(s, pat, a)
    ensures pat[..|pat| - a] == pat[a..]
  {
    assert pat[..|pat| - a] == s[a..|pat|];
    assert pat[a..] == s[a..|pat|];
  }

  /** Dropping the first character keeps a text free of the pattern. */
  lemma AbsentFromTail(x: string, pat: string)
    requires x != [] && !Contains(x, pat)
    ensures !Contains(x[1..], pat)
  {
    forall k | OccursAt(x[1..], pat, k) ensures false {
      assert x[1..][k..k + |pat|] == x[k + 1..k + 1 + |pat|];
      assert OccursAt(x, pat, k + 1);
    }
  }

  /** A border-free pattern that does not occur in a non-empty `x` cannot
      start at the beginning of `x + pat + y`. */
  lemma NoOccurrenceAtStart(x: string, pat: string, y: string)
    requires x != [] && BorderFree(pat) && !Contains(x, pat)
    ensures !StartsWith(x + pat + y, pat)
  {
    var s := x + pat + y;
    if StartsWith(s, pat) {
      if |x| >= |pat| {
        assert x[..|pat|] == s[..|pat|];
        assert OccursAt(x, pat, 0);
      } else {
        OverlapIsBorder(s, pat, |x|);
      }
    }
  }

  /** The leftmost occurrence is replaced and the scan resumes right after
      it: the text before it is kept and the text after it is rewritten
      on its own. */
  lemma {:induction false} ReplaceAllFirst(x: string, pat: string, rep: string, y: string)
    requires pat != [] && BorderFree(pat) && !Contains(x, pat)
    ensures ReplaceAll(x + pat + y, pat, rep) == x + rep + ReplaceAll(y, pat, rep)
    decreases |x|
  {
    var s := x + pat + y;
    if x == [] {
      assert s == pat + y;
      assert s[..|pat|] == pat && s[|pat|..] == y;
    } else {
      NoOccurrenceAtStart(x, pat, y);
      AbsentFromTail(x, pat);
      ReplaceAllFirst(x[1..], pat, rep, y);
      assert s[1..] == x[1..] + pat + y;
      calc {
        ReplaceAll(s, pat, rep);
        [s[0]] + ReplaceAll(s[1..], pat, rep);
        [x[0]] + (x[1..] + rep + ReplaceAll(y, pat, rep));
        { assert [x[0]] + x[1..] == x; }
        x + rep + ReplaceAll(y, pat, rep);
      }
    }
  }

  /** A trailing occurrence of a border-free pattern is always one of the
      occurrences replaced, so the result ends with the replacement. */
  lemma {:induction false} ReplaceAllTrailing(s: string, pat: string, rep: string)
    requires pat != [] && BorderFree(pat) && EndsWith(s, pat)
    ensures EndsWith(ReplaceAll(s, pat, rep), rep)
    decreases |s|
  {
    if s[..|pat|] == pat {
      var rest := s[|pat|..];
      if rest == [] {
        assert ReplaceAll(s, pat, rep) == rep;
      } else if |rest| >= |pat| {
        assert rest[|rest| - |pat|..] == s[|s| - |pat|..];
        ReplaceAllTrailing(rest, pat, rep);
      } else {
        OverlapIsBorder(s, pat, |rest|);
      }
    } else {
      assert |s| > |pat|;
      assert s[1..][|s| - 1 - |pat|..] == s[|s| - |pat|..];
      ReplaceAllTrailing(s[1..], pat, rep);
    }
  }

  // ---------------------------------------------------------------------------
  // The character class [A-Za-z0-9_] of the regular expressions

  predicate IsNameChar(c: char) {
    'A' <= c <= 'Z' || 'a' <= c <= 'z' || '0' <= c <= '9' || c == '_'
  }

  predicate IsName(s: string) {
    forall i :: 0 <= i < |s| ==> IsNameChar(s[i])
  }

  /** End of the longest run of name characters in `s` that starts at `i`. */
  function NameRunEnd(s: string, i: nat): (j: nat)
    requires i <= |s|
    ensures i <= j <= |s|
    ensures forall k :: i <= k < j ==> IsNameChar(s[k])
    ensures j < |s| ==> !IsNameChar(s[j])
    decreases |s| - i
  {
    if i == |s| || !IsNameChar(s[i]) then i else NameRunEnd(s, i + 1)
  }

  /** The run of name characters is determined by where it stops. */
  lemma {:induction false} NameRunEndUnique(s: string, i: nat, j: nat)
    requires i <= j <= |s|
    requires forall k :: i <= k < j ==> IsNameChar(s[k])
    requires j < |s| ==> !IsNameChar(s[j])
    ensures NameRunEnd(s, i) == j
    decreases j - i
  {
    if i < j {
      NameRunEndUnique(s, i + 1, j);
    }
  }
}
