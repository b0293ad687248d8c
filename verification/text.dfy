/** The JavaScript string primitives the modelled code relies on: `split` with a
    character, a string or the line-break pattern `/\r?\n/`, `trim`,
    `indexOf` / `lastIndexOf`, and the order `localeCompare` is assumed to give
    (plain code-point lexicographic order). */
module Text {
  import opened Wrappers

  // ---------------------------------------------------------------------------
  // Splitting on one character (`s.split(',')`, `s.split('\n')`)
  // ---------------------------------------------------------------------------

  /** The pieces of `s` between occurrences of `c`; like JavaScript's
      `split`, it never returns an empty sequence. */
  function Split(s: string, c: char): (r: seq<string>)
    ensures |r| >= 1
    ensures forall k | 0 <= k < |r| :: c !in r[k]
    ensures Join(r, c) == s
    decreases |s|
  {
    if |s| == 0 then [""]
    else
      var rest := Split(s[1..], c);
      if s[0] == c then
        [""] + rest
      else
        JoinCons(s[0], rest, c);
        [[s[0]] + rest[0]] + rest[1..]
  }

  /** The inverse of `Split`: the pieces glued back together with `c`. */
  function Join(parts: seq<string>, c: char): string
    requires |parts| >= 1
    decreases |parts|
  {
    if |parts| == 1 then parts[0] else parts[0] + [c] + Join(parts[1..], c)
  }

  lemma JoinCons(x: char, parts: seq<string>, c: char)
    requires |parts| >= 1
    ensures Join([[x] + parts[0]] + parts[1..], c) == [x] + Join(parts, c)
  {
    var glued := [[x] + parts[0]] + parts[1..];
    if |parts| > 1 {
      assert glued[1..] == parts[1..];
    }
  }

  /** Splitting text that does not contain the separator yields the text alone. */
  lemma {:induction false} SplitWithoutSeparator(s: string, c: char)
    requires c !in s
    ensures Split(s, c) == [s]
    decreases |s|
  {
    if |s| > 0 {
      assert c !in s[1..];
      SplitWithoutSeparator(s[1..], c);
    }
  }

  lemma {:induction false} SplitPrefix(x: string, c: char, rest: string)
    requires c !in x
    ensures Split(x + [c] + rest, c) == [x] + Split(rest, c)
    decreases |x|
  {
    if |x| == 0 {
      assert x + [c] + rest == [c] + rest;
      assert ([c] + rest)[1..] == rest;
    } else {
      assert (x + [c] + rest)[1..] == x[1..] + [c] + rest;
      SplitPrefix(x[1..], c, rest);
      assert [x[0]] + x[1..] == x;
    }
  }

  /** `Split` undoes `Join` when no piece contains the separator. */
  lemma {:induction false} SplitJoin(parts: seq<string>, c: char)
    requires |parts| >= 1
    requires forall k | 0 <= k < |parts| :: c !in parts[k]
    ensures Split(Join(parts, c), c) == parts
    decreases |parts|
  {
    if |parts| == 1 {
      SplitWithoutSeparator(parts[0], c);
    } else {
      SplitJoin(parts[1..], c);
      SplitPrefix(parts[0], c, Join(parts[1..], c));
      assert [parts[0]] + parts[1..] == parts;
    }
  }

  /** Every character of a join is the separator or a character of a piece. */
  lemma {:induction false} JoinChars(parts: seq<string>, c: char, i: nat)
    requires |parts| >= 1 && i < |Join(parts, c)|
    ensures Join(parts, c)[i] == c || exists k, m | 0 <= k < |parts| && 0 <= m < |parts[k]| :: Join(parts, c)[i] == parts[k][m]
    decreases |parts|
  {
    if |parts| > 1 {
      var tail := Join(parts[1..], c);
      if i < |parts[0]| {
        assert Join(parts, c)[i] == parts[0][i];
      } else if i > |parts[0]| {
        assert Join(parts, c)[i] == tail[i - |parts[0]| - 1];
        JoinChars(parts[1..], c, i - |parts[0]| - 1);
        if tail[i - |parts[0]| - 1] != c {
          var k, m :| 0 <= k < |parts[1..]| && 0 <= m < |parts[1..][k]| && tail[i - |parts[0]| - 1] == parts[1..][k][m];
          assert parts[1..][k] == parts[k + 1];
        }
      }
    }
  }

  /** The first character of a join is that of its first piece, and its last
      character that of its last piece. */
  lemma JoinEnds(parts: seq<string>, c: char)
    requires |parts| >= 1 && |parts[0]| > 0 && |parts[|parts| - 1]| > 0
    ensures |Join(parts, c)| > 0
    ensures Join(parts, c)[0] == parts[0][0]
    ensures Join(parts, c)[|Join(parts, c)| - 1] == parts[|parts| - 1][|parts[|parts| - 1]| - 1]
  {
    JoinEndsLast(parts, c);
  }

  lemma {:induction false} JoinEndsLast(parts: seq<string>, c: char)
    requires |parts| >= 1 && |parts[|parts| - 1]| > 0
    ensures |Join(parts, c)| > 0
    ensures Join(parts, c)[|Join(parts, c)| - 1] == parts[|parts| - 1][|parts[|parts| - 1]| - 1]
    decreases |parts|
  {
    if |parts| > 1 {
      assert parts[1..][|parts[1..]| - 1] == parts[|parts| - 1];
      JoinEndsLast(parts[1..], c);
    }
  }

  // ---------------------------------------------------------------------------
  // `s.split(/\r?\n/)`
  // ---------------------------------------------------------------------------

  /** A line break is `\n`, optionally preceded by one `\r`; the `\r` is part of
      the separator, so it is dropped from every piece that a break follows. */
  function Lines(s: string): (r: seq<string>)
    ensures |r| >= 1
    ensures forall k | 0 <= k < |r| :: '\n' !in r[k]
  {
    var pieces := Split(s, '\n');
    seq(|pieces|, k requires 0 <= k < |pieces| =>
      if k < |pieces| - 1 then DropTrailingReturn(pieces[k]) else pieces[k])
  }

  function DropTrailingReturn(p: string): (r: string)
    ensures r <= p
  {
    if |p| > 0 && p[|p| - 1] == '\r' then p[..|p| - 1] else p
  }

  /** Splitting joined lines gives the lines back when none holds a line
      break or ends with a carriage return. */
  lemma LinesJoin(ls: seq<string>)
    requires |ls| >= 1
    requires forall k | 0 <= k < |ls| :: '\n' !in ls[k] && '\r' !in ls[k]
    ensures Lines(Join(ls, '\n')) == ls
  {
    SplitJoin(ls, '\n');
  }

  // ---------------------------------------------------------------------------
  // `s.trim()`
  // ---------------------------------------------------------------------------

  /** ECMAScript WhiteSpace and LineTerminator code points (section 12.2 and
      12.3 of ECMA-262), which `trim` removes from both ends. */
  predicate IsWhitespace(c: char) {
    || c == '\U{0009}' || c == '\U{000B}' || c == '\U{000C}' || c == '\U{0020}'
    || c == '\U{00A0}' || c == '\U{FEFF}' || c == '\U{1680}'
    || ('\U{2000}' <= c <= '\U{200A}')
    || c == '\U{202F}' || c == '\U{205F}' || c == '\U{3000}'
    || c == '\U{000A}' || c == '\U{000D}' || c == '\U{2028}' || c == '\U{2029}'
  }

  predicate Blank(s: string) {
    forall k | 0 <= k < |s| :: IsWhitespace(s[k])
  }

  /** The number of whitespace characters `s` starts with. */
  function LeadingBlanks(s: string): (n: nat)
    ensures n <= |s|
    ensures forall k | 0 <= k < n :: IsWhitespace(s[k])
    ensures n == |s| || !IsWhitespace(s[n])
  {
    if |s| == 0 || !IsWhitespace(s[0]) then 0 else 1 + LeadingBlanks(s[1..])
  }

  /** The length of `s` once its trailing whitespace is dropped. */
  function TrailingStart(s: string): (n: nat)
    ensures n <= |s|
    ensures forall k | n <= k < |s| :: IsWhitespace(s[k])
    ensures n == 0 || !IsWhitespace(s[n - 1])
  {
    if |s| == 0 || !IsWhitespace(s[|s| - 1]) then |s| else TrailingStart(s[..|s| - 1])
  }

  /** `s.trim()`: `s` without its leading and trailing whitespace. The result
      is empty exactly when `s` is blank. */
  function Trim(s: string): (r: string)
    ensures |r| <= |s|
    ensures |r| == 0 || (!IsWhitespace(r[0]) && !IsWhitespace(r[|r| - 1]))
    ensures r == "" <==> Blank(s)
  {
    var a := LeadingBlanks(s);
    var rest := s[a..];
    var r := rest[..TrailingStart(rest)];
    assert a < |s| ==> r[0] == s[a];
    r
  }

  /** Text that neither starts nor ends with whitespace is left alone. */
  lemma TrimUnpadded(s: string)
    requires |s| > 0 && !IsWhitespace(s[0]) && !IsWhitespace(s[|s| - 1])
    ensures Trim(s) == s
  {
    assert LeadingBlanks(s) == 0;
    assert s[0..] == s;
    assert TrailingStart(s) == |s|;
  }

  // ---------------------------------------------------------------------------
  // Searching (`indexOf`, `lastIndexOf`) and `split` on a string separator
  // ---------------------------------------------------------------------------

  predicate OccursAt(s: string, pat: string, i: int) {
    0 <= i && i + |pat| <= |s| && s[i..i + |pat|] == pat
  }

  /** `s.indexOf(pat, from)`: the first occurrence at or after `from`, or -1. */
  function IndexOf(s: string, pat: string, from: nat): (r: int)
    ensures r == -1 || (from <= r && OccursAt(s, pat, r))
    ensures forall i | from <= i && (r == -1 || i < r) :: !OccursAt(s, pat, i)
    decreases |s| - from
  {
    if from + |pat| > |s| then -1
    else if OccursAt(s, pat, from) then from
    else IndexOf(s, pat, from + 1)
  }

  /** `s.lastIndexOf(pat)`: the last occurrence, or -1. */
  function LastIndexOf(s: string, pat: string): (r: int)
    ensures r == -1 || OccursAt(s, pat, r)
    ensures forall i | r < i :: !OccursAt(s, pat, i)
  {
    LastAtOrBefore(s, pat, |s| - |pat|)
  }

  function LastAtOrBefore(s: string, pat: string, i: int): (r: int)
    requires i <= |s| - |pat|
    ensures r == -1 || (r <= i && OccursAt(s, pat, r))
    ensures forall k | r < k <= i :: !OccursAt(s, pat, k)
    decreases i + 1
  {
    if i < 0 then -1
    else if OccursAt(s, pat, i) then i
    else LastAtOrBefore(s, pat, i - 1)
  }

  /** `s.split(sep)` for a non-empty separator string. */
  function SplitText(s: string, sep: string): (r: seq<string>)
    requires |sep| > 0
    ensures |r| >= 1
    ensures IndexOf(s, sep, 0) == -1 ==> r == [s]
    ensures JoinText(r, sep) == s
    decreases |s|
  {
    var i := IndexOf(s, sep, 0);
    if i < 0 then [s]
    else
      var rest := SplitText(s[i + |sep|..], sep);
      assert s == s[..i] + sep + s[i + |sep|..];
      [s[..i]] + rest
  }

  function JoinText(parts: seq<string>, sep: string): string
    requires |parts| >= 1
    decreases |parts|
  {
    if |parts| == 1 then parts[0] else parts[0] + sep + JoinText(parts[1..], sep)
  }

  /** An occurrence found in a prefix stays the first one once text is
      appended. */
  lemma IndexOfExtend(a: string, sep: string, y: string)
    requires IndexOf(a, sep, 0) >= 0
    ensures IndexOf(a + y, sep, 0) == IndexOf(a, sep, 0)
  {
    var i := IndexOf(a, sep, 0);
    assert (a + y)[i..i + |sep|] == a[i..i + |sep|];
    forall q | 0 <= q < i
      ensures !OccursAt(a + y, sep, q)
    {
      assert !OccursAt(a, sep, q);
      assert q + |sep| <= |a|;
      assert (a + y)[q..q + |sep|] == a[q..q + |sep|];
    }
    var r := IndexOf(a + y, sep, 0);
    assert OccursAt(a + y, sep, i);
  }

  /** When `x` holds no `sep` and ends with a character `sep` lacks, the first
      `sep` of `x + sep` is the appended one: no occurrence straddles the
      seam. */
  lemma NoStraddle(x: string, sep: string)
    requires |sep| > 0
    requires IndexOf(x, sep, 0) == -1
    requires |x| == 0 || x[|x| - 1] !in sep
    ensures IndexOf(x + sep, sep, 0) == |x|
  {
    var s := x + sep;
    assert s[|x|..|x| + |sep|] == sep;
    assert OccursAt(s, sep, |x|);
    forall q | 0 <= q < |x|
      ensures !OccursAt(s, sep, q)
    {
      if q + |sep| <= |x| {
        assert s[q..q + |sep|] == x[q..q + |sep|];
        assert !OccursAt(x, sep, q);
      } else {
        var j := |x| - 1 - q;
        assert s[q..q + |sep|][j] == x[|x| - 1];
        assert sep[j] != x[|x| - 1];
      }
    }
  }

  /** `SplitText` undoes `JoinText` when each piece but the last meets the
      separator only where it is appended, and the last holds none. */
  lemma {:induction false} SplitJoinText(parts: seq<string>, sep: string)
    requires |parts| >= 1 && |sep| > 0
    requires forall k | 0 <= k < |parts| - 1 :: IndexOf(parts[k] + sep, sep, 0) == |parts[k]|
    requires IndexOf(parts[|parts| - 1], sep, 0) == -1
    ensures SplitText(JoinText(parts, sep), sep) == parts
    decreases |parts|
  {
    if |parts| > 1 {
      var tail := parts[1..];
      var rest := JoinText(tail, sep);
      var s := JoinText(parts, sep);
      var i := |parts[0]|;
      assert s == (parts[0] + sep) + rest;
      IndexOfExtend(parts[0] + sep, sep, rest);
      assert s[i + |sep|..] == rest;
      assert s[..i] == parts[0];
      SplitTextAt(s, sep);
      SeparatedTail(parts, sep);
      SplitJoinText(tail, sep);
      assert [parts[0]] + tail == parts;
    }
  }

  /** `split` cuts at the first occurrence of the separator. */
  lemma SplitTextAt(s: string, sep: string)
    requires |sep| > 0 && IndexOf(s, sep, 0) >= 0
    ensures var i := IndexOf(s, sep, 0);
      SplitText(s, sep) == [s[..i]] + SplitText(s[i + |sep|..], sep)
  {
  }

  lemma SeparatedTail(parts: seq<string>, sep: string)
    requires |parts| > 1
    requires forall k | 0 <= k < |parts| - 1 :: IndexOf(parts[k] + sep, sep, 0) == |parts[k]|
    requires IndexOf(parts[|parts| - 1], sep, 0) == -1
    ensures forall k | 0 <= k < |parts[1..]| - 1 :: IndexOf(parts[1..][k] + sep, sep, 0) == |parts[1..][k]|
    ensures IndexOf(parts[1..][|parts[1..]| - 1], sep, 0) == -1
  {
    forall k | 0 <= k < |parts[1..]| - 1
      ensures IndexOf(parts[1..][k] + sep, sep, 0) == |parts[1..][k]|
    {
      assert parts[1..][k] == parts[k + 1];
    }
    assert parts[1..][|parts[1..]| - 1] == parts[|parts| - 1];
  }

  // ---------------------------------------------------------------------------
  // Lines as a regular expression sees them
  // ---------------------------------------------------------------------------

  /** The characters `.` does not match in a JavaScript regular expression
      (LineTerminator, section 12.3 of ECMA-262). */
  predicate IsLineTerminator(c: char) {
    c == '\n' || c == '\r' || c == '\U{2028}' || c == '\U{2029}'
  }

  /** The first line terminator at or after `from`, or the end of `s`. */
  function LineEnd(s: string, from: nat): (r: nat)
    requires from <= |s|
    ensures from <= r <= |s|
    ensures forall k | from <= k < r :: !IsLineTerminator(s[k])
    ensures r < |s| ==> IsLineTerminator(s[r])
    decreases |s| - from
  {
    if from == |s| || IsLineTerminator(s[from]) then from else LineEnd(s, from + 1)
  }

  /** What `(.*)\n` captures at `from`: the text up to the next line
      terminator, provided that terminator is `\n`. */
  function RestOfLine(s: string, from: nat): (r: Option<string>)
    requires from <= |s|
    ensures r.Some? <==> LineEnd(s, from) < |s| && s[LineEnd(s, from)] == '\n'
    ensures r.Some? ==> r.value == s[from..LineEnd(s, from)]
  {
    var e := LineEnd(s, from);
    if e < |s| && s[e] == '\n' then Some(s[from..e]) else None
  }

  /** A line with no terminator in it, followed by `\n`, is read back whole. */
  lemma RestOfLineAt(s: string, from: nat, line: string)
    requires from + |line| < |s| && s[from + |line|] == '\n'
    requires forall k | 0 <= k < |line| :: s[from + k] == line[k] && !IsLineTerminator(line[k])
    ensures RestOfLine(s, from) == Some(line)
  {
    assert IsLineTerminator(s[from + |line|]);
    forall k | from <= k < from + |line|
      ensures !IsLineTerminator(s[k])
    {
      assert s[from + (k - from)] == line[k - from];
    }
    assert LineEnd(s, from) == from + |line|;
    assert s[from..from + |line|] == line;
  }

  /** Appending a character `pat` lacks creates no occurrence of `pat`. */
  lemma IndexOfBarrier(a: string, c: char, pat: string)
    requires |pat| > 0 && IndexOf(a, pat, 0) == -1 && c !in pat
    ensures IndexOf(a + [c], pat, 0) == -1
  {
    var s := a + [c];
    forall q | 0 <= q
      ensures !OccursAt(s, pat, q)
    {
      if q + |pat| <= |a| {
        assert s[q..q + |pat|] == a[q..q + |pat|];
        assert !OccursAt(a, pat, q);
      } else if q + |pat| == |s| {
        assert s[q..q + |pat|][|pat| - 1] == c;
        assert pat[|pat| - 1] != c;
      }
    }
  }

  // ---------------------------------------------------------------------------
  // The tie-break order for process ids
  // ---------------------------------------------------------------------------

  /** Strict lexicographic order on code points: `a` is a proper prefix of `b`,
      or the first differing character of `a` is the smaller. */
  predicate TextBelow(a: string, b: string)
    decreases |a|
  {
    |b| > 0 && (|a| == 0 || a[0] < b[0] || (a[0] == b[0] && TextBelow(a[1..], b[1..])))
  }

  lemma {:induction false} TextBelowIrreflexive(a: string)
    ensures !TextBelow(a, a)
    decreases |a|
  {
    if |a| > 0 {
      TextBelowIrreflexive(a[1..]);
    }
  }

  lemma {:induction false} TextBelowTransitive(a: string, b: string, c: string)
    requires TextBelow(a, b) && TextBelow(b, c)
    ensures TextBelow(a, c)
    decreases |a|
  {
    if |a| > 0 && a[0] == b[0] && b[0] == c[0] {
      TextBelowTransitive(a[1..], b[1..], c[1..]);
    }
  }

  lemma {:induction false} TextBelowTotal(a: string, b: string)
    ensures a == b || TextBelow(a, b) || TextBelow(b, a)
    decreases |a|
  {
    if |a| > 0 && |b| > 0 && a[0] == b[0] {
      TextBelowTotal(a[1..], b[1..]);
      if a[1..] == b[1..] {
        assert a == [a[0]] + a[1..] && b == [b[0]] + b[1..];
      }
    }
  }

  lemma TextBelowAsymmetric(a: string, b: string)
    requires TextBelow(a, b)
    ensures !TextBelow(b, a)
  {
    if TextBelow(b, a) {
      TextBelowTransitive(a, b, a);
      TextBelowIrreflexive(a);
    }
  }

  // ---------------------------------------------------------------------------
  // Number formatting
  // ---------------------------------------------------------------------------

  /** A number converted to a string: its decimal digits, with a
      leading `-` when negative. */
  function IntString(n: int): (r: string)
    ensures |r| >= 1
  {
    if n < 0 then "-" + DecimalString(-n) else DecimalString(n)
  }

  /** Decimal digits of a natural number, as `String(n)` writes an array index. */
  function DecimalString(n: nat): (r: string)
    ensures |r| >= 1
    ensures forall k | 0 <= k < |r| :: '0' <= r[k] <= '9'
  {
    if n < 10 then [Digit(n)] else DecimalString(n / 10) + [Digit(n % 10)]
  }

  function Digit(d: nat): (c: char)
    requires d < 10
    ensures '0' <= c <= '9'
  {
    ['0', '1', '2', '3', '4', '5', '6', '7', '8', '9'][d]
  }
}
