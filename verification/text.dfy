/** String helpers shared by the pages: JavaScript's `trim`, `/`-free path segments,
    the decimal rendering of non-negative numbers in template strings, joining,
    and the lines of a multi-line text. */
module Text {

  /** The characters ECMAScript's `String.prototype.trim` removes: the WhiteSpace
      code points (tab, vertical tab, form feed, space, no-break space, byte order
      mark and every other space separator) and the LineTerminator code points. */
  predicate IsWhitespace(c: char) {
    || '\U{9}' <= c <= '\U{D}'
    || c == ' ' || c == '\U{A0}' || c == '\U{1680}'
    || '\U{2000}' <= c <= '\U{200A}'
    || c == '\U{2028}' || c == '\U{2029}' || c == '\U{202F}'
    || c == '\U{205F}' || c == '\U{3000}' || c == '\U{FEFF}'
  }

  predicate AllWhitespace(s: string) {
    forall k :: 0 <= k < |s| ==> IsWhitespace(s[k])
  }

  /** Neither the first nor the last character of `s` is whitespace. */
  predicate IsTrimmed(s: string) {
    |s| == 0 || (!IsWhitespace(s[0]) && !IsWhitespace(s[|s| - 1]))
  }

  /** Number of whitespace characters at the start of `s`. */
  function LeadingSpace(s: string): (n: nat)
    ensures n <= |s|
    ensures forall k :: 0 <= k < n ==> IsWhitespace(s[k])
    ensures n == |s| || !IsWhitespace(s[n])
  {
    if |s| == 0 || !IsWhitespace(s[0]) then 0
    else
      var m := LeadingSpace(s[1..]);
      assert forall k :: 1 <= k < 1 + m ==> s[k] == s[1..][k - 1];
      1 + m
  }

  /** Number of whitespace characters at the end of `s`. */
  function TrailingSpace(s: string): (n: nat)
    ensures n <= |s|
    ensures forall k :: |s| - n <= k < |s| ==> IsWhitespace(s[k])
    ensures n == |s| || !IsWhitespace(s[|s| - n - 1])
  {
    if |s| == 0 || !IsWhitespace(s[|s| - 1]) then 0
    else
      var m := TrailingSpace(s[..|s| - 1]);
      assert forall k :: |s| - 1 - m <= k < |s| - 1 ==> s[k] == s[..|s| - 1][k];
      1 + m
  }

  /** JavaScript's `s.trim()`: `s` without its leading and trailing whitespace.
      The result is the part of `s` between its leading and its trailing run of
      whitespace, and it is empty exactly when `s` is all whitespace. */
  function Trim(s: string): (r: string)
    ensures IsTrimmed(r)
    ensures r == [] <==> AllWhitespace(s)
    ensures var a := LeadingSpace(s);
      && a + |r| <= |s|
      && s[a..a + |r|] == r
      && (forall k :: 0 <= k < a ==> IsWhitespace(s[k]))
      && (forall k :: a + |r| <= k < |s| ==> IsWhitespace(s[k]))
  {
    var a := LeadingSpace(s);
    if a == |s| then []
    else
      var e := |s| - TrailingSpace(s);
      assert a < e by { assert !IsWhitespace(s[a]); }
      var r := s[a..e];
      assert r[0] == s[a] && r[|r| - 1] == s[e - 1];
      r
  }

  /** `Trim` is the only way to split `s` into whitespace, a trimmed core and whitespace:
      whatever such split is given, `Trim` returns its core. */
  lemma TrimCharacterization(s: string, pre: string, r: string, post: string)
    requires s == pre + r + post
    requires AllWhitespace(pre) && AllWhitespace(post)
    requires IsTrimmed(r)
    ensures Trim(s) == r
  {
    assert forall k :: 0 <= k < |pre| ==> s[k] == pre[k];
    assert forall k :: |pre| + |r| <= k < |s| ==> s[k] == post[k - |pre| - |r|];
    assert forall k :: |pre| <= k < |pre| + |r| ==> s[k] == r[k - |pre|];
    var t := Trim(s);
    if r != [] {
      assert !IsWhitespace(s[|pre|]);
      assert !IsWhitespace(s[|pre| + |r| - 1]);
      assert LeadingSpace(s) == |pre|;
      assert |t| == |r|;
      assert t == s[|pre|..|pre| + |r|];
    }
  }

  /** Whitespace-only strings stay so when joined. */
  lemma AllWhitespaceAppend(a: string, b: string)
    requires AllWhitespace(a) && AllWhitespace(b)
    ensures AllWhitespace(a + b)
  {
    assert forall k :: |a| <= k < |a + b| ==> (a + b)[k] == b[k - |a|];
  }

  /** A run of whitespace characters of `s`, cut out, is whitespace only. */
  lemma AllWhitespaceSlice(s: string, i: nat, j: nat)
    requires i <= j <= |s|
    requires forall k :: i <= k < j ==> IsWhitespace(s[k])
    ensures AllWhitespace(s[i..j])
  {
    assert forall k :: i <= k < j ==> s[i..j][k - i] == s[k];
  }

  /** `s` is its trimmed core between two runs of whitespace. */
  lemma TrimSplit(s: string) returns (lead: string, tail: string)
    ensures s == lead + Trim(s) + tail
    ensures AllWhitespace(lead) && AllWhitespace(tail)
  {
    var t := Trim(s);
    var a := LeadingSpace(s);
    lead := s[..a];
    tail := s[a + |t|..];
    AllWhitespaceSlice(s, 0, a);
    AllWhitespaceSlice(s, a + |t|, |s|);
    assert s == lead + t + tail;
  }

  /** Concatenation regrouped around the middle part. */
  lemma Regroup(a: string, b: string, c: string, d: string, e: string)
    ensures a + (b + c + d) + e == (a + b) + c + (d + e)
  {
  }

  /** Whitespace added around `s` is removed again by `Trim`. */
  lemma TrimIgnoresSurroundingSpace(pre: string, s: string, post: string)
    requires AllWhitespace(pre) && AllWhitespace(post)
    ensures Trim(pre + s + post) == Trim(s)
  {
    var lead, tail := TrimSplit(s);
    AllWhitespaceAppend(pre, lead);
    AllWhitespaceAppend(tail, post);
    Regroup(pre, lead, Trim(s), tail, post);
    TrimCharacterization(pre + s + post, pre + lead, Trim(s), tail + post);
  }

  /** A `/`-free stretch of `s`, cut out, is `/`-free. */
  lemma SlashFreeSlice(s: string, i: nat, j: nat)
    requires i <= j <= |s|
    requires forall k :: i <= k < j ==> s[k] != '/'
    ensures SlashFree(s[i..j])
  {
    assert forall k :: i <= k < j ==> s[i..j][k - i] == s[k];
  }

  /** A string without surrounding whitespace is its own trim. */
  lemma TrimOfTrimmed(s: string)
    requires IsTrimmed(s)
    ensures Trim(s) == s
  {
    TrimCharacterization(s, [], s, []);
  }

  /** Putting a non-whitespace character first keeps a non-empty trimmed string trimmed. */
  lemma IsTrimmedPrepend(p: string, s: string)
    requires |p| > 0 && !IsWhitespace(p[0])
    requires |s| > 0 && IsTrimmed(s)
    ensures IsTrimmed(p + s) && |p + s| > 0
  {
    assert (p + s)[0] == p[0];
    assert (p + s)[|p + s| - 1] == s[|s| - 1];
  }

  /** Trimming twice is trimming once. */
  lemma TrimIdempotent(s: string)
    ensures Trim(Trim(s)) == Trim(s)
  {
    TrimOfTrimmed(Trim(s));
  }

  /** Nothing in `s` is a `/`. */
  predicate SlashFree(s: string) {
    forall k :: 0 <= k < |s| ==> s[k] != '/'
  }

  /** End of the longest `/`-free run of `s` that starts at `i`: the reach of a
      greedy `[^/]+` starting there. */
  function SegmentEnd(s: string, i: nat): (e: nat)
    requires i <= |s|
    ensures i <= e <= |s|
    ensures forall k :: i <= k < e ==> s[k] != '/'
    ensures e == |s| || s[e] == '/'
    decreases |s| - i
  {
    if i == |s| || s[i] == '/' then i else SegmentEnd(s, i + 1)
  }

  /** A maximal `/`-free run is unique: any `/`-free `u` found at `i` and followed by
      a `/` or the end of `s` ends exactly at `SegmentEnd(s, i)`. */
  lemma SegmentUnique(s: string, i: nat, u: string)
    requires i + |u| <= |s|
    requires s[i..i + |u|] == u
    requires SlashFree(u)
    requires i + |u| == |s| || s[i + |u|] == '/'
    ensures SegmentEnd(s, i) == i + |u|
  {
    assert forall k :: i <= k < i + |u| ==> s[k] == u[k - i];
  }

  /** The decimal digit character for `d`. */
  function Digit(d: nat): (c: char)
    requires d < 10
    ensures '0' <= c <= '9'
    ensures c as int - '0' as int == d
  {
    ('0' as int + d) as char
  }

  predicate AllDigits(s: string) {
    forall k :: 0 <= k < |s| ==> '0' <= s[k] <= '9'
  }

  /** The value of a string of decimal digits. */
  function DigitsValue(s: string): nat
    requires AllDigits(s)
  {
    if |s| == 0 then 0
    else DigitsValue(s[..|s| - 1]) * 10 + (s[|s| - 1] as int - '0' as int)
  }

  /** How a template literal renders a non-negative integer number: decimal digits,
      no sign, no leading zero. */
  function Decimal(n: nat): (r: string)
    ensures |r| >= 1
    ensures AllDigits(r)
    ensures r[0] == '0' ==> n == 0
  {
    if n < 10 then [Digit(n)]
    else
      var p := Decimal(n / 10);
      assert (p + [Digit(n % 10)])[0] == p[0];
      p + [Digit(n % 10)]
  }

  /** Reading back the digits gives the number: the rendering loses nothing. */
  lemma {:induction false} DecimalValue(n: nat)
    ensures DigitsValue(Decimal(n)) == n
  {
    if n >= 10 {
      DecimalValue(n / 10);
      var r := Decimal(n);
      assert r[..|r| - 1] == Decimal(n / 10);
    }
  }

  /** The strings of `parts` joined with nothing in between: `parts.join("")`. */
  function Concat(parts: seq<string>): string {
    if |parts| == 0 then "" else Concat(parts[..|parts| - 1]) + parts[|parts| - 1]
  }

  /** Joining distributes over concatenation of the list of parts. */
  lemma {:induction false} ConcatAppend(a: seq<string>, b: seq<string>)
    ensures Concat(a + b) == Concat(a) + Concat(b)
    decreases |b|
  {
    if |b| == 0 {
      assert a + b == a;
    } else {
      var b' := b[..|b| - 1];
      assert (a + b)[..|a + b| - 1] == a + b';
      ConcatAppend(a, b');
    }
  }

  /** Part `k` of the list appears in the joined string right after the parts before it. */
  lemma ConcatPart(parts: seq<string>, k: nat)
    requires k < |parts|
    ensures OccursAt(parts[k], Concat(parts), |Concat(parts[..k])|)
  {
    assert parts == parts[..k] + [parts[k]] + parts[k + 1..];
    ConcatAppend(parts[..k] + [parts[k]], parts[k + 1..]);
    ConcatAppend(parts[..k], [parts[k]]);
    assert Concat([parts[k]]) == parts[k] by { assert [parts[k]][..0] == []; }
  }

  /** An occurrence stays one, shifted, when text is put around the whole. */
  lemma OccursWithin(part: string, whole: string, at: nat, before: string, after: string)
    requires OccursAt(part, whole, at)
    ensures OccursAt(part, before + whole + after, |before| + at)
  {
    var big := before + whole + after;
    assert big[|before| + at..|before| + at + |part|] == whole[at..at + |part|];
  }

  /** Every part occurs in the joined string, with text put around it, right
      after the parts before it. */
  lemma PartsWithin(parts: seq<string>, before: string, after: string)
    ensures forall k :: 0 <= k < |parts| ==>
      OccursAt(parts[k], before + Concat(parts) + after, |before| + |Concat(parts[..k])|)
  {
    forall k | 0 <= k < |parts|
      ensures OccursAt(parts[k], before + Concat(parts) + after, |before| + |Concat(parts[..k])|)
    {
      ConcatPart(parts, k);
      OccursWithin(parts[k], Concat(parts), |Concat(parts[..k])|, before, after);
    }
  }

  /** `part` occurs in `whole` starting at index `at`. */
  predicate OccursAt(part: string, whole: string, at: nat) {
    at + |part| <= |whole| && whole[at..at + |part|] == part
  }

  // ---------------------------------------------------------------------------
  // Lines of text

  /** `line` sits in `text` at index `i`, right after a newline and right before one. */
  predicate LineAt(text: string, line: string, i: int) {
    && 1 <= i && i + |line| < |text|
    && text[i - 1] == '\n'
    && text[i..i + |line|] == line
    && text[i + |line|] == '\n'
  }

  /** `line` is a whole, newline-terminated line of `text` that follows a newline. */
  ghost predicate HasLine(text: string, line: string) {
    exists i :: LineAt(text, line, i)
  }

  /** A line set between two newlines is a line of the whole. */
  lemma LineBetween(line: string, after: string)
    ensures HasLine("\n" + (line + ("\n" + after)), line)
  {
    var text := "\n" + (line + ("\n" + after));
    assert text[1..1 + |line|] == line;
    assert LineAt(text, line, 1);
  }

  /** Text put in front keeps every line. */
  lemma HasLineWithin(before: string, text: string, line: string)
    requires HasLine(text, line)
    ensures HasLine(before + text, line)
  {
    var i :| LineAt(text, line, i);
    var whole := before + text;
    assert whole[|before| + i..|before| + i + |line|] == text[i..i + |line|];
    assert LineAt(whole, line, |before| + i);
  }

  /** `text` is not empty and its last character is a newline. */
  predicate EndsWithNewline(text: string) {
    |text| > 0 && text[|text| - 1] == '\n'
  }

  /** Text put in front keeps the final newline. */
  lemma EndsWithNewlineWithin(before: string, text: string)
    requires EndsWithNewline(text)
    ensures EndsWithNewline(before + text)
  {
  }

  /** Text put behind keeps every line. */
  lemma HasLineBefore(text: string, after: string, line: string)
    requires HasLine(text, line)
    ensures HasLine(text + after, line)
  {
    var i :| LineAt(text, line, i);
    var whole := text + after;
    assert whole[i..i + |line|] == text[i..i + |line|];
    assert LineAt(whole, line, i);
  }

  /** The lines, each preceded by a newline: `"\n" + lines[0] + "\n" + lines[1] + ...`. */
  function Lined(lines: seq<string>): string {
    Concat(seq(|lines|, k requires 0 <= k < |lines| => "\n" + lines[k]))
  }

  /** Every one of `lines` is a line of `before + Lined(lines) + after`, provided
      `after` starts with a newline. */
  lemma LinedHasLine(before: string, lines: seq<string>, after: string, k: nat)
    requires k < |lines|
    requires |after| > 0 && after[0] == '\n'
    ensures HasLine(before + Lined(lines) + after, lines[k])
  {
    var pieces := seq(|lines|, j requires 0 <= j < |lines| => "\n" + lines[j]);
    var text := Lined(lines);
    var line := lines[k];
    var o := |Concat(pieces[..k])|;
    ConcatPart(pieces, k);
    assert OccursAt("\n" + line, text, o);
    assert pieces[..k + 1] == pieces[..k] + [pieces[k]];
    ConcatAppend(pieces[..k], [pieces[k]]);
    assert Concat([pieces[k]]) == pieces[k] by { assert [pieces[k]][..0] == []; }
    var next := o + 1 + |line|;
    assert |Concat(pieces[..k + 1])| == next;
    var whole := before + text + after;
    var i := |before| + o + 1;
    assert whole[i - 1] == text[o] == '\n';
    assert whole[i..i + |line|] == text[o + 1..next];
    if k + 1 < |lines| {
      ConcatPart(pieces, k + 1);
      assert text[next] == pieces[k + 1][0] == '\n';
      assert whole[i + |line|] == text[next];
    } else {
      assert pieces[..k + 1] == pieces;
      assert next == |text|;
      assert whole[i + |line|] == after[0];
    }
    assert LineAt(whole, line, i);
  }
}
