/** Character-level helpers with the semantics of the Python string and
    text-file operations the program relies on: `str.strip()`, `str.split(',')`,
    line iteration over a file opened in text mode (universal newlines),
    zero-padded decimal fields and `int()` on a typed answer. */
module Strings {
  import opened Wrappers

  /** Python's `str.isspace()`: the characters `str.strip()` removes from
      both ends. */
  predicate IsSpace(c: char) {
    || c == ' ' || c == '\t' || c == '\n' || c == '\r'
    || c == '\U{0B}' || c == '\U{0C}'
    || ('\U{1C}' <= c <= '\U{1F}')
    || c == '\U{85}' || c == '\U{A0}' || c == '\U{1680}'
    || ('\U{2000}' <= c <= '\U{200A}')
    || c == '\U{2028}' || c == '\U{2029}' || c == '\U{202F}' || c == '\U{205F}' || c == '\U{3000}'
  }

  /** A line terminator recognised by universal-newline reading. */
  predicate IsBreak(c: char) {
    c == '\n' || c == '\r'
  }

  predicate NoBreaks(s: string) {
    forall k :: 0 <= k < |s| ==> !IsBreak(s[k])
  }

  // ---------------------------------------------------------------------------
  // strip()

  /** Number of whitespace characters at the front of `s`. */
  function LeadingSpace(s: string): (n: nat)
    ensures n <= |s|
    ensures forall k :: 0 <= k < n ==> IsSpace(s[k])
    ensures n < |s| ==> !IsSpace(s[n])
    decreases |s|
  {
    if |s| > 0 && IsSpace(s[0]) then 1 + LeadingSpace(s[1..]) else 0
  }

  /** Number of whitespace characters at the end of `s`. */
  function TrailingSpace(s: string): (n: nat)
    ensures n <= |s|
    ensures forall k :: |s| - n <= k < |s| ==> IsSpace(s[k])
    ensures n < |s| ==> !IsSpace(s[|s| - n - 1])
    decreases |s|
  {
    if |s| > 0 && IsSpace(s[|s| - 1]) then 1 + TrailingSpace(s[..|s| - 1]) else 0
  }

  /** Python's `s.strip()`: `s` without leading and trailing whitespace. */
  function Strip(s: string): (r: string)
    ensures LeadingSpace(s) + |r| <= |s|
    ensures r == [] || (!IsSpace(r[0]) && !IsSpace(r[|r| - 1]))
  {
    var front := LeadingSpace(s);
    var rest := s[front..];
    rest[..|rest| - TrailingSpace(rest)]
  }

  /** Stripping keeps a string that begins and ends with a non-space
      character, and only removes whitespace: a string of spaces strips to "". */
  lemma StripKeeps(s: string)
    requires s == [] || (!IsSpace(s[0]) && !IsSpace(s[|s| - 1]))
    ensures Strip(s) == s
  {
  }

  lemma StripAllSpace(s: string)
    requires forall k :: 0 <= k < |s| ==> IsSpace(s[k])
    ensures Strip(s) == []
  {
    if |s| > 0 {
      assert !(LeadingSpace(s) < |s|);
    }
  }

  // ---------------------------------------------------------------------------
  // split(sep) and its inverse

  /** Index of the first `sep` in `s`, or `|s|` when there is none. */
  function IndexOf(s: string, sep: char): (i: nat)
    ensures i <= |s|
    ensures i < |s| ==> s[i] == sep
    ensures forall k :: 0 <= k < i ==> s[k] != sep
    decreases |s|
  {
    if |s| == 0 then 0
    else if s[0] == sep then 0
    else 1 + IndexOf(s[1..], sep)
  }

  /** The parts joined back together with `sep` between them. */
  function Join(parts: seq<string>, sep: char): string
    requires |parts| >= 1
    decreases |parts|
  {
    if |parts| == 1 then parts[0] else parts[0] + [sep] + Join(parts[1..], sep)
  }

  /** Python's `s.split(sep)` for a one-character separator: never empty, no
      part contains the separator, and joining the parts gives `s` back. */
  function Split(s: string, sep: char): (parts: seq<string>)
    ensures |parts| >= 1
    ensures forall j :: 0 <= j < |parts| ==> sep !in parts[j]
    ensures Join(parts, sep) == s
    decreases |s|
  {
    var i := IndexOf(s, sep);
    if i == |s| then
      [s]
    else
      var rest := Split(s[i + 1..], sep);
      assert s == s[..i] + [sep] + s[i + 1..];
      assert ([s[..i]] + rest)[1..] == rest;
      [s[..i]] + rest
  }

  /** Splitting parts that do not contain the separator recovers them. */
  lemma {:induction false} SplitJoin(parts: seq<string>, sep: char)
    requires |parts| >= 1
    requires forall j :: 0 <= j < |parts| ==> sep !in parts[j]
    ensures Split(Join(parts, sep), sep) == parts
    decreases |parts|
  {
    if |parts| == 1 {
      SplitWhole(parts[0], sep);
    } else {
      SplitJoin(parts[1..], sep);
      SplitCons(parts[0], sep, Join(parts[1..], sep));
      assert parts == [parts[0]] + parts[1..];
    }
  }

  /** A string without the separator splits into itself alone. */
  lemma SplitWhole(s: string, sep: char)
    requires sep !in s
    ensures Split(s, sep) == [s]
  {
    assert forall k :: 0 <= k < |s| ==> s[k] in s;
  }

  /** The first part ends at the first separator. */
  lemma SplitCons(a: string, sep: char, rest: string)
    requires sep !in a
    ensures Split(a + [sep] + rest, sep) == [a] + Split(rest, sep)
  {
    var s := a + [sep] + rest;
    forall k | 0 <= k < |a| ensures s[k] != sep {
      assert s[k] == a[k];
      assert a[k] in a;
    }
    IndexOfFirst(s, sep, |a|);
    assert s[..|a|] == a;
    assert s[|a| + 1..] == rest;
  }

  /** `IndexOf` finds the position of the first separator. */
  lemma IndexOfFirst(s: string, sep: char, i: nat)
    requires i < |s| && s[i] == sep
    requires forall k :: 0 <= k < i ==> s[k] != sep
    ensures IndexOf(s, sep) == i
  {
  }

  // ---------------------------------------------------------------------------
  // Line iteration over a text file (universal newlines)

  /** Index of the first line terminator in `s`, or `|s|`. */
  function FirstBreak(s: string): (i: nat)
    ensures i <= |s|
    decreases |s|
  {
    if |s| == 0 then 0
    else if IsBreak(s[0]) then 0
    else 1 + FirstBreak(s[1..])
  }

  /** `FirstBreak` stops at a terminator and passes over none. (Kept out of
      the function's own contract, where it makes unfolding `Lines` costly.) */
  lemma {:induction false} FirstBreakSpec(s: string)
    ensures FirstBreak(s) < |s| ==> IsBreak(s[FirstBreak(s)])
    ensures forall k :: 0 <= k < FirstBreak(s) ==> !IsBreak(s[k])
    decreases |s|
  {
    if |s| > 0 && !IsBreak(s[0]) {
      FirstBreakSpec(s[1..]);
    }
  }

  /** Length of the terminator found at index `i`: two for "\r\n", else one. */
  function BreakWidth(s: string, i: nat): (w: nat)
    requires i < |s|
    ensures 1 <= w && i + w <= |s|
  {
    if s[i] == '\r' && i + 1 < |s| && s[i + 1] == '\n' then 2 else 1
  }

  /** The lines a text-mode file read yields, with their terminators removed:
      "\n", "\r" and "\r\n" each end a line, and a last line without a
      terminator is still a line. */
  function Lines(s: string): (ls: seq<string>)
    decreases |s|
  {
    if |s| == 0 then []
    else
      var i := FirstBreak(s);
      if i == |s| then [s]
      else [s[..i]] + Lines(s[i + BreakWidth(s, i)..])
  }

  /** No line read from a file contains a terminator. */
  lemma {:induction false} LinesNoBreaks(s: string)
    ensures forall j :: 0 <= j < |Lines(s)| ==> NoBreaks(Lines(s)[j])
    decreases |s|
  {
    if |s| > 0 {
      var i := FirstBreak(s);
      FirstBreakSpec(s);
      if i < |s| {
        var rest := s[i + BreakWidth(s, i)..];
        LinesNoBreaks(rest);
        LinesUnfold(s);
        assert NoBreaks(s[..i]);
      }
    }
  }

  /** Writing each line followed by "\n" (what `file.write(... + "\n")` does
      line by line). */
  function Terminated(ls: seq<string>): string
    decreases |ls|
  {
    if |ls| == 0 then [] else ls[0] + "\n" + Terminated(ls[1..])
  }

  /** Reading back one terminated line that holds no terminator. */
  lemma LinesCons(a: string, rest: string)
    requires NoBreaks(a)
    ensures Lines(a + "\n" + rest) == [a] + Lines(rest)
  {
    var s := a + "\n" + rest;
    assert FirstBreak(s) == |a| by {
      FirstBreakAt(s, |a|);
    }
    assert BreakWidth(s, |a|) == 1;
    assert s[..|a|] == a;
    assert s[|a| + 1..] == rest;
  }

  lemma FirstBreakAt(s: string, i: nat)
    requires i < |s| && IsBreak(s[i])
    requires forall k :: 0 <= k < i ==> !IsBreak(s[k])
    ensures FirstBreak(s) == i
  {
    FirstBreakSpec(s);
  }

  /** Lines written with a terminator each are read back unchanged. */
  lemma {:induction false} LinesTerminated(ls: seq<string>)
    requires forall j :: 0 <= j < |ls| ==> NoBreaks(ls[j])
    ensures Lines(Terminated(ls)) == ls
    decreases |ls|
  {
    if |ls| > 0 {
      LinesCons(ls[0], Terminated(ls[1..]));
      LinesTerminated(ls[1..]);
      assert ls == [ls[0]] + ls[1..];
    }
  }

  /** Text ending in a terminator (or empty) followed by more text: the lines
      of the whole are the lines of each part, unless the second part begins
      with "\n" and would merge with a trailing "\r" into one "\r\n". */
  predicate EndsLine(s: string) {
    |s| == 0 || IsBreak(s[|s| - 1])
  }

  lemma {:induction false} LinesAppend(c: string, x: string)
    requires EndsLine(c)
    requires |x| == 0 || x[0] != '\n'
    ensures Lines(c + x) == Lines(c) + Lines(x)
    decreases |c|
  {
    if |c| == 0 {
      assert c + x == x;
    } else {
      FirstLineEnds(c);
      var i := FirstBreak(c);
      var rest := c[i + BreakWidth(c, i)..];
      var head := [c[..i]];
      LinesUnfold(c);
      LinesAppendHead(c, x);
      LinesAppend(rest, x);
      SeqAssoc(head, Lines(rest), Lines(x));
    }
  }

  lemma SeqAssoc<T>(a: seq<T>, b: seq<T>, c: seq<T>)
    ensures a + (b + c) == (a + b) + c
  {
  }

  /** Text that ends in a terminator has a first terminator, and what follows
      it still ends in a terminator. */
  lemma FirstLineEnds(c: string)
    requires |c| > 0 && EndsLine(c)
    ensures FirstBreak(c) < |c|
    ensures EndsLine(c[FirstBreak(c) + BreakWidth(c, FirstBreak(c))..])
  {
    var i := FirstBreak(c);
    FirstBreakSpec(c);
    assert IsBreak(c[|c| - 1]);
    var c' := c[i + BreakWidth(c, i)..];
    assert |c'| > 0 ==> c'[|c'| - 1] == c[|c| - 1];
  }

  /** The first line of `c + x` is the first line of `c`, and what follows it
      is the rest of `c` followed by `x`. */
  lemma LinesAppendHead(c: string, x: string)
    requires FirstBreak(c) < |c|
    requires |x| == 0 || x[0] != '\n'
    ensures Lines(c + x) == [c[..FirstBreak(c)]] + Lines(c[FirstBreak(c) + BreakWidth(c, FirstBreak(c))..] + x)
  {
    var i := FirstBreak(c);
    var s := c + x;
    FirstBreakAppend(c, x);
    var w := BreakWidth(c, i);
    BreakWidthAppend(c, x, i);
    LinesUnfold(s);
    SliceAppend(c, x, i, i + w);
  }

  lemma SliceAppend(c: string, x: string, i: nat, j: nat)
    requires i <= j <= |c|
    ensures (c + x)[..i] == c[..i]
    ensures (c + x)[j..] == c[j..] + x
  {
  }

  lemma LinesUnfold(s: string)
    requires FirstBreak(s) < |s|
    ensures Lines(s) == [s[..FirstBreak(s)]] + Lines(s[FirstBreak(s) + BreakWidth(s, FirstBreak(s))..])
  {
  }

  lemma FirstBreakAppend(c: string, x: string)
    requires FirstBreak(c) < |c|
    ensures FirstBreak(c + x) == FirstBreak(c)
  {
    var s := c + x;
    var i := FirstBreak(c);
    FirstBreakSpec(c);
    assert s[i] == c[i];
    forall k | 0 <= k < i ensures !IsBreak(s[k]) {
      assert s[k] == c[k];
    }
    FirstBreakAt(s, i);
  }

  lemma BreakWidthAppend(c: string, x: string, i: nat)
    requires i < |c|
    requires i == |c| - 1 ==> |x| == 0 || x[0] != '\n'
    ensures BreakWidth(c + x, i) == BreakWidth(c, i)
  {
    var s := c + x;
    assert s[i] == c[i];
    if i + 1 < |c| {
      assert s[i + 1] == c[i + 1];
    } else if i + 1 < |s| {
      assert s[i + 1] == x[0];
    }
  }

  // ---------------------------------------------------------------------------
  // Decimal digits

  predicate IsDigit(c: char) {
    '0' <= c <= '9'
  }

  predicate AllDigits(s: string) {
    forall k :: 0 <= k < |s| ==> IsDigit(s[k])
  }

  function DigitChar(n: nat): (c: char)
    requires n < 10
    ensures IsDigit(c)
  {
    ('0' as int + n) as char
  }

  function DigitValue(c: char): (n: nat)
    requires IsDigit(c)
    ensures n < 10
    ensures DigitChar(n) == c
  {
    c as int - '0' as int
  }

  function Pow10(n: nat): (p: nat)
    ensures p >= 1
  {
    if n == 0 then 1 else 10 * Pow10(n - 1)
  }

  /** The decimal value of a string of digits, most significant first. */
  function Number(s: string): (n: nat)
    requires AllDigits(s)
    ensures n < Pow10(|s|)
    decreases |s|
  {
    if |s| == 0 then 0
    else Number(s[..|s| - 1]) * 10 + DigitValue(s[|s| - 1])
  }

  /** `n` written with exactly `width` digits, zero-padded on the left (the
      `%04d`/`%02d` conversion `strftime` applies to date and time fields). */
  function Pad(n: nat, width: nat): (s: string)
    ensures |s| == width
    ensures AllDigits(s)
  {
    if width == 0 then [] else Pad(n / 10, width - 1) + [DigitChar(n % 10)]
  }

  /** Reading a padded number gives the number back, when it fits the width. */
  lemma {:induction false} NumberPad(n: nat, width: nat)
    requires n < Pow10(width)
    ensures Number(Pad(n, width)) == n
  {
    if width > 0 {
      var s := Pad(n, width);
      assert s[..|s| - 1] == Pad(n / 10, width - 1);
      NumberPad(n / 10, width - 1);
    }
  }

  /** Padding the value of a digit string to its own length gives it back. */
  lemma {:induction false} PadNumber(s: string)
    requires AllDigits(s)
    ensures Pad(Number(s), |s|) == s
    decreases |s|
  {
    if |s| > 0 {
      var p := s[..|s| - 1];
      PadNumber(p);
      var n := Number(s);
      assert n / 10 == Number(p);
      assert n % 10 == DigitValue(s[|s| - 1]);
      assert s == p + [s[|s| - 1]];
    }
  }

  /** Padded fields of the same width are equal only for equal numbers. */
  lemma PadInjective(a: nat, b: nat, width: nat)
    requires a < Pow10(width) && b < Pow10(width)
    requires Pad(a, width) == Pad(b, width)
    ensures a == b
  {
    NumberPad(a, width);
    NumberPad(b, width);
  }

  // ---------------------------------------------------------------------------
  // int() on a typed answer

  /** Decimal digits of `n` with no padding (`str(n)`). */
  function Decimal(n: nat): (s: string)
    ensures |s| >= 1 && AllDigits(s)
    decreases n
  {
    if n < 10 then [DigitChar(n)] else Decimal(n / 10) + [DigitChar(n % 10)]
  }

  lemma {:induction false} NumberDecimal(n: nat)
    ensures Number(Decimal(n)) == n
    decreases n
  {
    if n >= 10 {
      var s := Decimal(n);
      assert s[..|s| - 1] == Decimal(n / 10);
      NumberDecimal(n / 10);
    }
  }

  /** The characters `int()` skips around a number: whitespace other than
      the four information separators U+001C..U+001F, which `str.strip()`
      removes but `int()` keeps (and then rejects). */
  predicate IsIntSpace(c: char) {
    IsSpace(c) && !('\U{1C}' <= c <= '\U{1F}')
  }

  predicate AllIntSpace(s: string) {
    forall k :: 0 <= k < |s| ==> IsIntSpace(s[k])
  }

  /** Python's `int(answer)` on a typed line: whitespace around the number
      is skipped, then an optional sign and one or more decimal digits must
      make up the rest; anything else raises, modelled as `None`. A numeral
      holds no whitespace, so skipping `int()`'s whitespace leaves a numeral
      exactly when stripping all whitespace does and what was stripped is
      whitespace to `int()`. */
  function ParseInt(answer: string): (r: Option<int>)
  {
    var front := LeadingSpace(answer);
    var t := Strip(answer);
    if AllIntSpace(answer[..front]) && AllIntSpace(answer[front + |t|..])
    then ParseNumeral(t)
    else None
  }

  /** An optional sign followed by one or more decimal digits. */
  function ParseNumeral(t: string): (r: Option<int>)
    ensures r.Some? ==> |t| >= 1
  {
    if |t| >= 1 && (t[0] == '-' || t[0] == '+') then
      var digits := t[1..];
      if |digits| >= 1 && AllDigits(digits) then
        var v: int := Number(digits);
        Some(if t[0] == '-' then -v else v)
      else None
    else if |t| >= 1 && AllDigits(t) then Some(Number(t))
    else None
  }

  /** `str(n)`, with a minus sign for a negative number. */
  function IntText(n: int): string {
    if n < 0 then "-" + Decimal(-n) else Decimal(n)
  }

  /** `int(str(n)) == n` with whitespace typed around the number, as long
      as that whitespace holds no information separator; with one, `int()`
      raises. */
  lemma IntRoundTrip(n: int, before: string, after: string)
    requires forall k :: 0 <= k < |before| ==> IsSpace(before[k])
    requires forall k :: 0 <= k < |after| ==> IsSpace(after[k])
    ensures ParseInt(before + IntText(n) + after)
      == if AllIntSpace(before) && AllIntSpace(after) then Some(n) else None
  {
    var t := IntText(n);
    var s := before + t + after;
    StripPadded(before, t, after);
    assert s == before + (t + after);
    LeadingSpaceOf(before, t + after);
    assert s[..|before|] == before;
    assert s[|before| + |t|..] == after;
    ParseNumeralText(n);
  }

  lemma ParseNumeralText(n: int)
    ensures ParseNumeral(IntText(n)) == Some(n)
  {
    var t := IntText(n);
    if n < 0 {
      NumberDecimal(-n);
      assert t[1..] == Decimal(-n);
    } else {
      NumberDecimal(n);
    }
  }

  /** Whitespace around a string that begins and ends with a non-space
      character is exactly what strip() removes. */
  lemma StripPadded(before: string, t: string, after: string)
    requires forall k :: 0 <= k < |before| ==> IsSpace(before[k])
    requires forall k :: 0 <= k < |after| ==> IsSpace(after[k])
    requires |t| >= 1 && !IsSpace(t[0]) && !IsSpace(t[|t| - 1])
    ensures Strip(before + t + after) == t
  {
    var s := before + t + after;
    var rest := t + after;
    assert s == before + rest;
    LeadingSpaceOf(before, rest);
    assert s[|before|..] == rest;
    TrailingSpaceOf(t, after);
    assert rest[..|t|] == t;
  }

  lemma LeadingSpaceOf(before: string, rest: string)
    requires forall k :: 0 <= k < |before| ==> IsSpace(before[k])
    requires |rest| >= 1 && !IsSpace(rest[0])
    ensures LeadingSpace(before + rest) == |before|
  {
    var s := before + rest;
    assert forall k :: 0 <= k < |before| ==> s[k] == before[k];
    assert s[|before|] == rest[0];
  }

  lemma TrailingSpaceOf(t: string, after: string)
    requires forall k :: 0 <= k < |after| ==> IsSpace(after[k])
    requires |t| >= 1 && !IsSpace(t[|t| - 1])
    ensures TrailingSpace(t + after) == |after|
  {
    var s := t + after;
    assert forall k :: |t| <= k < |s| ==> s[k] == after[k - |t|];
    assert s[|t| - 1] == t[|t| - 1];
  }

  // ---------------------------------------------------------------------------
  // lower()

  /** Lower-cases the ASCII letters and leaves every other character alone. */
  function LowerAscii(s: string): (r: string)
    ensures |r| == |s|
    ensures forall k :: 0 <= k < |s| ==> r[k] == (if 'A' <= s[k] <= 'Z' then (s[k] as int + 32) as char else s[k])
  {
    seq(|s|, k requires 0 <= k < |s| => if 'A' <= s[k] <= 'Z' then (s[k] as int + 32) as char else s[k])
  }
}
