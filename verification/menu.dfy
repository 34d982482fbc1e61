/** The choice made by the main menu: the typed answer is stripped and
    lower-cased and then compared with the five command words; anything else
    is an invalid option and the menu is shown again. */
module Menu {
  import opened Strings

  datatype Command = Add | Schedule | Update | Clear | Exit | Invalid

  /** The word that selects a command. */
  function Keyword(c: Command): (w: string)
    requires c != Invalid
    ensures |w| > 0 && forall k :: 0 <= k < |w| ==> 'a' <= w[k] <= 'z'
  {
    match c
    case Add => "add"
    case Schedule => "schedule"
    case Update => "update"
    case Clear => "clear"
    case Exit => "exit"
  }

  /** `input(...).strip().lower()`. */
  function Normalize(answer: string): string {
    LowerAscii(Strip(answer))
  }

  /** The command an answer selects. A command is chosen exactly when the
      normalised answer is its word, and the answer is invalid exactly when
      it is none of the words. */
  function Dispatch(answer: string): (c: Command)
    ensures c != Invalid <==> exists k: Command :: k != Invalid && Normalize(answer) == Keyword(k)
    ensures c != Invalid ==> Normalize(answer) == Keyword(c)
  {
    var action := Normalize(answer);
    if action == Keyword(Add) then Add
    else if action == Keyword(Schedule) then Schedule
    else if action == Keyword(Update) then Update
    else if action == Keyword(Clear) then Clear
    else if action == Keyword(Exit) then Exit
    else
      assert forall k: Command :: k != Invalid ==> action != Keyword(k);
      Invalid
  }

  /** Distinct commands have distinct words, so the normalised answer that
      selects a command selects no other. */
  lemma KeywordsDistinct(a: Command, b: Command)
    requires a != Invalid && b != Invalid
    ensures Keyword(a) == Keyword(b) <==> a == b
  {
    if a != b {
      assert Keyword(a)[..2] != Keyword(b)[..2] || |Keyword(a)| != |Keyword(b)|;
    }
  }

  /** Every command word selects its command. */
  lemma DispatchKeyword(c: Command)
    requires c != Invalid
    ensures Dispatch(Keyword(c)) == c
  {
    var w := Keyword(c);
    LetterNotSpace(w[0]);
    LetterNotSpace(w[|w| - 1]);
    StripKeeps(w);
    LowerKeeps(w);
    assert Normalize(w) == Keyword(c);
    KeywordsDistinct(c, Dispatch(w));
  }

  /** Surrounding whitespace and upper-case letters do not matter: a word
      that lower-cases to a command word, with whitespace on either side
      (a trailing newline, say), selects that command. */
  lemma DispatchPadded(before: string, word: string, after: string, c: Command)
    requires forall k :: 0 <= k < |before| ==> IsSpace(before[k])
    requires forall k :: 0 <= k < |after| ==> IsSpace(after[k])
    requires c != Invalid && LowerAscii(word) == Keyword(c)
    ensures Dispatch(before + word + after) == c
  {
    var w := Keyword(c);
    assert LowerAscii(word)[0] == w[0];
    assert LowerAscii(word)[|word| - 1] == w[|w| - 1];
    LetterNotSpace(word[0]);
    LetterNotSpace(word[|word| - 1]);
    StripPadded(before, word, after);
    assert Normalize(before + word + after) == Keyword(c);
    KeywordsDistinct(c, Dispatch(before + word + after));
  }

  /** Lower-casing an answer before it is typed in makes no difference to
      the command it selects. */
  lemma DispatchIgnoresCase(answer: string)
    ensures Dispatch(LowerAscii(answer)) == Dispatch(answer)
  {
    StripLower(answer);
    LowerOfLower(Strip(answer));
  }

  lemma LowerOfLower(s: string)
    ensures LowerAscii(LowerAscii(s)) == LowerAscii(s)
  {
  }

  lemma LowerSlice(s: string, i: nat, j: nat)
    requires i <= j <= |s|
    ensures LowerAscii(s[i..j]) == LowerAscii(s)[i..j]
  {
  }

  lemma LowerKeeps(s: string)
    requires forall k :: 0 <= k < |s| ==> 'a' <= s[k] <= 'z'
    ensures LowerAscii(s) == s
  {
  }

  lemma LetterNotSpace(c: char)
    requires 'A' <= c <= 'Z' || 'a' <= c <= 'z'
    ensures !IsSpace(c)
  {
  }

  /** Lower-casing keeps whitespace where it was. */
  lemma LowerKeepsSpace(s: string)
    ensures forall k :: 0 <= k < |s| ==> (IsSpace(LowerAscii(s)[k]) <==> IsSpace(s[k]))
  {
    forall k | 0 <= k < |s| ensures IsSpace(LowerAscii(s)[k]) <==> IsSpace(s[k]) {
      if 'A' <= s[k] <= 'Z' {
        LetterNotSpace(s[k]);
        LetterNotSpace(LowerAscii(s)[k]);
      }
    }
  }

  /** Lower-casing only touches letters, which are not whitespace, so it
      commutes with stripping. */
  lemma StripLower(s: string)
    ensures Strip(LowerAscii(s)) == LowerAscii(Strip(s))
  {
    var l := LowerAscii(s);
    LowerKeepsSpace(s);
    SameLeadingSpace(s, l);
    var front := LeadingSpace(s);
    var rest := s[front..];
    LowerSlice(s, front, |s|);
    assert l[front..] == LowerAscii(rest);
    LowerKeepsSpace(rest);
    SameTrailingSpace(rest, LowerAscii(rest));
    var back := TrailingSpace(rest);
    LowerSlice(rest, 0, |rest| - back);
    assert Strip(s) == rest[0..|rest| - back];
    assert Strip(l) == LowerAscii(rest)[0..|rest| - back];
  }

  /** Two strings of equal length with whitespace at the same positions have the
      same leading whitespace. */
  lemma SameLeadingSpace(s: string, t: string)
    requires |s| == |t| && forall k :: 0 <= k < |s| ==> (IsSpace(s[k]) <==> IsSpace(t[k]))
    ensures LeadingSpace(s) == LeadingSpace(t)
  {
    var a, b := LeadingSpace(s), LeadingSpace(t);
    assert a < |s| ==> (IsSpace(s[a]) <==> IsSpace(t[a]));
    assert b < |s| ==> (IsSpace(s[b]) <==> IsSpace(t[b]));
  }

  lemma SameTrailingSpace(s: string, t: string)
    requires |s| == |t| && forall k :: 0 <= k < |s| ==> (IsSpace(s[k]) <==> IsSpace(t[k]))
    ensures TrailingSpace(s) == TrailingSpace(t)
  {
    var a, b := TrailingSpace(s), TrailingSpace(t);
    assert a < |s| ==> (IsSpace(s[|s| - a - 1]) <==> IsSpace(t[|t| - a - 1]));
    assert b < |s| ==> (IsSpace(s[|s| - b - 1]) <==> IsSpace(t[|t| - b - 1]));
  }
}
