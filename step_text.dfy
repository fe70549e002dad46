/**
 * How the assistant turns the backend's `text_solution` into solution steps:
 * split on the blank-line separator "\n\n", then drop every piece that is
 * empty once leading and trailing white space is trimmed
 * (VisualLearningAssistant.jsx, line 108).
 */
module StepText {

  /** The separator between steps: two line feeds. */
  const Sep: string := "\n\n"

  /** The separator starts at index `i` of `s`. */
  predicate SepAt(s: string, i: int)
  {
    0 <= i && i + 1 < |s| && s[i] == '\n' && s[i + 1] == '\n'
  }

  /** `s` holds the separator somewhere. */
  predicate ContainsSep(s: string)
  {
    exists i :: 0 <= i < |s| && SepAt(s, i)
  }

  /**
   * `s.split("\n\n")` as JavaScript computes it: the string is scanned from
   * the left and cut at each occurrence of the separator that does not
   * overlap an earlier cut. There is always at least one piece, and the first
   * piece is a prefix of `s`.
   */
  function Split(s: string): (pieces: seq<string>)
    ensures |pieces| >= 1
    decreases |s|
  {
    if |s| < 2 then [s]
    else if SepAt(s, 0) then [""] + Split(s[2..])
    else
      var rest := Split(s[1..]);
      [[s[0]] + rest[0]] + rest[1..]
  }

  /** The first piece is a prefix of the text. */
  lemma {:induction false} FirstPieceIsPrefix(s: string)
    ensures |Split(s)[0]| <= |s| && Split(s)[0] == s[..|Split(s)[0]|]
    decreases |s|
  {
    if |s| >= 2 && !SepAt(s, 0) {
      FirstPieceIsPrefix(s[1..]);
      var rest := Split(s[1..]);
      assert Split(s)[0] == [s[0]] + rest[0];
    }
  }

  /** `pieces.join("\n\n")`: the inverse direction of `Split`. */
  function Join(pieces: seq<string>): string
  {
    if |pieces| == 0 then ""
    else if |pieces| == 1 then pieces[0]
    else pieces[0] + Sep + Join(pieces[1..])
  }

  /** Splitting loses nothing: joining the pieces again gives back the text. */
  lemma {:induction false} JoinSplit(s: string)
    ensures Join(Split(s)) == s
    decreases |s|
  {
    if |s| < 2 {
    } else if SepAt(s, 0) {
      JoinSplit(s[2..]);
      var pieces := Split(s);
      assert pieces[1..] == Split(s[2..]);
      assert s == "" + Sep + s[2..];
    } else {
      JoinSplit(s[1..]);
      var rest := Split(s[1..]);
      var pieces := Split(s);
      assert pieces[1..] == rest[1..];
      if |rest| == 1 {
        assert s == [s[0]] + s[1..];
      } else {
        assert Join(rest) == rest[0] + Sep + Join(rest[1..]);
        assert s == [s[0]] + s[1..];
      }
    }
  }

  /** No piece produced by `Split` holds the separator. */
  lemma {:induction false} PiecesHaveNoSep(s: string)
    ensures forall k :: 0 <= k < |Split(s)| ==> !ContainsSep(Split(s)[k])
    decreases |s|
  {
    var pieces := Split(s);
    if |s| < 2 {
      assert pieces == [s];
    } else if SepAt(s, 0) {
      PiecesHaveNoSep(s[2..]);
      assert pieces[1..] == Split(s[2..]);
      assert pieces[0] == "";
    } else {
      PiecesHaveNoSep(s[1..]);
      var rest := Split(s[1..]);
      assert pieces[1..] == rest[1..];
      var first := pieces[0];
      FirstPieceIsPrefix(s[1..]);
      assert first == [s[0]] + rest[0];
      forall i | 0 <= i < |first| ensures !SepAt(first, i) {
        if i == 0 && 1 < |first| {
          assert first[1] == rest[0][0] == s[1];
        } else if i > 0 && i + 1 < |first| {
          assert first[i] == rest[0][i - 1] && first[i + 1] == rest[0][i];
          assert !SepAt(rest[0], i - 1);
        }
      }
    }
  }

  /** A first piece that is empty and followed by more pieces means the text starts with the separator. */
  lemma EmptyFirstCutStartsWithSep(s: string)
    requires |Split(s)| > 1 && Split(s)[0] == []
    ensures SepAt(s, 0)
  {
  }

  /**
   * Cuts are made at the leftmost separator: a piece that a separator follows
   * is empty or does not end in a line feed (otherwise the separator would
   * have started one character earlier). With `JoinSplit` and
   * `PiecesHaveNoSep` this fixes the split uniquely.
   */
  lemma {:induction false} CutPiecesDoNotEndInLineFeed(s: string)
    ensures forall k :: 0 <= k < |Split(s)| - 1 ==> Split(s)[k] == [] || Split(s)[k][|Split(s)[k]| - 1] != '\n'
    decreases |s|
  {
    var pieces := Split(s);
    if |s| < 2 {
      assert |pieces| == 1;
    } else if SepAt(s, 0) {
      CutPiecesDoNotEndInLineFeed(s[2..]);
      assert pieces[0] == "" && pieces[1..] == Split(s[2..]);
      forall k | 1 <= k < |pieces| - 1
        ensures pieces[k] == [] || pieces[k][|pieces[k]| - 1] != '\n'
      {
        assert pieces[k] == Split(s[2..])[k - 1];
      }
    } else {
      CutPiecesDoNotEndInLineFeed(s[1..]);
      var rest := Split(s[1..]);
      assert pieces[1..] == rest[1..];
      assert pieces[0] == [s[0]] + rest[0];
      forall k | 0 <= k < |pieces| - 1
        ensures pieces[k] == [] || pieces[k][|pieces[k]| - 1] != '\n'
      {
        if k == 0 {
          if rest[0] == [] {
            EmptyFirstCutStartsWithSep(s[1..]);
            assert s[1..][0] == s[1] == '\n';
          } else {
            assert pieces[0][|pieces[0]| - 1] == rest[0][|rest[0]| - 1];
          }
        } else {
          assert pieces[k] == rest[k];
        }
      }
    }
  }

  /** The text comes back as one piece exactly when it holds no separator. */
  lemma {:induction false} SplitWholeIffNoSep(s: string)
    ensures Split(s) == [s] <==> !ContainsSep(s)
    decreases |s|
  {
    if !ContainsSep(s) {
      if |s| >= 2 {
        assert !SepAt(s, 0);
        forall i | 0 <= i < |s| - 1 ensures !SepAt(s[1..], i) {
          assert !SepAt(s, i + 1);
        }
        SplitWholeIffNoSep(s[1..]);
        assert s == [s[0]] + s[1..];
      }
    } else {
      PiecesHaveNoSep(s);
      assert !ContainsSep(Split(s)[0]);
    }
  }

  /** A text that does not start with the separator: its first character joins the first piece of the rest. */
  lemma SplitExtendsFirst(s: string)
    requires |s| >= 2 && !SepAt(s, 0)
    ensures Split(s) == [[s[0]] + Split(s[1..])[0]] + Split(s[1..])[1..]
  {
  }

  /**
   * A text that does not end in a line feed, a separator, and another text
   * split into the pieces of the first followed by the pieces of the second.
   */
  lemma {:induction false} SplitAroundSep(a: string, b: string)
    requires a == [] || a[|a| - 1] != '\n'
    ensures Split(a + Sep + b) == Split(a) + Split(b)
    decreases |a|
  {
    if a == [] {
      SplitAfterSep(b);
      assert a + Sep + b == Sep + b;
    } else if |a| >= 2 && SepAt(a, 0) {
      SplitAroundSep(a[2..], b);
      SplitAroundSepLeadingSep(a, b);
    } else {
      SplitAroundSep(a[1..], b);
      SplitAroundSepLeadingChar(a, b);
    }
  }

  /** A text that starts with the separator begins with an empty piece. */
  lemma SplitAfterSep(b: string)
    ensures Split(Sep + b) == [""] + Split(b)
  {
    assert SepAt(Sep + b, 0);
    assert (Sep + b)[2..] == b;
  }

  /** The step of `SplitAroundSep` where `a` itself starts with the separator. */
  lemma SplitAroundSepLeadingSep(a: string, b: string)
    requires |a| >= 2 && SepAt(a, 0)
    requires Split(a[2..] + Sep + b) == Split(a[2..]) + Split(b)
    ensures Split(a + Sep + b) == Split(a) + Split(b)
  {
    var s := a + Sep + b;
    assert SepAt(s, 0);
    assert s[2..] == a[2..] + Sep + b;
    calc {
      Split(s);
      [""] + Split(s[2..]);
      [""] + (Split(a[2..]) + Split(b));
      ([""] + Split(a[2..])) + Split(b);
      Split(a) + Split(b);
    }
  }

  /** The step of `SplitAroundSep` where the first character of `a` joins the first piece. */
  lemma SplitAroundSepLeadingChar(a: string, b: string)
    requires a != [] && a[|a| - 1] != '\n'
    requires !(|a| >= 2 && SepAt(a, 0))
    requires Split(a[1..] + Sep + b) == Split(a[1..]) + Split(b)
    ensures Split(a + Sep + b) == Split(a) + Split(b)
  {
    var s := a + Sep + b;
    assert s[0] == a[0] && s[1] == (if |a| >= 2 then a[1] else '\n');
    assert s[1..] == a[1..] + Sep + b;
    SplitExtendsFirst(s);
    FirstOfSplitJoinsRest(a);
    ExtendFirstOfAppend(a[0], Split(a[1..]), Split(b));
  }

  /** Adding a character to the first piece commutes with appending more pieces. */
  lemma ExtendFirstOfAppend(c: char, front: seq<string>, back: seq<string>)
    requires |front| >= 1
    ensures [[c] + (front + back)[0]] + (front + back)[1..] == ([[c] + front[0]] + front[1..]) + back
  {
    assert (front + back)[1..] == front[1..] + back;
  }

  /** The first character of a text that does not start with the separator begins its first piece. */
  lemma FirstOfSplitJoinsRest(a: string)
    requires a != [] && !(|a| >= 2 && SepAt(a, 0))
    ensures Split(a) == [[a[0]] + Split(a[1..])[0]] + Split(a[1..])[1..]
  {
    if |a| >= 2 {
      SplitExtendsFirst(a);
    } else {
      assert a[1..] == [] && Split(a[1..]) == [""];
      assert a == [a[0]] + "";
    }
  }

  /** ECMAScript white space and line terminators: what `trim()` removes. */
  predicate IsWhitespace(c: char)
  {
    c == '\t' || c == '\n' || c == '\U{B}' || c == '\U{C}' || c == '\r' ||
    c == ' ' || c == '\U{A0}' || c == '\U{1680}' ||
    ('\U{2000}' <= c <= '\U{200A}') ||
    c == '\U{2028}' || c == '\U{2029}' || c == '\U{202F}' ||
    c == '\U{205F}' || c == '\U{3000}' || c == '\U{FEFF}'
  }

  /** Every character of `s` is white space. */
  predicate AllWhitespace(s: string)
  {
    forall i :: 0 <= i < |s| ==> IsWhitespace(s[i])
  }

  /** How many characters at the start of `s` are white space. */
  function LeadingWhitespace(s: string): (n: nat)
    ensures n <= |s|
  {
    if |s| > 0 && IsWhitespace(s[0]) then 1 + LeadingWhitespace(s[1..]) else 0
  }

  /** How many characters at the end of `s` are white space. */
  function TrailingWhitespace(s: string): (n: nat)
    ensures n <= |s|
  {
    if |s| > 0 && IsWhitespace(s[|s| - 1]) then 1 + TrailingWhitespace(s[..|s| - 1]) else 0
  }

  /** The leading count covers white space only and stops at the first other character. */
  lemma {:induction false} LeadingWhitespaceSpan(s: string)
    ensures forall i :: 0 <= i < LeadingWhitespace(s) ==> IsWhitespace(s[i])
    ensures LeadingWhitespace(s) == |s| || !IsWhitespace(s[LeadingWhitespace(s)])
  {
    if |s| > 0 && IsWhitespace(s[0]) {
      LeadingWhitespaceSpan(s[1..]);
      forall i | 1 <= i < LeadingWhitespace(s) ensures IsWhitespace(s[i]) {
        assert s[i] == s[1..][i - 1];
      }
    }
  }

  /** The trailing count covers white space only and stops at the last other character. */
  lemma {:induction false} TrailingWhitespaceSpan(s: string)
    ensures forall i :: |s| - TrailingWhitespace(s) <= i < |s| ==> IsWhitespace(s[i])
    ensures TrailingWhitespace(s) == |s| || !IsWhitespace(s[|s| - 1 - TrailingWhitespace(s)])
  {
    if |s| > 0 && IsWhitespace(s[|s| - 1]) {
      var init := s[..|s| - 1];
      TrailingWhitespaceSpan(init);
      forall i | |s| - TrailingWhitespace(s) <= i < |s| - 1 ensures IsWhitespace(s[i]) {
        assert s[i] == init[i];
      }
    }
  }

  /** `s` with its leading white space removed. */
  function TrimStart(s: string): string
  {
    s[LeadingWhitespace(s)..]
  }

  /** `s` with its trailing white space removed. */
  function TrimEnd(s: string): string
  {
    s[..|s| - TrailingWhitespace(s)]
  }

  /** `s.trim()`: a slice of `s` that neither starts nor ends with white space. */
  function Trim(s: string): (r: string)
    ensures r == [] || (!IsWhitespace(r[0]) && !IsWhitespace(r[|r| - 1]))
  {
    var t := TrimStart(s);
    LeadingWhitespaceSpan(s);
    TrailingWhitespaceSpan(t);
    TrimEnd(t)
  }

  /**
   * The filter of line 108 drops `step` when `step.trim()` is the empty,
   * falsy, string: exactly when leading white space runs to the end.
   */
  predicate IsBlank(s: string)
    ensures IsBlank(s) <==> LeadingWhitespace(s) == |s|
  {
    LeadingWhitespaceSpan(s);
    TrailingWhitespaceSpan(TrimStart(s));
    Trim(s) == ""
  }

  /** A piece is blank exactly when every character of it is white space. */
  lemma BlankIffAllWhitespace(s: string)
    ensures IsBlank(s) <==> AllWhitespace(s)
  {
    LeadingWhitespaceSpan(s);
  }

  /**
   * `trim()` keeps the middle of the text: `s` is its leading white space,
   * then `Trim(s)`, then its trailing white space.
   */
  lemma TrimKeepsMiddle(s: string)
    ensures var n := LeadingWhitespace(s);
            n + |Trim(s)| <= |s| &&
            s == s[..n] + Trim(s) + s[n + |Trim(s)|..] &&
            AllWhitespace(s[..n]) && AllWhitespace(s[n + |Trim(s)|..])
  {
    var n := LeadingWhitespace(s);
    var t := s[n..];
    var m := |t| - TrailingWhitespace(t);
    assert Trim(s) == s[n..n + m];
    ThreeParts(s, n, n + m);
    LeadingWhitespaceSpan(s);
    WhitespacePrefix(s, n);
    TrailingWhitespaceSpan(t);
    WhitespaceSuffix(s, t, n, m);
  }

  lemma ThreeParts(s: string, i: nat, j: nat)
    requires i <= j <= |s|
    ensures s == s[..i] + s[i..j] + s[j..]
  {
  }

  lemma WhitespacePrefix(s: string, n: nat)
    requires n <= |s|
    requires forall i :: 0 <= i < n ==> IsWhitespace(s[i])
    ensures AllWhitespace(s[..n])
  {
    assert forall i :: 0 <= i < n ==> s[..n][i] == s[i];
  }

  lemma WhitespaceSuffix(s: string, t: string, n: nat, m: nat)
    requires n <= |s| && t == s[n..] && m <= |t|
    requires forall i :: m <= i < |t| ==> IsWhitespace(t[i])
    ensures AllWhitespace(s[n + m..])
  {
    var back := s[n + m..];
    forall i | 0 <= i < |back| ensures IsWhitespace(back[i]) {
      assert back[i] == t[m + i];
    }
  }



  /** `pieces.filter(step => step.trim())`: the non-blank pieces, in order. */
  function KeepNonBlank(pieces: seq<string>): (kept: seq<string>)
    ensures |kept| <= |pieces|
    ensures forall k :: 0 <= k < |kept| ==> !IsBlank(kept[k])
  {
    if pieces == [] then []
    else if IsBlank(pieces[0]) then KeepNonBlank(pieces[1..])
    else [pieces[0]] + KeepNonBlank(pieces[1..])
  }

  /** Every kept piece is one of the pieces. */
  lemma {:induction false} KeptArePieces(pieces: seq<string>)
    ensures forall x :: x in KeepNonBlank(pieces) ==> x in pieces
  {
    if pieces != [] {
      KeptArePieces(pieces[1..]);
    }
  }

  /** Filtering works piece by piece, so it keeps the order of the pieces. */
  lemma {:induction false} KeepNonBlankAppend(a: seq<string>, b: seq<string>)
    ensures KeepNonBlank(a + b) == KeepNonBlank(a) + KeepNonBlank(b)
  {
    if a != [] {
      assert (a + b)[0] == a[0] && (a + b)[1..] == a[1..] + b;
      KeepNonBlankAppend(a[1..], b);
    } else {
      assert a + b == b;
    }
  }

  /** Filtering removes nothing exactly when no piece is blank. */
  lemma {:induction false} KeepNonBlankIdentity(pieces: seq<string>)
    ensures KeepNonBlank(pieces) == pieces <==> forall k :: 0 <= k < |pieces| ==> !IsBlank(pieces[k])
  {
    if pieces != [] {
      KeepNonBlankIdentity(pieces[1..]);
      if IsBlank(pieces[0]) {
        assert |KeepNonBlank(pieces[1..])| < |pieces|;
      } else {
        assert pieces == [pieces[0]] + pieces[1..];
      }
    }
  }

  /** Filtering leaves nothing exactly when every piece is blank. */
  lemma {:induction false} KeepNonBlankEmpty(pieces: seq<string>)
    ensures KeepNonBlank(pieces) == [] <==> forall k :: 0 <= k < |pieces| ==> IsBlank(pieces[k])
  {
    if pieces != [] {
      KeepNonBlankEmpty(pieces[1..]);
      if IsBlank(pieces[0]) {
        forall k | 1 <= k < |pieces| ensures pieces[k] == pieces[1..][k - 1] { }
      }
    }
  }

  /** The steps shown for a `text_solution` (line 108). */
  function Steps(text: string): (steps: seq<string>)
    ensures forall k :: 0 <= k < |steps| ==> !IsBlank(steps[k]) && !ContainsSep(steps[k])
  {
    StepsHaveNoSep(text);
    KeepNonBlank(Split(text))
  }

  /** Every kept piece is free of the separator. */
  lemma StepsHaveNoSep(text: string)
    ensures forall k :: 0 <= k < |KeepNonBlank(Split(text))| ==> !ContainsSep(KeepNonBlank(Split(text))[k])
  {
    var pieces := Split(text);
    var kept := KeepNonBlank(pieces);
    PiecesHaveNoSep(text);
    KeptArePieces(pieces);
    forall k | 0 <= k < |kept| ensures !ContainsSep(kept[k]) {
      assert kept[k] in pieces;
      var j :| 0 <= j < |pieces| && pieces[j] == kept[k];
    }
  }

  /** A non-blank text without a blank line is a single step: the whole text. */
  lemma SingleStep(text: string)
    requires !ContainsSep(text) && !IsBlank(text)
    ensures Steps(text) == [text]
  {
    SplitWholeIffNoSep(text);
  }

  /** There are no steps exactly when every separated piece is blank. */
  lemma NoStepsIffAllBlank(text: string)
    ensures Steps(text) == [] <==> forall k :: 0 <= k < |Split(text)| ==> IsBlank(Split(text)[k])
  {
    var pieces := Split(text);
    assert Steps(text) == KeepNonBlank(pieces);
    KeepNonBlankEmpty(pieces);
    if Steps(text) != [] {
      var k :| 0 <= k < |pieces| && !IsBlank(pieces[k]);
      assert !IsBlank(Split(text)[k]);
    }
  }

  /** Steps keep their order: the steps of `a`, a blank line, `b` are those of `a` then those of `b`. */
  lemma StepsAroundSep(a: string, b: string)
    requires a == [] || a[|a| - 1] != '\n'
    ensures Steps(a + Sep + b) == Steps(a) + Steps(b)
  {
    SplitAroundSep(a, b);
    KeepNonBlankAppend(Split(a), Split(b));
  }

  /** A text without line feeds holds no separator. */
  lemma NoLineFeedNoSep(s: string)
    requires forall i :: 0 <= i < |s| ==> s[i] != '\n'
    ensures !ContainsSep(s)
  {
  }

  /** A text that starts with a character other than white space is not blank. */
  lemma StartsWithTextNotBlank(s: string)
    requires |s| > 0 && !IsWhitespace(s[0])
    ensures !IsBlank(s)
  {
    BlankIffAllWhitespace(s);
    assert !IsWhitespace(s[0]);
  }

  /** A single line of text, not starting with white space, is one step. */
  lemma OneLineStep(s: string)
    requires |s| > 0 && !IsWhitespace(s[0])
    requires forall i :: 0 <= i < |s| ==> s[i] != '\n'
    ensures Steps(s) == [s]
  {
    NoLineFeedNoSep(s);
    StartsWithTextNotBlank(s);
    SingleStep(s);
  }

  /** Two single-line steps around a blank line come back as exactly those two steps. */
  lemma TwoLineSteps(a: string, b: string)
    requires |a| > 0 && !IsWhitespace(a[0]) && forall i :: 0 <= i < |a| ==> a[i] != '\n'
    requires |b| > 0 && !IsWhitespace(b[0]) && forall i :: 0 <= i < |b| ==> b[i] != '\n'
    ensures Steps(a + Sep + b) == [a, b]
  {
    OneLineStep(a);
    OneLineStep(b);
    StepsAroundSep(a, b);
  }
}
