/**
 Worked inputs for `cut_sent`, each pinning down one behaviour of the code:
 matches do not overlap, `[^”’]` also matches a newline, a terminal at the end adds
 nothing, a quote moves the break behind it, and Latin full stops do not count.
 Each example is split into small lemmas: one per substitution that changes the
 text, one for the passes that leave it alone, one tying them to `CutSent`, and
 one counting the newlines of the result.
 */
module SentenceCounterExamples {
  import opened Strings
  import opened RegexSub
  import opened SentenceCounter

  /** The count, given the text after each of the four substitutions. */
  lemma CountAfterPasses(para: seq<char>, t1: seq<char>, t2: seq<char>, t3: seq<char>, t4: seq<char>)
    requires Sub(SingleMark, para) == t1 && Sub(SixDots, t1) == t2
    requires Sub(TwoEllipses, t2) == t3 && Sub(QuotedMark, t3) == t4
    ensures CutSent(para) == 1 + Occurrences(RStrip(t4), '\n')
  {
  }

  /** A text with exactly one newline. */
  lemma OneNewline(a: seq<char>, b: seq<char>)
    requires '\n' !in a && '\n' !in b
    ensures Occurrences(a + "\n" + b, '\n') == 1
  {
    OccurrencesAppend(a + "\n", b, '\n');
    OccurrencesAppend(a, "\n", '\n');
    OccurrencesAbsent(a, '\n');
    OccurrencesAbsent(b, '\n');
  }

  /** Two newline-free pieces joined by one newline, not ending in whitespace, count one newline. */
  lemma OneBreakCount(a: seq<char>, b: seq<char>)
    requires '\n' !in a && '\n' !in b
    requires |b| > 0 && !IsSpace(b[|b| - 1])
    ensures Occurrences(RStrip(a + "\n" + b), '\n') == 1
  {
    RStripKeeps(a + "\n" + b);
    OneNewline(a, b);
  }

  /** Without dots, ellipses and closing quotes, the last three passes change nothing. */
  lemma LaterPassesIdle(t: seq<char>)
    requires '.' !in t && Ellipsis !in t
    requires forall k :: 0 <= k < |t| ==> t[k] !in ClosingQuotes
    ensures Sub(SixDots, t) == t && Sub(TwoEllipses, t) == t && Sub(QuotedMark, t) == t
  {
    SixDotsIdle(t);
    TwoEllipsesIdle(t);
    QuotedMarkIdle(t);
  }

  /** The empty text counts as one piece, not zero. */
  lemma EmptyText()
    ensures CutSent("") == 1
  {
    CutSentBlank("");
  }

  /**
   In `a。！b` the first pass consumes `。！` as one match, so `！` gets no newline
   of its own and the count is 2, not 3.
   */
  lemma AdjacentMarks()
    ensures CutSent("a\U{3002}\U{FF01}b") == 2
  {
    AdjacentMarksRewrite();
    OneBreakCount("a\U{3002}", "\U{FF01}b");
  }

  lemma AdjacentMarksRewrite()
    ensures CutSent("a\U{3002}\U{FF01}b") == 1 + Occurrences(RStrip("a\U{3002}" + "\n" + "\U{FF01}b"), '\n')
  {
    var t := "a\U{3002}" + "\n" + "\U{FF01}b";
    AdjacentMarksFirstPass();
    LaterPassesIdle("a\U{3002}" + "\n" + "\U{FF01}b");
    CountAfterPasses("a\U{3002}\U{FF01}b", t, t, t, t);
  }

  lemma AdjacentMarksFirstPass()
    ensures Sub(SingleMark, "a\U{3002}\U{FF01}b") == "a\U{3002}" + "\n" + "\U{FF01}b"
  {
    var s := "a\U{3002}\U{FF01}b";
    SingleMarkMatch(s, 0);
    SingleMarkMatch(s, 1);
    SingleMarkMatch(s, 3);
    assert SubFrom(SingleMark, s, 4) == [];
    assert SubFrom(SingleMark, s, 3) == "b";
    assert SubFrom(SingleMark, s, 1) == "\U{3002}" + "\n" + "\U{FF01}b";
  }

  /**
   `[^”’]` also matches a newline: in `。\nb` the existing newline after `。` is
   doubled and the empty piece between the two is counted, giving 3.
   */
  lemma NewlineAfterMark()
    ensures CutSent("\U{3002}\nb") == 3
  {
    NewlineAfterMarkRewrite();
    NewlineAfterMarkNewlines();
  }

  lemma NewlineAfterMarkRewrite()
    ensures CutSent("\U{3002}\nb") == 1 + Occurrences(RStrip("\U{3002}\n" + "\n" + "b"), '\n')
  {
    var t := "\U{3002}\n" + "\n" + "b";
    NewlineAfterMarkFirstPass();
    LaterPassesIdle("\U{3002}\n" + "\n" + "b");
    CountAfterPasses("\U{3002}\nb", t, t, t, t);
  }

  lemma NewlineAfterMarkNewlines()
    ensures Occurrences(RStrip("\U{3002}\n" + "\n" + "b"), '\n') == 2
  {
    var t := "\U{3002}\n" + "\n" + "b";
    assert RStrip(t) == t;
    assert t == ("\U{3002}" + "\n" + "") + ("" + "\n" + "b");
    OccurrencesAppend("\U{3002}" + "\n" + "", "" + "\n" + "b", '\n');
    OneNewline("\U{3002}", "");
    OneNewline("", "b");
  }

  lemma NewlineAfterMarkFirstPass()
    ensures Sub(SingleMark, "\U{3002}\nb") == "\U{3002}\n" + "\n" + "b"
  {
    var s := "\U{3002}\nb";
    SingleMarkMatch(s, 0);
    SingleMarkMatch(s, 2);
    assert SubFrom(SingleMark, s, 3) == [];
    assert SubFrom(SingleMark, s, 2) == "b";
  }

  /**
   A terminal at the very end adds nothing, since the pattern needs a character
   after it: `好。` is one piece.
   */
  lemma TrailingMark()
    ensures CutSent("\U{597D}\U{3002}") == 1
  {
    TrailingMarkRewrite();
    TrailingMarkNewlines();
  }

  lemma TrailingMarkRewrite()
    ensures CutSent("\U{597D}\U{3002}") == 1 + Occurrences(RStrip("\U{597D}\U{3002}"), '\n')
  {
    var s := "\U{597D}\U{3002}";
    TrailingMarkPasses();
    CountAfterPasses(s, s, s, s, s);
  }

  lemma TrailingMarkNewlines()
    ensures Occurrences(RStrip("\U{597D}\U{3002}"), '\n') == 0
  {
    assert RStrip("\U{597D}\U{3002}") == "\U{597D}\U{3002}";
    OccurrencesAbsent("\U{597D}\U{3002}", '\n');
  }

  lemma TrailingMarkPasses()
    ensures var s := "\U{597D}\U{3002}";
      && Sub(SingleMark, s) == s && Sub(SixDots, s) == s && Sub(TwoEllipses, s) == s
      && Sub(QuotedMark, s) == s
  {
    var s := "\U{597D}\U{3002}";
    SingleMarkMatch(s, 0);
    SingleMarkMatch(s, 1);
    SubFromNoMatch(SingleMark, s, 0);
    assert s[0..] == s;
    SixDotsIdle(s);
    TwoEllipsesIdle(s);
    QuotedMarkIdle(s);
  }

  /**
   In `好。”然` the first pass leaves `。”` together; the last pass breaks after
   the quote, giving 2.
   */
  lemma QuotedSentence()
    ensures CutSent("\U{597D}\U{3002}\U{201D}\U{7136}") == 2
  {
    QuotedSentenceRewrite();
    OneBreakCount("\U{597D}\U{3002}\U{201D}", "\U{7136}");
  }

  lemma QuotedSentenceRewrite()
    ensures CutSent("\U{597D}\U{3002}\U{201D}\U{7136}")
         == 1 + Occurrences(RStrip("\U{597D}\U{3002}\U{201D}" + "\n" + "\U{7136}"), '\n')
  {
    var s := "\U{597D}\U{3002}\U{201D}\U{7136}";
    var t := "\U{597D}\U{3002}\U{201D}" + "\n" + "\U{7136}";
    QuotedSentenceEarlyPasses();
    QuotedSentenceLastPass();
    CountAfterPasses(s, s, s, s, t);
  }

  lemma QuotedSentenceEarlyPasses()
    ensures var s := "\U{597D}\U{3002}\U{201D}\U{7136}";
      Sub(SingleMark, s) == s && Sub(SixDots, s) == s && Sub(TwoEllipses, s) == s
  {
    var s := "\U{597D}\U{3002}\U{201D}\U{7136}";
    forall j: nat | j < |s|
      ensures !MatchAt(SingleMark, s, j)
    {
      SingleMarkMatch(s, j);
    }
    SubFromNoMatch(SingleMark, s, 0);
    assert s[0..] == s;
    SixDotsIdle(s);
    TwoEllipsesIdle(s);
  }

  lemma QuotedSentenceLastPass()
    ensures Sub(QuotedMark, "\U{597D}\U{3002}\U{201D}\U{7136}")
         == "\U{597D}\U{3002}\U{201D}" + "\n" + "\U{7136}"
  {
    var s := "\U{597D}\U{3002}\U{201D}\U{7136}";
    QuotedMarkMatch(s, 0);
    QuotedMarkMatch(s, 1);
    assert SubFrom(QuotedMark, s, 4) == [];
    assert SubFrom(QuotedMark, s, 1) == "\U{3002}\U{201D}" + "\n" + "\U{7136}";
  }

  /**
   Latin full stops are not terminals: `A. B. C. D. E. F.` is one piece, where a
   reading by sentences would give six.
   */
  lemma LatinFullStops()
    ensures CutSent("A. B. C. D. E. F.") == 1
  {
    var s := "A. B. C. D. E. F.";
    forall i: nat | i <= |s|
      ensures !Run(s, '.', i, 6)
    {
      if i + 6 <= |s| {
        assert s[i] != '.' || s[i + 1] != '.';
      }
    }
    forall i: nat | i <= |s|
      ensures !Run(s, Ellipsis, i, 2)
    {
      if i + 2 <= |s| {
        assert s[i] != Ellipsis;
      }
    }
    CutSentUnmarked(s);
  }

  /** Six ASCII dots followed by another character end a sentence. */
  lemma SixDotsEllipsis()
    ensures CutSent("a......b") == 2
  {
    SixDotsRewrite();
    OneBreakCount("a......", "b");
  }

  lemma SixDotsRewrite()
    ensures CutSent("a......b") == 1 + Occurrences(RStrip("a......" + "\n" + "b"), '\n')
  {
    var t := "a......" + "\n" + "b";
    SixDotsFirstPass();
    SixDotsMatchPass();
    SixDotsLastPasses();
    CountAfterPasses("a......b", "a......b", t, t, t);
  }

  lemma SixDotsFirstPass()
    ensures Sub(SingleMark, "a......b") == "a......b"
  {
    SingleMarkIdle("a......b");
  }

  lemma SixDotsLastPasses()
    ensures var t := "a......" + "\n" + "b";
      Sub(TwoEllipses, t) == t && Sub(QuotedMark, t) == t
  {
    var t := "a......" + "\n" + "b";
    TwoEllipsesIdle(t);
    QuotedMarkIdle(t);
  }

  lemma SixDotsMatchPass()
    ensures Sub(SixDots, "a......b") == "a......" + "\n" + "b"
  {
    var s := "a......b";
    SixDotsMatch(s, 0);
    assert !Run(s, '.', 0, 6) by {
      assert s[0] != '.';
    }
    assert SubFrom(SixDots, s, 0) == "a" + SubFrom(SixDots, s, 1);
    SixDotsMatch(s, 1);
    assert Run(s, '.', 1, 6);
    SubFromMatch(SixDots, s, 1);
    assert s[1..7] == "......" && s[7..8] == "b";
    assert SubFrom(SixDots, s, 8) == [];
  }
}
