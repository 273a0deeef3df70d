/**
 `cut_sent` (insert_data.py:17-28), the length function the chunker uses: it
 rewrites the paragraph with four regular-expression substitutions that put a
 newline after sentence-ending punctuation, strips trailing whitespace, and
 returns the number of newline-separated pieces.
 */
module SentenceCounter {
  import opened Strings
  import opened RegexSub

  /** The single-character sentence terminals `。！？?`. */
  const Terminals: set<char> := {'\U{3002}', '\U{FF01}', '\U{FF1F}', '?'}

  /** The closing quotation marks `”’`. */
  const ClosingQuotes: set<char> := {'\U{201D}', '\U{2019}'}

  /** `，。！？?`: after a quoted terminal, none of these may follow for a break. */
  const ClauseMarks: set<char> := {'\U{FF0C}'} + Terminals

  /** The horizontal ellipsis `…`. */
  const Ellipsis: char := '\U{2026}'

  /** The texts `......` and `……` the second and third patterns look for. */
  const SixDotRun: seq<char> := ['.', '.', '.', '.', '.', '.']
  const TwoEllipsisRun: seq<char> := [Ellipsis, Ellipsis]

  const Dot: CharClass := OneOf({'.'})
  const NotQuote: CharClass := NoneOf(ClosingQuotes)

  /** `([。！？\?])([^”’])` → `\1\n\2` */
  const SingleMark: Rule := Rule([OneOf(Terminals), NotQuote], 1)

  /** `(\.{6})([^”’])` → `\1\n\2` */
  const SixDots: Rule := Rule([Dot, Dot, Dot, Dot, Dot, Dot, NotQuote], 6)

  /** `(\…{2})([^”’])` → `\1\n\2` */
  const TwoEllipses: Rule := Rule([OneOf({Ellipsis}), OneOf({Ellipsis}), NotQuote], 2)

  /** `([。！？\?][”’])([^，。！？\?])` → `\1\n\2` */
  const QuotedMark: Rule := Rule([OneOf(Terminals), OneOf(ClosingQuotes), NoneOf(ClauseMarks)], 2)

  /**
   The characters a pass's newline may follow: a terminal for the first pass, a dot
   for the second, an ellipsis for the third and a closing quote for the last.
   */
  predicate BreaksAfter(r: Rule, c: char)
  {
    || (r == SingleMark && c in Terminals)
    || (r == SixDots && c == '.')
    || (r == TwoEllipses && c == Ellipsis)
    || (r == QuotedMark && c in ClosingQuotes)
  }

  /** One of the four substitutions of `cut_sent`. */
  predicate IsPass(r: Rule)
  {
    r == SingleMark || r == SixDots || r == TwoEllipses || r == QuotedMark
  }

  /** The four substitutions of `cut_sent`, in source order. */
  function Rewrite(para: seq<char>): seq<char>
  {
    Sub(QuotedMark, Sub(TwoEllipses, Sub(SixDots, Sub(SingleMark, para))))
  }

  /**
   The substitutions only insert newlines: deleting the inserted ones gives back the
   paragraph, no other character is changed or moved, and none is put before the
   first or after the last character.
   */
  lemma RewriteInsertsNewlines(para: seq<char>)
    ensures NewlinesInserted(para, Rewrite(para))
    ensures |para| > 0 ==>
      var t := Rewrite(para);
      |t| > 0 && t[0] == para[0] && t[|t| - 1] == para[|para| - 1]
  {
    var t1 := Sub(SingleMark, para);
    var t2 := Sub(SixDots, t1);
    var t3 := Sub(TwoEllipses, t2);
    SubInsertsNewlines(SingleMark, para);
    SubInsertsNewlines(SixDots, t1);
    SubInsertsNewlines(TwoEllipses, t2);
    SubInsertsNewlines(QuotedMark, t3);
    NewlinesInsertedTrans(para, t1, t2);
    NewlinesInsertedTrans(para, t2, t3);
    NewlinesInsertedTrans(para, t3, Rewrite(para));
    if |para| > 0 {
      SubKeepsEnds(SingleMark, para);
      SubKeepsEnds(SixDots, t1);
      SubKeepsEnds(TwoEllipses, t2);
      SubKeepsEnds(QuotedMark, t3);
    }
  }

  /**
   `cut_sent(para)`: the number of pieces `split("\n")` yields on the rewritten,
   right-stripped paragraph, which is one more than its number of newlines.
   */
  function CutSent(para: seq<char>): (n: nat)
    ensures n >= 1
    ensures n == 1 + Occurrences(RStrip(Rewrite(para)), '\n')
  {
    |Split(RStrip(Rewrite(para)), '\n')|
  }

  /** A text made only of whitespace, the empty text included, counts as one piece. */
  lemma CutSentBlank(para: seq<char>)
    requires forall k :: 0 <= k < |para| ==> IsSpace(para[k])
    ensures CutSent(para) == 1
  {
    var t := Rewrite(para);
    RewriteInsertsNewlines(para);
    NewlinesInsertedChars(para, t);
    assert |RStrip(t)| == 0;
  }

  /** `s[i..i + n]` is a run of `n` copies of `c`. */
  predicate Run(s: seq<char>, c: char, i: nat, n: nat)
  {
    i + n <= |s| && forall k :: i <= k < i + n ==> s[k] == c
  }

  predicate HasRun(s: seq<char>, c: char, n: nat)
  {
    exists i: nat :: i <= |s| && Run(s, c, i, n)
  }

  /** What each pattern matches, in plain terms. */
  lemma SingleMarkMatch(s: seq<char>, j: nat)
    ensures MatchAt(SingleMark, s, j)
        <==> j + 2 <= |s| && s[j] in Terminals && s[j + 1] !in ClosingQuotes
  {
    if j + 2 <= |s| {
      assert SingleMark.classes[0].Accepts(s[j + 0]) <==> s[j] in Terminals;
      assert SingleMark.classes[1].Accepts(s[j + 1]) <==> s[j + 1] !in ClosingQuotes;
    }
  }

  lemma SixDotsMatch(s: seq<char>, j: nat)
    ensures MatchAt(SixDots, s, j)
        <==> j + 7 <= |s| && Run(s, '.', j, 6) && s[j + 6] !in ClosingQuotes
  {
    if j + 7 <= |s| {
      forall k | 0 <= k < 6
        ensures SixDots.classes[k].Accepts(s[j + k]) <==> s[j + k] == '.'
      {
        assert SixDots.classes[k] == Dot;
      }
      assert SixDots.classes[6].Accepts(s[j + 6]) <==> s[j + 6] !in ClosingQuotes;
      if Run(s, '.', j, 6) && s[j + 6] !in ClosingQuotes {
        forall k | 0 <= k < 7
          ensures SixDots.classes[k].Accepts(s[j + k])
        {
          if k < 6 {
            assert s[j + k] == '.';
          }
        }
      }
      if MatchAt(SixDots, s, j) {
        forall k | j <= k < j + 6
          ensures s[k] == '.'
        {
          assert SixDots.classes[k - j].Accepts(s[j + (k - j)]);
        }
      }
    }
  }

  lemma TwoEllipsesMatch(s: seq<char>, j: nat)
    ensures MatchAt(TwoEllipses, s, j)
        <==> j + 3 <= |s| && Run(s, Ellipsis, j, 2) && s[j + 2] !in ClosingQuotes
  {
    if j + 3 <= |s| {
      assert TwoEllipses.classes[0].Accepts(s[j + 0]) <==> s[j] == Ellipsis;
      assert TwoEllipses.classes[1].Accepts(s[j + 1]) <==> s[j + 1] == Ellipsis;
      assert TwoEllipses.classes[2].Accepts(s[j + 2]) <==> s[j + 2] !in ClosingQuotes;
    }
  }

  lemma QuotedMarkMatch(s: seq<char>, j: nat)
    ensures MatchAt(QuotedMark, s, j)
        <==> j + 3 <= |s| && s[j] in Terminals && s[j + 1] in ClosingQuotes && s[j + 2] !in ClauseMarks
  {
    if j + 3 <= |s| {
      assert QuotedMark.classes[0].Accepts(s[j + 0]) <==> s[j] in Terminals;
      assert QuotedMark.classes[1].Accepts(s[j + 1]) <==> s[j + 1] in ClosingQuotes;
      assert QuotedMark.classes[2].Accepts(s[j + 2]) <==> s[j + 2] !in ClauseMarks;
    }
  }

  /**
   Plain prose counts as one piece: without a terminal from `。！？?`, a run of six
   dots, a run of two ellipses or a newline, no pass matches, so a lone `.` or `!`
   never ends a sentence.
   */
  lemma CutSentUnmarked(para: seq<char>)
    requires forall k :: 0 <= k < |para| ==> para[k] !in Terminals && para[k] != '\n'
    requires !HasRun(para, '.', 6)
    requires !HasRun(para, Ellipsis, 2)
    ensures CutSent(para) == 1
  {
    forall j | 0 <= j < |para|
      ensures !MatchAt(SingleMark, para, j)
    {
      if MatchAt(SingleMark, para, j) {
        SingleMarkMatch(para, j);
      }
    }
    SubFromNoMatch(SingleMark, para, 0);
    forall j | 0 <= j < |para|
      ensures !MatchAt(SixDots, para, j)
    {
      if MatchAt(SixDots, para, j) {
        SixDotsMatch(para, j);
      }
    }
    SubFromNoMatch(SixDots, para, 0);
    forall j | 0 <= j < |para|
      ensures !MatchAt(TwoEllipses, para, j)
    {
      if MatchAt(TwoEllipses, para, j) {
        TwoEllipsesMatch(para, j);
      }
    }
    SubFromNoMatch(TwoEllipses, para, 0);
    forall j | 0 <= j < |para|
      ensures !MatchAt(QuotedMark, para, j)
    {
      if MatchAt(QuotedMark, para, j) {
        QuotedMarkMatch(para, j);
      }
    }
    SubFromNoMatch(QuotedMark, para, 0);
    assert para[0..] == para;
    assert Rewrite(para) == para;
    var u := RStrip(para);
    assert '\n' !in u;
    OccurrencesAbsent(u, '\n');
  }

  /**
   The first pass puts a newline right after a terminal, and never in front of a
   closing quote.
   */
  lemma SingleMarkBreak(s: seq<char>, k: nat)
    requires k in Breaks(SingleMark, s)
    ensures 1 <= k < |s| && s[k - 1] in Terminals && s[k] !in ClosingQuotes
  {
    BreakInMatch(SingleMark, s, k);
    SingleMarkMatch(s, k - 1);
  }

  /**
   A terminal followed by anything but a closing quote, a newline included, gets a
   newline right after it, unless the scan already consumed it as the second
   character of a match at the index before (as the `！` in `。！`).
   */
  lemma MarkGetsBreak(s: seq<char>, j: nat)
    requires j + 1 < |s| && s[j] in Terminals && s[j + 1] !in ClosingQuotes
    requires j == 0 || j - 1 !in Starts(SingleMark, s)
    ensures j + 1 in Breaks(SingleMark, s)
  {
    SingleMarkMatch(s, j);
    var starts := Starts(SingleMark, s);
    forall k | 0 <= k < |starts|
      ensures !(starts[k] < j < starts[k] + |SingleMark.classes|)
    {
      assert starts[k] in starts;
    }
    MatchGetsBreak(SingleMark, s, j);
  }

  /**
   The last pass breaks after a closing quote that follows a terminal, when the next
   character is not one of `，。！？?`.
   */
  lemma QuotedMarkBreak(s: seq<char>, k: nat)
    requires k in Breaks(QuotedMark, s)
    ensures 2 <= k < |s|
    ensures s[k - 2] in Terminals && s[k - 1] in ClosingQuotes && s[k] !in ClauseMarks
  {
    BreakInMatch(QuotedMark, s, k);
    QuotedMarkMatch(s, k - 2);
  }

  /**
   Every terminal, closing quote, other character triple of that shape gets its
   break: two such matches can never overlap, since a terminal is neither a quote
   nor allowed as the third character.
   */
  lemma QuoteGetsBreak(s: seq<char>, j: nat)
    requires j + 3 <= |s|
    requires s[j] in Terminals && s[j + 1] in ClosingQuotes && s[j + 2] !in ClauseMarks
    ensures j + 2 in Breaks(QuotedMark, s)
  {
    QuotedMarkMatch(s, j);
    var starts := Starts(QuotedMark, s);
    forall k | 0 <= k < |starts|
      ensures !(starts[k] < j < starts[k] + |QuotedMark.classes|)
    {
      assert starts[k] in starts;
      StartsMatch(QuotedMark, s, 0, starts[k]);
      QuotedMarkMatch(s, starts[k]);
    }
    MatchGetsBreak(QuotedMark, s, j);
  }

  /**
   What may stand before a newline any of the four passes inserts: a terminal, the
   last of six dots, the second of two ellipses, or a closing quote after a
   terminal. In particular a lone ASCII `!` or `.` never ends a sentence, no pass
   separates a terminal from the closing quote right after it, and only the last
   pass breaks after a closing quote. Each pass breaks only after the characters
   `BreaksAfter` names for it.
   */
  lemma BreakFollowsMark(r: Rule, s: seq<char>, k: nat)
    requires IsPass(r) && k in Breaks(r, s)
    ensures 1 <= k < |s|
    ensures || s[k - 1] in Terminals
            || (k >= 6 && Run(s, '.', k - 6, 6))
            || (k >= 2 && Run(s, Ellipsis, k - 2, 2))
            || (k >= 2 && s[k - 2] in Terminals && s[k - 1] in ClosingQuotes)
    ensures s[k - 1] != '!'
    ensures s[k - 1] == '.' ==> k >= 6 && Run(s, '.', k - 6, 6)
    ensures !(s[k - 1] in Terminals && s[k] in ClosingQuotes)
    ensures s[k - 1] in ClosingQuotes ==> r == QuotedMark && s[k - 2] in Terminals
    ensures BreaksAfter(r, s[k - 1])
  {
    BreakInMatch(r, s, k);
    if r == SingleMark {
      SingleMarkMatch(s, k - 1);
    } else if r == SixDots {
      SixDotsMatch(s, k - 6);
      assert s[k - 1] == '.';
    } else if r == TwoEllipses {
      TwoEllipsesMatch(s, k - 2);
      assert s[k - 1] == Ellipsis;
    } else {
      QuotedMarkMatch(s, k - 2);
    }
  }

  /** Each pass leaves a text alone when a character its pattern needs is absent. */
  lemma SingleMarkIdle(s: seq<char>)
    requires forall k :: 0 <= k < |s| ==> s[k] !in Terminals
    ensures Sub(SingleMark, s) == s
  {
    forall j: nat | j < |s|
      ensures !MatchAt(SingleMark, s, j)
    {
      SingleMarkMatch(s, j);
    }
    SubFromNoMatch(SingleMark, s, 0);
    assert s[0..] == s;
  }

  lemma SixDotsIdle(s: seq<char>)
    requires '.' !in s
    ensures Sub(SixDots, s) == s
  {
    forall j: nat | j < |s|
      ensures !MatchAt(SixDots, s, j)
    {
      SixDotsMatch(s, j);
      assert s[j] in s;
      assert Run(s, '.', j, 6) ==> s[j] == '.';
    }
    SubFromNoMatch(SixDots, s, 0);
    assert s[0..] == s;
  }

  lemma TwoEllipsesIdle(s: seq<char>)
    requires Ellipsis !in s
    ensures Sub(TwoEllipses, s) == s
  {
    forall j: nat | j < |s|
      ensures !MatchAt(TwoEllipses, s, j)
    {
      TwoEllipsesMatch(s, j);
      assert s[j] in s;
      assert Run(s, Ellipsis, j, 2) ==> s[j] == Ellipsis;
    }
    SubFromNoMatch(TwoEllipses, s, 0);
    assert s[0..] == s;
  }

  lemma QuotedMarkIdle(s: seq<char>)
    requires || (forall k :: 0 <= k < |s| ==> s[k] !in Terminals)
             || (forall k :: 0 <= k < |s| ==> s[k] !in ClosingQuotes)
    ensures Sub(QuotedMark, s) == s
  {
    forall j: nat | j < |s|
      ensures !MatchAt(QuotedMark, s, j)
    {
      QuotedMarkMatch(s, j);
    }
    SubFromNoMatch(QuotedMark, s, 0);
    assert s[0..] == s;
  }

  /**
   One pass keeps a terminal and its closing quote together: the text around the
   pair only gets newlines inserted.
   */
  lemma PairStep(r: Rule, u: seq<char>, p: seq<char>, v: seq<char>)
    requires IsPass(r) && |p| == 2 && p[0] in Terminals && p[1] in ClosingQuotes
    ensures exists u2, v2 :: Sub(r, u + p + v) == u2 + p + v2
                          && NewlinesInserted(u, u2) && NewlinesInserted(v, v2)
  {
    PairBreaks(r, u, p, v);
    KeepBlock(r, u, p, v);
  }

  /** No pass breaks between a terminal and the closing quote right after it. */
  lemma PairBreaks(r: Rule, u: seq<char>, p: seq<char>, v: seq<char>)
    requires IsPass(r) && |p| == 2 && p[0] in Terminals && p[1] in ClosingQuotes
    ensures |u| + 1 !in Breaks(r, u + p + v)
  {
    var s := u + p + v;
    var j := |u|;
    assert s[j] == p[0] && s[j + 1] == p[1];
    var k: nat := j + 1;
    if k in Breaks(r, s) {
      BreakFollowsMark(r, s, k);
    }
  }

  /**
   `SubKeepsBlock` for a text cut into three: a stretch `p` the pass puts no newline
   inside stays whole, and the text on either side only gets newlines inserted.
   */
  lemma KeepBlock(r: Rule, u: seq<char>, p: seq<char>, v: seq<char>)
    requires r.Valid() && 0 < |p|
    requires forall k :: |u| < k < |u| + |p| ==> k !in Breaks(r, u + p + v)
    ensures exists u2, v2 :: Sub(r, u + p + v) == u2 + p + v2
                          && NewlinesInserted(u, u2) && NewlinesInserted(v, v2)
  {
    var s := u + p + v;
    var j, m := |u|, |p|;
    var b := Breaks(r, s);
    SubKeepsBlock(r, s, j, m);
    WeaveInsertsNewlines(s, j + m, b);
    assert s[..j] == u && s[j..j + m] == p && s[j + m..] == v;
    var u2, v2 := WeaveBefore(s, j, b), Weave(s, j + m, b);
    assert Sub(r, s) == u2 + p + v2 && NewlinesInserted(u, u2) && NewlinesInserted(v, v2);
  }

  /**
   The first three passes keep a terminal, its closing quote and the character after
   it together: none of them breaks after a closing quote.
   */
  lemma TripleStep(r: Rule, u: seq<char>, p: seq<char>, v: seq<char>)
    requires r == SingleMark || r == SixDots || r == TwoEllipses
    requires |p| == 3 && p[0] in Terminals && p[1] in ClosingQuotes
    ensures exists u2, v2 :: Sub(r, u + p + v) == u2 + p + v2
                          && NewlinesInserted(u, u2) && NewlinesInserted(v, v2)
  {
    TripleBreaks(r, u, p, v);
    KeepBlock(r, u, p, v);
  }

  /** The first three passes break neither after a terminal followed by a closing quote nor after the quote. */
  lemma TripleBreaks(r: Rule, u: seq<char>, p: seq<char>, v: seq<char>)
    requires r == SingleMark || r == SixDots || r == TwoEllipses
    requires |p| == 3 && p[0] in Terminals && p[1] in ClosingQuotes
    ensures |u| + 1 !in Breaks(r, u + p + v)
    ensures |u| + 2 !in Breaks(r, u + p + v)
  {
    var s := u + p + v;
    var j := |u|;
    assert s[j] == p[0] && s[j + 1] == p[1];
    var k: nat := j + 1;
    if k in Breaks(r, s) {
      BreakFollowsMark(r, s, k);
    }
    k := j + 2;
    if k in Breaks(r, s) {
      BreakFollowsMark(r, s, k);
    }
  }

  /** Where the last pass breaks around a quoted terminal followed by a non-clause mark. */
  lemma LastStepBreaks(u: seq<char>, p: seq<char>, v: seq<char>)
    requires |p| == 3 && p[0] in Terminals && p[1] in ClosingQuotes && p[2] !in ClauseMarks
    ensures |u| + 1 !in Breaks(QuotedMark, u + p + v)
    ensures |u| + 2 in Breaks(QuotedMark, u + p + v)
  {
    var s := u + p + v;
    var j := |u|;
    assert s[j] == p[0] && s[j + 1] == p[1] && s[j + 2] == p[2];
    QuoteGetsBreak(s, j);
    if j + 1 in Breaks(QuotedMark, s) {
      BreakFollowsMark(QuotedMark, s, j + 1);
    }
  }

  /** The last pass puts exactly one newline between a quoted terminal and the character after it. */
  lemma LastStep(u: seq<char>, p: seq<char>, v: seq<char>)
    requires |p| == 3 && p[0] in Terminals && p[1] in ClosingQuotes && p[2] !in ClauseMarks
    ensures exists u2, v2 :: Sub(QuotedMark, u + p + v) == u2 + p[..2] + ['\n'] + [p[2]] + v2
                          && NewlinesInserted(u, u2) && NewlinesInserted(v, v2)
  {
    var s := u + p + v;
    LastStepBreaks(u, p, v);
    BlockThenBreakAt(QuotedMark, s, |u|, 2);
    LastPieces(s, u, p, v, Breaks(QuotedMark, s), Sub(QuotedMark, s));
  }

  /** Reading the conclusion of `BlockThenBreakAt` for a three-character stretch broken before its last character. */
  lemma LastPieces(s: seq<char>, u: seq<char>, p: seq<char>, v: seq<char>, b: set<nat>, t: seq<char>)
    requires s == u + p + v && |p| == 3
    requires t == WeaveBefore(s, |u|, b) + s[|u|..|u| + 2] + ['\n', s[|u| + 2]] + Weave(s, |u| + 3, b)
    requires NewlinesInserted(s[..|u|], WeaveBefore(s, |u|, b))
    requires NewlinesInserted(s[|u| + 3..], Weave(s, |u| + 3, b))
    ensures exists u2, v2 :: t == u2 + p[..2] + ['\n'] + [p[2]] + v2
                          && NewlinesInserted(u, u2) && NewlinesInserted(v, v2)
  {
    var j := |u|;
    assert s[..j] == u && s[j..j + 2] == p[..2] && s[j + 2] == p[2] && s[j + 3..] == v;
    var u2, v2 := WeaveBefore(s, j, b), Weave(s, j + 3, b);
    assert t == u2 + p[..2] + ['\n'] + [p[2]] + v2;
  }

  /**
   A stretch `s[j..j + m]` the pass puts no newline inside, with a newline right after
   it: the rewrite holds the stretch, that one newline and the next character, and
   the text on either side only gets newlines inserted.
   */
  lemma BlockThenBreakAt(r: Rule, s: seq<char>, j: nat, m: nat)
    requires r.Valid() && 0 < m && j + m < |s|
    requires forall k :: j < k < j + m ==> k !in Breaks(r, s)
    requires j + m in Breaks(r, s)
    ensures Sub(r, s) == WeaveBefore(s, j, Breaks(r, s)) + s[j..j + m] + ['\n', s[j + m]] + Weave(s, j + m + 1, Breaks(r, s))
    ensures NewlinesInserted(s[..j], WeaveBefore(s, j, Breaks(r, s)))
    ensures NewlinesInserted(s[j + m + 1..], Weave(s, j + m + 1, Breaks(r, s)))
  {
    var b := Breaks(r, s);
    SubKeepsBlock(r, s, j, m);
    BreakAfterBlock(s, j, m, b, Sub(r, s));
    WeaveInsertsNewlines(s, j + m + 1, b);
  }

  /**
   `BlockThenBreakAt` for a text cut into four: a stretch `q` the pass puts no
   newline inside, with a break before the next character `c`.
   */
  lemma BreakStep(r: Rule, u: seq<char>, q: seq<char>, c: char, v: seq<char>)
    requires r.Valid() && 0 < |q|
    requires forall k :: |u| < k < |u| + |q| ==> k !in Breaks(r, u + (q + [c]) + v)
    requires |u| + |q| in Breaks(r, u + (q + [c]) + v)
    ensures exists u2, v2 :: Sub(r, u + (q + [c]) + v) == u2 + (q + ['\n', c]) + v2
                          && NewlinesInserted(u, u2) && NewlinesInserted(v, v2)
  {
    var s := u + (q + [c]) + v;
    BlockThenBreakAt(r, s, |u|, |q|);
    BreakPieces(s, u, q, c, v, Breaks(r, s), Sub(r, s));
  }

  /** Reading the conclusion of `BlockThenBreakAt` in terms of the four pieces of the text. */
  lemma BreakPieces(s: seq<char>, u: seq<char>, q: seq<char>, c: char, v: seq<char>, b: set<nat>, t: seq<char>)
    requires s == u + (q + [c]) + v && 0 < |q|
    requires t == WeaveBefore(s, |u|, b) + s[|u|..|u| + |q|] + ['\n', s[|u| + |q|]] + Weave(s, |u| + |q| + 1, b)
    requires NewlinesInserted(s[..|u|], WeaveBefore(s, |u|, b))
    requires NewlinesInserted(s[|u| + |q| + 1..], Weave(s, |u| + |q| + 1, b))
    ensures exists u2, v2 :: t == u2 + (q + ['\n', c]) + v2
                          && NewlinesInserted(u, u2) && NewlinesInserted(v, v2)
  {
    var j, m := |u|, |q|;
    FourPieces(s, u, q, c, v);
    var u2, v2 := WeaveBefore(s, j, b), Weave(s, j + m + 1, b);
    assert t == u2 + q + ['\n', c] + v2;
    assert t == u2 + (q + ['\n', c]) + v2;
  }

  /** The four pieces of `u + (q + [c]) + v`, read back by index. */
  lemma FourPieces(s: seq<char>, u: seq<char>, q: seq<char>, c: char, v: seq<char>)
    requires s == u + (q + [c]) + v
    ensures s[..|u|] == u && s[|u|..|u| + |q|] == q && s[|u| + |q|] == c && s[|u| + |q| + 1..] == v
  {
  }

  /** `BlockThenBreakAt` for any break set: the weave from a break starts with the newline and the character. */
  lemma BreakAfterBlock(s: seq<char>, j: nat, m: nat, b: set<nat>, t: seq<char>)
    requires j + m < |s| && j + m in b
    requires t == WeaveBefore(s, j, b) + s[j..j + m] + Weave(s, j + m, b)
    ensures t == WeaveBefore(s, j, b) + s[j..j + m] + ['\n', s[j + m]] + Weave(s, j + m + 1, b)
  {
    WeaveAtBreak(s, j + m, b);
    var front := WeaveBefore(s, j, b) + s[j..j + m];
    var w := Weave(s, j + m + 1, b);
    assert t == front + (['\n', s[j + m]] + w);
  }

  /**
   No pass of `cut_sent` separates a terminal from the closing quote right after
   it: for a paragraph `u0 + p + v0` where `p` is such a pair, the rewritten
   paragraph holds `p` whole, and the text on either side is `u0` and `v0` with
   newlines inserted.
   */
  lemma QuotedEndInRewrite(u0: seq<char>, p: seq<char>, v0: seq<char>)
    requires |p| == 2 && p[0] in Terminals && p[1] in ClosingQuotes
    ensures exists u, v :: Rewrite(u0 + p + v0) == u + p + v
                        && NewlinesInserted(u0, u) && NewlinesInserted(v0, v)
  {
    PairStep(SingleMark, u0, p, v0);
    var u1, v1 :| Sub(SingleMark, u0 + p + v0) == u1 + p + v1
               && NewlinesInserted(u0, u1) && NewlinesInserted(v0, v1);
    PairStep(SixDots, u1, p, v1);
    var u2, v2 :| Sub(SixDots, u1 + p + v1) == u2 + p + v2
               && NewlinesInserted(u1, u2) && NewlinesInserted(v1, v2);
    PairStep(TwoEllipses, u2, p, v2);
    var u3, v3 :| Sub(TwoEllipses, u2 + p + v2) == u3 + p + v3
               && NewlinesInserted(u2, u3) && NewlinesInserted(v2, v3);
    PairStep(QuotedMark, u3, p, v3);
    var u4, v4 :| Sub(QuotedMark, u3 + p + v3) == u4 + p + v4
               && NewlinesInserted(u3, u4) && NewlinesInserted(v3, v4);
    NewlinesInsertedTrans4(u0, u1, u2, u3, u4);
    NewlinesInsertedTrans4(v0, v1, v2, v3, v4);
  }

  /**
   A terminal, a closing quote and a character outside `，。！？?` end a sentence
   after the quote: for a paragraph `u0 + p + v0` with `p` such a triple, the
   rewritten paragraph holds the terminal and the quote, then exactly one newline
   and `p[2]`, and the text on either side is `u0` and `v0` with newlines inserted.
   */
  lemma QuotedBreakInRewrite(u0: seq<char>, p: seq<char>, v0: seq<char>)
    requires |p| == 3 && p[0] in Terminals && p[1] in ClosingQuotes && p[2] !in ClauseMarks
    ensures exists u, v :: Rewrite(u0 + p + v0) == u + p[..2] + ['\n'] + [p[2]] + v
                        && NewlinesInserted(u0, u) && NewlinesInserted(v0, v)
  {
    TripleStep(SingleMark, u0, p, v0);
    var u1, v1 :| Sub(SingleMark, u0 + p + v0) == u1 + p + v1
               && NewlinesInserted(u0, u1) && NewlinesInserted(v0, v1);
    TripleStep(SixDots, u1, p, v1);
    var u2, v2 :| Sub(SixDots, u1 + p + v1) == u2 + p + v2
               && NewlinesInserted(u1, u2) && NewlinesInserted(v1, v2);
    TripleStep(TwoEllipses, u2, p, v2);
    var u3, v3 :| Sub(TwoEllipses, u2 + p + v2) == u3 + p + v3
               && NewlinesInserted(u2, u3) && NewlinesInserted(v2, v3);
    LastStep(u3, p, v3);
    var u4, v4 :| Sub(QuotedMark, u3 + p + v3) == u4 + p[..2] + ['\n'] + [p[2]] + v4
               && NewlinesInserted(u3, u4) && NewlinesInserted(v3, v4);
    NewlinesInsertedTrans4(u0, u1, u2, u3, u4);
    NewlinesInsertedTrans4(v0, v1, v2, v3, v4);
  }

  /**
   One pass keeps whole a stretch in which no character but the last is one the
   pass breaks after; the text on either side only gets newlines inserted.
   */
  lemma KeepPlain(r: Rule, u: seq<char>, p: seq<char>, v: seq<char>)
    requires IsPass(r) && 0 < |p|
    requires forall i :: 0 <= i < |p| - 1 ==> !BreaksAfter(r, p[i])
    ensures exists u2, v2 :: Sub(r, u + p + v) == u2 + p + v2
                          && NewlinesInserted(u, u2) && NewlinesInserted(v, v2)
  {
    var s := u + p + v;
    assert forall k :: |u| <= k < |u| + |p| ==> s[k] == p[k - |u|];
    forall k | |u| < k < |u| + |p|
      ensures k !in Breaks(r, s)
    {
      if k in Breaks(r, s) {
        BreakFollowsMark(r, s, k);
      }
    }
    KeepBlock(r, u, p, v);
  }

  /**
   The first pass puts exactly one newline between a terminal and the non-quote after
   it, unless the scan already consumed the terminal in the match at the index before.
   */
  lemma MarkStep(u: seq<char>, m: char, c: char, v: seq<char>)
    requires m in Terminals && c !in ClosingQuotes
    requires |u| == 0 || |u| - 1 !in Starts(SingleMark, u + [m, c] + v)
    ensures exists u2, v2 :: Sub(SingleMark, u + [m, c] + v) == u2 + [m, '\n', c] + v2
                          && NewlinesInserted(u, u2) && NewlinesInserted(v, v2)
  {
    var s := u + [m, c] + v;
    assert [m] + [c] == [m, c] && [m] + ['\n', c] == [m, '\n', c];
    assert s[|u|] == m && s[|u| + 1] == c;
    MarkGetsBreak(s, |u|);
    BreakStep(SingleMark, u, [m], c, v);
  }

  /**
   A terminal followed by anything but a closing quote ends a sentence: unless the
   first pass consumed the terminal in the match just before it, the rewritten
   paragraph holds the terminal, exactly one newline and the next character, and
   the text on either side only gets newlines inserted.
   */
  lemma MarkBreakInRewrite(u0: seq<char>, m: char, c: char, v0: seq<char>)
    requires m in Terminals && c !in ClosingQuotes
    requires |u0| == 0 || |u0| - 1 !in Starts(SingleMark, u0 + [m, c] + v0)
    ensures exists u, v :: Rewrite(u0 + [m, c] + v0) == u + [m, '\n', c] + v
                        && NewlinesInserted(u0, u) && NewlinesInserted(v0, v)
  {
    var p := [m, '\n', c];
    MarkStep(u0, m, c, v0);
    var u1, v1 :| Sub(SingleMark, u0 + [m, c] + v0) == u1 + p + v1
               && NewlinesInserted(u0, u1) && NewlinesInserted(v0, v1);
    LaterPassesKeep(u1, p, v1);
    var u4, v4 :| LaterPasses(u1 + p + v1) == u4 + p + v4
               && NewlinesInserted(u1, u4) && NewlinesInserted(v1, v4);
    NewlinesInsertedTrans(u0, u1, u4);
    NewlinesInsertedTrans(v0, v1, v4);
  }

  /**
   The first pass does not break after a character it consumed as the second of the
   match just before it, as the `！` in `。！`.
   */
  lemma ConsumedMarkBreaks(u: seq<char>, m: char, c: char, v: seq<char>)
    requires |u| > 0 && |u| - 1 in Starts(SingleMark, u + [m, c] + v)
    ensures |u| + 1 !in Breaks(SingleMark, u + [m, c] + v)
  {
    var s := u + [m, c] + v;
    var j := |u|;
    var k: nat := j + 1;
    if k in Breaks(SingleMark, s) {
      assert k in Shift(Starts(SingleMark, s), SingleMark.cut);
      var x :| x in Starts(SingleMark, s) && k == x + SingleMark.cut;
      NoStartInside(SingleMark, s, j - 1, x);
    }
  }

  /**
   A terminal the first pass consumed as the second character of the match just
   before it does not end a sentence: after all four passes it is still followed
   directly by the next character. With `MarkBreakInRewrite` this decides, for every
   terminal followed by a non-quote, whether a newline comes after it.
   */
  lemma ConsumedMarkInRewrite(u0: seq<char>, m: char, c: char, v0: seq<char>)
    requires m in Terminals
    requires |u0| > 0 && |u0| - 1 in Starts(SingleMark, u0 + [m, c] + v0)
    ensures exists u, v :: Rewrite(u0 + [m, c] + v0) == u + [m, c] + v
                        && NewlinesInserted(u0, u) && NewlinesInserted(v0, v)
  {
    var p := [m, c];
    ConsumedMarkBreaks(u0, m, c, v0);
    KeepBlock(SingleMark, u0, p, v0);
    var u1, v1 :| Sub(SingleMark, u0 + p + v0) == u1 + p + v1
               && NewlinesInserted(u0, u1) && NewlinesInserted(v0, v1);
    LaterPassesKeep(u1, p, v1);
    var u4, v4 :| LaterPasses(u1 + p + v1) == u4 + p + v4
               && NewlinesInserted(u1, u4) && NewlinesInserted(v1, v4);
    NewlinesInsertedTrans(u0, u1, u4);
    NewlinesInsertedTrans(v0, v1, v4);
  }

  /** The last pass does not break after a closing quote that no terminal precedes. */
  lemma BareQuoteBreaks(u: seq<char>, q: char, y: char, v: seq<char>)
    requires q in ClosingQuotes && (|u| == 0 || u[|u| - 1] !in Terminals)
    ensures |u| + 1 !in Breaks(QuotedMark, u + [q, y] + v)
  {
    var s := u + [q, y] + v;
    var j := |u|;
    assert j > 0 ==> s[j - 1] == u[j - 1];
    var k: nat := j + 1;
    if k in Breaks(QuotedMark, s) {
      QuotedMarkBreak(s, k);
    }
  }

  /** The last pass leaves a closing quote that no terminal precedes and the next character whole. */
  lemma BareQuoteStep(u: seq<char>, q: char, y: char, v: seq<char>)
    requires q in ClosingQuotes && (|u| == 0 || u[|u| - 1] !in Terminals)
    ensures exists u2, v2 :: Sub(QuotedMark, u + [q, y] + v) == u2 + [q, y] + v2
                          && NewlinesInserted(u, u2) && NewlinesInserted(v, v2)
  {
    BareQuoteBreaks(u, q, y, v);
    KeepBlock(QuotedMark, u, [q, y], v);
  }

  /** Inserting newlines into a text that does not end in a terminal does not make it end in one. */
  lemma NoTerminalEnd(s: seq<char>, t: seq<char>)
    requires NewlinesInserted(s, t) && (|s| == 0 || s[|s| - 1] !in Terminals)
    ensures |t| == 0 || t[|t| - 1] !in Terminals
  {
    if |t| > 0 && t[|t| - 1] in Terminals {
      NewlinesInsertedEnd(s, t, t[|t| - 1]);
    }
  }

  /**
   A closing quote ends a sentence only after a terminal: one that no terminal
   precedes is still followed directly by the next character after all four passes.
   */
  lemma BareQuoteInRewrite(u0: seq<char>, q: char, y: char, v0: seq<char>)
    requires q in ClosingQuotes && (|u0| == 0 || u0[|u0| - 1] !in Terminals)
    ensures exists u, v :: Rewrite(u0 + [q, y] + v0) == u + [q, y] + v
                        && NewlinesInserted(u0, u) && NewlinesInserted(v0, v)
  {
    var p := [q, y];
    FirstPassesKeep(u0, p, v0);
    var u2, v2 :| Sub(SixDots, Sub(SingleMark, u0 + p + v0)) == u2 + p + v2
               && NewlinesInserted(u0, u2) && NewlinesInserted(v0, v2);
    KeepPlain(TwoEllipses, u2, p, v2);
    var u3, v3 :| Sub(TwoEllipses, u2 + p + v2) == u3 + p + v3
               && NewlinesInserted(u2, u3) && NewlinesInserted(v2, v3);
    NewlinesInsertedTrans(u0, u2, u3);
    NoTerminalEnd(u0, u3);
    BareQuoteStep(u3, q, y, v3);
    var u4, v4 :| Sub(QuotedMark, u3 + p + v3) == u4 + p + v4
               && NewlinesInserted(u3, u4) && NewlinesInserted(v3, v4);
    NewlinesInsertedTrans(u0, u3, u4);
    NewlinesInsertedTrans(v0, v2, v3);
    NewlinesInsertedTrans(v0, v3, v4);
  }

  /** The last pass does not break inside a terminal, a closing quote and one of `，。！？?`. */
  lemma ClauseBreaks(u: seq<char>, p: seq<char>, v: seq<char>)
    requires |p| == 3 && p[0] in Terminals && p[1] in ClosingQuotes && p[2] in ClauseMarks
    ensures |u| + 1 !in Breaks(QuotedMark, u + p + v)
    ensures |u| + 2 !in Breaks(QuotedMark, u + p + v)
  {
    var s := u + p + v;
    var j := |u|;
    assert s[j] == p[0] && s[j + 1] == p[1] && s[j + 2] == p[2];
    var k: nat := j + 1;
    if k in Breaks(QuotedMark, s) {
      BreakFollowsMark(QuotedMark, s, k);
    }
    k := j + 2;
    if k in Breaks(QuotedMark, s) {
      QuotedMarkBreak(s, k);
    }
  }

  /** The last pass leaves a terminal, a closing quote and one of `，。！？?` whole. */
  lemma ClauseStep(u: seq<char>, p: seq<char>, v: seq<char>)
    requires |p| == 3 && p[0] in Terminals && p[1] in ClosingQuotes && p[2] in ClauseMarks
    ensures exists u2, v2 :: Sub(QuotedMark, u + p + v) == u2 + p + v2
                          && NewlinesInserted(u, u2) && NewlinesInserted(v, v2)
  {
    ClauseBreaks(u, p, v);
    KeepBlock(QuotedMark, u, p, v);
  }

  /**
   A quoted terminal followed by one of `，。！？?` does not end a sentence: after all
   four passes the terminal, the quote and that mark are still adjacent.
   */
  lemma ClauseTripleInRewrite(u0: seq<char>, p: seq<char>, v0: seq<char>)
    requires |p| == 3 && p[0] in Terminals && p[1] in ClosingQuotes && p[2] in ClauseMarks
    ensures exists u, v :: Rewrite(u0 + p + v0) == u + p + v
                        && NewlinesInserted(u0, u) && NewlinesInserted(v0, v)
  {
    TripleStep(SingleMark, u0, p, v0);
    var u1, v1 :| Sub(SingleMark, u0 + p + v0) == u1 + p + v1
               && NewlinesInserted(u0, u1) && NewlinesInserted(v0, v1);
    TripleStep(SixDots, u1, p, v1);
    var u2, v2 :| Sub(SixDots, u1 + p + v1) == u2 + p + v2
               && NewlinesInserted(u1, u2) && NewlinesInserted(v1, v2);
    TripleStep(TwoEllipses, u2, p, v2);
    var u3, v3 :| Sub(TwoEllipses, u2 + p + v2) == u3 + p + v3
               && NewlinesInserted(u2, u3) && NewlinesInserted(v2, v3);
    ClauseStep(u3, p, v3);
    var u4, v4 :| Sub(QuotedMark, u3 + p + v3) == u4 + p + v4
               && NewlinesInserted(u3, u4) && NewlinesInserted(v3, v4);
    NewlinesInsertedTrans4(u0, u1, u2, u3, u4);
    NewlinesInsertedTrans4(v0, v1, v2, v3, v4);
  }

  /** Where the second pass breaks around six dots after a text not ending in a dot. */
  lemma SixDotsBreaks(u: seq<char>, c: char, v: seq<char>)
    requires !EndsIn(u, '.') && c !in ClosingQuotes
    ensures |u| + 6 in Breaks(SixDots, u + (SixDotRun + [c]) + v)
    ensures forall k :: |u| < k < |u| + 6 ==> k !in Breaks(SixDots, u + (SixDotRun + [c]) + v)
  {
    var s := u + (SixDotRun + [c]) + v;
    var j := |u|;
    var b := Breaks(SixDots, s);
    assert j > 0 ==> s[j - 1] != '.';
    assert Run(s, '.', j, 6) && s[j + 6] == c;
    SixDotsMatch(s, j);
    var starts := Starts(SixDots, s);
    forall k | 0 <= k < |starts|
      ensures !(starts[k] < j < starts[k] + |SixDots.classes|)
    {
      assert starts[k] in starts;
      StartsMatch(SixDots, s, 0, starts[k]);
      SixDotsMatch(s, starts[k]);
    }
    MatchGetsBreak(SixDots, s, j);
    forall k: nat | j < k < j + 6
      ensures k !in b
    {
      if k in b {
        BreakFollowsMark(SixDots, s, k);
      }
    }
  }

  /**
   The second pass puts exactly one newline after six dots followed by a non-quote,
   when the text before them does not end in a dot.
   */
  lemma SixDotsStep(u: seq<char>, c: char, v: seq<char>)
    requires !EndsIn(u, '.') && c !in ClosingQuotes
    ensures exists u2, v2 :: Sub(SixDots, u + (SixDotRun + [c]) + v) == u2 + (SixDotRun + ['\n', c]) + v2
                          && NewlinesInserted(u, u2) && NewlinesInserted(v, v2)
  {
    SixDotsBreaks(u, c, v);
    BreakStep(SixDots, u, SixDotRun, c, v);
  }

  /**
   Six dots followed by anything but a closing quote end a sentence when no dot comes
   right before them: after all four passes they are followed by exactly one newline
   and then that character.
   */
  lemma SixDotsBreakInRewrite(u0: seq<char>, c: char, v0: seq<char>)
    requires !EndsIn(u0, '.') && c !in ClosingQuotes
    ensures exists u, v :: Rewrite(u0 + (SixDotRun + [c]) + v0) == u + (SixDotRun + ['\n', c]) + v
                        && NewlinesInserted(u0, u) && NewlinesInserted(v0, v)
  {
    var p0 := SixDotRun + [c];
    var p := SixDotRun + ['\n', c];
    FirstPassKeep(u0, p0, v0);
    var u1, v1 :| Sub(SingleMark, u0 + p0 + v0) == u1 + p0 + v1
               && NewlinesInserted(u0, u1) && NewlinesInserted(v0, v1);
    NewlinesInsertedEnd(u0, u1, '.');
    SixDotsStep(u1, c, v1);
    var u2, v2 :| Sub(SixDots, u1 + p0 + v1) == u2 + p + v2
               && NewlinesInserted(u1, u2) && NewlinesInserted(v1, v2);
    LastPassesKeep(u2, p, v2);
    var u4, v4 :| Sub(QuotedMark, Sub(TwoEllipses, u2 + p + v2)) == u4 + p + v4
               && NewlinesInserted(u2, u4) && NewlinesInserted(v2, v4);
    NewlinesInsertedTrans(u0, u1, u2);
    NewlinesInsertedTrans(u0, u2, u4);
    NewlinesInsertedTrans(v0, v1, v2);
    NewlinesInsertedTrans(v0, v2, v4);
  }

  /** Where the third pass breaks around two ellipses after a text not ending in one. */
  lemma TwoEllipsesBreaks(u: seq<char>, c: char, v: seq<char>)
    requires !EndsIn(u, Ellipsis) && c !in ClosingQuotes
    ensures |u| + 2 in Breaks(TwoEllipses, u + (TwoEllipsisRun + [c]) + v)
    ensures |u| + 1 !in Breaks(TwoEllipses, u + (TwoEllipsisRun + [c]) + v)
  {
    var s := u + (TwoEllipsisRun + [c]) + v;
    var j := |u|;
    var b := Breaks(TwoEllipses, s);
    assert j > 0 ==> s[j - 1] != Ellipsis;
    assert Run(s, Ellipsis, j, 2) && s[j + 2] == c;
    TwoEllipsesMatch(s, j);
    var starts := Starts(TwoEllipses, s);
    forall k | 0 <= k < |starts|
      ensures !(starts[k] < j < starts[k] + |TwoEllipses.classes|)
    {
      assert starts[k] in starts;
      StartsMatch(TwoEllipses, s, 0, starts[k]);
      TwoEllipsesMatch(s, starts[k]);
    }
    MatchGetsBreak(TwoEllipses, s, j);
    var k: nat := j + 1;
    if k in b {
      BreakFollowsMark(TwoEllipses, s, k);
    }
  }

  /**
   The third pass puts exactly one newline after two ellipses followed by a
   non-quote, when the text before them does not end in an ellipsis.
   */
  lemma TwoEllipsesStep(u: seq<char>, c: char, v: seq<char>)
    requires !EndsIn(u, Ellipsis) && c !in ClosingQuotes
    ensures exists u2, v2 :: Sub(TwoEllipses, u + (TwoEllipsisRun + [c]) + v) == u2 + (TwoEllipsisRun + ['\n', c]) + v2
                          && NewlinesInserted(u, u2) && NewlinesInserted(v, v2)
  {
    TwoEllipsesBreaks(u, c, v);
    BreakStep(TwoEllipses, u, TwoEllipsisRun, c, v);
  }

  /**
   Two ellipses followed by anything but a closing quote end a sentence when no
   ellipsis comes right before them: after all four passes they are followed by
   exactly one newline and then that character.
   */
  lemma TwoEllipsesBreakInRewrite(u0: seq<char>, c: char, v0: seq<char>)
    requires !EndsIn(u0, Ellipsis) && c !in ClosingQuotes
    ensures exists u, v :: Rewrite(u0 + (TwoEllipsisRun + [c]) + v0) == u + (TwoEllipsisRun + ['\n', c]) + v
                        && NewlinesInserted(u0, u) && NewlinesInserted(v0, v)
  {
    var p0 := TwoEllipsisRun + [c];
    var p := TwoEllipsisRun + ['\n', c];
    FirstPassesKeep(u0, p0, v0);
    var u2, v2 :| Sub(SixDots, Sub(SingleMark, u0 + p0 + v0)) == u2 + p0 + v2
               && NewlinesInserted(u0, u2) && NewlinesInserted(v0, v2);
    NewlinesInsertedEnd(u0, u2, Ellipsis);
    TwoEllipsesStep(u2, c, v2);
    var u3, v3 :| Sub(TwoEllipses, u2 + p0 + v2) == u3 + p + v3
               && NewlinesInserted(u2, u3) && NewlinesInserted(v2, v3);
    KeepPlain(QuotedMark, u3, p, v3);
    var u4, v4 :| Sub(QuotedMark, u3 + p + v3) == u4 + p + v4
               && NewlinesInserted(u3, u4) && NewlinesInserted(v3, v4);
    NewlinesInsertedTrans(u0, u2, u3);
    NewlinesInsertedTrans(u0, u3, u4);
    NewlinesInsertedTrans(v0, v2, v3);
    NewlinesInsertedTrans(v0, v3, v4);
  }

  /** The second pass does not break after a dot that no other dot precedes. */
  lemma LoneDotStep(u: seq<char>, y: char, v: seq<char>)
    requires !EndsIn(u, '.')
    ensures exists u2, v2 :: Sub(SixDots, u + ['.', y] + v) == u2 + ['.', y] + v2
                          && NewlinesInserted(u, u2) && NewlinesInserted(v, v2)
  {
    var s := u + ['.', y] + v;
    var j := |u|;
    assert j > 0 ==> s[j - 1] != '.';
    assert s[j] == '.';
    var k: nat := j + 1;
    if k in Breaks(SixDots, s) {
      BreakFollowsMark(SixDots, s, k);
    }
    KeepBlock(SixDots, u, ['.', y], v);
  }

  /**
   A lone ASCII `.`, one not preceded by another dot, never ends a sentence: after
   all four passes it is still followed directly by the next character.
   */
  lemma LoneDotInRewrite(u0: seq<char>, y: char, v0: seq<char>)
    requires !EndsIn(u0, '.')
    ensures exists u, v :: Rewrite(u0 + ['.', y] + v0) == u + ['.', y] + v
                        && NewlinesInserted(u0, u) && NewlinesInserted(v0, v)
  {
    var p := ['.', y];
    FirstPassKeep(u0, p, v0);
    var u1, v1 :| Sub(SingleMark, u0 + p + v0) == u1 + p + v1
               && NewlinesInserted(u0, u1) && NewlinesInserted(v0, v1);
    NewlinesInsertedEnd(u0, u1, '.');
    LoneDotStep(u1, y, v1);
    var u2, v2 :| Sub(SixDots, u1 + p + v1) == u2 + p + v2
               && NewlinesInserted(u1, u2) && NewlinesInserted(v1, v2);
    LastPassesKeep(u2, p, v2);
    var u4, v4 :| Sub(QuotedMark, Sub(TwoEllipses, u2 + p + v2)) == u4 + p + v4
               && NewlinesInserted(u2, u4) && NewlinesInserted(v2, v4);
    NewlinesInsertedTrans(u0, u1, u2);
    NewlinesInsertedTrans(u0, u2, u4);
    NewlinesInsertedTrans(v0, v1, v2);
    NewlinesInsertedTrans(v0, v2, v4);
  }

  /**
   A stretch in which no character but the last is a terminal, a dot, an ellipsis
   or a closing quote stays whole through all four passes.
   */
  lemma PlainInRewrite(u0: seq<char>, p: seq<char>, v0: seq<char>)
    requires 0 < |p|
    requires forall i :: 0 <= i < |p| - 1 ==>
      p[i] !in Terminals && p[i] != '.' && p[i] != Ellipsis && p[i] !in ClosingQuotes
    ensures exists u, v :: Rewrite(u0 + p + v0) == u + p + v
                        && NewlinesInserted(u0, u) && NewlinesInserted(v0, v)
  {
    FirstPassKeep(u0, p, v0);
    var u1, v1 :| Sub(SingleMark, u0 + p + v0) == u1 + p + v1
               && NewlinesInserted(u0, u1) && NewlinesInserted(v0, v1);
    LaterPassesKeep(u1, p, v1);
    var u4, v4 :| LaterPasses(u1 + p + v1) == u4 + p + v4
               && NewlinesInserted(u1, u4) && NewlinesInserted(v1, v4);
    NewlinesInsertedTrans(u0, u1, u4);
    NewlinesInsertedTrans(v0, v1, v4);
  }

  /** An ASCII `!`, unlike the full-width `！`, never ends a sentence. */
  lemma AsciiBangInRewrite(u0: seq<char>, y: char, v0: seq<char>)
    ensures exists u, v :: Rewrite(u0 + ['!', y] + v0) == u + ['!', y] + v
                        && NewlinesInserted(u0, u) && NewlinesInserted(v0, v)
  {
    PlainInRewrite(u0, ['!', y], v0);
  }

  /** Passes two to four, which run on the output of the first. */
  function LaterPasses(t: seq<char>): seq<char>
  {
    Sub(QuotedMark, Sub(TwoEllipses, Sub(SixDots, t)))
  }

  /** The first pass keeps whole a stretch in which no character but the last is a terminal. */
  lemma FirstPassKeep(u: seq<char>, p: seq<char>, v: seq<char>)
    requires 0 < |p|
    requires forall i :: 0 <= i < |p| - 1 ==> p[i] !in Terminals
    ensures exists u2, v2 :: Sub(SingleMark, u + p + v) == u2 + p + v2
                          && NewlinesInserted(u, u2) && NewlinesInserted(v, v2)
  {
    KeepPlain(SingleMark, u, p, v);
  }

  /**
   Passes one and two keep whole a stretch in which no character but the last is a
   terminal or a dot.
   */
  lemma FirstPassesKeep(u: seq<char>, p: seq<char>, v: seq<char>)
    requires 0 < |p|
    requires forall i :: 0 <= i < |p| - 1 ==> p[i] !in Terminals && p[i] != '.'
    ensures exists u2, v2 :: Sub(SixDots, Sub(SingleMark, u + p + v)) == u2 + p + v2
                          && NewlinesInserted(u, u2) && NewlinesInserted(v, v2)
  {
    FirstPassKeep(u, p, v);
    var u1, v1 :| Sub(SingleMark, u + p + v) == u1 + p + v1
               && NewlinesInserted(u, u1) && NewlinesInserted(v, v1);
    KeepPlain(SixDots, u1, p, v1);
    var u2, v2 :| Sub(SixDots, u1 + p + v1) == u2 + p + v2
               && NewlinesInserted(u1, u2) && NewlinesInserted(v1, v2);
    NewlinesInsertedTrans(u, u1, u2);
    NewlinesInsertedTrans(v, v1, v2);
  }

  /**
   Passes three and four keep whole a stretch in which no character but the last is
   an ellipsis or a closing quote.
   */
  lemma LastPassesKeep(u: seq<char>, p: seq<char>, v: seq<char>)
    requires 0 < |p|
    requires forall i :: 0 <= i < |p| - 1 ==> p[i] != Ellipsis && p[i] !in ClosingQuotes
    ensures exists u2, v2 :: Sub(QuotedMark, Sub(TwoEllipses, u + p + v)) == u2 + p + v2
                          && NewlinesInserted(u, u2) && NewlinesInserted(v, v2)
  {
    KeepPlain(TwoEllipses, u, p, v);
    var u1, v1 :| Sub(TwoEllipses, u + p + v) == u1 + p + v1
               && NewlinesInserted(u, u1) && NewlinesInserted(v, v1);
    KeepPlain(QuotedMark, u1, p, v1);
    var u2, v2 :| Sub(QuotedMark, u1 + p + v1) == u2 + p + v2
               && NewlinesInserted(u1, u2) && NewlinesInserted(v1, v2);
    NewlinesInsertedTrans(u, u1, u2);
    NewlinesInsertedTrans(v, v1, v2);
  }

  /**
   Passes two to four keep whole a stretch in which no character but the last is a
   dot, an ellipsis or a closing quote.
   */
  lemma LaterPassesKeep(u: seq<char>, p: seq<char>, v: seq<char>)
    requires 0 < |p|
    requires forall i :: 0 <= i < |p| - 1 ==> p[i] != '.' && p[i] != Ellipsis && p[i] !in ClosingQuotes
    ensures exists u2, v2 :: LaterPasses(u + p + v) == u2 + p + v2
                          && NewlinesInserted(u, u2) && NewlinesInserted(v, v2)
  {
    KeepPlain(SixDots, u, p, v);
    var u1, v1 :| Sub(SixDots, u + p + v) == u1 + p + v1
               && NewlinesInserted(u, u1) && NewlinesInserted(v, v1);
    LastPassesKeep(u1, p, v1);
    var u2, v2 :| Sub(QuotedMark, Sub(TwoEllipses, u1 + p + v1)) == u2 + p + v2
               && NewlinesInserted(u1, u2) && NewlinesInserted(v1, v2);
    NewlinesInsertedTrans(u, u1, u2);
    NewlinesInsertedTrans(v, v1, v2);
  }

  lemma NewlinesInsertedTrans4(a: seq<char>, b: seq<char>, c: seq<char>, d: seq<char>, e: seq<char>)
    requires NewlinesInserted(a, b) && NewlinesInserted(b, c)
    requires NewlinesInserted(c, d) && NewlinesInserted(d, e)
    ensures NewlinesInserted(a, e)
  {
    NewlinesInsertedTrans(a, b, c);
    NewlinesInsertedTrans(a, c, d);
    NewlinesInsertedTrans(a, d, e);
  }
}
