/**
 The part of Python's `re.sub` that the sentence counter relies on. Every pattern
 in `cut_sent` has the form `(A)(B)` with a replacement `\1\n\2`, where `A` and `B`
 are fixed-length runs of character classes. A `Rule` records the classes of `AB`
 and the length `cut` of `A`: a match is rewritten by putting one newline between
 its `cut`-th and `cut+1`-th character. Matches are found left to right and do not
 overlap; after a match the scan resumes at the first character after it.
 */
module RegexSub {
  import opened Strings

  /** A character class `[...]` or a negated class `[^...]`. */
  datatype CharClass = OneOf(chars: set<char>) | NoneOf(chars: set<char>)
  {
    predicate Accepts(c: char)
    {
      match this
      case OneOf(cs) => c in cs
      case NoneOf(cs) => c !in cs
    }
  }

  datatype Rule = Rule(classes: seq<CharClass>, cut: nat)
  {
    /** Both groups are non-empty. */
    predicate Valid()
    {
      0 < cut < |classes|
    }
  }

  /** The pattern of `r` matches the text `s` starting at index `i`. */
  predicate MatchAt(r: Rule, s: seq<char>, i: nat)
  {
    && i + |r.classes| <= |s|
    && forall j :: 0 <= j < |r.classes| ==> r.classes[j].Accepts(s[i + j])
  }

  /** `re.sub` of rule `r` on the part of `s` from index `i` on. */
  function SubFrom(r: Rule, s: seq<char>, i: nat): seq<char>
    requires r.Valid() && i <= |s|
    decreases |s| - i
  {
    if i == |s| then []
    else if MatchAt(r, s, i) then
      s[i..i + r.cut] + ['\n'] + s[i + r.cut..i + |r.classes|] + SubFrom(r, s, i + |r.classes|)
    else
      [s[i]] + SubFrom(r, s, i + 1)
  }

  function Sub(r: Rule, s: seq<char>): seq<char>
    requires r.Valid()
  {
    SubFrom(r, s, 0)
  }

  /**
   The indices where the scan from `i` finds a match: each is a match, they are
   increasing and no two overlap.
   */
  function StartsFrom(r: Rule, s: seq<char>, i: nat): (starts: seq<nat>)
    requires r.Valid() && i <= |s|
    ensures forall k :: 0 <= k < |starts| ==> i <= starts[k] && starts[k] + |r.classes| <= |s|
    ensures forall k :: 0 <= k < |starts| - 1 ==> starts[k] + |r.classes| <= starts[k + 1]
    decreases |s| - i
  {
    if i == |s| then []
    else if MatchAt(r, s, i) then [i] + StartsFrom(r, s, i + |r.classes|)
    else StartsFrom(r, s, i + 1)
  }

  /** Every index the scan reports is a match. */
  lemma {:induction false} StartsMatch(r: Rule, s: seq<char>, i: nat, st: nat)
    requires r.Valid() && i <= |s|
    requires st in StartsFrom(r, s, i)
    ensures MatchAt(r, s, st)
    decreases |s| - i
  {
    if i < |s| {
      if MatchAt(r, s, i) {
        if st != i {
          StartsMatch(r, s, i + |r.classes|, st);
        }
      } else {
        StartsMatch(r, s, i + 1, st);
      }
    }
  }

  function Starts(r: Rule, s: seq<char>): seq<nat>
    requires r.Valid()
  {
    StartsFrom(r, s, 0)
  }

  /** Reported matches do not overlap, whether or not they are next to each other in the scan. */
  lemma {:induction false} StartsApart(r: Rule, s: seq<char>, a: nat, b: nat)
    requires r.Valid() && a < b < |Starts(r, s)|
    ensures Starts(r, s)[a] + |r.classes| <= Starts(r, s)[b]
    decreases b - a
  {
    if a + 1 < b {
      StartsApart(r, s, a + 1, b);
    }
  }

  /** No reported match starts inside another reported match. */
  lemma NoStartInside(r: Rule, s: seq<char>, x: nat, y: nat)
    requires r.Valid() && x in Starts(r, s) && x < y < x + |r.classes|
    ensures y !in Starts(r, s)
  {
    var starts := Starts(r, s);
    if y in starts {
      var a :| 0 <= a < |starts| && starts[a] == x;
      var b :| 0 <= b < |starts| && starts[b] == y;
      if a < b {
        StartsApart(r, s, a, b);
      } else {
        StartsApart(r, s, b, a);
      }
    }
  }

  /** Index `j` lies strictly inside the match that starts at some element of `starts`. */
  predicate Covered(r: Rule, starts: seq<nat>, j: nat)
  {
    exists k :: 0 <= k < |starts| && starts[k] < j < starts[k] + |r.classes|
  }

  /**
   The scan misses no match: every index from `i` on where the pattern matches is
   either a start the scan reports, or inside a match it reported earlier.
   */
  lemma {:induction false} StartsMaximal(r: Rule, s: seq<char>, i: nat, j: nat)
    requires r.Valid() && i <= j
    requires MatchAt(r, s, j)
    ensures j in StartsFrom(r, s, i) || Covered(r, StartsFrom(r, s, i), j)
    decreases |s| - i
  {
    var n := |r.classes|;
    var starts := StartsFrom(r, s, i);
    if i == j {
      assert starts == [i] + StartsFrom(r, s, i + n);
      assert starts[0] == j;
    } else if MatchAt(r, s, i) {
      var rest := StartsFrom(r, s, i + n);
      assert starts == [i] + rest;
      if j < i + n {
        assert Covered(r, starts, j) by {
          assert starts[0] < j < starts[0] + n;
        }
      } else {
        StartsMaximal(r, s, i + n, j);
        if !(j in rest) {
          CoveredCons(r, i, rest, j);
        }
      }
    } else {
      assert i < |s|;
      assert starts == StartsFrom(r, s, i + 1);
      StartsMaximal(r, s, i + 1, j);
    }
  }

  lemma CoveredCons(r: Rule, st: nat, rest: seq<nat>, j: nat)
    requires Covered(r, rest, j)
    ensures Covered(r, [st] + rest, j)
  {
    var k :| 0 <= k < |rest| && rest[k] < j < rest[k] + |r.classes|;
    assert ([st] + rest)[k + 1] == rest[k];
  }

  /** The indices before which the scan from `i` puts a newline. */
  function BreaksFrom(r: Rule, s: seq<char>, i: nat): set<nat>
    requires r.Valid() && i <= |s|
  {
    Shift(StartsFrom(r, s, i), r.cut)
  }

  /** The elements of `xs`, each increased by `d`. */
  function Shift(xs: seq<nat>, d: nat): set<nat>
  {
    set x | x in xs :: x + d
  }

  lemma ShiftCons(x: nat, xs: seq<nat>, d: nat)
    ensures Shift([x] + xs, d) == {x + d} + Shift(xs, d)
  {
    forall y | y in Shift([x] + xs, d)
      ensures y in {x + d} + Shift(xs, d)
    {
      var z :| z in [x] + xs && y == z + d;
      if z != x {
        assert z in xs;
      }
    }
    forall y | y in {x + d} + Shift(xs, d)
      ensures y in Shift([x] + xs, d)
    {
      if y == x + d {
        assert x in [x] + xs;
      } else {
        var z :| z in xs && y == z + d;
        assert z in [x] + xs;
      }
    }
  }

  function Breaks(r: Rule, s: seq<char>): set<nat>
    requires r.Valid()
  {
    BreaksFrom(r, s, 0)
  }

  /**
   Reference definition of the rewrite: the text from index `i` on, with one
   newline put in front of every index in `breaks`.
   */
  function Weave(s: seq<char>, i: nat, breaks: set<nat>): seq<char>
    requires i <= |s|
    decreases |s| - i
  {
    if i == |s| then []
    else (if i in breaks then ['\n'] else []) + [s[i]] + Weave(s, i + 1, breaks)
  }

  /** Only the break indices from `i` on matter to `Weave`. */
  lemma {:induction false} WeaveAgree(s: seq<char>, i: nat, b1: set<nat>, b2: set<nat>)
    requires i <= |s|
    requires forall k :: i <= k < |s| ==> (k in b1 <==> k in b2)
    ensures Weave(s, i, b1) == Weave(s, i, b2)
    decreases |s| - i
  {
    if i < |s| {
      WeaveAgree(s, i + 1, b1, b2);
    }
  }

  /** A stretch without breaks is copied unchanged. */
  lemma {:induction false} WeaveGap(s: seq<char>, i: nat, j: nat, breaks: set<nat>)
    requires i <= j <= |s|
    requires forall k :: i <= k < j ==> k !in breaks
    ensures Weave(s, i, breaks) == s[i..j] + Weave(s, j, breaks)
    decreases j - i
  {
    if i < j {
      assert i !in breaks;
      assert Weave(s, i, breaks) == [s[i]] + Weave(s, i + 1, breaks);
      WeaveGap(s, i + 1, j, breaks);
      assert s[i..j] == [s[i]] + s[i + 1..j];
    }
  }

  /** The rewrite equals the text with a newline woven in front of each break index. */
  lemma {:induction false} SubFromIsWeave(r: Rule, s: seq<char>, i: nat)
    requires r.Valid() && i <= |s|
    ensures SubFrom(r, s, i) == Weave(s, i, BreaksFrom(r, s, i))
    decreases |s| - i
  {
    if i == |s| {
    } else if MatchAt(r, s, i) {
      SubFromIsWeave(r, s, i + |r.classes|);
      WeaveMatchStep(r, s, i);
    } else {
      SubFromIsWeave(r, s, i + 1);
      WeaveSkipStep(r, s, i);
    }
  }

  /** One step of `SubFromIsWeave` at a match. */
  lemma WeaveMatchStep(r: Rule, s: seq<char>, i: nat)
    requires r.Valid() && i <= |s| && MatchAt(r, s, i)
    requires SubFrom(r, s, i + |r.classes|) == Weave(s, i + |r.classes|, BreaksFrom(r, s, i + |r.classes|))
    ensures SubFrom(r, s, i) == Weave(s, i, BreaksFrom(r, s, i))
  {
    var n := |r.classes|;
    BreaksFromMatch(r, s, i);
    BreaksFromBelow(r, s, i + n);
    SubFromMatch(r, s, i);
    WeaveMatchJoin(s, i, r.cut, n, BreaksFrom(r, s, i), BreaksFrom(r, s, i + n),
                   SubFrom(r, s, i), SubFrom(r, s, i + n));
  }

  /** `WeaveMatchStep` with the break sets and rewrites as plain values. */
  lemma WeaveMatchJoin(s: seq<char>, i: nat, c: nat, n: nat, bi: set<nat>, bn: set<nat>,
                       sub: seq<char>, subn: seq<char>)
    requires 0 < c < n && i + n <= |s|
    requires bi == {i + c} + bn
    requires forall k :: k in bn ==> k >= i + n
    requires sub == s[i..i + c] + ['\n'] + s[i + c..i + n] + subn
    requires subn == Weave(s, i + n, bn)
    ensures sub == Weave(s, i, bi)
  {
    WeaveOneBreak(s, i, c, n, bn);
  }

  lemma SubFromMatch(r: Rule, s: seq<char>, i: nat)
    requires r.Valid() && i <= |s| && MatchAt(r, s, i)
    ensures SubFrom(r, s, i)
         == s[i..i + r.cut] + ['\n'] + s[i + r.cut..i + |r.classes|] + SubFrom(r, s, i + |r.classes|)
  {
  }

  /** One step of `SubFromIsWeave` where the pattern does not match. */
  lemma WeaveSkipStep(r: Rule, s: seq<char>, i: nat)
    requires r.Valid() && i < |s| && !MatchAt(r, s, i)
    requires SubFrom(r, s, i + 1) == Weave(s, i + 1, BreaksFrom(r, s, i + 1))
    ensures SubFrom(r, s, i) == Weave(s, i, BreaksFrom(r, s, i))
  {
    var b := BreaksFrom(r, s, i + 1);
    assert StartsFrom(r, s, i) == StartsFrom(r, s, i + 1);
    assert BreaksFrom(r, s, i) == b;
    BreaksFromBelow(r, s, i + 1);
    assert i !in b;
    assert Weave(s, i, b) == [s[i]] + Weave(s, i + 1, b);
  }

  /** A match at `i` contributes the break `i + cut`; the later ones lie past the match. */
  lemma BreaksFromMatch(r: Rule, s: seq<char>, i: nat)
    requires r.Valid() && i <= |s| && MatchAt(r, s, i)
    ensures BreaksFrom(r, s, i) == {i + r.cut} + BreaksFrom(r, s, i + |r.classes|)
  {
    var rest := StartsFrom(r, s, i + |r.classes|);
    assert StartsFrom(r, s, i) == [i] + rest;
    ShiftCons(i, rest, r.cut);
  }

  /** Weaving across a stretch of `n` characters whose only break is at `i + c`. */
  lemma WeaveOneBreak(s: seq<char>, i: nat, c: nat, n: nat, later: set<nat>)
    requires 0 < c < n && i + n <= |s|
    requires forall k :: k in later ==> k >= i + n
    ensures Weave(s, i, {i + c} + later)
         == s[i..i + c] + ['\n'] + s[i + c..i + n] + Weave(s, i + n, later)
  {
    var b := {i + c} + later;
    WeaveGap(s, i, i + c, b);
    WeaveBreakThenGap(s, i + c, i + n, b, later);
  }

  /**
   Weaving from a break at `j` across a stretch without further breaks up to `m`,
   after which `b` agrees with `later`.
   */
  lemma WeaveBreakThenGap(s: seq<char>, j: nat, m: nat, b: set<nat>, later: set<nat>)
    requires j < m <= |s| && j in b
    requires forall k :: j < k < m ==> k !in b
    requires forall k :: m <= k < |s| ==> (k in b <==> k in later)
    ensures Weave(s, j, b) == ['\n'] + s[j..m] + Weave(s, m, later)
  {
    WeaveAtBreak(s, j, b);
    WeaveGap(s, j + 1, m, b);
    WeaveAgree(s, m, b, later);
    ConsRegroup(s[j..m], s[j], s[j + 1..m], Weave(s, m, later));
  }

  /** A newline and `c` before `t + w` is a newline before `[c] + t`, then `w`. */
  lemma ConsRegroup(x: seq<char>, c: char, t: seq<char>, w: seq<char>)
    requires x == [c] + t
    ensures ['\n', c] + (t + w) == ['\n'] + x + w
  {
  }

  lemma WeaveAtBreak(s: seq<char>, j: nat, b: set<nat>)
    requires j < |s| && j in b
    ensures Weave(s, j, b) == ['\n', s[j]] + Weave(s, j + 1, b)
  {
  }

  /** A scan from `i` puts no break before `i + cut`. */
  lemma BreaksFromBelow(r: Rule, s: seq<char>, i: nat)
    requires r.Valid() && i <= |s|
    ensures forall k :: k in BreaksFrom(r, s, i) ==> k >= i + r.cut
  {
    var starts := StartsFrom(r, s, i);
    forall k | k in Shift(starts, r.cut)
      ensures k >= i + r.cut
    {
      var st :| st in starts && k == st + r.cut;
    }
  }

  lemma SubIsWeave(r: Rule, s: seq<char>)
    requires r.Valid()
    ensures Sub(r, s) == Weave(s, 0, Breaks(r, s))
  {
    SubFromIsWeave(r, s, 0);
  }

  /** Weaving only inserts newlines. */
  lemma {:induction false} WeaveInsertsNewlines(s: seq<char>, i: nat, breaks: set<nat>)
    requires i <= |s|
    ensures NewlinesInserted(s[i..], Weave(s, i, breaks))
    decreases |s| - i
  {
    if i < |s| {
      WeaveInsertsNewlines(s, i + 1, breaks);
      var w := Weave(s, i + 1, breaks);
      assert s[i..][1..] == s[i + 1..];
      assert NewlinesInserted(s[i..], [s[i]] + w);
      if i in breaks {
        assert (['\n'] + [s[i]] + w)[1..] == [s[i]] + w;
      }
    }
  }

  /** The rewrite only inserts newlines: deleting them gives back the input. */
  lemma SubInsertsNewlines(r: Rule, s: seq<char>)
    requires r.Valid()
    ensures NewlinesInserted(s, Sub(r, s))
  {
    SubIsWeave(r, s);
    WeaveInsertsNewlines(s, 0, Breaks(r, s));
    assert s[0..] == s;
  }

  /** `Weave` of the stretch `s[i..j]` alone. */
  function WeaveTo(s: seq<char>, i: nat, j: nat, breaks: set<nat>): seq<char>
    requires i <= j <= |s|
    decreases j - i
  {
    if i == j then []
    else (if i in breaks then ['\n'] else []) + [s[i]] + WeaveTo(s, i + 1, j, breaks)
  }

  /** Weaving from `i` is weaving up to `j`, then weaving from `j`. */
  lemma {:induction false} WeaveSplit(s: seq<char>, i: nat, j: nat, breaks: set<nat>)
    requires i <= j <= |s|
    ensures Weave(s, i, breaks) == WeaveTo(s, i, j, breaks) + Weave(s, j, breaks)
    decreases j - i
  {
    if i < j {
      WeaveSplit(s, i + 1, j, breaks);
      var lead: seq<char> := if i in breaks then ['\n'] else [];
      assert Weave(s, i, breaks) == lead + [s[i]] + Weave(s, i + 1, breaks);
      assert WeaveTo(s, i, j, breaks) == lead + [s[i]] + WeaveTo(s, i + 1, j, breaks);
    }
  }

  /** The stretch woven on its own only gets newlines inserted. */
  lemma {:induction false} WeaveToInsertsNewlines(s: seq<char>, i: nat, j: nat, breaks: set<nat>)
    requires i <= j <= |s|
    ensures NewlinesInserted(s[i..j], WeaveTo(s, i, j, breaks))
    decreases j - i
  {
    if i < j {
      WeaveToInsertsNewlines(s, i + 1, j, breaks);
      var w := WeaveTo(s, i + 1, j, breaks);
      assert s[i..j] == [s[i]] + s[i + 1..j];
      NewlinesInsertedStep(s[i], s[i + 1..j], w);
    }
  }

  /** One step of `Weave`: an optional newline, then the character at `j`. */
  lemma WeaveUnfold(s: seq<char>, j: nat, breaks: set<nat>)
    requires j < |s|
    ensures Weave(s, j, breaks) == (if j in breaks then ['\n'] else []) + [s[j]] + Weave(s, j + 1, breaks)
  {
  }

  /** The woven text in front of `s[j]`: the weave of `s[..j]`, and the newline before `j` if it is a break. */
  function WeaveBefore(s: seq<char>, j: nat, breaks: set<nat>): seq<char>
    requires j <= |s|
  {
    WeaveTo(s, 0, j, breaks) + (if j in breaks then ['\n'] else [])
  }

  /**
   A stretch of the text that the rule puts no newline inside keeps its characters
   together: the rewrite is the text before it with newlines inserted, the stretch,
   then the weave of the rest.
   */
  lemma SubKeepsBlock(r: Rule, s: seq<char>, j: nat, m: nat)
    requires r.Valid() && 0 < m && j + m <= |s|
    requires forall k :: j < k < j + m ==> k !in Breaks(r, s)
    ensures Sub(r, s) == WeaveBefore(s, j, Breaks(r, s)) + s[j..j + m] + Weave(s, j + m, Breaks(r, s))
    ensures NewlinesInserted(s[..j], WeaveBefore(s, j, Breaks(r, s)))
  {
    var b := Breaks(r, s);
    var lead: seq<char> := if j in b then ['\n'] else [];
    var w := WeaveTo(s, 0, j, b);
    SubIsWeave(r, s);
    WeaveSplit(s, 0, j, b);
    WeaveUnfold(s, j, b);
    WeaveGap(s, j + 1, j + m, b);
    BlockPieces(s, j, m, w, lead, Weave(s, j + m, b));
    WeaveToInsertsNewlines(s, 0, j, b);
    assert NewlinesInserted([], lead);
    NewlinesInsertedAppend(s[0..j], w, [], lead);
    assert s[0..j] + [] == s[..j];
  }

  /** Regrouping the pieces of `SubKeepsBlock`. */
  lemma BlockPieces(s: seq<char>, j: nat, m: nat, w: seq<char>, lead: seq<char>, rest: seq<char>)
    requires 0 < m && j + m <= |s|
    ensures w + (lead + [s[j]] + (s[j + 1..j + m] + rest)) == (w + lead) + s[j..j + m] + rest
  {
    assert s[j..j + m] == [s[j]] + s[j + 1..j + m];
  }

  /** Each match adds exactly one character. */
  lemma {:induction false} SubFromLength(r: Rule, s: seq<char>, i: nat)
    requires r.Valid() && i <= |s|
    ensures |SubFrom(r, s, i)| == |s| - i + |StartsFrom(r, s, i)|
    decreases |s| - i
  {
    if i < |s| {
      if MatchAt(r, s, i) {
        SubFromLength(r, s, i + |r.classes|);
      } else {
        SubFromLength(r, s, i + 1);
      }
    }
  }

  /** Each match adds exactly one newline. */
  lemma {:induction false} SubFromCount(r: Rule, s: seq<char>, i: nat)
    requires r.Valid() && i <= |s|
    ensures Occurrences(SubFrom(r, s, i), '\n') == Occurrences(s[i..], '\n') + |StartsFrom(r, s, i)|
    decreases |s| - i
  {
    if i < |s| {
      if MatchAt(r, s, i) {
        var n := |r.classes|;
        SubFromCount(r, s, i + n);
        CountOneInsert(s, i, r.cut, n, SubFrom(r, s, i + n));
      } else {
        SubFromCount(r, s, i + 1);
        assert s[i..][1..] == s[i + 1..];
      }
    }
  }

  /** Rewriting the match at `i` and appending `tail` adds one newline to the stretch. */
  lemma CountOneInsert(s: seq<char>, i: nat, c: nat, n: nat, tail: seq<char>)
    requires c <= n && i + n <= |s|
    ensures Occurrences(s[i..i + c] + ['\n'] + s[i + c..i + n] + tail, '\n')
         == Occurrences(s[i..], '\n') - Occurrences(s[i + n..], '\n') + 1 + Occurrences(tail, '\n')
  {
    assert s[i..] == s[i..i + c] + s[i + c..i + n] + s[i + n..];
    OccurrencesInsert(s[i..i + c], s[i + c..i + n], s[i + n..], tail);
  }

  /** Putting one newline between `a` and `b` adds one to the newline count. */
  lemma OccurrencesInsert(a: seq<char>, b: seq<char>, rest: seq<char>, tail: seq<char>)
    ensures Occurrences(a + ['\n'] + b + tail, '\n')
         == Occurrences(a + b + rest, '\n') + 1 + Occurrences(tail, '\n') - Occurrences(rest, '\n')
  {
    OccurrencesAppend(a + ['\n'] + b, tail, '\n');
    OccurrencesAppend(a + ['\n'], b, '\n');
    OccurrencesAppend(a, ['\n'], '\n');
    OccurrencesAppend(a + b, rest, '\n');
    OccurrencesAppend(a, b, '\n');
  }

  /** A text where the pattern matches nowhere is left as it is. */
  lemma {:induction false} SubFromNoMatch(r: Rule, s: seq<char>, i: nat)
    requires r.Valid() && i <= |s|
    requires forall j :: i <= j < |s| ==> !MatchAt(r, s, j)
    ensures SubFrom(r, s, i) == s[i..]
    decreases |s| - i
  {
    if i < |s| {
      SubFromNoMatch(r, s, i + 1);
      assert s[i..] == [s[i]] + s[i + 1..];
    }
  }

  /** A break sits strictly inside the text, at the cut of a match. */
  lemma BreakInMatch(r: Rule, s: seq<char>, k: nat)
    requires r.Valid() && k in Breaks(r, s)
    ensures r.cut <= k < |s|
    ensures MatchAt(r, s, k - r.cut)
  {
    var st :| st in Starts(r, s) && k == st + r.cut;
    StartsMatch(r, s, 0, st);
  }

  /**
   Every match the scan reaches gets its break: an index where the pattern
   matches and that no earlier match covers has a newline at its cut.
   */
  lemma MatchGetsBreak(r: Rule, s: seq<char>, j: nat)
    requires r.Valid() && MatchAt(r, s, j)
    requires !Covered(r, Starts(r, s), j)
    ensures j + r.cut in Breaks(r, s)
  {
    StartsMaximal(r, s, 0, j);
  }

  /** Weaving never puts a newline after the last character. */
  lemma {:induction false} WeaveLast(s: seq<char>, i: nat, breaks: set<nat>)
    requires i < |s|
    ensures |Weave(s, i, breaks)| > 0
    ensures Weave(s, i, breaks)[|Weave(s, i, breaks)| - 1] == s[|s| - 1]
    decreases |s| - i
  {
    if i + 1 < |s| {
      WeaveLast(s, i + 1, breaks);
    }
  }

  /** The rewrite keeps the first and last character: no newline is put at either end. */
  lemma SubKeepsEnds(r: Rule, s: seq<char>)
    requires r.Valid() && |s| > 0
    ensures |Sub(r, s)| > 0
    ensures Sub(r, s)[0] == s[0]
    ensures Sub(r, s)[|Sub(r, s)| - 1] == s[|s| - 1]
  {
    SubIsWeave(r, s);
    var b := Breaks(r, s);
    if 0 in b {
      BreakInMatch(r, s, 0);
    }
    WeaveLast(s, 0, b);
  }
}
