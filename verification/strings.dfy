/**
 Character-sequence helpers that mirror the Python string operations used by
 `cut_sent` in insert_data.py: counting a character, `str.split` on a one-character
 separator (with its inverse `str.join`), `str.rstrip()` with no argument, and the
 relation "one text is another with some newlines inserted".
 */
module Strings {

  /** Number of occurrences of `c` in `s`. */
  function Occurrences(s: seq<char>, c: char): nat
  {
    if |s| == 0 then 0 else (if s[0] == c then 1 else 0) + Occurrences(s[1..], c)
  }

  lemma {:induction false} OccurrencesAppend(a: seq<char>, b: seq<char>, c: char)
    ensures Occurrences(a + b, c) == Occurrences(a, c) + Occurrences(b, c)
    decreases |a|
  {
    if |a| == 0 {
      assert a + b == b;
    } else {
      assert (a + b)[1..] == a[1..] + b;
      OccurrencesAppend(a[1..], b, c);
    }
  }

  lemma {:induction false} OccurrencesAbsent(s: seq<char>, c: char)
    requires c !in s
    ensures Occurrences(s, c) == 0
    decreases |s|
  {
    if |s| > 0 {
      assert s[0] != c;
      assert forall k :: 0 <= k < |s| - 1 ==> s[1..][k] == s[k + 1];
      OccurrencesAbsent(s[1..], c);
    }
  }

  /** `sep.join(pieces)` */
  function Join(pieces: seq<seq<char>>, sep: char): seq<char>
  {
    if |pieces| == 0 then []
    else if |pieces| == 1 then pieces[0]
    else pieces[0] + [sep] + Join(pieces[1..], sep)
  }

  /**
   `s.split(sep)` for a one-character separator: the maximal separator-free pieces,
   in order. Python returns `['']` for the empty string, so there is always at
   least one piece.
   */
  function Split(s: seq<char>, sep: char): (pieces: seq<seq<char>>)
    ensures |pieces| == 1 + Occurrences(s, sep)
    ensures forall k :: 0 <= k < |pieces| ==> sep !in pieces[k]
    ensures Join(pieces, sep) == s
    decreases |s|
  {
    if |s| == 0 then [[]]
    else
      var rest := Split(s[1..], sep);
      if s[0] == sep then
        assert Join([[]] + rest, sep) == [sep] + Join(rest, sep);
        [[]] + rest
      else
        var r := [[s[0]] + rest[0]] + rest[1..];
        assert |rest| > 1 ==> Join(rest, sep) == rest[0] + [sep] + Join(rest[1..], sep);
        assert r[1..] == rest[1..];
        r
  }

  /** Splitting a join of separator-free pieces gives the pieces back. */
  lemma {:induction false} SplitJoin(pieces: seq<seq<char>>, sep: char)
    requires |pieces| >= 1
    requires forall k :: 0 <= k < |pieces| ==> sep !in pieces[k]
    ensures Split(Join(pieces, sep), sep) == pieces
    decreases pieces
  {
    SplitSepFree(pieces[0], sep);
    if |pieces| > 1 {
      SplitJoin(pieces[1..], sep);
      SplitPrefix(pieces[0], sep, Join(pieces[1..], sep));
      assert pieces == [pieces[0]] + pieces[1..];
    }
  }

  /** A separator-free string is a single piece. */
  lemma {:induction false} SplitSepFree(s: seq<char>, sep: char)
    requires sep !in s
    ensures Split(s, sep) == [s]
    decreases |s|
  {
    if |s| > 0 {
      assert sep !in s[1..];
      SplitSepFree(s[1..], sep);
      assert s == [s[0]] + s[1..];
    }
  }

  /** Splitting `a + sep + b` with separator-free `a` puts `a` first. */
  lemma {:induction false} SplitPrefix(a: seq<char>, sep: char, b: seq<char>)
    requires sep !in a
    ensures Split(a + [sep] + b, sep) == [a] + Split(b, sep)
    decreases |a|
  {
    var s := a + [sep] + b;
    if |a| == 0 {
      assert s[1..] == b;
    } else {
      assert s[1..] == a[1..] + [sep] + b;
      assert sep !in a[1..];
      SplitPrefix(a[1..], sep, b);
      assert [a[0]] + a[1..] == a;
    }
  }

  /**
   Python's `str.isspace()` for one character: the characters `str.rstrip()` with no
   argument removes.
   */
  predicate IsSpace(c: char)
  {
    || ('\t' <= c <= '\r')
    || ('\U{1C}' <= c <= '\U{1F}')
    || c == ' '
    || c == '\U{85}'
    || c == '\U{A0}'
    || c == '\U{1680}'
    || ('\U{2000}' <= c <= '\U{200A}')
    || c == '\U{2028}'
    || c == '\U{2029}'
    || c == '\U{202F}'
    || c == '\U{205F}'
    || c == '\U{3000}'
  }

  /** `s.rstrip()`: the longest prefix of `s` that does not end in whitespace. */
  function RStrip(s: seq<char>): (t: seq<char>)
    ensures t <= s
    ensures |t| == 0 || !IsSpace(t[|t| - 1])
    ensures forall k :: |t| <= k < |s| ==> IsSpace(s[k])
    decreases |s|
  {
    if |s| > 0 && IsSpace(s[|s| - 1]) then RStrip(s[..|s| - 1]) else s
  }

  /** `rstrip()` leaves a text that does not end in whitespace as it is. */
  lemma RStripKeeps(s: seq<char>)
    requires |s| > 0 && !IsSpace(s[|s| - 1])
    ensures RStrip(s) == s
  {
    assert |RStrip(s)| == |s|;
  }

  /** Stripping twice is stripping once. */
  lemma RStripIdempotent(s: seq<char>)
    ensures RStrip(RStrip(s)) == RStrip(s)
  {
    var t := RStrip(s);
    if |t| > 0 {
      RStripKeeps(t);
    }
  }

  /** `t` is `s` with zero or more newline characters inserted. */
  predicate NewlinesInserted(s: seq<char>, t: seq<char>)
    decreases |t|
  {
    if |t| == 0 then |s| == 0
    else
      || (|s| > 0 && t[0] == s[0] && NewlinesInserted(s[1..], t[1..]))
      || (t[0] == '\n' && NewlinesInserted(s, t[1..]))
  }

  lemma {:induction false} NewlinesInsertedTrans(a: seq<char>, b: seq<char>, c: seq<char>)
    requires NewlinesInserted(a, b) && NewlinesInserted(b, c)
    ensures NewlinesInserted(a, c)
    decreases |c|
  {
    if |c| > 0 {
      if |b| > 0 && c[0] == b[0] && NewlinesInserted(b[1..], c[1..]) {
        if |a| > 0 && b[0] == a[0] && NewlinesInserted(a[1..], b[1..]) {
          NewlinesInsertedTrans(a[1..], b[1..], c[1..]);
        } else {
          NewlinesInsertedTrans(a, b[1..], c[1..]);
        }
      } else {
        NewlinesInsertedTrans(a, b, c[1..]);
      }
    }
  }

  /** Inserting newlines into two texts inserts newlines into their concatenation. */
  lemma {:induction false} NewlinesInsertedAppend(a: seq<char>, a2: seq<char>, b: seq<char>, b2: seq<char>)
    requires NewlinesInserted(a, a2) && NewlinesInserted(b, b2)
    ensures NewlinesInserted(a + b, a2 + b2)
    decreases |a2|
  {
    if |a2| == 0 {
      assert a + b == b && a2 + b2 == b2;
    } else {
      assert (a2 + b2)[1..] == a2[1..] + b2;
      if |a| > 0 && a2[0] == a[0] && NewlinesInserted(a[1..], a2[1..]) {
        NewlinesInsertedAppend(a[1..], a2[1..], b, b2);
        assert (a + b)[1..] == a[1..] + b;
      } else {
        NewlinesInsertedAppend(a, a2[1..], b, b2);
      }
    }
  }

  /** A shared first character, with or without a newline before it, keeps the relation. */
  lemma NewlinesInsertedStep(c: char, s: seq<char>, t: seq<char>)
    requires NewlinesInserted(s, t)
    ensures NewlinesInserted([c] + s, [c] + t)
    ensures NewlinesInserted([c] + s, ['\n'] + [c] + t)
  {
    assert ([c] + s)[1..] == s && ([c] + t)[1..] == t;
    assert (['\n'] + [c] + t)[1..] == [c] + t;
  }

  /** `s` is not empty and its last character is `c`. */
  predicate EndsIn(s: seq<char>, c: char)
  {
    |s| > 0 && s[|s| - 1] == c
  }

  /** Inserting newlines cannot make a text end in a character other than the newline. */
  lemma {:induction false} NewlinesInsertedEnd(s: seq<char>, t: seq<char>, c: char)
    requires NewlinesInserted(s, t) && c != '\n' && !EndsIn(s, c)
    ensures !EndsIn(t, c)
    decreases |t|
  {
    if |t| > 0 {
      if |s| > 0 && t[0] == s[0] && NewlinesInserted(s[1..], t[1..]) {
        if |s| > 1 {
          assert s[1..][|s| - 2] == s[|s| - 1];
        }
        NewlinesInsertedEnd(s[1..], t[1..], c);
      } else {
        NewlinesInsertedEnd(s, t[1..], c);
      }
      if |t| > 1 {
        assert t[1..][|t| - 2] == t[|t| - 1];
      }
    }
  }

  /** Every character of a text with newlines inserted is a newline or a character of the original. */
  lemma {:induction false} NewlinesInsertedChars(s: seq<char>, t: seq<char>)
    requires NewlinesInserted(s, t)
    ensures forall k :: 0 <= k < |t| ==> t[k] == '\n' || t[k] in s
    decreases |t|
  {
    if |t| > 0 {
      if |s| > 0 && t[0] == s[0] && NewlinesInserted(s[1..], t[1..]) {
        NewlinesInsertedChars(s[1..], t[1..]);
        assert forall k :: 0 < k < |t| ==> t[k] == t[1..][k - 1];
        assert forall c :: c in s[1..] ==> c in s;
      } else {
        NewlinesInsertedChars(s, t[1..]);
        assert forall k :: 0 < k < |t| ==> t[k] == t[1..][k - 1];
      }
    }
  }

  /** Inserting newlines keeps the length difference equal to the number of new newlines. */
  lemma {:induction false} NewlinesInsertedCount(s: seq<char>, t: seq<char>)
    requires NewlinesInserted(s, t)
    ensures |s| <= |t|
    ensures Occurrences(t, '\n') == Occurrences(s, '\n') + (|t| - |s|)
    ensures forall c :: c != '\n' ==> Occurrences(t, c) == Occurrences(s, c)
    decreases |t|
  {
    if |t| > 0 {
      if |s| > 0 && t[0] == s[0] && NewlinesInserted(s[1..], t[1..]) {
        NewlinesInsertedCount(s[1..], t[1..]);
      } else {
        NewlinesInsertedCount(s, t[1..]);
      }
    }
  }
}
