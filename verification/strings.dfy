/** The handful of Python `str` operations the scraper relies on, over
    `seq<char>`. */
module Strings {

  predicate StartsWith(s: string, prefix: string) {
    |prefix| <= |s| && s[..|prefix|] == prefix
  }

  /** `str.find` for one character: the first index of `c`, or -1. */
  function Find(s: string, c: char): (i: int)
    ensures -1 <= i < |s|
    ensures i == -1 <==> c !in s
    ensures 0 <= i ==> s[i] == c && c !in s[..i]
  {
    if |s| == 0 then -1
    else if s[0] == c then 0
    else
      var j := Find(s[1..], c);
      if j == -1 then -1 else 1 + j
  }

  /** `sep.join(words)` for a one-character separator. */
  function Join(words: seq<string>, sep: char): string
  {
    if |words| == 0 then ""
    else if |words| == 1 then words[0]
    else words[0] + [sep] + Join(words[1..], sep)
  }

  /** `s.split(sep)` for a one-character separator: every occurrence of
      `sep` separates two parts, so there is always one part more than
      there are separators and never zero parts (`SplitParts`). */
  function Split(s: string, sep: char): (parts: seq<string>)
    ensures |parts| >= 1
  {
    if |s| == 0 then [""]
    else
      var rest := Split(s[1..], sep);
      if s[0] == sep then [""] + rest
      else [[s[0]] + rest[0]] + rest[1..]
  }

  /** No part holds the separator, and there is a single part exactly when
      the text has no separator. */
  lemma SplitParts(s: string, sep: char)
    ensures forall i :: 0 <= i < |Split(s, sep)| ==> sep !in Split(s, sep)[i]
    ensures |Split(s, sep)| == 1 <==> sep !in s
  {
    SplitPartsFree(s, sep);
    SplitSingle(s, sep);
  }

  lemma {:induction false} SplitPartsFree(s: string, sep: char)
    ensures forall i :: 0 <= i < |Split(s, sep)| ==> sep !in Split(s, sep)[i]
  {
    if |s| > 0 {
      var rest := Split(s[1..], sep);
      SplitPartsFree(s[1..], sep);
      SplitFirst(s, sep);
      if s[0] != sep {
        var parts := [[s[0]] + rest[0]] + rest[1..];
        forall i | 0 <= i < |parts|
          ensures sep !in parts[i]
        {
          if i > 0 {
            assert parts[i] == rest[i];
          }
        }
      }
    }
  }

  lemma {:induction false} SplitSingle(s: string, sep: char)
    ensures |Split(s, sep)| == 1 <==> sep !in s
  {
    if |s| > 0 {
      SplitSingle(s[1..], sep);
      SplitFirst(s, sep);
      assert sep in s <==> s[0] == sep || sep in s[1..] by {
        assert s == [s[0]] + s[1..];
      }
    }
  }

  /** `s.replace(from, to)` for single characters. */
  function ReplaceChar(s: string, from: char, to: char): (r: string)
    ensures |r| == |s|
    ensures forall i :: 0 <= i < |s| ==> r[i] == (if s[i] == from then to else s[i])
  {
    seq(|s|, i requires 0 <= i < |s| => if s[i] == from then to else s[i])
  }

  lemma ReplaceCharFirst(s: string, from: char, to: char)
    requires |s| > 0
    ensures ReplaceChar(s, from, to) == [if s[0] == from then to else s[0]] + ReplaceChar(s[1..], from, to)
  {
  }

  /** One step of `Split`: a leading separator opens a new part, any other
      character joins the first part. */
  lemma SplitFirst(s: string, sep: char)
    requires |s| > 0
    ensures var rest := Split(s[1..], sep);
      Split(s, sep) == if s[0] == sep then [""] + rest else [[s[0]] + rest[0]] + rest[1..]
  {
  }

  /** Joining the parts of a split gives back the original string. */
  lemma {:induction false} JoinSplit(s: string, sep: char)
    ensures Join(Split(s, sep), sep) == s
    decreases |s|
  {
    if |s| > 0 {
      var rest := Split(s[1..], sep);
      JoinSplit(s[1..], sep);
      SplitFirst(s, sep);
      if s[0] == sep {
        JoinCons("", rest, sep);
      } else {
        JoinGrowFirst(s[0], rest, sep);
      }
      assert s == [s[0]] + s[1..];
    }
  }

  /** Joining one more word in front adds it and a separator. */
  lemma JoinCons(w: string, words: seq<string>, sep: char)
    requires |words| > 0
    ensures Join([w] + words, sep) == w + [sep] + Join(words, sep)
  {
    assert ([w] + words)[1..] == words;
  }

  /** Adding a character to the front of the first word adds it to the
      front of the join. */
  lemma JoinGrowFirst(c: char, words: seq<string>, sep: char)
    requires |words| > 0
    ensures Join([[c] + words[0]] + words[1..], sep) == [c] + Join(words, sep)
  {
    var parts := [[c] + words[0]] + words[1..];
    if |words| > 1 {
      assert parts[1..] == words[1..];
    }
  }

  /** Splitting `w + sep + t` where `w` has no separator peels off `w`. */
  lemma {:induction false} SplitAfterWord(w: string, sep: char, t: string)
    requires sep !in w
    ensures Split(w + [sep] + t, sep) == [w] + Split(t, sep)
    decreases |w|
  {
    var s := w + [sep] + t;
    SplitFirst(s, sep);
    if |w| == 0 {
      assert s[1..] == t;
    } else {
      assert s[0] == w[0];
      assert s[1..] == w[1..] + [sep] + t;
      SplitAfterWord(w[1..], sep, t);
      assert w == [w[0]] + w[1..];
    }
  }

  /** A word with no separator splits into itself alone. */
  lemma {:induction false} SplitWord(w: string, sep: char)
    requires sep !in w
    ensures Split(w, sep) == [w]
    decreases |w|
  {
    if |w| > 0 {
      SplitWord(w[1..], sep);
      SplitFirst(w, sep);
      assert w == [w[0]] + w[1..];
    }
  }

  /** Splitting a join gives back the words, provided there is at least one
      word and none of them contains the separator. */
  lemma {:induction false} SplitJoin(words: seq<string>, sep: char)
    requires |words| > 0
    requires forall i :: 0 <= i < |words| ==> sep !in words[i]
    ensures Split(Join(words, sep), sep) == words
    decreases |words|
  {
    if |words| == 1 {
      SplitWord(words[0], sep);
    } else {
      SplitJoin(words[1..], sep);
      SplitAfterWord(words[0], sep, Join(words[1..], sep));
      assert words == [words[0]] + words[1..];
    }
  }

  /** The first part of a split is the text before the first separator, and
      the remaining parts are the split of the text after it. */
  lemma {:induction false} SplitAtFirst(s: string, sep: char)
    requires sep in s
    ensures Split(s, sep)[0] == s[..Find(s, sep)]
    ensures Split(s, sep)[1..] == Split(s[Find(s, sep) + 1..], sep)
    decreases |s|
  {
    SplitFirst(s, sep);
    if s[0] != sep {
      var t := s[1..];
      assert sep in t by {
        assert s == [s[0]] + t;
      }
      SplitAtFirst(t, sep);
      var j := Find(t, sep);
      assert Find(s, sep) == 1 + j;
      assert t[j + 1..] == s[j + 2..];
      assert [s[0]] + t[..j] == s[..j + 1];
    }
  }

  /** The second part of a split is the text between the first separator
      and the next one, or the end. */
  lemma SecondPart(s: string, sep: char)
    requires sep in s
    ensures var tail := s[Find(s, sep) + 1..];
      |Split(s, sep)| >= 2 && Split(s, sep)[1] == if sep in tail then tail[..Find(tail, sep)] else tail
  {
    SplitParts(s, sep);
    var tail := s[Find(s, sep) + 1..];
    SplitAtFirst(s, sep);
    if sep in tail {
      SplitAtFirst(tail, sep);
    } else {
      SplitWord(tail, sep);
    }
  }
}
