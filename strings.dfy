// The .NET string operations the migrator's SQL builders are made of:
// String.Join, String.Split(',', RemoveEmptyEntries), Trim, Replace and ToLower,
// written out over seq<char> so that their results can be reasoned about.

module Strings {
  import Seqs

  /** String.Join: the parts in order, separated by `sep`. */
  function Join(sep: string, parts: seq<string>): string
    decreases |parts|
  {
    if |parts| == 0 then ""
    else if |parts| == 1 then parts[0]
    else parts[0] + sep + Join(sep, parts[1..])
  }

  /** Joining one more part appends the separator and that part. */
  lemma {:induction false} JoinAppend(sep: string, parts: seq<string>, x: string)
    requires |parts| > 0
    ensures Join(sep, parts + [x]) == Join(sep, parts) + sep + x
    decreases |parts|
  {
    if |parts| == 1 {
      assert parts + [x] == [parts[0], x];
      assert [parts[0], x][1..] == [x];
    } else {
      assert (parts + [x])[1..] == parts[1..] + [x];
      JoinAppend(sep, parts[1..], x);
    }
  }

  /** A join starts with its first part. */
  lemma {:induction false} JoinStartsWithFirst(sep: string, parts: seq<string>)
    requires |parts| > 0
    ensures |Join(sep, parts)| >= |parts[0]|
    ensures Join(sep, parts)[..|parts[0]|] == parts[0]
  {
  }

  /** A join of parts that are not all empty is not empty. */
  lemma {:induction false} JoinNonEmpty(sep: string, parts: seq<string>)
    requires |parts| > 0 && parts[0] != ""
    ensures Join(sep, parts) != ""
  {
    JoinStartsWithFirst(sep, parts);
  }

  /** Index of the first `c` in `s`, or |s| when `c` does not occur. */
  function IndexOf(s: string, c: char): (r: nat)
    ensures r <= |s|
    ensures r < |s| ==> s[r] == c
    ensures forall j :: 0 <= j < r ==> s[j] != c
    decreases |s|
  {
    if |s| == 0 then 0 else if s[0] == c then 0 else 1 + IndexOf(s[1..], c)
  }

  /**
    * String.Split(sep, StringSplitOptions.RemoveEmptyEntries): the pieces of `s`
    * between separators, in order, with the empty pieces dropped.
    */
  function Split(s: string, sep: char): (r: seq<string>)
    ensures forall i :: 0 <= i < |r| ==> r[i] != "" && sep !in r[i]
    decreases |s|
  {
    if |s| == 0 then []
    else
      var k := IndexOf(s, sep);
      var rest := if k < |s| then Split(s[k + 1..], sep) else [];
      if k == 0 then rest else [s[..k]] + rest
  }

  /** Pieces that are non-empty and free of the separator. */
  predicate AreSegments(segs: seq<string>, sep: char)
  {
    forall i :: 0 <= i < |segs| ==> segs[i] != "" && sep !in segs[i]
  }

  lemma IndexOfAt(a: string, c: char, b: string)
    requires c !in a
    ensures IndexOf(a + [c] + b, c) == |a|
  {
    var s := a + [c] + b;
    assert s[|a|] == c;
    assert forall j :: 0 <= j < |a| ==> s[j] == a[j] && s[j] != c;
  }

  lemma IndexOfAbsent(a: string, c: char)
    requires c !in a
    ensures IndexOf(a, c) == |a|
  {
    assert forall j :: 0 <= j < |a| ==> a[j] != c;
  }

  /**
    * Split undoes a join with the separator: the comma-joined list of names
    * that the catalog queries produce splits back into those names, in order.
    */
  lemma {:induction false} SplitJoin(segs: seq<string>, sep: char)
    requires AreSegments(segs, sep)
    ensures Split(Join([sep], segs), sep) == segs
    decreases |segs|
  {
    if |segs| == 1 {
      IndexOfAbsent(segs[0], sep);
      assert segs[0][..|segs[0]|] == segs[0];
    } else if |segs| > 1 {
      var t := Join([sep], segs[1..]);
      var s := Join([sep], segs);
      assert s == segs[0] + [sep] + t;
      IndexOfAt(segs[0], sep, t);
      assert s[..|segs[0]|] == segs[0];
      assert s[|segs[0]| + 1..] == t;
      SplitJoin(segs[1..], sep);
    }
  }

  /** char.IsWhiteSpace, restricted to the ASCII white-space characters. */
  predicate IsWhiteSpace(c: char)
  {
    c == ' ' || c == '\t' || c == '\n' || c == '\r' || c == '\U{0B}' || c == '\U{0C}'
  }

  /** String.TrimStart(): the suffix left after the leading white space. */
  function TrimStart(s: string): (r: string)
    ensures |r| <= |s| && r == s[|s| - |r|..]
    ensures r == "" || !IsWhiteSpace(r[0])
    ensures forall i :: 0 <= i < |s| - |r| ==> IsWhiteSpace(s[i])
    decreases |s|
  {
    if |s| > 0 && IsWhiteSpace(s[0]) then TrimStart(s[1..]) else s
  }

  /** String.TrimEnd(): the prefix left before the trailing white space. */
  function TrimEnd(s: string): (r: string)
    ensures |r| <= |s| && r == s[..|r|]
    ensures r == "" || !IsWhiteSpace(r[|r| - 1])
    ensures forall i :: |r| <= i < |s| ==> IsWhiteSpace(s[i])
    decreases |s|
  {
    if |s| > 0 && IsWhiteSpace(s[|s| - 1]) then TrimEnd(s[..|s| - 1]) else s
  }

  /** String.Trim(). */
  function Trim(s: string): string
  {
    TrimEnd(TrimStart(s))
  }

  predicate AllWhiteSpace(w: string)
  {
    forall i :: 0 <= i < |w| ==> IsWhiteSpace(w[i])
  }

  /** Leading white space in front of a non-blank start is removed, and only it. */
  lemma TrimStartAfterWhiteSpace(w: string, s: string)
    requires AllWhiteSpace(w)
    requires s != "" && !IsWhiteSpace(s[0])
    ensures TrimStart(w + s) == s
  {
    var t := w + s;
    assert forall i :: 0 <= i < |w| ==> IsWhiteSpace(t[i]);
    assert !IsWhiteSpace(t[|w|]);
    assert t[|w|..] == s;
  }

  /** Trailing white space after a non-blank end is removed, and only it. */
  lemma TrimEndBeforeWhiteSpace(s: string, w: string)
    requires AllWhiteSpace(w)
    requires s != "" && !IsWhiteSpace(s[|s| - 1])
    ensures TrimEnd(s + w) == s
  {
    var t := s + w;
    assert forall i :: |s| <= i < |t| ==> IsWhiteSpace(t[i]);
    assert !IsWhiteSpace(t[|s| - 1]);
    assert t[..|s|] == s;
  }

  /** Trimming `w1 + s + w2` leaves `s` when `s` neither starts nor ends with white space. */
  lemma TrimBetweenWhiteSpace(w1: string, s: string, w2: string)
    requires AllWhiteSpace(w1) && AllWhiteSpace(w2)
    requires s != "" && !IsWhiteSpace(s[0]) && !IsWhiteSpace(s[|s| - 1])
    ensures Trim(w1 + s + w2) == s
  {
    assert w1 + s + w2 == w1 + (s + w2);
    TrimStartAfterWhiteSpace(w1, s + w2);
    TrimEndBeforeWhiteSpace(s, w2);
  }

  /** Trimming the end of `p + t` stops inside `t` when `p` ends with a non-blank character. */
  lemma {:induction false} TrimEndAfterPrefix(p: string, t: string)
    requires p != "" && !IsWhiteSpace(p[|p| - 1])
    ensures TrimEnd(p + t) == p + TrimEnd(t)
    decreases |t|
  {
    if |t| == 0 {
      assert p + t == p;
    } else if IsWhiteSpace(t[|t| - 1]) {
      assert (p + t)[..|p + t| - 1] == p + t[..|t| - 1];
      TrimEndAfterPrefix(p, t[..|t| - 1]);
    }
  }

  /** Trailing white space makes no difference to TrimEnd. */
  lemma {:induction false} TrimEndIgnoresWhiteSpace(s: string, w: string)
    requires AllWhiteSpace(w)
    ensures TrimEnd(s + w) == TrimEnd(s)
    decreases |w|
  {
    if |w| == 0 {
      assert s + w == s;
    } else {
      assert (s + w)[..|s + w| - 1] == s + w[..|w| - 1];
      TrimEndIgnoresWhiteSpace(s, w[..|w| - 1]);
    }
  }

  /**
    * String.Replace(pat, rep): every occurrence of `pat`, scanning from the
    * left without overlaps, replaced by `rep` (an ordinal comparison).
    */
  function Replace(s: string, pat: string, rep: string): string
    requires |pat| > 0
    decreases |s|
  {
    if |s| < |pat| then s
    else if s[..|pat|] == pat then rep + Replace(s[|pat|..], pat, rep)
    else [s[0]] + Replace(s[1..], pat, rep)
  }

  /**
    * The two-line templates of the DDL builders: trimming a line break, a
    * first line, a line break, a second line and a line break leaves both
    * lines, with only the trailing white space of the second line's tail gone,
    * when the first line starts and the second line's head ends with a
    * non-blank character.
    */
  lemma TrimTwoLines(first: string, head: string, tail: string)
    requires first != "" && !IsWhiteSpace(first[0])
    requires head != "" && !IsWhiteSpace(head[|head| - 1])
    ensures Trim("\n" + first + "\n" + (head + tail) + "\n") == first + "\n" + (head + TrimEnd(tail))
  {
    var body := first + "\n" + head;
    Seqs.AppendAssoc("\n", first, "\n");
    Seqs.AppendAssoc("\n", first + "\n", head + tail);
    Seqs.AppendAssoc(first + "\n", head, tail);
    Seqs.AppendAssoc("\n", body + tail, "\n");
    assert (body + tail + "\n")[0] == first[0];
    TrimStartAfterWhiteSpace("\n", body + tail + "\n");
    TrimEndIgnoresWhiteSpace(body + tail, "\n");
    assert body[|body| - 1] == head[|head| - 1];
    TrimEndAfterPrefix(body, tail);
    Seqs.AppendAssoc(first + "\n", head, TrimEnd(tail));
  }

  /**
    * Text free of the pattern's first character holds no match and is kept as
    * it is; replacing goes on after it.
    */
  lemma {:induction false} ReplaceAfter(c: string, t: string, pat: string, rep: string)
    requires |pat| > 0 && pat[0] !in c
    ensures Replace(c + t, pat, rep) == c + Replace(t, pat, rep)
    decreases |c|
  {
    var s := c + t;
    if |c| == 0 {
      assert s == t;
    } else if |s| < |pat| {
      assert Replace(t, pat, rep) == t;
    } else {
      assert s[..|pat|][0] == c[0] != pat[0];
      assert s[1..] == c[1..] + t;
      ReplaceAfter(c[1..], t, pat, rep);
      assert [c[0]] + c[1..] == c;
    }
  }

  /** Replacing a character by text that lacks it removes every occurrence of it. */
  lemma {:induction false} ReplaceRemovesChar(s: string, c: char, rep: string)
    requires c !in rep
    ensures c !in Replace(s, [c], rep)
    decreases |s|
  {
    if |s| >= 1 {
      ReplaceRemovesChar(s[1..], c, rep);
      if s[..1] != [c] {
        assert s[0] != c;
      }
    }
  }

  /** Replacing a character that does not occur changes nothing. */
  lemma {:induction false} ReplaceAbsentChar(s: string, c: char, rep: string)
    requires c !in s
    ensures Replace(s, [c], rep) == s
    decreases |s|
  {
    if |s| >= 1 {
      assert s[0] != c;
      assert s[..1] != [c];
      ReplaceAbsentChar(s[1..], c, rep);
      assert [s[0]] + s[1..] == s;
    }
  }

  /** char.ToLower for the ASCII letters; every other character is kept. */
  function ToLowerChar(c: char): char
  {
    if 'A' <= c <= 'Z' then (c as int + 32) as char else c
  }

  /** String.ToLower(), per character, under a culture that lower-cases A-Z as ASCII does. */
  function ToLower(s: string): (r: string)
    ensures |r| == |s|
  {
    seq(|s|, i requires 0 <= i < |s| => ToLowerChar(s[i]))
  }

  /** Comparison under StringComparer.OrdinalIgnoreCase: equal after case folding. */
  predicate EqualsIgnoreCase(a: string, b: string)
  {
    ToLower(a) == ToLower(b)
  }
}
