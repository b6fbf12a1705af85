/** The PHP string primitives the codec is built from: trim(), preg_split on
    runs of whitespace, implode with a single space, and upper-casing
    (restricted to ASCII). Strings are sequences of code points. */
module Text {

  /** Characters trim() strips by default: space, tab, line feed, carriage
      return, NUL and vertical tab. */
  predicate IsTrimSpace(c: char) {
    c == ' ' || c == '\t' || c == '\n' || c == '\r' || c == '\0' || c == '\U{000B}'
  }

  /** Characters the regular-expression class \s matches outside Unicode mode:
      space, tab, line feed, vertical tab, form feed and carriage return.
      It differs from the trim() set on NUL and form feed. */
  predicate IsRegexSpace(c: char) {
    c == ' ' || c == '\t' || c == '\n' || c == '\U{000B}' || c == '\U{000C}' || c == '\r'
  }

  predicate NoRegexSpace(s: string) {
    forall i :: 0 <= i < |s| ==> !IsRegexSpace(s[i])
  }

  /** trim($s): `s` without its leading and trailing trim characters. */
  function Trim(s: string): (r: string)
    ensures r == [] || (!IsTrimSpace(r[0]) && !IsTrimSpace(r[|r| - 1]))
    ensures r == [] <==> forall k :: 0 <= k < |s| ==> IsTrimSpace(s[k])
    decreases |s|
  {
    if s != [] && IsTrimSpace(s[0]) then Trim(s[1..])
    else if s != [] && IsTrimSpace(s[|s| - 1]) then Trim(s[..|s| - 1])
    else s
  }

  /** A string without trim characters at its ends is left as it is, so
      trimming twice is trimming once. */
  lemma TrimTrimmed(s: string)
    ensures s == [] || (!IsTrimSpace(s[0]) && !IsTrimSpace(s[|s| - 1])) ==> Trim(s) == s
    ensures Trim(Trim(s)) == Trim(s)
  {
    var t := Trim(s);
    assert t == [] || (!IsTrimSpace(t[0]) && !IsTrimSpace(t[|t| - 1]));
  }

  /** A trailing trim character, such as the line break a form adds, does not
      change what trim() returns. */
  lemma {:induction false} TrimDropsTrailing(s: string, c: char)
    requires IsTrimSpace(c)
    ensures Trim(s + [c]) == Trim(s)
    decreases |s|
  {
    if s == [] {
      assert Trim([c]) == Trim([]);
    } else if IsTrimSpace(s[0]) {
      assert (s + [c])[1..] == s[1..] + [c];
      TrimDropsTrailing(s[1..], c);
    } else {
      assert (s + [c])[..|s|] == s;
    }
  }

  /** `s[..i]` and `s[j..]` are made only of trim characters. */
  predicate TrimsTo(s: string, i: int, j: int) {
    && 0 <= i <= j <= |s|
    && (forall k :: 0 <= k < i ==> IsTrimSpace(s[k]))
    && (forall k :: j <= k < |s| ==> IsTrimSpace(s[k]))
  }

  /** What trim() returns is a slice of its input: the part between a prefix
      and a suffix made only of trim characters. */
  lemma {:induction false} TrimSlice(s: string)
    ensures exists i, j :: TrimsTo(s, i, j) && Trim(s) == s[i..j]
    decreases |s|
  {
    if s != [] && IsTrimSpace(s[0]) {
      TrimSlice(s[1..]);
      var i, j :| TrimsTo(s[1..], i, j) && Trim(s[1..]) == s[1..][i..j];
      TrimsToFront(s, i, j);
    } else if s != [] && IsTrimSpace(s[|s| - 1]) {
      TrimSlice(s[..|s| - 1]);
      var i, j :| TrimsTo(s[..|s| - 1], i, j) && Trim(s[..|s| - 1]) == s[..|s| - 1][i..j];
      TrimsToBack(s, i, j);
    } else {
      assert TrimsTo(s, 0, |s|) && Trim(s) == s[0..|s|];
    }
  }

  /** A trim character in front of a trimmed slice widens its prefix. */
  lemma TrimsToFront(s: string, i: int, j: int)
    requires s != [] && IsTrimSpace(s[0]) && TrimsTo(s[1..], i, j)
    ensures TrimsTo(s, i + 1, j + 1) && s[1..][i..j] == s[i + 1..j + 1]
  {
    assert forall k :: 1 <= k < |s| ==> s[k] == s[1..][k - 1];
  }

  /** A trim character behind a trimmed slice widens its suffix. */
  lemma TrimsToBack(s: string, i: int, j: int)
    requires s != [] && IsTrimSpace(s[|s| - 1]) && TrimsTo(s[..|s| - 1], i, j)
    ensures TrimsTo(s, i, j) && s[..|s| - 1][i..j] == s[i..j]
  {
    assert forall k :: 0 <= k < |s| - 1 ==> s[k] == s[..|s| - 1][k];
  }

  /** Drops the leading run of \s characters. */
  function SkipSpaces(s: string): (r: string)
    ensures |r| <= |s|
    ensures s != [] && IsRegexSpace(s[0]) ==> |r| < |s|
    ensures r == [] || !IsRegexSpace(r[0])
    ensures r == [] || r[|r| - 1] == s[|s| - 1]
    ensures r == [] && s != [] ==> IsRegexSpace(s[|s| - 1])
  {
    if s != [] && IsRegexSpace(s[0]) then SkipSpaces(s[1..]) else s
  }

  /** preg_split('/\s+/', s): the pieces of `s` between maximal runs of \s
      characters. Empty pieces appear only first (when `s` starts with \s),
      last (when it ends with \s), or alone (when `s` is empty). */
  function Split(s: string): (parts: seq<string>)
    ensures |parts| >= 1
    decreases |s|
  {
    if s == [] then
      [""]
    else if IsRegexSpace(s[0]) then
      [""] + Split(SkipSpaces(s))
    else
      var rest := Split(s[1..]);
      [[s[0]] + rest[0]] + rest[1..]
  }

  /** The first piece is empty exactly when the input is empty or starts
      with \s. */
  lemma SplitFirst(s: string)
    ensures Split(s)[0] == [] <==> s == [] || IsRegexSpace(s[0])
  {
  }

  /** The last piece is empty exactly when the input is empty or ends with
      \s. */
  lemma {:induction false} SplitLast(s: string)
    ensures var parts := Split(s);
      parts[|parts| - 1] == [] <==> s == [] || IsRegexSpace(s[|s| - 1])
    decreases |s|
  {
    if s == [] {
    } else if IsRegexSpace(s[0]) {
      SplitLast(SkipSpaces(s));
    } else {
      var rest := Split(s[1..]);
      assert Split(s) == [[s[0]] + rest[0]] + rest[1..];
      SplitLast(s[1..]);
      if |rest| == 1 {
        assert Split(s)[|Split(s)| - 1] == [s[0]] + rest[0];
      } else {
        assert Split(s)[|Split(s)| - 1] == rest[|rest| - 1];
      }
    }
  }

  /** No piece holds a \s character. */
  lemma {:induction false} SplitNoSpace(s: string)
    ensures forall k :: 0 <= k < |Split(s)| ==> NoRegexSpace(Split(s)[k])
    decreases |s|
  {
    if s == [] {
    } else if IsRegexSpace(s[0]) {
      SplitNoSpace(SkipSpaces(s));
    } else {
      var rest := Split(s[1..]);
      SplitNoSpace(s[1..]);
      assert NoRegexSpace([s[0]] + rest[0]) by {
        assert forall i :: 0 < i < |rest[0]| + 1 ==> ([s[0]] + rest[0])[i] == rest[0][i - 1];
      }
      assert Split(s) == [[s[0]] + rest[0]] + rest[1..];
    }
  }

  /** Only the first and the last piece can be empty. */
  lemma {:induction false} SplitInnerNonEmpty(s: string)
    ensures forall k :: 0 < k < |Split(s)| - 1 ==> Split(s)[k] != []
    decreases |s|
  {
    if s == [] {
    } else if IsRegexSpace(s[0]) {
      var rest := SkipSpaces(s);
      SplitInnerNonEmpty(rest);
      SplitFirst(rest);
      assert Split(s) == [""] + Split(rest);
    } else {
      var rest := Split(s[1..]);
      SplitInnerNonEmpty(s[1..]);
      assert Split(s) == [[s[0]] + rest[0]] + rest[1..];
    }
  }

  /** implode(' ', parts): the parts joined by one space. */
  function Implode(parts: seq<string>): string
  {
    if parts == [] then ""
    else if |parts| == 1 then parts[0]
    else parts[0] + " " + Implode(parts[1..])
  }

  /** mb_strtoupper on one character, for the ASCII range only. */
  function UpperChar(c: char): char
  {
    if 'a' <= c <= 'z' then (c as int - 32) as char else c
  }

  /** mb_strtoupper($s), ASCII letters only. */
  function Upper(s: string): (r: string)
    ensures |r| == |s|
    ensures forall i :: 0 <= i < |s| ==> r[i] == UpperChar(s[i])
  {
    if s == [] then [] else [UpperChar(s[0])] + Upper(s[1..])
  }

  /** Upper-casing is idempotent and leaves no lower-case ASCII letter. */
  lemma {:induction false} UpperIdempotent(s: string)
    ensures Upper(Upper(s)) == Upper(s)
    ensures forall i :: 0 <= i < |s| ==> !('a' <= Upper(s)[i] <= 'z')
  {
    var u := Upper(s);
    var uu := Upper(u);
    forall i | 0 <= i < |s|
      ensures uu[i] == u[i] && !('a' <= u[i] <= 'z')
    {
      assert u[i] == UpperChar(s[i]);
    }
    assert uu == u;
  }

  /** A prefix free of \s characters is glued to the first piece of the rest;
      helper of SplitImplode. */
  lemma {:induction false} SplitPrefix(w: string, t: string)
    requires NoRegexSpace(w)
    ensures Split(w + t) == [w + Split(t)[0]] + Split(t)[1..]
    decreases |w|
  {
    if w != [] {
      assert (w + t)[0] == w[0] && (w + t)[1..] == w[1..] + t;
      var rest := Split(w[1..] + t);
      assert Split(w + t) == [[w[0]] + rest[0]] + rest[1..];
      SplitPrefix(w[1..], t);
      assert [w[0]] + (w[1..] + Split(t)[0]) == w + Split(t)[0];
    } else {
      assert w + t == t && w + Split(t)[0] == Split(t)[0];
      assert Split(t) == [Split(t)[0]] + Split(t)[1..];
    }
  }

  /** The first and the last character of a join of non-empty parts are
      those of its first and last part. */
  lemma {:induction false} ImplodeEnds(parts: seq<string>)
    requires |parts| >= 1
    requires forall k :: 0 <= k < |parts| ==> parts[k] != []
    ensures Implode(parts) != []
    ensures Implode(parts)[0] == parts[0][0]
    ensures Implode(parts)[|Implode(parts)| - 1] == parts[|parts| - 1][|parts[|parts| - 1]| - 1]
  {
    if |parts| > 1 {
      ImplodeEnds(parts[1..]);
    }
  }

  /** Splitting a join of non-empty, whitespace-free parts gives the parts
      back: implode(' ', ...) and preg_split('/\s+/', ...) are inverse. */
  lemma {:induction false} SplitImplode(parts: seq<string>)
    requires |parts| >= 1
    requires forall k :: 0 <= k < |parts| ==> parts[k] != [] && NoRegexSpace(parts[k])
    ensures Split(Implode(parts)) == parts
  {
    if |parts| == 1 {
      SplitPrefix(parts[0], "");
      assert parts[0] + "" == parts[0];
    } else {
      var tail := Implode(parts[1..]);
      SplitImplode(parts[1..]);
      ImplodeEnds(parts[1..]);
      calc {
        Split(Implode(parts));
        { assert Implode(parts) == parts[0] + (" " + tail); }
        Split(parts[0] + (" " + tail));
        { SplitPrefix(parts[0], " " + tail); }
        [parts[0] + Split(" " + tail)[0]] + Split(" " + tail)[1..];
        { assert SkipSpaces(" " + tail) == tail; }
        [parts[0] + ""] + Split(tail);
        { assert parts[0] + "" == parts[0]; }
        [parts[0]] + parts[1..];
        parts;
      }
    }
  }

  /** The string is made only of \s characters. */
  predicate AllRegexSpace(g: string) {
    forall i :: 0 <= i < |g| ==> IsRegexSpace(g[i])
  }

  /** What the pattern \s+ matches: a non-empty run of \s characters. */
  predicate IsGap(g: string) {
    g != [] && AllRegexSpace(g)
  }

  /** The pieces preg_split('/\s+/') can return: at least one, none holding
      \s, and only the first and the last may be empty. */
  predicate WellFormedPieces(parts: seq<string>) {
    |parts| >= 1 &&
    (forall k :: 0 <= k < |parts| ==> NoRegexSpace(parts[k])) &&
    (forall k :: 0 < k < |parts| - 1 ==> parts[k] != [])
  }

  /** The pieces with gaps[k] placed between parts[k] and parts[k + 1]. */
  function Join(parts: seq<string>, gaps: seq<string>): string
    requires |parts| >= 1 && |gaps| == |parts| - 1
  {
    if |parts| == 1 then parts[0] else parts[0] + gaps[0] + Join(parts[1..], gaps[1..])
  }

  /** The leading run of \s characters, the part SkipSpaces drops. */
  function LeadingSpaces(s: string): (g: string)
    ensures AllRegexSpace(g)
    ensures s == g + SkipSpaces(s)
    ensures s != [] && IsRegexSpace(s[0]) ==> g != []
  {
    if s != [] && IsRegexSpace(s[0]) then
      var g := [s[0]] + LeadingSpaces(s[1..]);
      assert s == [s[0]] + s[1..];
      g
    else
      []
  }

  /** The runs of \s at which preg_split('/\s+/') cuts `s`, in order: one
      between any two neighbouring pieces. */
  function Gaps(s: string): (gaps: seq<string>)
    ensures |gaps| == |Split(s)| - 1
    ensures forall k :: 0 <= k < |gaps| ==> IsGap(gaps[k])
    decreases |s|
  {
    if s == [] then []
    else if IsRegexSpace(s[0]) then [LeadingSpaces(s)] + Gaps(SkipSpaces(s))
    else Gaps(s[1..])
  }

  /** A run of \s in front of a string that does not start with \s is
      skipped exactly. */
  lemma {:induction false} SkipRun(g: string, t: string)
    requires AllRegexSpace(g)
    requires t == [] || !IsRegexSpace(t[0])
    ensures SkipSpaces(g + t) == t
    decreases |g|
  {
    if g != [] {
      assert (g + t)[0] == g[0] && (g + t)[1..] == g[1..] + t;
      SkipRun(g[1..], t);
    } else {
      assert g + t == t;
    }
  }

  /** A character put in front of the first piece is put in front of the
      join. */
  lemma {:induction false} JoinConsHead(c: char, parts: seq<string>, gaps: seq<string>)
    requires |parts| >= 1 && |gaps| == |parts| - 1
    ensures Join([[c] + parts[0]] + parts[1..], gaps) == [c] + Join(parts, gaps)
  {
    var p := [[c] + parts[0]] + parts[1..];
    assert p[0] == [c] + parts[0] && p[1..] == parts[1..];
    if |parts| > 1 {
      var rest := Join(parts[1..], gaps[1..]);
      assert Join(p, gaps) == p[0] + gaps[0] + rest;
      assert Join(parts, gaps) == parts[0] + gaps[0] + rest;
    }
  }

  /** Every string is its pieces joined by the runs of \s it was cut at:
      preg_split('/\s+/') loses nothing but the separators. */
  lemma {:induction false} JoinSplit(s: string)
    ensures Join(Split(s), Gaps(s)) == s
    decreases |s|
  {
    if s == [] {
    } else if IsRegexSpace(s[0]) {
      JoinSplit(SkipSpaces(s));
      JoinSplitRun(s);
    } else {
      JoinSplit(s[1..]);
      JoinSplitChar(s);
    }
  }

  /** JoinSplit's step over a leading run of \s. */
  lemma JoinSplitRun(s: string)
    requires s != [] && IsRegexSpace(s[0])
    requires Join(Split(SkipSpaces(s)), Gaps(SkipSpaces(s))) == SkipSpaces(s)
    ensures Join(Split(s), Gaps(s)) == s
  {
    var r := SkipSpaces(s);
    assert Split(s) == [""] + Split(r);
    JoinEmptyHead(LeadingSpaces(s), Split(r), Gaps(r));
  }

  /** An empty first piece puts the first run at the front of the join. */
  lemma JoinEmptyHead(lead: string, parts: seq<string>, gaps: seq<string>)
    requires |parts| >= 1 && |gaps| == |parts| - 1
    ensures Join([""] + parts, [lead] + gaps) == lead + Join(parts, gaps)
  {
    var p, g := [""] + parts, [lead] + gaps;
    assert p[1..] == parts && g[1..] == gaps;
  }

  /** JoinSplit's step over a leading character other than \s. */
  lemma JoinSplitChar(s: string)
    requires s != [] && !IsRegexSpace(s[0])
    requires Join(Split(s[1..]), Gaps(s[1..])) == s[1..]
    ensures Join(Split(s), Gaps(s)) == s
  {
    var rest := Split(s[1..]);
    var gaps := Gaps(s[1..]);
    JoinConsHead(s[0], rest, gaps);
    assert Split(s) == [[s[0]] + rest[0]] + rest[1..] && Gaps(s) == gaps;
    assert s == [s[0]] + s[1..];
  }

  /** A join of non-empty pieces starts with the first piece's first
      character and ends with the last piece's last character. */
  lemma {:induction false} JoinEnds(parts: seq<string>, gaps: seq<string>)
    requires |parts| >= 1 && |gaps| == |parts| - 1
    requires forall k :: 0 <= k < |parts| ==> parts[k] != []
    ensures Join(parts, gaps) != []
    ensures Join(parts, gaps)[0] == parts[0][0]
    ensures Join(parts, gaps)[|Join(parts, gaps)| - 1] == parts[|parts| - 1][|parts[|parts| - 1]| - 1]
  {
    if |parts| > 1 {
      JoinEnds(parts[1..], gaps[1..]);
    }
  }

  /** Splitting well-formed pieces joined by any runs of \s gives the pieces
      back, whatever the runs are (spaces, tabs, line breaks, several of
      them). */
  lemma {:induction false} SplitJoin(parts: seq<string>, gaps: seq<string>)
    requires WellFormedPieces(parts) && |gaps| == |parts| - 1
    requires forall k :: 0 <= k < |gaps| ==> IsGap(gaps[k])
    ensures Split(Join(parts, gaps)) == parts
  {
    if |parts| == 1 {
      SplitPrefix(parts[0], "");
      assert parts[0] + "" == parts[0];
    } else {
      var tail := Join(parts[1..], gaps[1..]);
      assert WellFormedPieces(parts[1..]) by {
        assert forall k :: 0 <= k < |parts| - 1 ==> parts[1..][k] == parts[k + 1];
      }
      SplitJoin(parts[1..], gaps[1..]);
      if |parts| > 2 {
        assert tail == parts[1] + gaps[1] + Join(parts[2..], gaps[2..]);
        assert tail[0] == parts[1][0];
      } else {
        assert tail == parts[1];
      }
      var g := gaps[0];
      SkipRun(g, tail);
      assert Split(g + tail) == [""] + parts[1..] by {
        assert (g + tail)[0] == g[0];
      }
      assert Join(parts, gaps) == parts[0] + (g + tail);
      SplitPrefix(parts[0], g + tail);
      assert parts[0] + "" == parts[0];
    }
  }

  /** preg_split('/\s+/') characterised: `parts` is the split of `s`
      exactly when the parts are well formed and `s` is them joined by
      runs of \s. */
  lemma SplitCharacterised(s: string, parts: seq<string>)
    ensures Split(s) == parts <==>
      && WellFormedPieces(parts)
      && exists gaps ::
        && |gaps| == |parts| - 1
        && (forall k :: 0 <= k < |gaps| ==> IsGap(gaps[k]))
        && Join(parts, gaps) == s
  {
    if Split(s) == parts {
      SplitNoSpace(s);
      SplitInnerNonEmpty(s);
      JoinSplit(s);
      assert Join(parts, Gaps(s)) == s;
    }
    if && WellFormedPieces(parts)
       && exists gaps ::
         && |gaps| == |parts| - 1
         && (forall k :: 0 <= k < |gaps| ==> IsGap(gaps[k]))
         && Join(parts, gaps) == s
    {
      var gaps :| |gaps| == |parts| - 1 && (forall k :: 0 <= k < |gaps| ==> IsGap(gaps[k])) &&
        Join(parts, gaps) == s;
      SplitJoin(parts, gaps);
    }
  }
}
