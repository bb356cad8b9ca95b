/** The JavaScript string built-ins the pipeline in build.js is made of:
    `trim`, `indexOf`, `split` with a literal separator, `join`, a global
    `replace` of a literal pattern, and `split(/\n\n+/)` (blank-line split).
    Strings are sequences of characters; JavaScript's UTF-16 code units are
    modelled as Dafny characters. */
module Text {

  datatype Option<T> = None | Some(value: T)

  // ---------------------------------------------------------------------
  // trim

  /** The characters `String.prototype.trim` strips: ECMAScript WhiteSpace
      (tab, vertical tab, form feed, space, no-break space, byte order mark
      and the space separators) and LineTerminator (LF, CR, LS, PS). */
  predicate IsSpace(c: char)
  {
    c == ' ' || c == '\t' || c == '\n' || c == '\r' || c == '\U{000B}' || c == '\U{000C}'
    || c == '\U{00A0}' || c == '\U{1680}' || ('\U{2000}' <= c <= '\U{200A}')
    || c == '\U{2028}' || c == '\U{2029}' || c == '\U{202F}' || c == '\U{205F}'
    || c == '\U{3000}' || c == '\U{FEFF}'
  }

  /** Drops the leading white space. */
  function TrimStart(s: string): (r: string)
    ensures |r| <= |s|
    decreases |s|
  {
    if s != [] && IsSpace(s[0]) then TrimStart(s[1..]) else s
  }

  /** Drops the trailing white space. */
  function TrimEnd(s: string): (r: string)
    ensures |r| <= |s|
    decreases |s|
  {
    if s != [] && IsSpace(s[|s| - 1]) then TrimEnd(s[..|s| - 1]) else s
  }

  /** `s.trim()`. */
  function Trim(s: string): string
  {
    TrimEnd(TrimStart(s))
  }

  /** What `TrimStart` keeps is the suffix of `s` that starts at its first
      non-space character. */
  lemma {:induction false} TrimStartSpec(s: string)
    ensures var r := TrimStart(s);
            |r| <= |s| && r == s[|s| - |r|..]
            && (forall i :: 0 <= i < |s| - |r| ==> IsSpace(s[i]))
            && (r == [] || !IsSpace(r[0]))
    decreases |s|
  {
    if s != [] && IsSpace(s[0]) {
      TrimStartSpec(s[1..]);
      var r := TrimStart(s[1..]);
      assert s[1..][|s| - 1 - |r|..] == s[|s| - |r|..];
      forall i | 1 <= i < |s| - |r| ensures IsSpace(s[i]) { assert s[i] == s[1..][i - 1]; }
    }
  }

  /** What `TrimEnd` keeps is the prefix of `s` that ends at its last
      non-space character. */
  lemma {:induction false} TrimEndSpec(s: string)
    ensures var r := TrimEnd(s);
            |r| <= |s| && r == s[..|r|]
            && (forall i :: |r| <= i < |s| ==> IsSpace(s[i]))
            && (r == [] || !IsSpace(r[|r| - 1]))
    decreases |s|
  {
    if s != [] && IsSpace(s[|s| - 1]) {
      TrimEndSpec(s[..|s| - 1]);
      var r := TrimEnd(s[..|s| - 1]);
      assert s[..|s| - 1][..|r|] == s[..|r|];
      forall i | |r| <= i < |s| - 1 ensures IsSpace(s[i]) { assert s[i] == s[..|s| - 1][i]; }
    }
  }

  /** Trim keeps the slice of `s` between its leading and trailing white
      space, and neither end of what it keeps is white space. */
  lemma TrimSpec(s: string)
    ensures var i := |s| - |TrimStart(s)|; var r := Trim(s);
            i + |r| <= |s| && r == s[i..i + |r|]
            && (forall j :: 0 <= j < i ==> IsSpace(s[j]))
            && (forall j :: i + |r| <= j < |s| ==> IsSpace(s[j]))
            && (r == [] || (!IsSpace(r[0]) && !IsSpace(r[|r| - 1])))
  {
    var t := TrimStart(s);
    var r := TrimEnd(t);
    TrimStartSpec(s);
    TrimEndSpec(t);
    var i := |s| - |t|;
    assert t == s[i..];
    assert r == t[..|r|];
    forall j | i + |r| <= j < |s| ensures IsSpace(s[j]) {
      assert s[j] == t[j - i];
    }
    if r != [] { assert r[0] == t[0]; }
  }

  /** Trimming twice is trimming once. */
  lemma TrimIdempotent(s: string)
    ensures Trim(Trim(s)) == Trim(s)
  {
    TrimSpec(s);
    var r := Trim(s);
    if r != [] {
      assert TrimStart(r) == r;
      assert TrimEnd(r) == r;
    }
  }

  // ---------------------------------------------------------------------
  // indexOf

  /** `pat` occurs in `s` at index `j`. */
  predicate MatchAt(s: string, pat: string, j: int)
  {
    0 <= j && j + |pat| <= |s| && s[j..j + |pat|] == pat
  }

  /** `pat` occurs nowhere in `s`. */
  ghost predicate Free(s: string, pat: string)
  {
    forall j :: !MatchAt(s, pat, j)
  }

  /** `s.indexOf(pat)`, with JavaScript's -1 written `None`: the first
      index at which `pat` occurs. */
  function IndexOf(s: string, pat: string): (r: Option<nat>)
    requires |pat| > 0
    ensures r.Some? ==> MatchAt(s, pat, r.value) && forall j :: j < r.value ==> !MatchAt(s, pat, j)
    ensures r.None? ==> Free(s, pat)
    decreases |s|
  {
    if |s| < |pat| then None
    else if s[..|pat|] == pat then Some(0)
    else
      match IndexOf(s[1..], pat)
      case None =>
        assert forall j :: MatchAt(s, pat, j) ==> j == 0 || MatchAt(s[1..], pat, j - 1);
        None
      case Some(i) =>
        assert forall j :: 0 < j <= i ==> (MatchAt(s, pat, j) ==> MatchAt(s[1..], pat, j - 1));
        Some(i + 1)
  }

  /** A match inside the first part of a concatenation is a match of the
      concatenation, and one past the first part is a match of the second. */
  lemma MatchAppend(a: string, b: string, pat: string, j: int)
    ensures 0 <= j && j + |pat| <= |a| ==> (MatchAt(a + b, pat, j) <==> MatchAt(a, pat, j))
    ensures j >= |a| ==> (MatchAt(a + b, pat, j) <==> MatchAt(b, pat, j - |a|))
  {
    if 0 <= j && j + |pat| <= |a| {
      assert (a + b)[j..j + |pat|] == a[j..j + |pat|];
    }
    if j >= |a| && j + |pat| <= |a| + |b| {
      assert (a + b)[j..j + |pat|] == b[j - |a|..j - |a| + |pat|];
    }
  }

  /** Dropping the first character shifts every match one place left. */
  lemma MatchShift(y: string, pat: string, j: int)
    requires |y| > 0 && j >= 0
    ensures MatchAt(y[1..], pat, j) <==> MatchAt(y, pat, j + 1)
  {
    if 0 <= j && j + |pat| <= |y| - 1 {
      assert y[1..][j..j + |pat|] == y[j + 1..j + 1 + |pat|];
    }
  }

  /** The first occurrence is still the first one in any prefix that holds it. */
  lemma IndexOfPrefix(s: string, pat: string, n: nat)
    requires |pat| > 0 && IndexOf(s, pat).Some?
    requires IndexOf(s, pat).value + |pat| <= n <= |s|
    ensures IndexOf(s[..n], pat) == IndexOf(s, pat)
  {
    var i := IndexOf(s, pat).value;
    var p := s[..n];
    assert MatchAt(p, pat, i) by { assert p[i..i + |pat|] == s[i..i + |pat|]; }
    assert forall j :: j < i ==> !MatchAt(s, pat, j);
    forall j | j < i ensures !MatchAt(p, pat, j) {
      if 0 <= j && j + |pat| <= n {
        assert !MatchAt(s, pat, j);
        assert p[j..j + |pat|] == s[j..j + |pat|];
      }
    }
    IndexOfAt(p, pat, i);
  }

  // ---------------------------------------------------------------------
  // split and join with a literal separator

  /** `s.split(sep)` for a non-empty literal separator: the pieces between
      the occurrences of `sep` found left to right. There is always at least
      one piece, and no piece contains `sep`. */
  function Split(s: string, sep: string): (r: seq<string>)
    requires |sep| > 0
    ensures |r| >= 1
    decreases |s|
  {
    match IndexOf(s, sep)
    case None => [s]
    case Some(i) => [s[..i]] + Split(s[i + |sep|..], sep)
  }

  /** No piece of a split contains the separator. */
  lemma {:induction false} SplitFree(s: string, sep: string)
    requires |sep| > 0
    ensures forall k :: 0 <= k < |Split(s, sep)| ==> Free(Split(s, sep)[k], sep)
    decreases |s|
  {
    match IndexOf(s, sep)
    case None =>
    case Some(i) =>
      var rest := s[i + |sep|..];
      var r := Split(s, sep);
      assert r == [s[..i]] + Split(rest, sep);
      assert Free(s[..i], sep) by {
        forall j ensures !MatchAt(s[..i], sep, j) {
          assert s == s[..i] + s[i..];
          if j >= 0 && j + |sep| <= i { MatchAppend(s[..i], s[i..], sep, j); }
        }
      }
      SplitFree(rest, sep);
      forall k | 0 < k < |r| ensures Free(r[k], sep) {
        assert r[k] == Split(rest, sep)[k - 1];
      }
  }

  /** `xs.join(sep)`. */
  function Join(xs: seq<string>, sep: string): string
  {
    if |xs| == 0 then "" else if |xs| == 1 then xs[0] else xs[0] + sep + Join(xs[1..], sep)
  }

  /** Splitting loses nothing: joining the pieces back with the separator
      gives the original string. */
  lemma {:induction false} SplitJoin(s: string, sep: string)
    requires |sep| > 0
    ensures Join(Split(s, sep), sep) == s
    decreases |s|
  {
    match IndexOf(s, sep)
    case None =>
    case Some(i) =>
      var rest := s[i + |sep|..];
      assert s == s[..i] + sep + rest by {
        assert s[i..i + |sep|] == sep;
        Cut3(s, i, i + |sep|);
      }
      SplitJoin(rest, sep);
      JoinCons(s[..i], Split(rest, sep), sep);
  }

  /** A string is the concatenation of its three slices at `i` and `j`. */
  lemma Cut3(s: string, i: nat, j: nat)
    requires i <= j <= |s|
    ensures s == s[..i] + s[i..j] + s[j..]
  {
    assert s[..i] + s[i..j] == s[..j];
  }

  /** When there is a second piece, the string is the first piece, the
      separator, and a remainder whose split is the other pieces. */
  lemma SplitCons(s: string, sep: string)
    requires |sep| > 0 && |Split(s, sep)| >= 2
    ensures var r := Split(s, sep);
            IndexOf(s, sep) == Some(|r[0]|)
            && s == r[0] + sep + s[|r[0]| + |sep|..]
            && Split(s[|r[0]| + |sep|..], sep) == r[1..]
  {
    assert IndexOf(s, sep).Some?;
    var i := IndexOf(s, sep).value;
    var rest := s[i + |sep|..];
    assert Split(s, sep) == [s[..i]] + Split(rest, sep);
    assert s[i..i + |sep|] == sep;
    assert s == s[..i] + s[i..i + |sep|] + rest;
  }

  /** Where the second separator of `s` starts. */
  function SecondSep(s: string, sep: string): nat
    requires |sep| > 0 && |Split(s, sep)| >= 3
  {
    var r := Split(s, sep);
    |r[0]| + |sep| + |r[1]|
  }

  /** Cutting the string just before its second separator keeps its first
      two pieces and nothing more. */
  lemma {:induction false} SplitCutSecond(s: string, sep: string)
    requires |sep| > 0 && |Split(s, sep)| >= 3
    ensures SecondSep(s, sep) <= |s|
    ensures Split(s[..SecondSep(s, sep)], sep) == Split(s, sep)[..2]
  {
    var r := Split(s, sep);
    var x, y := r[0], r[1];
    var n := |x| + |sep| + |y|;
    assert n <= |s| && Split(s[..n], sep) == r[..2] by {
    SplitCons(s, sep);
    var rest := s[|x| + |sep|..];
    assert Split(rest, sep) == r[1..];
    SplitCons(rest, sep);
    assert |rest| >= |y| + |sep|;
    IndexOfPrefix(s, sep, n);
    assert IndexOf(s[..n], sep) == Some(|x|);
    FirstPieceFree(rest, sep);
    assert Free(y, sep);
    PrefixOfParts(s, x, sep, rest, y);
    SplitTwo(s[..n], sep, x, y);
    assert r[..2] == [x, y];
    }
  }

  lemma PrefixOfParts(s: string, x: string, sep: string, rest: string, y: string)
    requires s == x + sep + rest && |y| + |sep| <= |rest| && rest[..|y|] == y
    ensures s[..|x| + |sep| + |y|] == x + sep + y
  {
    assert s[..|x| + |sep| + |y|] == x + sep + rest[..|y|];
  }

  /** Two pieces: the separator occurs first right after `x`, and not in `y`. */
  lemma SplitTwo(s: string, sep: string, x: string, y: string)
    requires |sep| > 0 && s == x + sep + y && IndexOf(s, sep) == Some(|x|) && Free(y, sep)
    ensures Split(s, sep) == [x, y]
  {
    SplitAt(s, sep, |x|);
    assert s[..|x|] == x;
    assert s[|x| + |sep|..] == y;
    SplitOne(y, sep);
  }

  /** One step of a split: the piece before the first separator, then the
      split of what follows it. */
  lemma SplitAt(s: string, sep: string, i: nat)
    requires |sep| > 0 && IndexOf(s, sep) == Some(i)
    ensures Split(s, sep) == [s[..i]] + Split(s[i + |sep|..], sep)
  {
  }

  /** The first piece of a split holds no separator. */
  lemma FirstPieceFree(s: string, sep: string)
    requires |sep| > 0
    ensures Free(Split(s, sep)[0], sep)
  {
    match IndexOf(s, sep)
    case None =>
    case Some(i) =>
      forall j ensures !MatchAt(s[..i], sep, j) {
        assert s == s[..i] + s[i..];
        if j >= 0 && j + |sep| <= i { MatchAppend(s[..i], s[i..], sep, j); }
      }
  }

  /** A string without the separator is its own only piece. */
  lemma SplitOne(s: string, sep: string)
    requires |sep| > 0 && Free(s, sep)
    ensures Split(s, sep) == [s]
  {
  }

  /** Every character of every piece is a character of the string. */
  lemma {:induction false} SplitChars(s: string, sep: string)
    requires |sep| > 0
    ensures forall k, c :: 0 <= k < |Split(s, sep)| && c in Split(s, sep)[k] ==> c in s
    decreases |s|
  {
    match IndexOf(s, sep)
    case None =>
    case Some(i) =>
      SplitChars(s[i + |sep|..], sep);
      forall c | c in s[..i] ensures c in s { }
      forall c | c in s[i + |sep|..] ensures c in s { }
  }

  /** Join distributes over sequences of pieces of the same shape. */
  lemma JoinCons(x: string, xs: seq<string>, sep: string)
    requires |xs| > 0
    ensures Join([x] + xs, sep) == x + sep + Join(xs, sep)
  {
    assert ([x] + xs)[1..] == xs;
  }

  /** No match can start where the first character of `pat` is missing. */
  lemma NoMatchBefore(s: string, pat: string, n: int)
    requires |pat| > 0 && n <= |s|
    requires forall j :: 0 <= j < n ==> s[j] != pat[0]
    ensures forall j :: j < n ==> !MatchAt(s, pat, j)
  {
    forall j | j < n ensures !MatchAt(s, pat, j) {
      if 0 <= j && j + |pat| <= |s| { assert s[j..j + |pat|][0] == s[j]; }
    }
  }

  /** A match with none before it is what `indexOf` finds. */
  lemma IndexOfAt(s: string, pat: string, i: nat)
    requires |pat| > 0 && MatchAt(s, pat, i)
    requires forall j :: j < i ==> !MatchAt(s, pat, j)
    ensures IndexOf(s, pat) == Some(i)
  {
  }

  /** Joining is undone by splitting when no piece holds the separator's
      first character: then every occurrence of the separator in the join
      is one that the join put there. */
  lemma {:induction false} JoinSplit(xs: seq<string>, sep: string)
    requires |sep| > 0 && |xs| > 0
    requires forall k :: 0 <= k < |xs| ==> sep[0] !in xs[k]
    ensures Split(Join(xs, sep), sep) == xs
    decreases |xs|
  {
    var x := xs[0];
    assert sep[0] !in x;
    if |xs| == 1 {
      NoMatchBefore(x, sep, |x|);
      assert IndexOf(x, sep) == None;
    } else {
      var rest := Join(xs[1..], sep);
      var s := x + sep + rest;
      assert Join(xs, sep) == s;
      assert s[|x|..|x| + |sep|] == sep;
      assert forall j :: 0 <= j < |x| ==> s[j] == x[j];
      NoMatchBefore(s, sep, |x|);
      IndexOfAt(s, sep, |x|);
      assert s[|x| + |sep|..] == rest;
      assert forall k :: 0 <= k < |xs| - 1 ==> xs[1..][k] == xs[k + 1];
      JoinSplit(xs[1..], sep);
      assert s[..|x|] == x;
      assert Split(s, sep) == [x] + Split(rest, sep);
      assert [x] + xs[1..] == xs;
    }
  }

  // ---------------------------------------------------------------------
  // replace(/pat/g, rep) for a literal pattern

  /** A global replace of the literal `pat`: scanning left to right, each
      occurrence is replaced by `rep` and scanning resumes after it. */
  function ReplaceAll(s: string, pat: string, rep: string): string
    requires |pat| > 0
    decreases |s|
  {
    if |s| < |pat| then s
    else if s[..|pat|] == pat then rep + ReplaceAll(s[|pat|..], pat, rep)
    else [s[0]] + ReplaceAll(s[1..], pat, rep)
  }

  /** Text in which no occurrence of `pat` starts is copied unchanged. */
  lemma {:induction false} ReplaceAllSkip(x: string, r: string, pat: string, rep: string)
    requires |pat| > 0
    requires forall j :: 0 <= j < |x| ==> !MatchAt(x + r, pat, j)
    ensures ReplaceAll(x + r, pat, rep) == x + ReplaceAll(r, pat, rep)
    decreases |x|
  {
    if x != [] {
      var y := x + r;
      assert !MatchAt(y, pat, 0);
      assert x[1..] + r == y[1..];
      forall j | 0 <= j < |x| - 1 ensures !MatchAt(y[1..], pat, j) {
        assert !MatchAt(y, pat, j + 1);
        MatchShift(y, pat, j);
      }
      ReplaceAllSkip(x[1..], r, pat, rep);
      if |y| >= |pat| {
        assert y[..|pat|] != pat;
        calc {
          ReplaceAll(y, pat, rep);
          [y[0]] + ReplaceAll(y[1..], pat, rep);
          [x[0]] + (x[1..] + ReplaceAll(r, pat, rep));
          { assert [x[0]] + x[1..] == x; }
          x + ReplaceAll(r, pat, rep);
        }
      }
    } else {
      assert x + r == r;
    }
  }

  /** The global replace is the split on `pat` joined back with `rep`:
      every occurrence found by the left-to-right scan is replaced, and the
      text between them is kept as it is. */
  lemma {:induction false} ReplaceAllIsSplitJoin(s: string, pat: string, rep: string)
    requires |pat| > 0
    ensures ReplaceAll(s, pat, rep) == Join(Split(s, pat), rep)
    decreases |s|
  {
    match IndexOf(s, pat)
    case None =>
      assert s == s + [];
      ReplaceAllSkip(s, [], pat, rep);
    case Some(i) =>
      var rest, x, y := s[i + |pat|..], s[..i], s[i..];
      assert ReplaceAll(s, pat, rep) == x + ReplaceAll(y, pat, rep) by {
        assert s == x + y;
        forall j | 0 <= j < i ensures !MatchAt(x + y, pat, j) { }
        ReplaceAllSkip(x, y, pat, rep);
      }
      assert ReplaceAll(y, pat, rep) == rep + ReplaceAll(rest, pat, rep) by {
        assert y[..|pat|] == pat;
        assert y[|pat|..] == rest;
      }
      ReplaceAllIsSplitJoin(rest, pat, rep);
      JoinCons(x, Split(rest, pat), rep);
  }

  /** A one-character pattern is replaced character by character. */
  lemma ReplaceCharCons(s: string, c: char, rep: string)
    requires s != []
    ensures ReplaceAll(s, [c], rep) == (if s[0] == c then rep else [s[0]]) + ReplaceAll(s[1..], [c], rep)
  {
    assert s[..1] == [c] <==> s[0] == c;
  }

  /** A one-character replace distributes over concatenation. */
  lemma {:induction false} ReplaceCharAppend(a: string, b: string, c: char, rep: string)
    ensures ReplaceAll(a + b, [c], rep) == ReplaceAll(a, [c], rep) + ReplaceAll(b, [c], rep)
    decreases |a|
  {
    if a != [] {
      ReplaceCharCons(a + b, c, rep);
      ReplaceCharCons(a, c, rep);
      assert (a + b)[1..] == a[1..] + b;
      ReplaceCharAppend(a[1..], b, c, rep);
    } else {
      assert a + b == b;
    }
  }

  /** A string without the character is left unchanged. */
  lemma {:induction false} ReplaceCharAbsent(s: string, c: char, rep: string)
    requires c !in s
    ensures ReplaceAll(s, [c], rep) == s
    decreases |s|
  {
    if s != [] {
      ReplaceCharCons(s, c, rep);
      ReplaceCharAbsent(s[1..], c, rep);
    }
  }

  // ---------------------------------------------------------------------
  // split(/\n\n+/)

  /** A run of `n` line feeds. */
  function Newlines(n: nat): (r: string)
    ensures |r| == n && forall i :: 0 <= i < n ==> r[i] == '\n'
  {
    seq(n, _ => '\n')
  }

  /** The length of the run of line feeds at the start of `s`. */
  function LeadingNewlines(s: string): (n: nat)
    ensures n <= |s| && s[..n] == Newlines(n)
    ensures n == |s| || s[n] != '\n'
    decreases |s|
  {
    if s != [] && s[0] == '\n' then
      var m := LeadingNewlines(s[1..]);
      assert s[..m + 1] == [s[0]] + s[1..][..m];
      1 + m
    else 0
  }

  /** A blank line starts a run of at least two line feeds. */
  lemma RunAt(s: string, i: int)
    requires MatchAt(s, "\n\n", i)
    ensures LeadingNewlines(s[i..]) >= 2
  {
    var t := s[i..];
    assert t[0] == s[i..i + 2][0] && t[1] == s[i..i + 2][1];
    assert t[1..][0] == '\n';
  }

  /** `s.split(/\n\n+/)`: the regular expression matches, leftmost first,
      a whole run of two or more line feeds, so the pieces are the text
      between maximal runs of at least two line feeds. No piece holds two
      line feeds in a row, every piece but the last stops short of a line
      feed, and the first piece is a prefix of `s`. */
  function SplitBlank(s: string): (r: seq<string>)
    ensures |r| >= 1
    ensures |r[0]| <= |s| && r[0] == s[..|r[0]|]
    decreases |s|
  {
    match IndexOf(s, "\n\n")
    case None => [s]
    case Some(i) =>
      var n := LeadingNewlines(s[i..]);
      RunAt(s, i);
      [s[..i]] + SplitBlank(s[i + n..])
  }

  /** No piece of the blank-line split holds two line feeds in a row. */
  lemma {:induction false} SplitBlankFree(s: string)
    ensures forall k :: 0 <= k < |SplitBlank(s)| ==> Free(SplitBlank(s)[k], "\n\n")
    decreases |s|
  {
    match IndexOf(s, "\n\n")
    case None =>
    case Some(i) =>
      var n := LeadingNewlines(s[i..]);
      RunAt(s, i);
      SplitBlankFree(s[i + n..]);
      var r' := SplitBlank(s[i + n..]);
      var r := SplitBlank(s);
      assert r == [s[..i]] + r';
      assert Free(s[..i], "\n\n") by {
        forall j | 0 <= j && j + 2 <= i ensures !MatchAt(s[..i], "\n\n", j) {
          assert !MatchAt(s, "\n\n", j);
          assert s[..i][j..j + 2] == s[j..j + 2];
        }
      }
      forall k | 0 < k < |r| ensures Free(r[k], "\n\n") {
        assert r[k] == r'[k - 1];
        assert Free(r'[k - 1], "\n\n");
      }
  }

  /** `p` does not end with a line feed. */
  predicate EndsClear(p: string) { p == [] || p[|p| - 1] != '\n' }

  /** `p` does not start with a line feed. */
  predicate StartsClear(p: string) { p == [] || p[0] != '\n' }

  /** The runs taken out are maximal at their end: every piece but the
      first starts with something other than a line feed. */
  lemma {:induction false} SplitBlankStarts(s: string)
    ensures forall k :: 0 < k < |SplitBlank(s)| ==> StartsClear(SplitBlank(s)[k])
    decreases |s|
  {
    match IndexOf(s, "\n\n")
    case None =>
      assert SplitBlank(s) == [s];
    case Some(i) =>
      var n := LeadingNewlines(s[i..]);
      RunAt(s, i);
      var r', r := SplitBlank(s[i + n..]), SplitBlank(s);
      assert r == [s[..i]] + r';
      assert StartsClear(r'[0]) by {
        if r'[0] != [] { assert r'[0][0] == s[i + n..][0] == s[i..][n]; }
      }
      SplitBlankStarts(s[i + n..]);
      forall k | 0 < k < |r| ensures StartsClear(r[k]) {
        assert r[k] == r'[k - 1];
      }
  }

  /** The runs taken out are maximal at their start: every piece but the
      last ends on something other than a line feed. */
  lemma {:induction false} SplitBlankEnds(s: string)
    ensures forall k :: 0 <= k < |SplitBlank(s)| - 1 ==> EndsClear(SplitBlank(s)[k])
    decreases |s|
  {
    match IndexOf(s, "\n\n")
    case None =>
      assert SplitBlank(s) == [s];
    case Some(i) =>
      var n := LeadingNewlines(s[i..]);
      RunAt(s, i);
      var r', r := SplitBlank(s[i + n..]), SplitBlank(s);
      assert r == [s[..i]] + r';
      assert EndsClear(s[..i]) by {
        if i > 0 {
          assert !MatchAt(s, "\n\n", i - 1);
          assert s[i] == s[i..i + 2][0] == '\n';
          assert s[i - 1..i + 1] == [s[i - 1], s[i]];
        }
      }
      SplitBlankEnds(s[i + n..]);
      forall k | 0 < k < |r| - 1 ensures EndsClear(r[k]) {
        assert r[k] == r'[k - 1];
      }
  }

  /** Only the first and the last piece can be empty: a run of line feeds
      is cut out whole, so two cuts are never adjacent. */
  lemma {:induction false} SplitBlankMiddle(s: string)
    ensures forall k :: 0 < k < |SplitBlank(s)| - 1 ==> SplitBlank(s)[k] != []
    decreases |s|
  {
    match IndexOf(s, "\n\n")
    case None =>
    case Some(i) =>
      var n := LeadingNewlines(s[i..]);
      SplitBlankAt(s, i, n);
      var rest := s[i + n..];
      var r', r := SplitBlank(rest), SplitBlank(s);
      SplitBlankMiddle(rest);
      assert rest == [] || rest[0] != '\n' by {
        if rest != [] { assert rest[0] == s[i..][n]; }
      }
      if |r'| >= 2 {
        SplitBlankHead(rest);
      }
      forall k | 0 < k < |r| - 1 ensures r[k] != [] {
        assert r[k] == r'[k - 1];
      }
  }

  /** Text that does not start with a line feed and holds a blank line has
      a non-empty first piece. */
  lemma SplitBlankHead(t: string)
    requires |SplitBlank(t)| >= 2 && (t == [] || t[0] != '\n')
    ensures SplitBlank(t)[0] != []
  {
    assert IndexOf(t, "\n\n").Some?;
    var i := IndexOf(t, "\n\n").value;
    SplitBlankAt(t, i, LeadingNewlines(t[i..]));
    assert t[i] == t[i..i + 2][0];
    assert i > 0;
  }

  /** The lengths of the line-feed runs that `SplitBlank` cut out. */
  function BlankGaps(s: string): (g: seq<nat>)
    ensures forall k :: 0 <= k < |g| ==> g[k] >= 2
    decreases |s|
  {
    match IndexOf(s, "\n\n")
    case None => []
    case Some(i) =>
      var n := LeadingNewlines(s[i..]);
      RunAt(s, i);
      [n] + BlankGaps(s[i + n..])
  }

  /** The pieces with the runs of line feeds put back between them. */
  function Interleave(pieces: seq<string>, gaps: seq<nat>): string
    requires |pieces| == |gaps| + 1
  {
    if |gaps| == 0 then pieces[0]
    else pieces[0] + Newlines(gaps[0]) + Interleave(pieces[1..], gaps[1..])
  }

  /** The blank-line split loses nothing but the exact length of each run:
      putting runs of the recorded lengths (each at least two) back between
      the pieces gives the original text. */
  lemma {:induction false} SplitBlankRebuild(s: string)
    ensures |SplitBlank(s)| == |BlankGaps(s)| + 1
    ensures Interleave(SplitBlank(s), BlankGaps(s)) == s
    decreases |s|
  {
    match IndexOf(s, "\n\n")
    case None =>
    case Some(i) =>
      var n := LeadingNewlines(s[i..]);
      SplitBlankAt(s, i, n);
      SplitBlankRebuild(s[i + n..]);
  }

  /** One step of the blank-line split: the text before the first blank
      line, the whole run of line feeds there, and the rest. */
  lemma SplitBlankAt(s: string, i: nat, n: nat)
    requires IndexOf(s, "\n\n") == Some(i) && n == LeadingNewlines(s[i..])
    ensures 2 <= n && i + n <= |s|
    ensures SplitBlank(s) == [s[..i]] + SplitBlank(s[i + n..])
    ensures BlankGaps(s) == [n] + BlankGaps(s[i + n..])
    ensures s == s[..i] + Newlines(n) + s[i + n..]
  {
    RunAt(s, i);
    CutRun(s, i, n);
  }

  /** A string cut before and after a run that starts at `i`. */
  lemma CutRun(s: string, i: nat, n: nat)
    requires i + n <= |s|
    ensures s == s[..i] + s[i..][..n] + s[i + n..]
  {
    assert s[i..] == s[i..][..n] + s[i + n..];
  }


}
