/** Counting the tags in rendered HTML. The renderers build their output by
    concatenating escaped text (which holds no `<`) with literal markup
    whose every `<` is closed by a `>`; for such strings the number of
    occurrences of a tag is the sum over the parts. */
module Markup {
  import opened Text

  /** A tag: `<`, a body holding neither `<` nor `>`, then `>`. */
  predicate IsTag(t: string)
  {
    |t| >= 2 && t[0] == '<' && t[|t| - 1] == '>'
    && forall i :: 0 < i < |t| - 1 ==> t[i] != '<' && t[i] != '>'
  }

  /** Every `<` of `s` is closed by a later `>` of `s`. */
  ghost predicate Closed(s: string)
  {
    forall j :: 0 <= j < |s| && s[j] == '<' ==> exists k :: j < k < |s| && s[k] == '>'
  }

  /** The number of places at which `pat` occurs in `s`. */
  function Count(s: string, pat: string): nat
    requires |pat| > 0
    decreases |s|
  {
    if |s| < |pat| then 0
    else (if s[..|pat|] == pat then 1 else 0) + Count(s[1..], pat)
  }

  /** `Count` counts occurrences: it is zero exactly when `pat` does not
      occur, and one occurrence makes it positive. */
  lemma {:induction false} CountZero(s: string, pat: string)
    requires |pat| > 0
    ensures Count(s, pat) == 0 <==> Free(s, pat)
    decreases |s|
  {
    if |s| >= |pat| {
      CountZero(s[1..], pat);
      assert MatchAt(s, pat, 0) <==> s[..|pat|] == pat;
      forall j | j >= 0 ensures MatchAt(s[1..], pat, j) <==> MatchAt(s, pat, j + 1) {
        MatchShift(s, pat, j);
      }
      if Free(s, pat) {
        assert Free(s[1..], pat);
      } else {
        var j :| MatchAt(s, pat, j);
        if j > 0 { assert MatchAt(s[1..], pat, j - 1); }
      }
    } else {
      assert forall j :: !MatchAt(s, pat, j);
    }
  }

  /** Text with no `<` is closed and holds no tag. */
  lemma {:induction false} CountPlain(s: string, pat: string)
    requires '<' !in s && IsTag(pat)
    ensures Closed(s) && Count(s, pat) == 0
    decreases |s|
  {
    if |s| >= |pat| {
      assert s[..|pat|] != pat by { assert s[..|pat|][0] == s[0]; }
      CountPlain(s[1..], pat);
    }
  }

  /** A closed string and anything after it: no occurrence of a tag can
      start in the first part and end in the second, because the `>` that
      closes the first part's last `<` would have to sit inside the tag. */
  lemma {:induction false} CountAppend(a: string, b: string, pat: string)
    requires IsTag(pat) && Closed(a)
    ensures Count(a + b, pat) == Count(a, pat) + Count(b, pat)
    decreases |a|
  {
    var y := a + b;
    if a == [] {
      assert y == b;
    } else if |y| >= |pat| {
      assert y[1..] == a[1..] + b;
      assert Closed(a[1..]) by {
        forall j | 0 <= j < |a| - 1 && a[1..][j] == '<' ensures exists k :: j < k < |a| - 1 && a[1..][k] == '>' {
          assert a[j + 1] == '<';
          var k :| j + 1 < k < |a| && a[k] == '>';
          assert a[1..][k - 1] == '>';
        }
      }
      CountAppend(a[1..], b, pat);
      if |a| >= |pat| {
        assert y[..|pat|] == a[..|pat|];
      } else {
        assert y[..|pat|] != pat by {
          if a[0] != '<' {
            assert y[..|pat|][0] != pat[0];
          } else {
            var k :| 0 < k < |a| && a[k] == '>';
            assert y[..|pat|][k] == '>' != pat[k];
          }
        }
        assert Count(a[1..], pat) == 0;
      }
    } else {
      assert Count(b, pat) == 0;
    }
  }

  /** Closed strings stay closed when put together. */
  lemma ClosedAppend(a: string, b: string)
    requires Closed(a) && Closed(b)
    ensures Closed(a + b)
  {
    var y := a + b;
    forall j | 0 <= j < |y| && y[j] == '<' ensures exists k :: j < k < |y| && y[k] == '>' {
      if j < |a| {
        assert a[j] == '<';
        var k :| j < k < |a| && a[k] == '>';
        assert y[k] == '>';
      } else {
        assert b[j - |a|] == '<';
        var k :| j - |a| < k < |b| && b[k] == '>';
        assert y[k + |a|] == '>';
      }
    }
  }

  /** Putting two closed strings together adds up their tags. */
  lemma CountConcat(a: string, b: string, pat: string)
    requires IsTag(pat) && Closed(a) && Closed(b)
    ensures Closed(a + b) && Count(a + b, pat) == Count(a, pat) + Count(b, pat)
  {
    CountAppend(a, b, pat);
    ClosedAppend(a, b);
  }

  /** The same for three strings. */
  lemma CountConcat3(a: string, b: string, c: string, pat: string)
    requires IsTag(pat) && Closed(a) && Closed(b) && Closed(c)
    ensures Closed(a + b + c) && Count(a + b + c, pat) == Count(a, pat) + Count(b, pat) + Count(c, pat)
  {
    CountConcat(b, c, pat);
    CountConcat(a, b + c, pat);
    assert a + b + c == a + (b + c);
  }

  /** Literal markup: a tag with plain text around it is closed and holds
      the tag `pat` once if it is that tag, and not at all otherwise. */
  lemma CountPiece(x: string, t: string, z: string, pat: string)
    requires '<' !in x && '<' !in z && IsTag(t) && IsTag(pat)
    ensures Closed(x + t + z)
    ensures Count(x + t + z, pat) == if t == pat then 1 else 0
  {
    CountPlain(x, pat);
    CountPlain(z, pat);
    assert Closed(t) by {
      forall j | 0 <= j < |t| && t[j] == '<' ensures exists k :: j < k < |t| && t[k] == '>' {
        assert t[|t| - 1] == '>';
      }
    }
    assert '<' !in t[1..] by {
      forall i | 0 <= i < |t| - 1 ensures t[1..][i] != '<' { assert t[1..][i] == t[i + 1]; }
    }
    CountPlain(t[1..], pat);
    if |t| >= |pat| && t[..|pat|] == pat {
      assert t[|pat| - 1] == '>';
      assert |pat| == |t|;
    }
    CountAppend(t, z, pat);
    ClosedAppend(t, z);
    CountAppend(x, t + z, pat);
    ClosedAppend(x, t + z);
    assert x + t + z == x + (t + z);
  }

  /** Closed pieces joined by a closed separator give a closed string. */
  lemma {:induction false} ClosedJoin(xs: seq<string>, sep: string)
    requires Closed(sep) && forall i :: 0 <= i < |xs| ==> Closed(xs[i])
    ensures Closed(Join(xs, sep))
    decreases |xs|
  {
    if |xs| == 0 {
      assert Closed("");
    } else if |xs| >= 2 {
      var rest := Join(xs[1..], sep);
      assert forall i :: 0 <= i < |xs| - 1 ==> xs[1..][i] == xs[i + 1];
      ClosedJoin(xs[1..], sep);
      ClosedAppend(sep, rest);
      ClosedAppend(xs[0], sep + rest);
      assert Join(xs, sep) == xs[0] + (sep + rest);
    }
  }

  /** Pieces joined by a separator: the tags of the join are those of the
      pieces and of the separators between them. */
  lemma {:induction false} CountJoin(xs: seq<string>, sep: string, pat: string, c: nat)
    requires IsTag(pat) && Closed(sep)
    requires forall i :: 0 <= i < |xs| ==> Closed(xs[i]) && Count(xs[i], pat) == c
    ensures |xs| > 0 ==> Count(Join(xs, sep), pat) == c * |xs| + (|xs| - 1) * Count(sep, pat)
    ensures |xs| == 0 ==> Count(Join(xs, sep), pat) == 0
    decreases |xs|
  {
    if |xs| >= 2 {
      var rest, m, n := Join(xs[1..], sep), Count(sep, pat), |xs| - 1;
      var total, r := Count(Join(xs, sep), pat), Count(rest, pat);
      assert r == c * n + (n - 1) * m by {
        assert forall i :: 0 <= i < n ==> xs[1..][i] == xs[i + 1];
        CountJoin(xs[1..], sep, pat, c);
      }
      assert total == c + (m + r) by {
        CountAppend(sep, rest, pat);
        CountAppend(xs[0], sep + rest, pat);
        assert Join(xs, sep) == xs[0] + (sep + rest);
      }
      JoinArith(total, r, c, m, n, |xs|);
    }
  }

  /** The count of a join from the count of its first piece, the separator
      after it and the join of the other pieces. */
  lemma JoinArith(total: int, rest: int, c: int, m: int, n: int, k: int)
    requires k == n + 1 && total == c + (m + rest) && rest == c * n + (n - 1) * m
    ensures total == c * k + (k - 1) * m
  {
  }

  /** Lines without `<` joined by a separator hold the separator's tags once
      per line break. */
  lemma CountLines(lines: seq<string>, sep: string, pat: string)
    requires IsTag(pat) && Closed(sep)
    requires forall i :: 0 <= i < |lines| ==> '<' !in lines[i]
    ensures Closed(Join(lines, sep))
    ensures |lines| > 0 ==> Count(Join(lines, sep), pat) == (|lines| - 1) * Count(sep, pat)
  {
    forall i | 0 <= i < |lines| ensures Closed(lines[i]) && Count(lines[i], pat) == 0 {
      CountPlain(lines[i], pat);
    }
    ClosedJoin(lines, sep);
    CountJoin(lines, sep, pat, 0);
  }
}
