/** `escapeHtml` (build.js): the three HTML-significant characters are
    replaced by their entities, by three global replaces in a fixed order. */
module Html {
  import opened Text

  /** What escaping makes of one character. */
  function EntityOf(c: char): string
  {
    if c == '&' then "&amp;" else if c == '<' then "&lt;" else if c == '>' then "&gt;" else [c]
  }

  /** Reference definition: every character replaced by its entity, one at
      a time, independently of the others. */
  function EscapeEach(s: string): string
  {
    if s == [] then [] else EntityOf(s[0]) + EscapeEach(s[1..])
  }

  /** `escapeHtml`: replace every `&`, then every `<`, then every `>`.
      Because `&` goes first, the `&` of an entity written by a later step
      is never escaped again, so the chain escapes each character once. */
  function Escape(s: string): (r: string)
    ensures r == EscapeEach(s)
  {
    EscapeChain(s);
    ReplaceAll(ReplaceAll(ReplaceAll(s, "&", "&amp;"), "<", "&lt;"), ">", "&gt;")
  }

  /** The chain of replaces on a single character. */
  lemma EscapeOne(c: char)
    ensures ReplaceAll(ReplaceAll(ReplaceAll([c], "&", "&amp;"), "<", "&lt;"), ">", "&gt;") == EntityOf(c)
  {
    ReplaceCharCons([c], '&', "&amp;");
    var a := ReplaceAll([c], "&", "&amp;");
    assert a == (if c == '&' then "&amp;" else [c]);
    if c == '<' {
      ReplaceCharCons(a, '<', "&lt;");
      assert ReplaceAll(a[1..], "<", "&lt;") == [];
      assert ReplaceAll(a, "<", "&lt;") == "&lt;";
      ReplaceCharAbsent("&lt;", '>', "&gt;");
    } else {
      ReplaceCharAbsent(a, '<', "&lt;");
      if c == '>' {
        ReplaceCharCons(a, '>', "&gt;");
      } else {
        ReplaceCharAbsent(a, '>', "&gt;");
      }
    }
  }

  /** The chain of replaces escapes character by character. */
  lemma {:induction false} EscapeChain(s: string)
    ensures ReplaceAll(ReplaceAll(ReplaceAll(s, "&", "&amp;"), "<", "&lt;"), ">", "&gt;") == EscapeEach(s)
    decreases |s|
  {
    if s != [] {
      var c, t := s[0], s[1..];
      assert s == [c] + t;
      ReplaceCharAppend([c], t, '&', "&amp;");
      var a1, b1 := ReplaceAll([c], "&", "&amp;"), ReplaceAll(t, "&", "&amp;");
      ReplaceCharAppend(a1, b1, '<', "&lt;");
      var a2, b2 := ReplaceAll(a1, "<", "&lt;"), ReplaceAll(b1, "<", "&lt;");
      ReplaceCharAppend(a2, b2, '>', "&gt;");
      EscapeOne(c);
      EscapeChain(t);
    }
  }

  /** `r` holds one of the three entities at index `i`. */
  predicate EntityAt(r: string, i: nat)
    requires i <= |r|
  {
    var rest := r[i..];
    (|rest| >= 5 && rest[..5] == "&amp;") || (|rest| >= 4 && rest[..4] == "&lt;")
    || (|rest| >= 4 && rest[..4] == "&gt;")
  }

  /** Escaped text is safe to put between tags: it holds no `<` and no `>`,
      and every `&` in it begins `&amp;`, `&lt;` or `&gt;`. */
  lemma {:induction false} EscapeSafe(s: string)
    ensures '<' !in Escape(s) && '>' !in Escape(s)
    ensures forall i :: 0 <= i < |Escape(s)| && Escape(s)[i] == '&' ==> EntityAt(Escape(s), i)
    decreases |s|
  {
    if s != [] {
      var e, rest := EntityOf(s[0]), Escape(s[1..]);
      var r := e + rest;
      assert Escape(s) == r;
      EscapeSafe(s[1..]);
      assert '<' !in e && '>' !in e;
      assert forall i :: 0 <= i < |r| && r[i] == '&' ==> EntityAt(r, i) by {
        forall i | 0 <= i < |r| && r[i] == '&' ensures EntityAt(r, i) {
          if i < |e| {
            assert i == 0 && r[..|e|] == e;
          } else {
            EntityShift(e, rest, i);
          }
        }
      }
    }
  }

  /** An entity of the second part is one of the whole. */
  lemma EntityShift(e: string, rest: string, i: nat)
    requires |e| <= i < |e| + |rest| && EntityAt(rest, i - |e|)
    ensures EntityAt(e + rest, i)
  {
    assert (e + rest)[i..] == rest[i - |e|..];
  }

  /** Text without `&`, `<` and `>` is not changed by escaping. */
  lemma {:induction false} EscapePlain(s: string)
    requires '&' !in s && '<' !in s && '>' !in s
    ensures Escape(s) == s
    decreases |s|
  {
    if s != [] {
      EscapePlain(s[1..]);
      assert s == [s[0]] + s[1..];
    }
  }

  /** Decoding of the three entities `escapeHtml` writes. */
  function Unescape(s: string): string
    decreases |s|
  {
    if s == [] then []
    else if |s| >= 5 && s[..5] == "&amp;" then "&" + Unescape(s[5..])
    else if |s| >= 4 && s[..4] == "&lt;" then "<" + Unescape(s[4..])
    else if |s| >= 4 && s[..4] == "&gt;" then ">" + Unescape(s[4..])
    else [s[0]] + Unescape(s[1..])
  }

  /** Escaping loses nothing: decoding the entities gives the text back. */
  lemma {:induction false} UnescapeEscape(s: string)
    ensures Unescape(Escape(s)) == s
    decreases |s|
  {
    if s != [] {
      var c, rest := s[0], Escape(s[1..]);
      var r := EntityOf(c) + rest;
      assert Escape(s) == r;
      UnescapeEscape(s[1..]);
      if c == '&' {
        assert r[..5] == "&amp;" && r[5..] == rest;
        assert Unescape(r) == [c] + Unescape(rest);
      } else if c == '<' {
        assert r[..4] == "&lt;" && r[4..] == rest;
        assert !(|r| >= 5 && r[..5] == "&amp;") by { if |r| >= 5 { assert r[..5][1] == 'l'; } }
        assert Unescape(r) == [c] + Unescape(rest);
      } else if c == '>' {
        assert r[..4] == "&gt;" && r[4..] == rest;
        assert !(|r| >= 5 && r[..5] == "&amp;") by { if |r| >= 5 { assert r[..5][1] == 'g'; } }
        assert r[..4] != "&lt;" by { assert r[..4][1] == 'g'; }
        assert Unescape(r) == [c] + Unescape(rest);
      } else {
        assert r[0] == c && r[1..] == rest;
        assert !(|r| >= 5 && r[..5] == "&amp;") by { if |r| >= 5 { assert r[..5][0] == c; } }
        assert !(|r| >= 4 && r[..4] == "&lt;") by { if |r| >= 4 { assert r[..4][0] == c; } }
        assert !(|r| >= 4 && r[..4] == "&gt;") by { if |r| >= 4 { assert r[..4][0] == c; } }
        assert Unescape(r) == [c] + Unescape(rest);
      }
      assert s == [c] + s[1..];
    }
  }
}
