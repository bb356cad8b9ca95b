/** `render` (build.js): for each entry of the variables, in order, every
    `{{key}}` in the template is replaced by the value. */
module Template {
  import opened Text

  /** The placeholder for `key`. */
  function Token(key: string): (t: string)
    ensures |t| == |key| + 4
  {
    "{{" + key + "}}"
  }

  /** The template after the replaces for the entries of `vars`, one entry
      after the other. */
  function Rendered(template: string, vars: seq<(string, string)>): string
    decreases |vars|
  {
    if vars == [] then template
    else
      var last := vars[|vars| - 1];
      ReplaceAll(Rendered(template, vars[..|vars| - 1]), Token(last.0), last.1)
  }

  /** `render`: the template is rewritten once per entry, in order. */
  method Render(template: string, vars: seq<(string, string)>) returns (html: string)
    ensures html == Rendered(template, vars)
    ensures vars == [] ==> html == template
  {
    html := template;
    var i := 0;
    while i < |vars|
      invariant 0 <= i <= |vars|
      invariant html == Rendered(template, vars[..i])
    {
      var (key, val) := vars[i];
      html := ReplaceAll(html, Token(key), val);
      assert vars[..i + 1][..i] == vars[..i];
      i := i + 1;
    }
    assert vars[..|vars|] == vars;
  }

  // ---------------------------------------------------------------------
  // Templates as text and placeholders

  /** A template read as literal text and placeholders. */
  datatype Piece = Lit(text: string) | Hole(name: string)

  /** No curly braces. */
  predicate BraceFree(s: string)
  {
    '{' !in s && '}' !in s
  }

  /** The template text a piece stands for. */
  function Show(p: Piece): string
  {
    match p
    case Lit(s) => s
    case Hole(n) => Token(n)
  }

  function Flatten(ps: seq<Piece>): string
    decreases |ps|
  {
    if ps == [] then "" else Show(ps[0]) + Flatten(ps[1..])
  }

  /** Literal text and placeholder names without braces: then the
      placeholders of the template are exactly its holes. */
  predicate WellFormed(ps: seq<Piece>)
  {
    forall i :: 0 <= i < |ps| ==> BraceFree(if ps[i].Lit? then ps[i].text else ps[i].name)
  }

  /** The value of the first entry for `key`. */
  function Lookup(vars: seq<(string, string)>, key: string): Option<string>
    decreases |vars|
  {
    if vars == [] then None
    else if vars[0].0 == key then Some(vars[0].1)
    else Lookup(vars[1..], key)
  }

  /** Reference definition of rendering: each hole whose name has an entry
      becomes the entry's value; other holes stay as they are. */
  function Fill(ps: seq<Piece>, vars: seq<(string, string)>): seq<Piece>
  {
    seq(|ps|, i requires 0 <= i < |ps| =>
      match ps[i]
      case Lit(s) => Lit(s)
      case Hole(n) => if Lookup(vars, n).Some? then Lit(Lookup(vars, n).value) else Hole(n))
  }

  /** Values without braces. */
  predicate ValuesBraceFree(vars: seq<(string, string)>)
  {
    forall i :: 0 <= i < |vars| ==> BraceFree(vars[i].0) && BraceFree(vars[i].1)
  }

  // ---------------------------------------------------------------------
  // Properties

  /** A placeholder can only start at the first character of another
      placeholder, and only when the names are the same. */
  lemma TokenAt(n: string, k: string, rest: string, j: int)
    requires BraceFree(n) && BraceFree(k) && 0 <= j < |Token(n)|
    requires MatchAt(Token(n) + rest, Token(k), j)
    ensures j == 0 && n == k
  {
    var y, t := Token(n) + rest, Token(k);
    assert y[j] == '{' && y[j + 1] == '{' by {
      assert y[j..j + |t|][0] == t[0] && y[j..j + |t|][1] == t[1];
    }
    NoOpenInside(n, rest);
    assert j == 0;
    TokenPrefix(n, k, rest);
  }

  /** Past its two opening braces, a placeholder holds no `{`. */
  lemma NoOpenInside(n: string, rest: string)
    requires BraceFree(n)
    ensures forall i :: 2 <= i < |n| + 4 ==> (Token(n) + rest)[i] != '{'
  {
    var y := Token(n) + rest;
    forall i | 2 <= i < |n| + 4 ensures y[i] != '{' {
      if i < |n| + 2 { assert y[i] == n[i - 2]; }
    }
  }

  /** A placeholder followed by anything starts with another placeholder
      only when the names are the same. */
  lemma TokenPrefix(n: string, k: string, rest: string)
    requires BraceFree(n) && BraceFree(k)
    requires |Token(k)| <= |Token(n) + rest| && (Token(n) + rest)[..|Token(k)|] == Token(k)
    ensures n == k
  {
    var y, t := Token(n) + rest, Token(k);
    assert forall i :: 0 <= i < |t| ==> y[i] == t[i] by {
      forall i | 0 <= i < |t| ensures y[i] == t[i] { assert y[..|t|][i] == t[i]; }
    }
    assert y[|n| + 2] == '}' && t[|k| + 2] == '}';
    assert forall i :: 0 <= i < |n| ==> y[i + 2] == n[i] && n[i] != '}';
    assert forall i :: 0 <= i < |k| ==> t[i + 2] == k[i] && k[i] != '}';
    assert |n| == |k|;
    forall i | 0 <= i < |n| ensures n[i] == k[i] {
      assert n[i] == y[i + 2] && k[i] == t[i + 2];
    }
  }

  /** Literal text without braces holds no placeholder start. */
  lemma LitNoMatch(s: string, rest: string, k: string, j: int)
    requires BraceFree(s) && 0 <= j < |s|
    ensures !MatchAt(s + rest, Token(k), j)
  {
    assert (s + rest)[j] == s[j];
  }

  /** One replace on a flattened template fills exactly the holes named `k`. */
  lemma {:induction false} ReplaceFlatten(ps: seq<Piece>, k: string, v: string)
    requires WellFormed(ps) && BraceFree(k)
    ensures ReplaceAll(Flatten(ps), Token(k), v) == Flatten(FillOne(ps, k, v))
    decreases |ps|
  {
    if ps != [] {
      var q, rest := ps[0], Flatten(ps[1..]);
      assert WellFormed(ps[1..]) by {
        forall i | 0 <= i < |ps| - 1 ensures ps[1..][i] == ps[i + 1] { }
      }
      ReplaceFlatten(ps[1..], k, v);
      assert FillOne(ps, k, v) == [FillPiece(q, k, v)] + FillOne(ps[1..], k, v);
      assert Flatten(FillOne(ps, k, v)) == Show(FillPiece(q, k, v)) + Flatten(FillOne(ps[1..], k, v));
      match q
      case Lit(s) =>
        assert BraceFree(s);
        forall j | 0 <= j < |s| ensures !MatchAt(s + rest, Token(k), j) {
          LitNoMatch(s, rest, k, j);
        }
        ReplaceAllSkip(s, rest, Token(k), v);
      case Hole(n) =>
        assert BraceFree(n);
        var y := Token(n) + rest;
        if n == k {
          assert y[..|Token(k)|] == Token(k);
          assert y[|Token(k)|..] == rest;
        } else {
          forall j | 0 <= j < |Token(n)| ensures !MatchAt(y, Token(k), j) {
            if MatchAt(y, Token(k), j) { TokenAt(n, k, rest, j); }
          }
          ReplaceAllSkip(Token(n), rest, Token(k), v);
        }
    }
  }

  function FillPiece(q: Piece, k: string, v: string): Piece
  {
    if q == Hole(k) then Lit(v) else q
  }

  /** The holes named `k` filled with `v`. */
  function FillOne(ps: seq<Piece>, k: string, v: string): seq<Piece>
  {
    seq(|ps|, i requires 0 <= i < |ps| => FillPiece(ps[i], k, v))
  }

  /** Looking a key up in all the entries: the earlier entries first, then
      the last one. */
  lemma {:induction false} LookupSnoc(vars: seq<(string, string)>, key: string)
    requires vars != []
    ensures var init, last := vars[..|vars| - 1], vars[|vars| - 1];
            Lookup(vars, key)
            == if Lookup(init, key).Some? then Lookup(init, key)
               else if last.0 == key then Some(last.1) else None
    decreases |vars|
  {
    if |vars| > 1 && vars[0].0 != key {
      LookupSnoc(vars[1..], key);
      assert vars[1..][..|vars| - 2] == vars[..|vars| - 1][1..];
    }
  }

  /** With brace-free text, names and values, rendering fills every hole
      whose name has an entry with the value of the first such entry, and
      leaves every other placeholder as it is. */
  lemma {:induction false} RenderFills(ps: seq<Piece>, vars: seq<(string, string)>)
    requires WellFormed(ps) && ValuesBraceFree(vars)
    ensures Rendered(Flatten(ps), vars) == Flatten(Fill(ps, vars))
    ensures WellFormed(Fill(ps, vars))
    decreases |vars|
  {
    if vars == [] {
      assert Fill(ps, vars) == ps;
    } else {
      var init, last := vars[..|vars| - 1], vars[|vars| - 1];
      assert ValuesBraceFree(init) by {
        forall i | 0 <= i < |init| ensures init[i] == vars[i] { }
      }
      assert BraceFree(last.0) && BraceFree(last.1);
      RenderFills(ps, init);
      ReplaceFlatten(Fill(ps, init), last.0, last.1);
      forall i | 0 <= i < |ps| ensures FillOne(Fill(ps, init), last.0, last.1)[i] == Fill(ps, vars)[i] {
        if ps[i].Hole? {
          LookupSnoc(vars, ps[i].name);
        }
      }
      assert FillOne(Fill(ps, init), last.0, last.1) == Fill(ps, vars);
      LookupValues(vars);
    }
  }

  /** A value found by lookup is one of the values. */
  lemma {:induction false} LookupValues(vars: seq<(string, string)>)
    requires ValuesBraceFree(vars)
    ensures forall key :: Lookup(vars, key).Some? ==> BraceFree(key) && BraceFree(Lookup(vars, key).value)
    decreases |vars|
  {
    if vars != [] {
      assert ValuesBraceFree(vars[1..]) by {
        forall i | 0 <= i < |vars| - 1 ensures vars[1..][i] == vars[i + 1] { }
      }
      LookupValues(vars[1..]);
    }
  }

  /** No placeholder of a key is left: after rendering, `{{k}}` occurs
      nowhere for any key `k` of the entries. */
  lemma RenderLeavesNoKey(ps: seq<Piece>, vars: seq<(string, string)>, k: string)
    requires WellFormed(ps) && ValuesBraceFree(vars) && Lookup(vars, k).Some?
    ensures Free(Rendered(Flatten(ps), vars), Token(k))
  {
    RenderFills(ps, vars);
    LookupValues(vars);
    var qs := Fill(ps, vars);
    forall i | 0 <= i < |qs| ensures qs[i] != Hole(k) { }
    NoHoleFree(qs, k);
  }

  /** A flattened template without a hole named `k` holds no `{{k}}`. */
  lemma {:induction false} NoHoleFree(qs: seq<Piece>, k: string)
    requires WellFormed(qs) && BraceFree(k)
    requires forall i :: 0 <= i < |qs| ==> qs[i] != Hole(k)
    ensures Free(Flatten(qs), Token(k))
    decreases |qs|
  {
    if qs != [] {
      var head, rest := Show(qs[0]), Flatten(qs[1..]);
      assert WellFormed(qs[1..]) by {
        forall i | 0 <= i < |qs| - 1 ensures qs[1..][i] == qs[i + 1] { }
      }
      NoHoleFree(qs[1..], k);
      forall j ensures !MatchAt(head + rest, Token(k), j) {
        if 0 <= j < |head| {
          match qs[0]
          case Lit(s) => LitNoMatch(s, rest, k, j);
          case Hole(n) => if MatchAt(head + rest, Token(k), j) { TokenAt(n, k, rest, j); }
        } else if j >= |head| {
          MatchAppend(head, rest, Token(k), j);
        }
      }
    } else {
      forall j ensures !MatchAt("", Token(k), j) { }
    }
  }

  /** A placeholder whose name is not a key is left verbatim: it is still
      in the output, at the place of its hole among the filled pieces. */
  lemma RenderKeepsUnknown(ps: seq<Piece>, vars: seq<(string, string)>, i: nat)
    requires WellFormed(ps) && ValuesBraceFree(vars)
    requires i < |ps| && ps[i].Hole? && Lookup(vars, ps[i].name).None?
    ensures var out := Rendered(Flatten(ps), vars);
            var at := |Flatten(Fill(ps, vars)[..i])|;
            MatchAt(out, Token(ps[i].name), at)
  {
    RenderFills(ps, vars);
    var qs := Fill(ps, vars);
    assert qs[i] == ps[i];
    FlattenSplit(qs, i);
    var a := Flatten(qs[..i]);
    var t := Token(ps[i].name);
    var b := Flatten(qs[i + 1..]);
    assert (a + t + b)[|a|..|a| + |t|] == t;
  }

  /** Flattening a sequence of pieces around its `i`-th piece. */
  lemma {:induction false} FlattenSplit(qs: seq<Piece>, i: nat)
    requires i < |qs|
    ensures Flatten(qs) == Flatten(qs[..i]) + Show(qs[i]) + Flatten(qs[i + 1..])
    decreases i
  {
    if i == 0 {
      assert qs[..0] == [];
      assert qs[1..] == qs[i + 1..];
    } else {
      FlattenSplit(qs[1..], i - 1);
      assert qs[1..][..i - 1] == qs[1..i];
      assert qs[1..][i - 1] == qs[i];
      assert qs[1..][i..] == qs[i + 1..];
      assert qs[..i][0] == qs[0] && qs[..i][1..] == qs[1..i];
    }
  }

  /** Rendering is not hygienic in general: a value or template can make a
      key's placeholder appear by replacing one inside another. With the
      template `{{{{a}}}}` and `a` set to `a`, the output is `{{a}}`. */
  lemma NestedPlaceholderSurvives()
    ensures Rendered("{{{{a}}}}", [("a", "a")]) == "{{a}}"
  {
    var tok := Token("a");
    assert tok == "{{a}}";
    assert ReplaceAll("}}", tok, "a") == "}}";
    assert "{{a}}}}"[5..] == "}}";
    assert ReplaceAll("{{a}}}}", tok, "a") == "a}}";
    assert "{{{a}}}}"[1..] == "{{a}}}}";
    assert "{{{a}}}}"[..5] == "{{{a}";
    assert ReplaceAll("{{{a}}}}", tok, "a") == "{a}}";
    assert "{{{{a}}}}"[1..] == "{{{a}}}}";
    assert "{{{{a}}}}"[..5] == "{{{{a";
    assert ReplaceAll("{{{{a}}}}", tok, "a") == "{{a}}";
    assert [("a", "a")][..0] == [];
  }
}
