/** The block renderers of build.js: poems become one `<p>` per stanza with
    the lines joined by `<br>`, prose becomes one `<p>` per paragraph with
    an optional English part in `<div class="en">`, and `mdToHtml` chooses
    between the two by the post's type. */
module Blocks {
  import opened Text
  import opened Html
  import opened Markup

  // The tags the renderers write.
  const P := "<p>"
  const EndP := "</p>"
  const Br := "<br>"
  const EnDiv := "<div class=\"en\">"
  const EndDiv := "</div>"

  // The indentation the renderers put around their markup.
  const Indent := "        "
  const LineIndent := "\n          "

  // ---------------------------------------------------------------------
  // poemToHtml

  const StanzaOpen := Indent + P + LineIndent
  const LineBreak := Br + LineIndent
  const StanzaClose := "\n" + Indent + EndP

  /** Each line escaped. */
  function EscapeAll(lines: seq<string>): (r: seq<string>)
  {
    seq(|lines|, i requires 0 <= i < |lines| => Escape(lines[i]))
  }

  /** Each line decoded; the partner of `EscapeAll`. */
  function UnescapeAll(lines: seq<string>): (r: seq<string>)
  {
    seq(|lines|, i requires 0 <= i < |lines| => Unescape(lines[i]))
  }

  /** The lines of a stanza, escaped and joined by a line break. */
  function StanzaLines(s: string): string
  {
    Join(EscapeAll(Split(s, "\n")), LineBreak)
  }

  /** One stanza as a `<p>` block. */
  function Stanza(s: string): string
  {
    StanzaOpen + StanzaLines(s) + StanzaClose
  }

  /** `poemToHtml`: the stanzas are the pieces between runs of two or more
      newlines; their blocks are joined by a newline. */
  function Poem(body: string): string
  {
    var stanzas := SplitBlank(body);
    Join(seq(|stanzas|, i requires 0 <= i < |stanzas| => Stanza(stanzas[i])), "\n")
  }

  // ---------------------------------------------------------------------
  // paragraphs and proseToHtml

  const ParaOpen := Indent + P

  /** A paragraph's text: trimmed, escaped, each newline a `<br>`. */
  function ParaText(p: string): string
  {
    ReplaceAll(Escape(Trim(p)), "\n", Br)
  }

  /** One paragraph as a `<p>` block. */
  function Para(p: string): string
  {
    ParaOpen + ParaText(p) + EndP
  }

  /** `paragraphs`: the trimmed text split at runs of two or more newlines,
      each piece a `<p>` block, the blocks joined by a newline. */
  function Paragraphs(text: string): string
  {
    var ps := SplitBlank(Trim(text));
    Join(seq(|ps|, i requires 0 <= i < |ps| => Para(ps[i])), "\n")
  }

  const EnMarker := "---en---"
  const EnOpen := "\n" + Indent + EnDiv + "\n"
  const EnClose := Indent + EndDiv

  /** The body has an English part: something non-empty between the first
      `---en---` and the next one (or the end). */
  predicate HasEn(body: string)
  {
    var parts := Split(body, EnMarker);
    |parts| > 1 && parts[1] != ""
  }

  /** What `proseToHtml` returns: the paragraphs of the part before the
      first marker, followed, when there is an English part, by its
      paragraphs inside `<div class="en">`. */
  function Prose(body: string): string
  {
    var parts := Split(body, EnMarker);
    if |parts| > 1 && parts[1] != "" then Paragraphs(parts[0]) + EnOpen + Paragraphs(parts[1]) + EnClose
    else Paragraphs(parts[0])
  }

  /** `proseToHtml`, building its result by appending. */
  method ProseToHtml(body: string) returns (html: string)
    ensures html == Prose(body)
    ensures Count(html, EnDiv) == if HasEn(body) then 1 else 0
  {
    var parts := Split(body, EnMarker);
    html := Paragraphs(parts[0]);
    if |parts| > 1 && parts[1] != "" {
      html := html + EnOpen;
      html := html + Paragraphs(parts[1]);
      html := html + EnClose;
    }
    ProseTags(body);
  }

  /** `mdToHtml`: poems by stanza, everything else as prose. */
  function MdToHtml(body: string, kind: string): string
  {
    if kind == "poem" then Poem(body) else Prose(body)
  }

  // ---------------------------------------------------------------------
  // What the renderers write

  /** The tags `Stanza` writes, once each, and the line break between lines. */
  function StanzaTags(lines: nat, pat: string): nat
  {
    (if pat == P then 1 else 0) + (if lines > 0 && pat == Br then lines - 1 else 0) + (if pat == EndP then 1 else 0)
  }

  lemma TagsAreTags()
    ensures IsTag(P) && IsTag(EndP) && IsTag(Br) && IsTag(EnDiv) && IsTag(EndDiv)
  {
    assert EnDiv == ['<'] + "div class=\"en\"" + ['>'];
  }

  /** Escaped text holds no `<`, so every piece of it holds none. */
  lemma EscapedPieces(s: string, sep: string)
    requires |sep| > 0
    ensures forall k :: 0 <= k < |Split(Escape(s), sep)| ==> '<' !in Split(Escape(s), sep)[k]
  {
    EscapeSafe(s);
    SplitChars(Escape(s), sep);
  }

  /** Escaped lines hold no `<`. */
  lemma EscapedLines(lines: seq<string>)
    ensures forall k :: 0 <= k < |lines| ==> '<' !in EscapeAll(lines)[k]
  {
    forall k | 0 <= k < |lines| ensures '<' !in EscapeAll(lines)[k] {
      EscapeSafe(lines[k]);
    }
  }

  // Each piece of literal markup holds the one tag it is written with.

  lemma StanzaOpenTags(pat: string)
    requires IsTag(pat)
    ensures Closed(StanzaOpen) && Count(StanzaOpen, pat) == if pat == P then 1 else 0
  {
    TagsAreTags();
    CountPiece(Indent, P, LineIndent, pat);
  }

  lemma LineBreakTags(pat: string)
    requires IsTag(pat)
    ensures Closed(LineBreak) && Count(LineBreak, pat) == if pat == Br then 1 else 0
  {
    TagsAreTags();
    CountPiece("", Br, LineIndent, pat);
    assert "" + Br + LineIndent == LineBreak;
  }

  lemma StanzaCloseTags(pat: string)
    requires IsTag(pat)
    ensures Closed(StanzaClose) && Count(StanzaClose, pat) == if pat == EndP then 1 else 0
  {
    TagsAreTags();
    CountPiece("\n" + Indent, EndP, "", pat);
    assert "\n" + Indent + EndP + "" == StanzaClose;
  }

  lemma ParaOpenTags(pat: string)
    requires IsTag(pat)
    ensures Closed(ParaOpen) && Count(ParaOpen, pat) == if pat == P then 1 else 0
  {
    TagsAreTags();
    CountPiece(Indent, P, "", pat);
    assert Indent + P + "" == ParaOpen;
  }

  lemma TagTags(t: string, pat: string)
    requires IsTag(t) && IsTag(pat)
    ensures Closed(t) && Count(t, pat) == if pat == t then 1 else 0
  {
    CountPiece("", t, "", pat);
    assert "" + t + "" == t;
  }

  lemma EnOpenTags(pat: string)
    requires IsTag(pat)
    ensures Closed(EnOpen) && Count(EnOpen, pat) == if pat == EnDiv then 1 else 0
  {
    TagsAreTags();
    CountPiece("\n" + Indent, EnDiv, "\n", pat);
  }

  lemma EnCloseTags(pat: string)
    requires IsTag(pat)
    ensures Closed(EnClose) && Count(EnClose, pat) == if pat == EndDiv then 1 else 0
  {
    TagsAreTags();
    CountPiece(Indent, EndDiv, "", pat);
    assert Indent + EndDiv + "" == EnClose;
  }

  /** The lines of a stanza can be read back from its markup: split at the
      line breaks, decode the entities and join with newlines. */
  lemma StanzaRoundTrip(s: string)
    ensures Join(UnescapeAll(Split(StanzaLines(s), LineBreak)), "\n") == s
  {
    var lines := Split(s, "\n");
    var es := EscapeAll(lines);
    forall k | 0 <= k < |es| ensures LineBreak[0] !in es[k] {
      EscapeSafe(lines[k]);
    }
    JoinSplit(es, LineBreak);
    assert UnescapeAll(es) == lines by {
      forall k | 0 <= k < |lines| ensures UnescapeAll(es)[k] == lines[k] {
        UnescapeEscape(lines[k]);
      }
    }
    SplitJoin(s, "\n");
  }

  /** A stanza holds one `<p>`, one `</p>`, a `<br>` between each two lines
      and no other tag; its every `<` is closed. */
  lemma StanzaCount(s: string, pat: string)
    requires IsTag(pat)
    ensures Closed(Stanza(s))
    ensures Count(Stanza(s), pat) == StanzaTags(|Split(s, "\n")|, pat)
  {
    var es := EscapeAll(Split(s, "\n"));
    EscapedLines(Split(s, "\n"));
    LineBreakTags(pat);
    CountLines(es, LineBreak, pat);
    StanzaOpenTags(pat);
    StanzaCloseTags(pat);
    CountConcat3(StanzaOpen, StanzaLines(s), StanzaClose, pat);
  }

  /** Blocks joined by newlines hold the tags of the blocks. */
  lemma CountBlocks(blocks: seq<string>, pat: string, c: nat)
    requires IsTag(pat) && |blocks| > 0
    requires forall i :: 0 <= i < |blocks| ==> Closed(blocks[i]) && Count(blocks[i], pat) == c
    ensures Closed(Join(blocks, "\n"))
    ensures Count(Join(blocks, "\n"), pat) == c * |blocks|
  {
    CountPlain("\n", pat);
    ClosedJoin(blocks, "\n");
    CountJoin(blocks, "\n", pat, c);
  }

  /** A poem holds one `<p>` block per stanza, that is per piece of the
      body between runs of two or more newlines, and no English part. */
  lemma PoemCount(body: string)
    ensures Count(Poem(body), P) == |SplitBlank(body)|
    ensures Count(Poem(body), EndP) == |SplitBlank(body)|
    ensures Count(Poem(body), EnDiv) == 0
  {
    TagsAreTags();
    PoemTags(body, P, 1);
    PoemTags(body, EndP, 1);
    PoemTags(body, EnDiv, 0);
  }

  lemma PoemTags(body: string, pat: string, c: nat)
    requires IsTag(pat) && pat != Br
    requires c == (if pat == P then 1 else 0) + (if pat == EndP then 1 else 0)
    ensures Closed(Poem(body)) && Count(Poem(body), pat) == c * |SplitBlank(body)|
  {
    var stanzas := SplitBlank(body);
    var blocks := seq(|stanzas|, i requires 0 <= i < |stanzas| => Stanza(stanzas[i]));
    forall i | 0 <= i < |blocks| ensures Closed(blocks[i]) && Count(blocks[i], pat) == c {
      StanzaCount(stanzas[i], pat);
    }
    CountBlocks(blocks, pat, c);
  }

  /** The text of a paragraph can be read back from its markup: turn each
      `<br>` back into a newline and decode the entities. */
  lemma ParaRoundTrip(p: string)
    ensures Unescape(ReplaceAll(ParaText(p), Br, "\n")) == Trim(p)
  {
    var e := Escape(Trim(p));
    var lines := Split(e, "\n");
    ReplaceAllIsSplitJoin(e, "\n", Br);
    EscapedPieces(Trim(p), "\n");
    JoinSplit(lines, Br);
    ReplaceAllIsSplitJoin(ParaText(p), Br, "\n");
    SplitJoin(e, "\n");
    UnescapeEscape(Trim(p));
  }

  /** A paragraph holds one `<p>`, one `</p>`, one `<br>` fewer than the
      pieces of its escaped, trimmed text split at `\n`, and no other tag;
      its every `<` is closed. */
  lemma ParaCount(p: string, pat: string)
    requires IsTag(pat)
    ensures Closed(Para(p))
    ensures Count(Para(p), pat) == StanzaTags(|Split(Escape(Trim(p)), "\n")|, pat)
  {
    TagsAreTags();
    var e := Escape(Trim(p));
    ReplaceAllIsSplitJoin(e, "\n", Br);
    EscapedPieces(Trim(p), "\n");
    TagTags(Br, pat);
    CountLines(Split(e, "\n"), Br, pat);
    ParaOpenTags(pat);
    TagTags(EndP, pat);
    CountConcat3(ParaOpen, ParaText(p), EndP, pat);
  }

  lemma ParagraphsTags(text: string, pat: string, c: nat)
    requires IsTag(pat) && pat != Br
    requires c == (if pat == P then 1 else 0) + (if pat == EndP then 1 else 0)
    ensures Closed(Paragraphs(text)) && Count(Paragraphs(text), pat) == c * |SplitBlank(Trim(text))|
  {
    var ps := SplitBlank(Trim(text));
    var blocks := seq(|ps|, i requires 0 <= i < |ps| => Para(ps[i]));
    forall i | 0 <= i < |blocks| ensures Closed(blocks[i]) && Count(blocks[i], pat) == c {
      ParaCount(ps[i], pat);
    }
    CountBlocks(blocks, pat, c);
  }

  /** `paragraphs` writes one `<p>` block per piece of the trimmed text
      between runs of two or more newlines. */
  lemma ParagraphsCount(text: string)
    ensures Count(Paragraphs(text), P) == |SplitBlank(Trim(text))|
    ensures Count(Paragraphs(text), EndP) == |SplitBlank(Trim(text))|
    ensures Count(Paragraphs(text), EnDiv) == 0
  {
    TagsAreTags();
    ParagraphsTags(text, P, 1);
    ParagraphsTags(text, EndP, 1);
    ParagraphsTags(text, EnDiv, 0);
  }

  /** The number of paragraphs of the part before the first `---en---`
      and, when there is an English part, of that part. */
  function ProseParas(body: string): nat
  {
    var parts := Split(body, EnMarker);
    |SplitBlank(Trim(parts[0]))| + if HasEn(body) then |SplitBlank(Trim(parts[1]))| else 0
  }

  lemma ProseTagsOf(body: string, pat: string, c: nat)
    requires IsTag(pat) && pat != Br
    requires c == (if pat == P then 1 else 0) + (if pat == EndP then 1 else 0)
    ensures var parts := Split(body, EnMarker);
            Count(Prose(body), pat)
            == c * |SplitBlank(Trim(parts[0]))|
               + if HasEn(body) then Count(EnOpen, pat) + c * |SplitBlank(Trim(parts[1]))| + Count(EnClose, pat) else 0
  {
    var parts := Split(body, EnMarker);
    var first := Paragraphs(parts[0]);
    ParagraphsTags(parts[0], pat, c);
    if HasEn(body) {
      var second := Paragraphs(parts[1]);
      ParagraphsTags(parts[1], pat, c);
      EnOpenTags(pat);
      EnCloseTags(pat);
      CountConcat3(first, EnOpen, second, pat);
      CountAppend(first + EnOpen + second, EnClose, pat);
      assert Prose(body) == first + EnOpen + second + EnClose;
    } else {
      assert Prose(body) == first;
    }
  }

  lemma ProseTags(body: string)
    ensures Count(Prose(body), P) == ProseParas(body)
    ensures Count(Prose(body), EnDiv) == if HasEn(body) then 1 else 0
  {
    TagsAreTags();
    ProseTagsOf(body, P, 1);
    ProseTagsOf(body, EnDiv, 0);
    if HasEn(body) {
      EnOpenTags(P);
      EnCloseTags(P);
      EnOpenTags(EnDiv);
      EnCloseTags(EnDiv);
    }
  }

  /** `proseToHtml` writes one `<p>` block per paragraph of the text before
      the first `---en---` and of the English part, and the English
      `<div class="en">` exactly when the English part is non-empty. */
  lemma ProseCount(body: string)
    ensures Count(Prose(body), P) == ProseParas(body)
    ensures Count(Prose(body), EnDiv) == 1 <==> HasEn(body)
    ensures Count(Prose(body), EnDiv) <= 1
  {
    ProseTags(body);
  }

  /** Text after a second `---en---` is dropped: the output is the same as
      for the body cut just before that marker. */
  lemma ProseIgnoresRest(body: string)
    requires |Split(body, EnMarker)| >= 3
    ensures SecondSep(body, EnMarker) <= |body|
    ensures Prose(body) == Prose(body[..SecondSep(body, EnMarker)])
  {
    SplitCutSecond(body, EnMarker);
    ProseOfParts(body, body[..SecondSep(body, EnMarker)]);
  }

  /** The output depends only on the first two pieces. */
  lemma ProseOfParts(a: string, b: string)
    requires |Split(a, EnMarker)| >= 2 && Split(b, EnMarker) == Split(a, EnMarker)[..2]
    ensures Prose(a) == Prose(b)
  {
    var pa, pb := Split(a, EnMarker), Split(b, EnMarker);
    assert pb[0] == pa[0] && pb[1] == pa[1] && |pb| == 2;
  }

  /** `mdToHtml`: a poem has one `<p>` per stanza and no English part; any
      other type is rendered as prose. */
  lemma MdToHtmlCount(body: string, kind: string)
    ensures kind == "poem" ==>
              Count(MdToHtml(body, kind), P) == |SplitBlank(body)| && Count(MdToHtml(body, kind), EnDiv) == 0
    ensures kind != "poem" ==>
              Count(MdToHtml(body, kind), P) == ProseParas(body) && (Count(MdToHtml(body, kind), EnDiv) == 1 <==> HasEn(body))
  {
    if kind == "poem" {
      PoemCount(body);
    } else {
      ProseCount(body);
    }
  }
}
