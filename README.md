# Abyss blog builder: the content pipeline, modelled in Dafny

`build.js` turns Markdown-like posts into HTML with plain string operations:

1. `parseFrontMatter` splits a post into a metadata map and a body.
2. `escapeHtml` escapes the body's text.
3. `mdToHtml` renders it, through `poemToHtml` (one `<p>` per stanza, lines
   joined by `<br>`) or through `proseToHtml` and `paragraphs` (one `<p>` per
   paragraph, and an optional English part after `---en---` inside
   `<div class="en">`).
4. `render` splices the fragments into a template by replacing `{{key}}`
   placeholders.

The project models these functions and proves what they promise.

| file | module | contents |
|---|---|---|
| `text.dfy` | `Text` | The JavaScript string built-ins the pipeline uses: `trim` (ECMAScript white space and line terminators), `indexOf`, `split`/`join` with a literal separator, global `replace` of a literal pattern, and `split(/\n\n+/)`. |
| `html.dfy` | `Html` | `escapeHtml` as its chain of three replaces, a character-by-character reference definition, and an entity decoder that serves as its inverse. |
| `markup.dfy` | `Markup` | Counting occurrences of a tag in generated HTML. Strings whose every `<` is closed add up their tag counts. |
| `blocks.dfy` | `Blocks` | `poemToHtml`, `paragraphs`, `proseToHtml` (a method that appends, like the source) and `mdToHtml`. |
| `frontmatter.dfy` | `FrontMatter` | The fence regular expression, key/value extraction, and `parseFrontMatter` as a loop that fills the map. |
| `template.dfy` | `Template` | `render` as a loop over the entries, and a reference reading of a template as literal text and placeholders. |

`split(/\n\n+/)` (`Text.SplitBlank`) cuts at each maximal run of two or more
line feeds, leftmost first. Blank lines are empty lines: `\r\n` is not
recognised, as in the source.

## Model

| member | source | states |
|---|---|---|
| Text.Trim | build.js:35-36 | `String.prototype.trim`: strip ECMAScript white space and line terminators at both ends; characterised by `TrimSpec` |
| Text.Split | build.js:32 | `split` with a literal separator: always at least one piece; `SplitCons` pins each cut at the leftmost remaining occurrence (`IndexOf`), which matters for a self-overlapping separator such as `---en---`, and `SplitJoin` and `SplitFree` say that nothing is lost and no piece holds the separator |
| Text.Join | build.js:56 | `join`; splitting the result gives the pieces back whenever no piece contains the separator's first character (`JoinSplit`) |
| Text.ReplaceAll | build.js:86-88 | a global `replace` of a literal pattern as a left-to-right scan; characterised by `ReplaceAllIsSplitJoin` |
| Text.SplitBlank | build.js:53 | `split(/\n\n+/)`: at least one piece, and the first piece is a prefix of the input; characterised by `SplitBlankFree`, `SplitBlankStarts`, `SplitBlankEnds`, `SplitBlankMiddle` and `SplitBlankRebuild` together |
| Text.TrimSpec | build.js:35-36 | `trim` keeps the slice between the leading and trailing white space, and what it keeps neither starts nor ends with white space |
| Text.TrimIdempotent | build.js:79-80 | trimming twice is the same as trimming once |
| Text.IndexOf | build.js:33 | `indexOf` returns the first index at which the pattern occurs, or nothing when it occurs nowhere |
| Text.SplitJoin | build.js:32 | splitting on a literal separator loses nothing: joining the pieces with the separator gives the input back |
| Text.SplitFree | build.js:32 | no piece of a split contains the separator |
| Text.JoinSplit | build.js:56 | joining pieces that do not contain the separator's first character, then splitting, gives the pieces back |
| Text.ReplaceAllIsSplitJoin | build.js:80 | a global replace of a literal pattern equals splitting on the pattern and joining with the replacement |
| Text.SplitBlankFree | build.js:53 | no piece of the blank-line split contains two line feeds in a row |
| Text.SplitBlankStarts | build.js:53 | every piece but the first is empty or starts with something other than a line feed |
| Text.SplitBlankEnds | build.js:53 | every piece but the last is empty or ends with something other than a line feed |
| Text.SplitBlankMiddle | build.js:53 | only the first and the last piece can be empty; with `SplitBlankStarts` and `SplitBlankEnds` this makes every run cut out maximal (the first piece is empty when the text starts with a blank line, the last when it ends with one) |
| Text.SplitBlankRebuild | build.js:79 | the blank-line split loses only the lengths of the runs: the pieces with runs of the recorded lengths (each at least two) between them give the input back |
| Text.SplitCutSecond | build.js:65 | when the separator occurs at least twice, the text before its second occurrence splits into the same first two pieces |
| Html.Escape | build.js:84-89 | the three replaces, `&` first, escape every character independently and exactly once (the chain equals the character-by-character reference `EscapeEach`) |
| Html.EscapeSafe | build.js:84-89 | escaped text contains no `<` and no `>`, and every `&` in it begins `&amp;`, `&lt;` or `&gt;` |
| Html.EscapePlain | build.js:84-89 | text without `&`, `<` and `>` is left unchanged |
| Html.UnescapeEscape | build.js:84-89 | escaping loses nothing: decoding the three entities gives the text back |
| Blocks.Stanza | build.js:55-57 | one stanza: its lines escaped, joined by `<br>` and a line indent, inside a `<p>` block; properties in `StanzaRoundTrip` and `StanzaCount` |
| Blocks.Poem | build.js:51-60 | `poemToHtml`: one stanza block per piece of the blank-line split, joined by newlines; properties in `PoemCount` |
| Blocks.Para | build.js:80 | one paragraph: trimmed, escaped, newlines turned into `<br>`, inside a `<p>` block; properties in `ParaRoundTrip` and `ParaCount` |
| Blocks.Paragraphs | build.js:78-82 | `paragraphs`: one paragraph block per piece of the trimmed text's blank-line split, joined by newlines; properties in `ParagraphsCount` |
| Blocks.Prose | build.js:62-76 | the value `proseToHtml` returns; properties in `ProseCount` and `ProseIgnoresRest` |
| Blocks.MdToHtml | build.js:46-49 | `mdToHtml`: type `poem` to `Poem`, anything else to `Prose`; properties in `MdToHtmlCount` |
| Blocks.StanzaRoundTrip | build.js:56 | a stanza's lines can be recovered from the text inside its `<p>` block (`StanzaLines`): split at the line breaks, decode, join with newlines |
| Blocks.StanzaCount | build.js:56-57 | a stanza block contains one `<p>`, one `</p>`, one `<br>` between each two lines, and no other tag |
| Blocks.PoemCount | build.js:51-60 | `poemToHtml` writes one `<p>` and one `</p>` per piece of the body split on runs of two or more line feeds, and no English `<div>` |
| Blocks.ParaRoundTrip | build.js:80 | a paragraph's trimmed text can be recovered from the text inside its `<p>` block (`ParaText`): turn each `<br>` back into a newline and decode |
| Blocks.ParaCount | build.js:80 | a paragraph block contains one `<p>`, one `</p>`, one `<br>` between each two lines of the escaped, trimmed text split at `\n`, and no other tag |
| Markup.CountZero | build.js:69-73 | the tag count is zero exactly when the tag does not occur, so a zero count of `<div class="en">` means the output holds no English part |
| Blocks.ParagraphsCount | build.js:78-82 | `paragraphs` writes one `<p>` and one `</p>` per piece of the trimmed text split on runs of two or more line feeds |
| Blocks.ProseToHtml | build.js:62-76 | the appending method computes `Prose`, and its output contains the English `<div class="en">` once exactly when the piece between the first `---en---` and the next one (or the end) is non-empty, and otherwise not at all |
| Blocks.ProseCount | build.js:62-76 | the `<p>` blocks of prose are those of the part before the first `---en---` plus, when present, those of the English part; the English part is the piece between the first `---en---` and the next one (or the end); the English `<div>` appears at most once, and exactly when that piece is non-empty |
| Blocks.ProseIgnoresRest | build.js:65-73 | everything from a second `---en---` on is dropped: the output equals the output for the text cut before that marker |
| Blocks.MdToHtmlCount | build.js:46-49 | type `poem` gives one `<p>` per stanza and no English part; any other type gives the prose blocks |
| FrontMatter.Entry | build.js:33-37 | the key/value pair one metadata line contributes, if any; characterised by `EntryAtColon` and `EntryNoColon` |
| FrontMatter.MetaOf | build.js:32-39 | the map after the lines' entries are set in order; characterised by `MetaKeys` and `MetaLastWins` |
| FrontMatter.MatchFence | build.js:28 | the regex matches exactly when the input starts with `---\n` and a `\n---\n` occurs later; the groups are the text up to the first such `\n---\n` and the rest, and the input is rebuilt from them |
| FrontMatter.FenceParts | build.js:28 | a fenced input gives back its metadata text and rest exactly when the metadata, followed by `\n---`, does not contain `\n---\n` |
| FrontMatter.ParseFrontMatter | build.js:27-42 | with no match, the map is empty and the body is the input, not trimmed; with a match, the map is the fold of the entries of the metadata lines and the body is the trimmed rest |
| FrontMatter.EntryAtColon | build.js:33-36 | a line whose first colon is at index `i` gives an entry exactly when `i > 0`, with the trimmed text before the colon as key and the trimmed text after it as value |
| FrontMatter.EntryNoColon | build.js:33-34 | a line without a colon gives no entry |
| FrontMatter.MetaKeys | build.js:32-39 | a key is in the map exactly when some metadata line has an entry for it |
| FrontMatter.MetaLastWins | build.js:37 | for a duplicated key, the value of the last line with that key is the one kept |
| Template.Rendered | build.js:97-103 | the template after one literal global replace per entry, in order; characterised by `RenderFills`, `RenderLeavesNoKey` and `RenderKeepsUnknown` |
| Template.Render | build.js:97-103 | the loop rewrites the template once per entry, in order, so its result is the fold `Rendered`; with no entries, the template is returned unchanged |
| Template.ReplaceFlatten | build.js:100 | on a template with brace-free text and names, and a brace-free key, one replace fills exactly the placeholders with that key |
| Template.RenderFills | build.js:97-103 | with brace-free text, names, keys and values, `render` fills every placeholder whose name is a key with the value of the first entry for it, and leaves every other placeholder unchanged |
| Template.RenderLeavesNoKey | build.js:97-103 | under the same conditions, no `{{k}}` remains in the output for any key `k` |
| Template.RenderKeepsUnknown | build.js:97-103 | a placeholder whose name is not a key is still in the output, verbatim, where its piece lands among the filled pieces |
| Template.NestedPlaceholderSurvives | build.js:100 | without the brace condition a key's placeholder can survive: the template `{{{{a}}}}` with `a` set to `a` renders to `{{a}}` |

## Left out

- File-system and console work is not part of this model: `loadTemplate`, the template read inside `wrapInBase`, `buildPosts`, `buildIndex`, `buildAbout` and the top-level script. Templates and post texts are parameters instead.
- `fileToSlug` is not part of this model. It wraps Node's `path.basename`.
- The date sort in `buildPosts` is not part of this model. It depends on the locale through `localeCompare`.
- `js/main.js` (the audio player's DOM wiring and floating-point time arithmetic) is not part of this model.
- Template.Render: keys are matched literally. The source builds a `RegExp` from each key without escaping it, so a key containing a regular-expression metacharacter would behave differently. The keys the builder uses (`title`, `date`, `content`, `type`, `body`, `description`, `cssPath`, `postList`) contain none.
- Template.Render: values are inserted literally. `String.prototype.replace` would expand `$&`, `$1` and `$$` in a value, and that expansion is not modelled.
- Template.Render: the entries are a sequence in `Object.entries` order and may repeat a key. A JavaScript object has unique keys and lists integer-like keys first; that ordering is not modelled.
- FrontMatter.ParseFrontMatter: the map is a Dafny `map`. A JavaScript object treats a `__proto__` key specially, and that is not modelled.
- Template.RenderFills, Template.RenderLeavesNoKey and Template.RenderKeepsUnknown assume brace-free literal text, placeholder names, keys and values. "No `{{k}}` remains" is false without such a condition, even when no value contains a placeholder: Template.NestedPlaceholderSurvives is a counterexample in which the template itself forms a new placeholder during replacement.
- JavaScript strings are sequences of UTF-16 code units; they are modelled as sequences of Dafny characters. Nothing in the pipeline depends on surrogate pairs.
- `\r\n` line endings are not treated as line breaks, as in the source.
- The `<p>`, `</p>`, `<br>` and `<div class="en">` counts are stated as occurrence counts of those tags in the output. The exact indentation is fixed by the renderers' definitions rather than restated in lemmas.
