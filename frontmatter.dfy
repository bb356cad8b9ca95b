/** `parseFrontMatter` (build.js): a post may start with a metadata block
    fenced by `---` lines; each metadata line `key: value` sets one entry,
    and the text after the closing fence, trimmed, is the body. */
module FrontMatter {
  import opened Text

  const OpenFence := "---\n"
  const CloseFence := "\n---\n"

  /** The match of `^---\n([\s\S]*?)\n---\n([\s\S]*)$`: the metadata text
      and the text after the closing fence. The metadata group is lazy, so
      the closing fence is the first `\n---\n` after the opening one. */
  function MatchFence(raw: string): (m: Option<(string, string)>)
    ensures m.Some? <==> |raw| >= 4 && raw[..4] == OpenFence && IndexOf(raw[4..], CloseFence).Some?
    ensures m.Some? ==> raw == OpenFence + m.value.0 + CloseFence + m.value.1
    ensures m.Some? ==> IndexOf(raw[4..], CloseFence) == Some(|m.value.0|)
  {
    if |raw| >= 4 && raw[..4] == OpenFence then
      match IndexOf(raw[4..], CloseFence)
      case None => None
      case Some(i) =>
        var t := raw[4..];
        assert t == t[..i] + CloseFence + t[i + 5..];
        assert raw == raw[..4] + t;
        Some((t[..i], t[i + 5..]))
    else None
  }

  /** One metadata line: split at its first colon, which must not be the
      line's first character; key and value are trimmed. */
  function Entry(line: string): Option<(string, string)>
  {
    match IndexOf(line, ":")
    case Some(i) => if i > 0 then Some((Trim(line[..i]), Trim(line[i + 1..]))) else None
    case None => None
  }

  /** The metadata map after the lines have been applied in order: each
      entry sets its key, so a later line overrides an earlier one. */
  function MetaOf(lines: seq<string>): map<string, string>
    decreases |lines|
  {
    if lines == [] then map[]
    else
      var m := MetaOf(lines[..|lines| - 1]);
      match Entry(lines[|lines| - 1])
      case None => m
      case Some(kv) => m[kv.0 := kv.1]
  }

  /** `parseFrontMatter`: without a front-matter block the map is empty and
      the body is the input unchanged; with one, the map holds the entries
      of its lines and the body is the trimmed text after it. */
  method ParseFrontMatter(raw: string) returns (meta: map<string, string>, body: string)
    ensures MatchFence(raw).None? ==> meta == map[] && body == raw
    ensures MatchFence(raw).Some? ==>
              meta == MetaOf(Split(MatchFence(raw).value.0, "\n")) && body == Trim(MatchFence(raw).value.1)
  {
    var m := MatchFence(raw);
    if m.None? {
      return map[], raw;
    }
    var lines := Split(m.value.0, "\n");
    meta := map[];
    var i := 0;
    while i < |lines|
      invariant 0 <= i <= |lines|
      invariant meta == MetaOf(lines[..i])
    {
      var line := lines[i];
      var idx := IndexOf(line, ":");
      MetaSnoc(lines, i);
      if idx.Some? && idx.value > 0 {
        meta := meta[Trim(line[..idx.value]) := Trim(line[idx.value + 1..])];
      }
      i := i + 1;
    }
    assert lines[..|lines|] == lines;
    body := Trim(m.value.1);
  }

  /** The map after one more line. */
  lemma MetaSnoc(lines: seq<string>, i: nat)
    requires i < |lines|
    ensures MetaOf(lines[..i + 1])
            == match Entry(lines[i])
               case None => MetaOf(lines[..i])
               case Some(kv) => MetaOf(lines[..i])[kv.0 := kv.1]
  {
    assert lines[..i + 1][..i] == lines[..i];
  }

  // ---------------------------------------------------------------------
  // Properties

  /** Key/value extraction: a line whose first colon is at index `i`
      contributes exactly when `i > 0`, with the trimmed text before the
      colon as key and the trimmed text after it as value. */
  lemma EntryAtColon(line: string, i: nat)
    requires i < |line| && line[i] == ':' && ':' !in line[..i]
    ensures Entry(line) == if i > 0 then Some((Trim(line[..i]), Trim(line[i + 1..]))) else None
  {
    assert forall j :: 0 <= j < i ==> line[j] == line[..i][j];
    NoMatchBefore(line, ":", i);
    assert line[i..i + 1] == ":";
    IndexOfAt(line, ":", i);
  }

  /** A line without a colon contributes nothing. */
  lemma EntryNoColon(line: string)
    requires ':' !in line
    ensures Entry(line) == None
  {
    NoMatchBefore(line, ":", |line|);
    assert forall j :: !MatchAt(line, ":", j);
  }

  /** A key is in the map exactly when some line has an entry for it. */
  lemma {:induction false} MetaKeys(lines: seq<string>, k: string)
    ensures k in MetaOf(lines) <==>
              exists j :: 0 <= j < |lines| && Entry(lines[j]).Some? && Entry(lines[j]).value.0 == k
    decreases |lines|
  {
    if lines != [] {
      var init := lines[..|lines| - 1];
      MetaKeys(init, k);
      assert forall j :: 0 <= j < |init| ==> init[j] == lines[j];
      if k in MetaOf(lines) && k !in MetaOf(init) {
        assert Entry(lines[|lines| - 1]).Some? && Entry(lines[|lines| - 1]).value.0 == k;
      }
    }
  }

  /** Duplicate keys: the value kept is that of the last line with an
      entry for the key. */
  lemma {:induction false} MetaLastWins(lines: seq<string>, j: nat, k: string, v: string)
    requires j < |lines| && Entry(lines[j]) == Some((k, v))
    requires forall l :: j < l < |lines| ==> Entry(lines[l]).None? || Entry(lines[l]).value.0 != k
    ensures k in MetaOf(lines) && MetaOf(lines)[k] == v
    decreases |lines|
  {
    var init := lines[..|lines| - 1];
    if j < |lines| - 1 {
      assert init[j] == lines[j];
      assert forall l :: j < l < |init| ==> init[l] == lines[l];
      MetaLastWins(init, j, k, v);
    }
  }

  /** The metadata text and the rest are read back from a fenced input
      exactly when no closing fence occurs earlier, that is when
      `\n---\n` does not occur in the metadata followed by `\n---`. */
  lemma FenceParts(meta: string, rest: string)
    ensures MatchFence(OpenFence + meta + CloseFence + rest) == Some((meta, rest))
            <==> Free(meta + "\n---", CloseFence)
  {
    var raw := OpenFence + meta + CloseFence + rest;
    var t := raw[4..];
    var head := meta + "\n---";
    assert raw[..4] == OpenFence;
    assert t == meta + CloseFence + rest;
    assert t == head + ("\n" + rest);
    assert MatchAt(t, CloseFence, |meta|);
    forall j | 0 <= j < |meta| ensures MatchAt(t, CloseFence, j) <==> MatchAt(head, CloseFence, j) {
      MatchAppend(head, "\n" + rest, CloseFence, j);
    }
    if Free(head, CloseFence) {
      IndexOfAt(t, CloseFence, |meta|);
      assert t[..|meta|] == meta;
      assert t[|meta| + 5..] == rest;
    }
    if MatchFence(raw) == Some((meta, rest)) {
      forall j ensures !MatchAt(head, CloseFence, j) {
        if 0 <= j && j + 5 <= |head| {
          assert !MatchAt(t, CloseFence, j);
        }
      }
    }
  }
}
