/** The commands of a fast-import stream and their exact wire bytes (`fastimport/commands.py`). */
module Commands {
  import opened Wrappers
  import opened ByteStrings
  import opened Failures
  import opened Decimal
  import opened DataSections
  import opened WhoWhen
  import opened Properties
  import opened FileCommands
  import opened Paths
  import Utf8

  datatype Command =
    | Blob(mark: Option<Bytes>, data: Bytes, lineno: nat)
    | Checkpoint
    | Commit(ref: Bytes, mark: Option<Bytes>, author: Option<WhoWhen>, committer: WhoWhen,
             message: Option<Bytes>, fromRef: Option<Bytes>, merges: Option<seq<Bytes>>,
             fileIter: Option<seq<FileCommand>>, lineno: nat, moreAuthors: Option<seq<WhoWhen>>,
             properties: Option<map<string, Option<string>>>)
    | Feature(featureName: string, value: Option<string>, lineno: nat)
    | Progress(text: Bytes)
    | Reset(ref: Bytes, fromRef: Option<Bytes>)
    | Tag(id: Bytes, fromRef: Option<Bytes>, tagger: Option<WhoWhen>, message: Option<Bytes>)

  /** The keyword a command is introduced by (`COMMAND_NAMES`). */
  function Keyword(c: Command): Bytes {
    match c
    case Blob(_, _, _) => "blob"
    case Checkpoint => "checkpoint"
    case Commit(_, _, _, _, _, _, _, _, _, _, _) => "commit"
    case Feature(_, _, _) => "feature"
    case Progress(_) => "progress"
    case Reset(_, _) => "reset"
    case Tag(_, _, _, _) => "tag"
  }

  // ----- Ids -----

  /** The id of a blob or commit: `:<mark>` when it has a mark, else the synthetic `@<lineno>`. */
  function MarkId(mark: Option<Bytes>, lineno: nat): (id: Bytes)
    ensures |id| >= 1
    ensures mark.None? ==> id[0] == '@' && id[1..] == NatToDecimal(lineno)
    ensures mark.Some? ==> id[0] == ':' && id[1..] == mark.value
  {
    if mark.None? then "@" + NatToDecimal(lineno) else ":" + mark.value
  }

  /** `BlobCommand.id` and `CommitCommand.id` */
  function CommandId(c: Command): (id: Bytes)
    requires c.Blob? || c.Commit?
    ensures |id| >= 1 && (id[0] == ':' <==> c.mark.Some?)
    ensures c.mark.Some? ==> id[1..] == c.mark.value
    ensures c.mark.None? ==> id[0] == '@' && id[1..] == NatToDecimal(c.lineno)
  {
    MarkId(c.mark, c.lineno)
  }

  /** Two marked commands have the same id exactly when their marks are equal. */
  lemma MarkedIdsEqualIffMarksEqual(a: Bytes, b: Bytes, lineA: nat, lineB: nat)
    ensures MarkId(Some(a), lineA) == MarkId(Some(b), lineB) <==> a == b
  {
    if MarkId(Some(a), lineA) == MarkId(Some(b), lineB) {
      assert MarkId(Some(a), lineA)[1..] == MarkId(Some(b), lineB)[1..];
    }
  }

  /** Synthetic ids never collide with marked ones, and two of them are equal exactly when the
      commands start on the same line. */
  lemma SyntheticIds(mark: Bytes, lineA: nat, lineB: nat, lineC: nat)
    ensures MarkId(None, lineA) != MarkId(Some(mark), lineC)
    ensures MarkId(None, lineA) == MarkId(None, lineB) <==> lineA == lineB
  {
    NatToDecimalInjective(lineA, lineB);
    if MarkId(None, lineA) == MarkId(None, lineB) {
      assert MarkId(None, lineA)[1..] == MarkId(None, lineB)[1..];
    }
  }

  // ----- Blob, checkpoint, feature, progress, reset, tag -----

  /** The text of the `mark :<mark>` line, when there is a mark. */
  function MarkTexts(mark: Option<Bytes>): seq<Bytes> {
    if mark.None? then [] else ["mark :" + mark.value]
  }

  /** The optional `mark :<mark>` line. */
  function MarkLine(mark: Option<Bytes>): (r: Bytes)
    ensures r == Terminated(MarkTexts(mark))
  {
    if mark.None? then [] else TerminatedOne("mark :" + mark.value); "mark :" + mark.value + "\n"
  }

  /** `BlobCommand.__bytes__` */
  function BlobBytes(mark: Option<Bytes>, data: Bytes): (r: Bytes)
    ensures StartsWith(r, "blob\n")
  {
    PrefixSplit("blob\n", MarkLine(mark));
    StartsWithConcat("blob\n" + MarkLine(mark), "blob\n", DataSection(data));
    "blob\n" + MarkLine(mark) + DataSection(data)
  }

  /** After the keyword line and the optional mark line, a blob is one data section holding exactly its
      data: its declared length is `|data|` and nothing follows. */
  lemma BlobReadBack(mark: Option<Bytes>, data: Bytes)
    ensures var head := "blob\n" + MarkLine(mark);
            var r := BlobBytes(mark, data);
            StartsWith(r, head) && ReadDataSection(r[|head|..]) == Some((data, []))
  {
    PrefixSplit("blob\n" + MarkLine(mark), DataSection(data));
    DataSectionReadBack(data, []);
    assert DataSection(data) + [] == DataSection(data);
  }

  /** The text after `feature `: the name, then `=<value>` when there is a value, UTF-8 encoded. */
  function FeatureBody(name: string, value: Option<string>): Bytes {
    Utf8.Encode(name) + (if value.None? then [] else "=" + Utf8.Encode(value.value))
  }

  /** `FeatureCommand.__bytes__` */
  function FeatureBytes(name: string, value: Option<string>): (r: Bytes)
    ensures |r| >= 8 && r[..8] == "feature " && r[8..] == FeatureBody(name, value)
  {
    "feature " + FeatureBody(name, value)
  }

  /** Reads a feature line back, splitting at the first `=`. */
  function ReadFeature(s: Bytes): Option<(string, Option<string>)> {
    if |s| < 8 || s[..8] != "feature " then None else ReadFeatureBody(s[8..])
  }

  function ReadFeatureBody(rest: Bytes): Option<(string, Option<string>)> {
    var i := IndexOf(rest, '=');
    if i == |rest| then
      match Utf8.Decode(rest)
      case Some(name) => Some((name, None))
      case None => None
    else
      match (Utf8.Decode(rest[..i]), Utf8.Decode(rest[i + 1..]))
      case (Some(name), Some(value)) => Some((name, Some(value)))
      case _ => None
  }

  lemma FeatureBodyRoundTrip(name: string, value: Option<string>)
    requires '=' !in name
    ensures ReadFeatureBody(FeatureBody(name, value)) == Some((name, value))
  {
    var n := Utf8.Encode(name);
    Utf8.EncodeKeepsAsciiAbsent(name, '=');
    Utf8.DecodeEncode(name);
    if value.Some? {
      var v := Utf8.Encode(value.value);
      Utf8.DecodeEncode(value.value);
      var b := n + "=" + v;
      assert FeatureBody(name, value) == b;
      IndexOfConcat(n, '=', v);
      assert b[..|n|] == n && b[|n| + 1..] == v;
    } else {
      assert FeatureBody(name, value) == n;
      assert IndexOf(n, '=') == |n|;
    }
  }

  /** A feature whose name holds no `=` reads back as the same name and value. */
  lemma FeatureRoundTrip(name: string, value: Option<string>)
    requires '=' !in name
    ensures ReadFeature(FeatureBytes(name, value)) == Some((name, value))
  {
    FeatureBodyRoundTrip(name, value);
  }

  /** `ProgressCommand.__bytes__` */
  function ProgressBytes(text: Bytes): (r: Bytes)
    ensures |r| >= 9 && r[..9] == "progress " && r[9..] == text
  {
    "progress " + text
  }

  /** The `from` line of a reset, always followed by a newline. */
  function ResetFromPart(fromRef: Option<Bytes>): Bytes {
    if fromRef.None? then [] else "\nfrom " + fromRef.value + "\n"
  }

  /** `ResetCommand.__bytes__` */
  function ResetBytes(ref: Bytes, fromRef: Option<Bytes>): (r: Bytes)
    ensures StartsWith(r, "reset " + ref)
  {
    PrefixSplit("reset " + ref, ResetFromPart(fromRef));
    "reset " + ref + ResetFromPart(fromRef)
  }

  /** A reset is the `reset` line, then the `from` line and an empty line exactly when it has a parent;
      when neither the ref nor the parent holds a newline, these are exactly the lines a reader sees. */
  lemma ResetLines(ref: Bytes, fromRef: Option<Bytes>)
    ensures var lines := ["reset " + ref] + (if fromRef.Some? then ["from " + fromRef.value, ""] else []);
            ResetBytes(ref, fromRef) == JoinLines(lines) &&
            ('\n' !in ref && (fromRef.Some? ==> '\n' !in fromRef.value) ==> SplitLines(ResetBytes(ref, fromRef)) == lines)
  {
    var head := "reset " + ref;
    var lines := [head] + (if fromRef.Some? then ["from " + fromRef.value, ""] else []);
    if fromRef.Some? {
      var f := "from " + fromRef.value;
      ConcatAssoc("\n", "from ", fromRef.value);
      assert ResetFromPart(fromRef) == "\n" + f + "\n";
      ConcatAssoc("\n", f, "\n");
      ConcatAssoc(head, "\n", f + "\n");
      assert lines == [head, f, ""];
      assert JoinLines([f, ""]) == f + "\n" + [];
      assert JoinLines(lines) == head + "\n" + JoinLines([f, ""]);
      assert f + "\n" + [] == f + "\n";
    } else {
      assert ResetBytes(ref, fromRef) == head + [];
      assert lines == [head];
    }
    if '\n' !in ref && (fromRef.Some? ==> '\n' !in fromRef.value) {
      SplitJoinLines(lines);
    }
  }

  /** The `from` line of a tag, after a newline. */
  function TagFromPart(fromRef: Option<Bytes>): Bytes {
    if fromRef.None? then [] else "\nfrom " + fromRef.value
  }

  /** The tagger, rendered. */
  function TaggerText(tagger: Option<WhoWhen>): Option<Bytes> {
    if tagger.None? then None else Some(FormatWhoWhen(tagger.value))
  }

  /** The `tagger` line of a tag, after a newline. */
  function TaggerPart(taggerText: Option<Bytes>): Bytes {
    if taggerText.None? then [] else "\ntagger " + taggerText.value
  }

  /** The message of a tag: a newline, then a data section. */
  function TagMessagePart(message: Option<Bytes>): Bytes {
    if message.None? then [] else "\n" + DataSection(message.value)
  }

  /** The lines of a tag before its message, given the rendered tagger. */
  function TagHeader(id: Bytes, fromRef: Option<Bytes>, taggerText: Option<Bytes>): Bytes {
    "tag " + id + TagFromPart(fromRef) + TaggerPart(taggerText)
  }

  /** `TagCommand.__bytes__` */
  function TagBytes(id: Bytes, fromRef: Option<Bytes>, tagger: Option<WhoWhen>, message: Option<Bytes>): (r: Bytes)
    ensures StartsWith(r, "tag " + id)
  {
    var t := TaggerText(tagger);
    PrefixSplit("tag " + id, TagFromPart(fromRef));
    StartsWithConcat("tag " + id + TagFromPart(fromRef), "tag " + id, TaggerPart(t));
    StartsWithConcat(TagHeader(id, fromRef, t), "tag " + id, TagMessagePart(message));
    TagHeader(id, fromRef, t) + TagMessagePart(message)
  }

  lemma TaggerJoin(first: Bytes, taggerText: Option<Bytes>)
    ensures first + TaggerPart(taggerText)
            == JoinLines([first] + (if taggerText.Some? then ["tagger " + taggerText.value] else []))
  {
    if taggerText.Some? {
      var t := "tagger " + taggerText.value;
      ConcatAssoc("\n", "tagger ", taggerText.value);
      ConcatAssoc(first, "\n", t);
      assert [first] + [t] == [first, t];
    } else {
      assert [first] + [] == [first];
    }
  }

  lemma TagHeaderJoin(id: Bytes, fromRef: Option<Bytes>, taggerText: Option<Bytes>)
    ensures TagHeader(id, fromRef, taggerText)
            == JoinLines(["tag " + id] + (if fromRef.Some? then ["from " + fromRef.value] else [])
                                       + (if taggerText.Some? then ["tagger " + taggerText.value] else []))
  {
    var first := "tag " + id;
    var taggerLines: seq<Bytes> := if taggerText.Some? then ["tagger " + taggerText.value] else [];
    var t := TaggerPart(taggerText);
    if fromRef.Some? {
      var f := "from " + fromRef.value;
      ConcatAssoc("\n", "from ", fromRef.value);
      assert TagFromPart(fromRef) == "\n" + f;
      ConcatAssoc(first, "\n" + f, t);
      ConcatAssoc("\n", f, t);
      ConcatAssoc(first, "\n", f + t);
      TaggerJoin(f, taggerText);
      var all := [first] + [f] + taggerLines;
      assert all[0] == first && all[1..] == [f] + taggerLines;
    } else {
      assert TagHeader(id, fromRef, taggerText) == first + t;
      TaggerJoin(first, taggerText);
      assert [first] + [] + taggerLines == [first] + taggerLines;
    }
  }

  /** A tag's header is the `tag` line, then the `from` line and the `tagger` line exactly when present;
      when no field holds a newline, these are exactly the lines a reader sees. The rendered tagger is
      `TaggerText(tagger)`, which `FormatWhoWhenOneLine` keeps on one line. */
  lemma TagHeaderLines(id: Bytes, fromRef: Option<Bytes>, taggerText: Option<Bytes>)
    ensures var lines := ["tag " + id] + (if fromRef.Some? then ["from " + fromRef.value] else [])
                                       + (if taggerText.Some? then ["tagger " + taggerText.value] else []);
            TagHeader(id, fromRef, taggerText) == JoinLines(lines) &&
            ('\n' !in id && (fromRef.Some? ==> '\n' !in fromRef.value) &&
             (taggerText.Some? ==> '\n' !in taggerText.value) ==>
               SplitLines(TagHeader(id, fromRef, taggerText)) == lines)
  {
    TagHeaderJoin(id, fromRef, taggerText);
    var lines := ["tag " + id] + (if fromRef.Some? then ["from " + fromRef.value] else [])
                               + (if taggerText.Some? then ["tagger " + taggerText.value] else []);
    if '\n' !in id && (fromRef.Some? ==> '\n' !in fromRef.value) &&
       (taggerText.Some? ==> '\n' !in taggerText.value) {
      SplitJoinLines(lines);
    }
  }

  /** After a tag's header `h`, its message is one data section, after a newline, that reads back
      unchanged with nothing after it; a tag without a message is its header alone. */
  lemma TagMessageAfter(h: Bytes, message: Option<Bytes>)
    ensures var r := h + TagMessagePart(message);
            StartsWith(r, h) &&
            (message.None? ==> r == h) &&
            (message.Some? ==> |r| > |h| && r[|h|] == '\n' && ReadDataSection(r[|h| + 1..]) == Some((message.value, [])))
  {
    var m := TagMessagePart(message);
    PrefixSplit(h, m);
    if message.Some? {
      var d := DataSection(message.value);
      PrefixSplit("\n", d);
      assert (h + m)[|h| + 1..] == d;
      DataSectionReadBack(message.value, []);
      assert d + [] == d;
    } else {
      assert h + m == h;
    }
  }

  /** A whole tag: its header is the `tag` line, then the `from` line and the `tagger` line with the
      rendered tagger, each exactly when present; a line reader sees exactly these lines when no field
      holds a newline. Then comes nothing without a message, or a newline and a data section that reads
      back as exactly the message. */
  lemma TagLines(id: Bytes, fromRef: Option<Bytes>, tagger: Option<WhoWhen>, message: Option<Bytes>)
    ensures var r := TagBytes(id, fromRef, tagger, message);
            var h := TagHeader(id, fromRef, TaggerText(tagger));
            var lines := ["tag " + id] + (if fromRef.Some? then ["from " + fromRef.value] else [])
                                       + (if tagger.Some? then ["tagger " + FormatWhoWhen(tagger.value)] else []);
            h == JoinLines(lines) && StartsWith(r, h) &&
            ('\n' !in id && (fromRef.Some? ==> '\n' !in fromRef.value) &&
             (tagger.Some? ==> '\n' !in tagger.value.name && '\n' !in tagger.value.email) ==>
               SplitLines(h) == lines) &&
            (message.None? ==> r == h)
    ensures message.Some? ==> TagMessageReads(TagBytes(id, fromRef, tagger, message), TagHeader(id, fromRef, TaggerText(tagger)), message.value)
  {
    var t := TaggerText(tagger);
    var h := TagHeader(id, fromRef, t);
    assert TagBytes(id, fromRef, tagger, message) == h + TagMessagePart(message);
    assert (if tagger.Some? then ["tagger " + FormatWhoWhen(tagger.value)] else []) ==
           (if t.Some? then ["tagger " + t.value] else []);
    if tagger.Some? && '\n' !in tagger.value.name && '\n' !in tagger.value.email {
      FormatWhoWhenOneLine(tagger.value);
    }
    TagHeaderLines(id, fromRef, t);
    TagMessageOf(TagBytes(id, fromRef, tagger, message), h, message);
  }

  /** After the header `h`, `r` holds a newline and then a data section that reads back as exactly
      `message`, with nothing after it. */
  predicate TagMessageReads(r: Bytes, h: Bytes, message: Bytes) {
    |r| > |h| && r[|h|] == '\n' && ReadDataSection(r[|h| + 1..]) == Some((message, []))
  }

  lemma TagMessageOf(r: Bytes, h: Bytes, message: Option<Bytes>)
    requires r == h + TagMessagePart(message)
    ensures StartsWith(r, h) && (message.None? ==> r == h)
    ensures message.Some? ==> TagMessageReads(r, h, message.value)
  {
    TagMessageAfter(h, message);
  }

  // ----- Commit -----

  /** One `author` line, for a rendered who/when. */
  function AuthorLine(text: Bytes): Bytes {
    "author " + text + "\n"
  }

  /** The rendered who/when of each entry, in list order. */
  function FormatAll(ws: seq<WhoWhen>): (texts: seq<Bytes>)
    ensures |texts| == |ws| && forall i :: 0 <= i < |ws| ==> texts[i] == FormatWhoWhen(ws[i])
  {
    seq(|ws|, i requires 0 <= i < |ws| => FormatWhoWhen(ws[i]))
  }

  lemma FormatAllSnoc(ws: seq<WhoWhen>)
    requires ws != []
    ensures FormatAll(ws) == FormatAll(ws[..|ws| - 1]) + [FormatWhoWhen(ws[|ws| - 1])]
  {
    var init := ws[..|ws| - 1];
    var all, front := FormatAll(ws), FormatAll(init);
    forall i | 0 <= i < |front| ensures all[i] == front[i] {
      assert init[i] == ws[i];
    }
    SnocByElements(all, front, FormatWhoWhen(ws[|ws| - 1]));
  }

  lemma SnocByElements(all: seq<Bytes>, front: seq<Bytes>, last: Bytes)
    requires |all| == |front| + 1 && all[|front|] == last
    requires forall i :: 0 <= i < |front| ==> all[i] == front[i]
    ensures all == front + [last]
  {
  }


  lemma SnocParts(texts: seq<Bytes>, last: Bytes)
    ensures (texts + [last])[..|texts|] == texts && (texts + [last])[|texts|] == last
  {
  }

  /** One `author` line per rendered who/when, in list order. */
  function AuthorLines(texts: seq<Bytes>): Bytes {
    if texts == [] then [] else AuthorLines(texts[..|texts| - 1]) + AuthorLine(texts[|texts| - 1])
  }

  /** Whether the extra authors are emitted: the extension is on and the list is non-empty. */
  predicate EmitsExtraAuthors(more: Option<seq<WhoWhen>>, useFeatures: bool) {
    useFeatures && more.Some? && more.value != []
  }

  /** The primary author, then the extra authors only when the extension is on. */
  function AuthorSection(author: Option<WhoWhen>, more: Option<seq<WhoWhen>>, useFeatures: bool): (r: Bytes)
    ensures author.None? ==> r == []
  {
    if author.None? then []
    else if EmitsExtraAuthors(more, useFeatures) then AuthorLine(FormatWhoWhen(author.value)) + ExtraAuthorLines(more.value)
    else AuthorLine(FormatWhoWhen(author.value))
  }

  /** One `author` line per extra author, in list order. */
  function ExtraAuthorLines(ws: seq<WhoWhen>): Bytes {
    if ws == [] then [] else ExtraAuthorLines(ws[..|ws| - 1]) + AuthorLine(FormatWhoWhen(ws[|ws| - 1]))
  }

  lemma ExtraAuthorLinesStep(first: Bytes, ws: seq<WhoWhen>, i: nat)
    requires i < |ws|
    ensures first + ExtraAuthorLines(ws[..i]) + AuthorLine(FormatWhoWhen(ws[i])) == first + ExtraAuthorLines(ws[..i + 1])
  {
    assert ws[..i + 1][..i] == ws[..i];
    ConcatAssoc(first, ExtraAuthorLines(ws[..i]), AuthorLine(FormatWhoWhen(ws[i])));
  }

  /** The extra author lines are the author lines of the rendered who/when texts. */
  lemma {:induction false} ExtraAuthorLinesTexts(ws: seq<WhoWhen>)
    ensures ExtraAuthorLines(ws) == AuthorLines(FormatAll(ws))
  {
    if ws != [] {
      var init := ws[..|ws| - 1];
      ExtraAuthorLinesTexts(init);
      FormatAllSnoc(ws);
      SnocParts(FormatAll(init), FormatWhoWhen(ws[|ws| - 1]));
    }
  }

  /** With extra authors emitted, the author section is the author lines of the rendered primary
      author and the rendered extra authors, so `AuthorSectionLines` gives its line structure. */
  lemma AuthorSectionTexts(author: Option<WhoWhen>, more: Option<seq<WhoWhen>>, useFeatures: bool)
    requires author.Some? && EmitsExtraAuthors(more, useFeatures)
    ensures AuthorSection(author, more, useFeatures) ==
            AuthorLine(FormatWhoWhen(author.value)) + AuthorLines(FormatAll(more.value))
  {
    ExtraAuthorLinesTexts(more.value);
  }

  /** The text of one line per item, each the keyword followed by its item, in list order: the
      `author` lines of the extra authors and the `merge` lines of a commit. */
  function KeywordTexts(keyword: Bytes, items: seq<Bytes>): (lines: seq<Bytes>)
    ensures |lines| == |items| && forall i :: 0 <= i < |items| ==> lines[i] == keyword + items[i]
  {
    seq(|items|, i requires 0 <= i < |items| => keyword + items[i])
  }

  lemma {:induction false} AuthorLinesJoin(first: Bytes, texts: seq<Bytes>)
    ensures AuthorLine(first) + AuthorLines(texts) == JoinLines(["author " + first] + KeywordTexts("author ", texts)) + "\n"
  {
    if texts == [] {
      assert ["author " + first] + KeywordTexts("author ", texts) == ["author " + first];
      assert AuthorLine(first) + AuthorLines(texts) == AuthorLine(first);
    } else {
      var init, last := texts[..|texts| - 1], texts[|texts| - 1];
      var l0 := ["author " + first] + KeywordTexts("author ", init);
      AuthorLinesJoin(first, init);
      ConcatAssoc(AuthorLine(first), AuthorLines(init), AuthorLine(last));
      ConcatAssoc(JoinLines(l0) + "\n", "author " + last, "\n");
      JoinLinesSnoc(l0, "author " + last);
      assert l0 + ["author " + last] == ["author " + first] + KeywordTexts("author ", texts);
    }
  }

  /** The author section is the primary author's line, then one line per extra author in list order,
      and ends with a newline; when no rendered who/when holds a newline, these are exactly the lines a
      reader sees. With the extension on, `AuthorSection` is `AuthorLine(first) + AuthorLines(texts)` for
      `first` the rendered primary author and `texts == FormatAll(more)`. */
  lemma AuthorSectionLines(first: Bytes, texts: seq<Bytes>)
    ensures var lines := ["author " + first] + KeywordTexts("author ", texts) + [[]];
            AuthorLine(first) + AuthorLines(texts) == JoinLines(lines) &&
            ('\n' !in first && (forall i :: 0 <= i < |texts| ==> '\n' !in texts[i]) ==>
               SplitLines(AuthorLine(first) + AuthorLines(texts)) == lines)
  {
    AuthorSectionJoin(first, texts);
    if '\n' !in first && (forall i :: 0 <= i < |texts| ==> '\n' !in texts[i]) {
      AuthorLinesOneEach(first, texts);
      SplitJoinLines(["author " + first] + KeywordTexts("author ", texts) + [[]]);
    }
  }

  lemma AuthorSectionJoin(first: Bytes, texts: seq<Bytes>)
    ensures AuthorLine(first) + AuthorLines(texts) == JoinLines(["author " + first] + KeywordTexts("author ", texts) + [[]])
  {
    var l0 := ["author " + first] + KeywordTexts("author ", texts);
    AuthorLinesJoin(first, texts);
    JoinLinesSnoc(l0, []);
    assert JoinLines(l0) + "\n" + [] == JoinLines(l0) + "\n";
  }

  lemma AuthorLinesOneEach(first: Bytes, texts: seq<Bytes>)
    requires '\n' !in first && forall i :: 0 <= i < |texts| ==> '\n' !in texts[i]
    ensures NoNewlines(["author " + first] + KeywordTexts("author ", texts) + [[]])
  {
    var lines := ["author " + first] + KeywordTexts("author ", texts) + [[]];
    forall i | 0 <= i < |lines| ensures '\n' !in lines[i] {
      if i == 0 {
        assert lines[i] == "author " + first;
      } else if i <= |texts| {
        assert lines[i] == KeywordTexts("author ", texts)[i - 1] == "author " + texts[i - 1];
      } else {
        assert lines[i] == [];
      }
    }
  }

  /** The text of each line of the author section: the primary author, then the extra authors when
      they are emitted. */
  function AuthorLineTexts(author: Option<WhoWhen>, more: Option<seq<WhoWhen>>, useFeatures: bool): seq<Bytes> {
    if author.None? then []
    else ["author " + FormatWhoWhen(author.value)] +
         (if EmitsExtraAuthors(more, useFeatures) then KeywordTexts("author ", FormatAll(more.value)) else [])
  }

  /** The author section is its lines, each ended by a newline. */
  lemma AuthorSectionTerminated(author: Option<WhoWhen>, more: Option<seq<WhoWhen>>, useFeatures: bool)
    ensures AuthorSection(author, more, useFeatures) == Terminated(AuthorLineTexts(author, more, useFeatures))
  {
    if author.Some? {
      var first := FormatWhoWhen(author.value);
      if EmitsExtraAuthors(more, useFeatures) {
        AuthorSectionTexts(author, more, useFeatures);
        AuthorSectionJoin(first, FormatAll(more.value));
        TerminatedIsJoined(["author " + first] + KeywordTexts("author ", FormatAll(more.value)));
      } else {
        TerminatedOne("author " + first);
        assert ["author " + first] + [] == ["author " + first];
      }
    }
  }

  /** `committer <who>` */
  function CommitterLine(w: WhoWhen): (r: Bytes)
    ensures r == Terminated(["committer " + FormatWhoWhen(w)])
  {
    TerminatedOne("committer " + FormatWhoWhen(w));
    "committer " + FormatWhoWhen(w) + "\n"
  }

  /** The commit message as a data section followed by a newline. */
  function MessageSection(message: Option<Bytes>): (r: Bytes)
    ensures message.None? ==> r == []
    ensures message.Some? ==> ReadDataSection(r) == Some((message.value, "\n"))
  {
    if message.None? then []
    else
      MessageReadBack(message.value, []);
      assert DataSection(message.value) + "\n" + [] == DataSection(message.value) + "\n";
      DataSection(message.value) + "\n"
  }

  /** The message section reads back as exactly the message; the reader is left with the newline after
      it and then whatever follows the section. */
  lemma MessageReadBack(message: Bytes, rest: Bytes)
    ensures ReadDataSection(DataSection(message) + "\n" + rest) == Some((message, "\n" + rest))
  {
    ConcatAssoc(DataSection(message), "\n", rest);
    DataSectionReadBack(message, "\n" + rest);
  }

  /** The text of the `from` line, when there is a parent. */
  function FromTexts(fromRef: Option<Bytes>): seq<Bytes> {
    if fromRef.None? then [] else ["from " + fromRef.value]
  }

  /** The optional `from <parent>` line. */
  function FromLine(fromRef: Option<Bytes>): (r: Bytes)
    ensures r == Terminated(FromTexts(fromRef))
  {
    if fromRef.None? then [] else TerminatedOne("from " + fromRef.value); "from " + fromRef.value + "\n"
  }

  /** `merge <id>` lines, in list order: one line per id, each ended by a newline. */
  function MergeList(merges: seq<Bytes>): (r: Bytes)
    ensures r == Terminated(KeywordTexts("merge ", merges))
  {
    if merges == [] then []
    else
      var init, last := merges[..|merges| - 1], merges[|merges| - 1];
      var texts := KeywordTexts("merge ", merges);
      assert texts[..|texts| - 1] == KeywordTexts("merge ", init);
      MergeList(init) + ("merge " + last + "\n")
  }

  /** The merge lines, when there is a merge list. */
  function MergeLines(merges: Option<seq<Bytes>>): (r: Bytes)
    ensures r == Terminated(if merges.None? then [] else KeywordTexts("merge ", merges.value))
  {
    if merges.None? then [] else MergeList(merges.value)
  }

  /** Whether a commit emits property lines: the extension is on and there is at least one property. */
  predicate EmitsProperties(props: Option<map<string, Option<string>>>, useFeatures: bool) {
    useFeatures && props.Some? && |props.value| > 0
  }

  /** The property lines for `names`, one per name, in the order given. */
  function PropertyLines(props: map<string, Option<string>>, names: seq<string>): (lines: seq<Bytes>)
    requires forall i :: 0 <= i < |names| ==> names[i] in props
  {
    seq(|names|, i requires 0 <= i < |names| && names[i] in props => FormatProperty(names[i], props[names[i]]) + "\n")
  }

  /** One line per property, keys in sorted order, only when the extension is on. */
  function PropertiesSection(props: Option<map<string, Option<string>>>, useFeatures: bool): (r: Bytes)
    ensures !EmitsProperties(props, useFeatures) ==> r == []
  {
    if EmitsProperties(props, useFeatures) then
      var p := props.value;
      Concat(PropertyLines(p, SortedKeys(p.Keys)))
    else []
  }

  /** The emitted property lines are one per property, each rendered from its own value, in the order
      of `SortedKeys`. */
  lemma PropertiesInSortedOrder(p: map<string, Option<string>>)
    requires |p| > 0
    ensures var names := SortedKeys(p.Keys);
            var lines := PropertyLines(p, names);
            PropertiesSection(Some(p), true) == Concat(lines) && |lines| == |p| &&
            (forall i :: 0 <= i < |lines| ==> lines[i] == FormatProperty(names[i], p[names[i]]) + "\n")
  {
    assert |p.Keys| == |p|;
  }

  /** The renderings of the file sub-commands in order, each followed by `terminator`; the first one
      that fails fails the whole. */
  function JoinFileCommands(files: seq<FileCommand>, includeContents: bool, terminator: Bytes): (r: Result<Bytes, Error>)
    ensures r.Success? <==> forall j :: 0 <= j < |files| ==> FileCommandBytes(files[j], includeContents).Success?
    ensures r.Failure? ==> exists j :: 0 <= j < |files| && FileCommandBytes(files[j], includeContents) == Failure(r.error)
  {
    if files == [] then Success([])
    else
      var init, last := files[..|files| - 1], files[|files| - 1];
      assert forall j :: 0 <= j < |init| ==> init[j] == files[j];
      assert files == init + [last];
      match JoinFileCommands(init, includeContents, terminator)
      case Failure(e) => Failure(e)
      case Success(rest) =>
        match FileCommandBytes(last, includeContents)
        case Failure(e) => Failure(e)
        case Success(line) => Success(rest + line + terminator)
  }

  /** `"".join([format_str(c) for c in self.iter_files()])` as written: the renderings run together. */
  function FileCommandsBytesAsWritten(files: seq<FileCommand>, includeContents: bool): (r: Result<Bytes, Error>)
    ensures r.Success? <==> forall j :: 0 <= j < |files| ==> FileCommandBytes(files[j], includeContents).Success?
  {
    JoinFileCommands(files, includeContents, [])
  }

  /** The file section with each sub-command on a line of its own, as the fast-import format requires. */
  function FileCommandsBytes(files: seq<FileCommand>, includeContents: bool): (r: Result<Bytes, Error>)
    ensures r.Success? <==> forall j :: 0 <= j < |files| ==> FileCommandBytes(files[j], includeContents).Success?
  {
    JoinFileCommands(files, includeContents, "\n")
  }

  /** A failure stays the failure of every longer list. */
  lemma {:induction false} FileCommandsFailurePersists(files: seq<FileCommand>, n: nat, includeContents: bool)
    requires n <= |files| && FileCommandsBytes(files[..n], includeContents).Failure?
    ensures FileCommandsBytes(files, includeContents) == FileCommandsBytes(files[..n], includeContents)
    decreases |files| - n
  {
    if n < |files| {
      assert files[..n + 1][..n] == files[..n];
      FileCommandsFailurePersists(files, n + 1, includeContents);
    } else {
      assert files[..n] == files;
    }
  }

  /** The renderings of all the file sub-commands, when each succeeds. */
  function Renderings(files: seq<FileCommand>, includeContents: bool): (lines: seq<Bytes>)
    requires forall j :: 0 <= j < |files| ==> FileCommandBytes(files[j], includeContents).Success?
    ensures |lines| == |files|
    ensures forall j :: 0 <= j < |files| ==> lines[j] == FileCommandBytes(files[j], includeContents).value
  {
    seq(|files|, j requires 0 <= j < |files| => FileCommandBytes(files[j], includeContents).value)
  }

  lemma {:induction false} FileCommandsTerminated(files: seq<FileCommand>, includeContents: bool)
    requires forall j :: 0 <= j < |files| ==> FileCommandBytes(files[j], includeContents).Success?
    ensures FileCommandsBytes(files, includeContents) == Success(Terminated(Renderings(files, includeContents)))
  {
    if files != [] {
      var init := files[..|files| - 1];
      assert forall j :: 0 <= j < |init| ==> init[j] == files[j];
      FileCommandsTerminated(init, includeContents);
      var lines := Renderings(files, includeContents);
      assert lines[..|lines| - 1] == Renderings(init, includeContents);
    }
  }

  /** With the corrected join, a line reader sees each single-line sub-command as one line of its own,
      in order, and the section ends with a newline. */
  lemma FileCommandsLines(files: seq<FileCommand>, includeContents: bool)
    requires forall j :: 0 <= j < |files| ==> FileCommandBytes(files[j], includeContents).Success?
    requires forall j :: 0 <= j < |files| ==> '\n' !in FileCommandBytes(files[j], includeContents).value
    ensures var lines := SplitLines(FileCommandsBytes(files, includeContents).value);
            |lines| == |files| + 1 && lines[|files|] == [] &&
            forall j :: 0 <= j < |files| ==> lines[j] == FileCommandBytes(files[j], includeContents).value
  {
    FileCommandsTerminated(files, includeContents);
    SplitTerminated(Renderings(files, includeContents));
  }

  /** As written, two deletions run together into one line: `D aD b` for the paths `a` and `b`. */
  lemma AsWrittenFilesRunTogether(p: Bytes, q: Bytes, includeContents: bool)
    requires !NeedsQuoting(p, false) && !NeedsQuoting(q, false)
    ensures FileCommandsBytesAsWritten([Delete(p), Delete(q)], includeContents) == Success("D " + p + "D " + q)
    ensures SplitLines(FileCommandsBytesAsWritten([Delete(p), Delete(q)], includeContents).value) == ["D " + p + "D " + q]
  {
    var files := [Delete(p), Delete(q)];
    DeleteRendering(p, includeContents);
    DeleteRendering(q, includeContents);
    assert files[..1] == [Delete(p)] && files[..1][..0] == [];
    assert JoinFileCommands([], includeContents, []) == Success([]);
    assert JoinFileCommands([Delete(p)], includeContents, []) == Success([] + ("D " + p) + []);
    assert [] + ("D " + p) + [] == "D " + p;
    assert "D " + p + ("D " + q) + [] == "D " + p + "D " + q;
    SplitLinesSingle("D " + p + "D " + q);
  }

  /** The list fails with the error of the first file sub-command that fails. */
  lemma FileCommandsFirstFailure(files: seq<FileCommand>, i: nat, includeContents: bool)
    requires i < |files| && FileCommandBytes(files[i], includeContents).Failure?
    requires forall j :: 0 <= j < i ==> FileCommandBytes(files[j], includeContents).Success?
    ensures FileCommandsBytes(files, includeContents) == Failure(FileCommandBytes(files[i], includeContents).error)
  {
    var init := files[..i];
    assert forall j :: 0 <= j < |init| ==> init[j] == files[j];
    FailingStep(files, i, includeContents);
    FileCommandsFailurePersists(files, i + 1, includeContents);
  }

  lemma FailingStep(files: seq<FileCommand>, i: nat, includeContents: bool)
    requires i < |files| && FileCommandsBytes(files[..i], includeContents).Success?
    requires FileCommandBytes(files[i], includeContents).Failure?
    ensures FileCommandsBytes(files[..i + 1], includeContents) == Failure(FileCommandBytes(files[i], includeContents).error)
  {
    assert files[..i + 1][..i] == files[..i];
  }

  lemma RenderingStep(files: seq<FileCommand>, i: nat, includeContents: bool, rendered: Bytes)
    requires i < |files| && FileCommandsBytes(files[..i], includeContents) == Success(rendered)
    requires FileCommandBytes(files[i], includeContents).Success?
    ensures FileCommandsBytes(files[..i + 1], includeContents)
            == Success(rendered + FileCommandBytes(files[i], includeContents).value + "\n")
  {
    assert files[..i + 1][..i] == files[..i];
  }

  function FilesSection(fileIter: Option<seq<FileCommand>>, includeContents: bool): Result<Bytes, Error> {
    if fileIter.None? then Success([]) else FileCommandsBytes(fileIter.value, includeContents)
  }

  function FilesSectionAsWritten(fileIter: Option<seq<FileCommand>>, includeContents: bool): Result<Bytes, Error> {
    if fileIter.None? then Success([]) else FileCommandsBytesAsWritten(fileIter.value, includeContents)
  }

  /** The header line `commit <ref>`. */
  function CommitHeader(ref: Bytes): Bytes {
    "commit " + ref + "\n"
  }

  /** Everything after the header line, in order: mark, authors, committer, message, parent, merges,
      properties, then the rendered file sub-commands. */
  function CommitBody(c: Command, useFeatures: bool, filecommands: Bytes): Bytes
    requires c.Commit?
  {
    MarkLine(c.mark) + AuthorSection(c.author, c.moreAuthors, useFeatures) + CommitterLine(c.committer) +
    MessageSection(c.message) + FromLine(c.fromRef) + MergeLines(c.merges) +
    PropertiesSection(c.properties, useFeatures) + filecommands
  }

  /** `CommitCommand.to_bytes(use_features, include_file_contents)` */
  function CommitBytes(c: Command, useFeatures: bool, includeContents: bool): (r: Result<Bytes, Error>)
    requires c.Commit?
    ensures r.Success? <==> FilesSection(c.fileIter, includeContents).Success?
    ensures r.Failure? ==> r.error == FilesSection(c.fileIter, includeContents).error
    ensures r.Success? ==> StartsWith(r.value, CommitHeader(c.ref))
  {
    var filecommands :- FilesSection(c.fileIter, includeContents);
    PrefixSplit(CommitHeader(c.ref), CommitBody(c, useFeatures, filecommands));
    Success(CommitHeader(c.ref) + CommitBody(c, useFeatures, filecommands))
  }

  /** The text of each line before the message: `commit <ref>`, the mark, the authors and the committer. */
  function CommitHeadTexts(c: Command, useFeatures: bool): seq<Bytes>
    requires c.Commit?
  {
    ["commit " + c.ref] + MarkTexts(c.mark) + AuthorLineTexts(c.author, c.moreAuthors, useFeatures)
    + ["committer " + FormatWhoWhen(c.committer)]
  }

  /** The text of each line after the message: the `from` line, then one `merge` line per merge in order. */
  function ParentTexts(c: Command): seq<Bytes>
    requires c.Commit?
  {
    FromTexts(c.fromRef) + (if c.merges.None? then [] else KeywordTexts("merge ", c.merges.value))
  }

  lemma CommitHeadTerminated(c: Command, useFeatures: bool)
    requires c.Commit?
    ensures CommitHeader(c.ref) + MarkLine(c.mark) + AuthorSection(c.author, c.moreAuthors, useFeatures) +
            CommitterLine(c.committer) == Terminated(CommitHeadTexts(c, useFeatures))
  {
    var h, m := ["commit " + c.ref], MarkTexts(c.mark);
    var a, k := AuthorLineTexts(c.author, c.moreAuthors, useFeatures), ["committer " + FormatWhoWhen(c.committer)];
    TerminatedOne("commit " + c.ref);
    AuthorSectionTerminated(c.author, c.moreAuthors, useFeatures);
    TerminatedConcat(h, m);
    TerminatedConcat(h + m, a);
    TerminatedConcat(h + m + a, k);
  }

  lemma ParentsTerminated(c: Command)
    requires c.Commit?
    ensures FromLine(c.fromRef) + MergeLines(c.merges) == Terminated(ParentTexts(c))
  {
    TerminatedConcat(FromTexts(c.fromRef), if c.merges.None? then [] else KeywordTexts("merge ", c.merges.value));
  }

  lemma CommitRegroup(h: Bytes, m: Bytes, a: Bytes, k: Bytes, msg: Bytes, f: Bytes, g: Bytes, p: Bytes, files: Bytes)
    ensures h + (m + a + k + msg + f + g + p + files) == (h + m + a + k) + msg + (f + g) + (p + files)
  {
  }

  lemma Regroup4(a: Bytes, b: Bytes, c: Bytes, d: Bytes)
    ensures a + b + c + d == a + (b + c + d) && b + c + d == b + (c + d)
  {
  }

  /** A corrected commit, read line by line: first the `commit`, `mark`, `author` and `committer` lines in
      that order; then the message, as one data section that reads back unchanged; then the `from` line
      and the `merge` lines in order; then the properties and the file sub-commands. The line claims
      hold when no line text holds a newline of its own. */
  lemma CommitLines(c: Command, useFeatures: bool, includeContents: bool)
    requires c.Commit? && CommitBytes(c, useFeatures, includeContents).Success?
    ensures var r := CommitBytes(c, useFeatures, includeContents).value;
            var head := CommitHeadTexts(c, useFeatures);
            var parents := Terminated(ParentTexts(c));
            var tail := PropertiesSection(c.properties, useFeatures) + FilesSection(c.fileIter, includeContents).value;
            r == Terminated(head) + MessageSection(c.message) + parents + tail &&
            (NoNewlines(head) ==> SplitLines(r) == head + SplitLines(MessageSection(c.message) + parents + tail)) &&
            (c.message.Some? ==>
               ReadDataSection(MessageSection(c.message) + parents + tail) == Some((c.message.value, "\n" + (parents + tail)))) &&
            (c.message.None? ==> MessageSection(c.message) + parents + tail == parents + tail) &&
            (NoNewlines(ParentTexts(c)) ==> SplitLines(parents + tail) == ParentTexts(c) + SplitLines(tail))
  {
    var files := FilesSection(c.fileIter, includeContents).value;
    var head := CommitHeadTexts(c, useFeatures);
    var msg := MessageSection(c.message);
    var parents := Terminated(ParentTexts(c));
    var tail := PropertiesSection(c.properties, useFeatures) + files;
    CommitHeadTerminated(c, useFeatures);
    ParentsTerminated(c);
    CommitRegroup(CommitHeader(c.ref), MarkLine(c.mark), AuthorSection(c.author, c.moreAuthors, useFeatures),
                  CommitterLine(c.committer), msg, FromLine(c.fromRef), MergeLines(c.merges),
                  PropertiesSection(c.properties, useFeatures), files);
    Regroup4(Terminated(head), msg, parents, tail);
    if NoNewlines(head) {
      SplitTerminatedThen(head, msg + parents + tail);
    }
    if c.message.Some? {
      MessageReadBack(c.message.value, parents + tail);
    }
    if NoNewlines(ParentTexts(c)) {
      SplitTerminatedThen(ParentTexts(c), tail);
    }
  }

  /** The author section, extended author by author. */
  method AuthorSectionLoop(author: Option<WhoWhen>, more: Option<seq<WhoWhen>>, useFeatures: bool)
    returns (authorSection: Bytes)
    ensures authorSection == AuthorSection(author, more, useFeatures)
  {
    authorSection := [];
    if author.Some? {
      authorSection := AuthorLine(FormatWhoWhen(author.value));
      if useFeatures && more.Some? && more.value != [] {
        authorSection := AppendExtraAuthors(authorSection, more.value);
      }
    }
  }

  /** Appends one `author` line per extra author to `first`. */
  method AppendExtraAuthors(first: Bytes, others: seq<WhoWhen>) returns (authorSection: Bytes)
    ensures authorSection == first + ExtraAuthorLines(others)
  {
    authorSection := first;
    assert others[..0] == [] && first + [] == first;
    var i := 0;
    while i < |others|
      invariant 0 <= i <= |others|
      invariant authorSection == first + ExtraAuthorLines(others[..i])
    {
      ExtraAuthorLinesStep(first, others, i);
      authorSection := authorSection + AuthorLine(FormatWhoWhen(others[i]));
      i := i + 1;
    }
    assert others[..|others|] == others;
  }

  /** The properties section: one line per key, in sorted key order, then joined. */
  method PropertiesLoop(properties: Option<map<string, Option<string>>>, useFeatures: bool)
    returns (propertiesSection: Bytes)
    ensures propertiesSection == PropertiesSection(properties, useFeatures)
  {
    propertiesSection := [];
    if useFeatures && properties.Some? && |properties.value| > 0 {
      var props := properties.value;
      var names := SortedKeys(props.Keys);
      var propertyLines := RenderProperties(props, names);
      propertiesSection := Concat(propertyLines);
    }
  }

  /** Renders the property of each name in turn. */
  method RenderProperties(props: map<string, Option<string>>, names: seq<string>) returns (propertyLines: seq<Bytes>)
    requires forall i :: 0 <= i < |names| ==> names[i] in props
    ensures propertyLines == PropertyLines(props, names)
  {
    propertyLines := [];
    var i := 0;
    while i < |names|
      invariant 0 <= i <= |names| && |propertyLines| == i
      invariant propertyLines == PropertyLines(props, names)[..i]
    {
      PropertyLinesStep(props, names, i);
      propertyLines := propertyLines + [FormatProperty(names[i], props[names[i]]) + "\n"];
      i := i + 1;
    }
    assert names[..i] == names;
  }

  lemma PropertyLinesStep(props: map<string, Option<string>>, names: seq<string>, i: nat)
    requires forall j :: 0 <= j < |names| ==> names[j] in props
    requires i < |names|
    ensures PropertyLines(props, names)[..i + 1] ==
            PropertyLines(props, names)[..i] + [FormatProperty(names[i], props[names[i]]) + "\n"]
  {
    var all := PropertyLines(props, names);
    assert all[..i + 1] == all[..i] + [all[i]];
  }

  /** The file sub-commands, rendered one by one; the first failure is returned at once. */
  method FileCommandsLoop(fileIter: Option<seq<FileCommand>>, includeContents: bool)
    returns (r: Result<Bytes, Error>)
    ensures r == FilesSection(fileIter, includeContents)
  {
    if fileIter.None? {
      return Success([]);
    }
    var files := fileIter.value;
    var rendered: Bytes := [];
    var i := 0;
    while i < |files|
      invariant 0 <= i <= |files|
      invariant FileCommandsBytes(files[..i], includeContents) == Success(rendered)
    {
      var line := FileCommandBytes(files[i], includeContents);
      if line.Failure? {
        FailingStep(files, i, includeContents);
        FileCommandsFailurePersists(files, i + 1, includeContents);
        return Failure(line.error);
      }
      RenderingStep(files, i, includeContents, rendered);
      rendered := rendered + line.value + "\n";
      i := i + 1;
    }
    assert files[..|files|] == files;
    r := Success(rendered);
  }

  /** `CommitCommand.to_bytes`, accumulating the author section and the property lines in loops
      and rendering the file sub-commands one by one. */
  method CommitToBytes(c: Command, useFeatures: bool, includeContents: bool) returns (r: Result<Bytes, Error>)
    requires c.Commit?
    ensures r == CommitBytes(c, useFeatures, includeContents)
  {
    var markLine := MarkLine(c.mark);
    var authorSection := AuthorSectionLoop(c.author, c.moreAuthors, useFeatures);
    var committer := CommitterLine(c.committer);
    var msgSection := MessageSection(c.message);
    var fromLine := FromLine(c.fromRef);
    var mergeLines := MergeLines(c.merges);
    var propertiesSection := PropertiesLoop(c.properties, useFeatures);
    var files := FileCommandsLoop(c.fileIter, includeContents);
    if files.Failure? {
      return Failure(files.error);
    }
    var filecommands := files.value;
    r := Success(CommitHeader(c.ref) + (markLine + authorSection + committer + msgSection + fromLine +
                                        mergeLines + propertiesSection + filecommands));
  }

  /** Without the extensions, the extra authors and the properties do not reach the output. */
  lemma FeaturesOffIgnoresExtensions(c: Command, includeContents: bool)
    requires c.Commit?
    ensures CommitBytes(c, false, includeContents) == CommitBytes(c.(moreAuthors := None, properties := None), false, includeContents)
  {
  }

  /** Extra authors appear only after a primary author: without one they do not reach the output. */
  lemma NoPrimaryAuthorIgnoresExtraAuthors(c: Command, useFeatures: bool, includeContents: bool)
    requires c.Commit? && c.author.None?
    ensures CommitBytes(c, useFeatures, includeContents) == CommitBytes(c.(moreAuthors := None), useFeatures, includeContents)
  {
  }

  // ----- The commit join as written -----

  /** `CommitCommand.to_bytes` as its final join is written: the parts joined are `commit <ref>` without
      its newline, the mark line, and the committer line with what follows it, the file sub-commands
      run together; the author section is computed but is not among them. */
  function CommitBytesAsWritten(c: Command, useFeatures: bool, includeContents: bool): (r: Result<Bytes, Error>)
    requires c.Commit?
    ensures r.Success? <==> FilesSectionAsWritten(c.fileIter, includeContents).Success?
    ensures r.Success? ==> StartsWith(r.value, "commit " + c.ref + MarkLine(c.mark))
  {
    var filecommands :- FilesSectionAsWritten(c.fileIter, includeContents);
    PrefixSplit("commit " + c.ref + MarkLine(c.mark), AfterAuthors(c, useFeatures, filecommands));
    Success(("commit " + c.ref) + MarkLine(c.mark) + AfterAuthors(c, useFeatures, filecommands))
  }

  /** The joined parts after the author section: committer, message, parent, merges, properties and the
      rendered file sub-commands. */
  function AfterAuthors(c: Command, useFeatures: bool, filecommands: Bytes): Bytes
    requires c.Commit?
  {
    CommitterLine(c.committer) + MessageSection(c.message) + FromLine(c.fromRef) + MergeLines(c.merges) +
    PropertiesSection(c.properties, useFeatures) + filecommands
  }

  /** As written, the authors never reach the output: a commit renders the same without them. */
  lemma AsWrittenDropsAuthors(c: Command, useFeatures: bool, includeContents: bool)
    requires c.Commit?
    ensures CommitBytesAsWritten(c, useFeatures, includeContents)
            == CommitBytesAsWritten(c.(author := None, moreAuthors := None), useFeatures, includeContents)
  {
    var d := c.(author := None, moreAuthors := None);
    assert FilesSectionAsWritten(d.fileIter, includeContents) == FilesSectionAsWritten(c.fileIter, includeContents);
  }

  lemma RefRunsIntoMark(ref: Bytes, mark: Bytes, rest: Bytes)
    requires '\n' !in ref && '\n' !in mark
    ensures SplitLines(("commit " + ref) + ("mark :" + mark + "\n") + rest)[0] == "commit " + ref + "mark :" + mark
  {
    var line := "commit " + ref + "mark :" + mark;
    assert ("commit " + ref) + ("mark :" + mark + "\n") + rest == line + "\n" + rest;
    SplitLinesJoin(line, rest);
  }

  /** As written, no newline follows the ref, so the first line of a marked commit runs on into its mark
      line: a line reader takes `<ref>mark :<mark>` for the ref. */
  lemma AsWrittenRefRunsIntoMark(c: Command, useFeatures: bool, includeContents: bool)
    requires c.Commit? && c.mark.Some? && '\n' !in c.ref && '\n' !in c.mark.value
    requires CommitBytesAsWritten(c, useFeatures, includeContents).Success?
    ensures SplitLines(CommitBytesAsWritten(c, useFeatures, includeContents).value)[0]
            == "commit " + c.ref + "mark :" + c.mark.value
  {
    RefRunsIntoMark(c.ref, c.mark.value, AfterAuthors(c, useFeatures, FilesSectionAsWritten(c.fileIter, includeContents).value));
  }

  lemma HeaderLine(ref: Bytes, body: Bytes)
    requires '\n' !in ref
    ensures SplitLines(CommitHeader(ref) + body)[0] == "commit " + ref
  {
    SplitLinesJoin("commit " + ref, body);
  }

  /** As corrected, the first line of every commit is exactly `commit <ref>`. */
  lemma CommitFirstLine(c: Command, useFeatures: bool, includeContents: bool)
    requires c.Commit? && '\n' !in c.ref && CommitBytes(c, useFeatures, includeContents).Success?
    ensures SplitLines(CommitBytes(c, useFeatures, includeContents).value)[0] == "commit " + c.ref
  {
    HeaderLine(c.ref, CommitBody(c, useFeatures, FilesSection(c.fileIter, includeContents).value));
  }

  lemma AuthorSectionNonEmpty(author: Option<WhoWhen>, more: Option<seq<WhoWhen>>, useFeatures: bool)
    requires author.Some?
    ensures |AuthorSection(author, more, useFeatures)| >= |AuthorLine(FormatWhoWhen(author.value))| > 0
  {
  }

  /** Everything after the header line is the mark line, the author section, then the rest. */
  lemma BodySplit(c: Command, useFeatures: bool, files: Bytes)
    requires c.Commit?
    ensures CommitBody(c, useFeatures, files) ==
            MarkLine(c.mark) + AuthorSection(c.author, c.moreAuthors, useFeatures) + AfterAuthors(c, useFeatures, files)
  {
    BodyRegroup(MarkLine(c.mark), AuthorSection(c.author, c.moreAuthors, useFeatures), CommitterLine(c.committer),
                MessageSection(c.message), FromLine(c.fromRef), MergeLines(c.merges),
                PropertiesSection(c.properties, useFeatures), files);
  }

  lemma BodyRegroup(m: Bytes, a: Bytes, k: Bytes, msg: Bytes, f: Bytes, g: Bytes, p: Bytes, files: Bytes)
    ensures m + a + k + msg + f + g + p + files == m + a + (k + msg + f + g + p + files)
  {
  }

  lemma InsertAfter(h: Bytes, m: Bytes, a: Bytes, rest: Bytes)
    ensures h + (m + a + rest) == (h + m) + a + ((h + m) + rest)[|h + m|..]
    ensures h + (m + [] + rest) == (h + m) + rest && StartsWith((h + m) + rest, h + m)
  {
    PrefixSplit(h + m, rest);
  }

  /** As corrected, the authors reach the output: a commit renders as the same commit without its authors,
      with the author section, which is never empty when there is a primary author, inserted right after
      the header and mark lines. */
  lemma AuthorsReachOutput(c: Command, useFeatures: bool, includeContents: bool)
    requires c.Commit? && c.author.Some? && CommitBytes(c, useFeatures, includeContents).Success?
    ensures CommitBytes(c.(author := None, moreAuthors := None), useFeatures, includeContents).Success?
    ensures var rc := CommitBytes(c, useFeatures, includeContents).value;
            var rd := CommitBytes(c.(author := None, moreAuthors := None), useFeatures, includeContents).value;
            var pre := CommitHeader(c.ref) + MarkLine(c.mark);
            var a := AuthorSection(c.author, c.moreAuthors, useFeatures);
            StartsWith(rd, pre) && rc == pre + a + rd[|pre|..] && |a| > 0 && |rd| < |rc|
  {
    var d := c.(author := None, moreAuthors := None);
    var files := FilesSection(c.fileIter, includeContents).value;
    assert FilesSection(d.fileIter, includeContents) == FilesSection(c.fileIter, includeContents);
    var pre, a := CommitHeader(c.ref) + MarkLine(c.mark), AuthorSection(c.author, c.moreAuthors, useFeatures);
    var rest := AfterAuthors(c, useFeatures, files);
    assert AfterAuthors(d, useFeatures, files) == rest;
    BodySplit(c, useFeatures, files);
    BodySplit(d, useFeatures, files);
    InsertAfter(CommitHeader(c.ref), MarkLine(c.mark), a, rest);
    AuthorSectionNonEmpty(c.author, c.moreAuthors, useFeatures);
  }

  // ----- Every command -----

  /** `bytes(command)`: commits render with the extensions and with file contents. */
  function CommandBytes(c: Command): (r: Result<Bytes, Error>)
    ensures !c.Commit? ==> r.Success?
  {
    match c
    case Blob(mark, data, _) => Success(BlobBytes(mark, data))
    case Checkpoint => Success("checkpoint")
    case Commit(_, _, _, _, _, _, _, _, _, _, _) => CommitBytes(c, true, true)
    case Feature(name, value, _) => Success(FeatureBytes(name, value))
    case Progress(text) => Success(ProgressBytes(text))
    case Reset(ref, fromRef) => Success(ResetBytes(ref, fromRef))
    case Tag(id, fromRef, tagger, message) => Success(TagBytes(id, fromRef, tagger, message))
  }

  lemma HeaderLead(r: Bytes, ref: Bytes)
    requires StartsWith(r, CommitHeader(ref))
    ensures StartsWith(r, "commit ")
  {
    assert CommitHeader(ref) == "commit " + (ref + "\n");
    StartsWithShorter(r, "commit ", ref + "\n");
  }

  /** What every rendering of a command starts with: its keyword, then the space or newline after it. */
  function Lead(c: Command): (lead: Bytes)
    ensures c.Checkpoint? ==> lead == Keyword(c)
    ensures c.Blob? ==> lead == Keyword(c) + "\n"
    ensures !c.Checkpoint? && !c.Blob? ==> lead == Keyword(c) + " "
  {
    match c
    case Blob(_, _, _) => "blob\n"
    case Checkpoint => "checkpoint"
    case Commit(_, _, _, _, _, _, _, _, _, _, _) => "commit "
    case Feature(_, _, _) => "feature "
    case Progress(_) => "progress "
    case Reset(_, _) => "reset "
    case Tag(_, _, _, _) => "tag "
  }

  /** Every rendering starts with its command's keyword, followed by a space or a newline, except a
      checkpoint, which is the keyword alone; a reader can dispatch on it. */
  lemma CommandStartsWithKeyword(c: Command)
    requires CommandBytes(c).Success?
    ensures StartsWith(CommandBytes(c).value, Lead(c))
    ensures c.Checkpoint? ==> CommandBytes(c).value == Keyword(c)
  {
    match c
    case Blob(mark, data, _) =>
    case Checkpoint =>
    case Commit(_, _, _, _, _, _, _, _, _, _, _) =>
      HeaderLead(CommitBytes(c, true, true).value, c.ref);
    case Feature(name, value, _) =>
      PrefixSplit("feature ", FeatureBody(name, value));
    case Progress(text) =>
      PrefixSplit("progress ", text);
    case Reset(ref, fromRef) =>
      StartsWithShorter(ResetBytes(ref, fromRef), "reset ", ref);
    case Tag(id, fromRef, tagger, message) =>
      StartsWithShorter(TagBytes(id, fromRef, tagger, message), "tag ", id);
  }
}
