/**
 * What parsing a whole patch means, without any streaming state, and the proof that the incremental parser
 * computes it however the stream is cut.
 */
module PatchOffline {
  import opened Base
  import opened PatchFormat
  import opened PatchParser
  import Utf8

  predicate Ended(line: seq<Byte>) {
    line != [] && line[|line| - 1] == NEWLINE
  }

  /** The last line is still open, or a new line begins. */
  function AddByte(lines: seq<seq<Byte>>, b: Byte): seq<seq<Byte>> {
    if lines == [] || Ended(lines[|lines| - 1]) then lines + [[b]]
    else lines[..|lines| - 1] + [lines[|lines| - 1] + [b]]
  }

  /** The lines of a text with their line ends; the last one may have none. */
  function RawLines(text: seq<Byte>): seq<seq<Byte>> {
    if text == [] then [] else AddByte(RawLines(text[..|text| - 1]), text[|text| - 1])
  }

  ghost predicate AreLines(lines: seq<seq<Byte>>) {
    && (forall k | 0 <= k < |lines| :: IsSegment(lines[k]))
    && (forall k | 0 <= k < |lines| - 1 :: Ended(lines[k]))
  }

  lemma {:induction false} AddByteKeepsLines(lines: seq<seq<Byte>>, b: Byte)
    requires AreLines(lines)
    ensures AreLines(AddByte(lines, b))
  {
    if lines != [] && !Ended(lines[|lines| - 1]) {
      var last := lines[|lines| - 1];
      assert (last + [b])[..|last|] == last == last[..|last| - 1] + [last[|last| - 1]];
    }
  }

  lemma AddByteAddsByte(lines: seq<seq<Byte>>, b: Byte)
    ensures Flatten(AddByte(lines, b)) == Flatten(lines) + [b]
  {
    if lines == [] || Ended(lines[|lines| - 1]) {
      FlattenSnoc(lines, [b]);
    } else {
      var m := |lines| - 1;
      FlattenSnoc(lines[..m], lines[m] + [b]);
      ConcatAssociative(Flatten(lines[..m]), lines[m], [b]);
    }
  }

  lemma {:induction false} RawLinesCutTheText(text: seq<Byte>)
    ensures Flatten(RawLines(text)) == text && AreLines(RawLines(text))
    decreases |text|
  {
    if text != [] {
      var n := |text| - 1;
      var lines := RawLines(text[..n]);
      TakeNext(text, n);
      RawLinesCutTheText(text[..n]);
      AddByteKeepsLines(lines, text[n]);
      AddByteAddsByte(lines, text[n]);
    }
  }

  /** `lines` without its last byte. */
  function DropByte(lines: seq<seq<Byte>>): (r: seq<seq<Byte>>)
    requires AreLines(lines) && lines != []
  {
    var m := |lines| - 1;
    var last := lines[m];
    if |last| == 1 then lines[..m] else lines[..m] + [last[..|last| - 1]]
  }

  lemma DropByteInverts(lines: seq<seq<Byte>>)
    requires AreLines(lines) && lines != []
    ensures AreLines(DropByte(lines))
    ensures var last := lines[|lines| - 1];
            && AddByte(DropByte(lines), last[|last| - 1]) == lines
            && Flatten(lines) == Flatten(DropByte(lines)) + [last[|last| - 1]]
  {
    var m := |lines| - 1;
    var last := lines[m];
    var k := |last| - 1;
    assert lines == lines[..m] + [last];
    assert last[..k] + [last[k]] == last;
    if k == 0 {
      assert last == [last[k]];
    } else {
      var front := last[..k];
      assert front[..k - 1] == last[..k - 1] && front[k - 1] != NEWLINE && NEWLINE !in front[..k - 1];
      assert DropByte(lines)[..m] == lines[..m];
      FlattenSnoc(lines[..m], front);
      ConcatAssociative(Flatten(lines[..m]), front, [last[k]]);
    }
  }

  /** There is only one way to cut a text into lines. */
  lemma {:induction false} RawLinesUnique(lines: seq<seq<Byte>>)
    requires AreLines(lines)
    ensures RawLines(Flatten(lines)) == lines
    decreases |Flatten(lines)|
  {
    if lines != [] {
      DropByteInverts(lines);
      RawLinesUnique(DropByte(lines));
      assert Flatten(lines)[..|Flatten(lines)| - 1] == Flatten(DropByte(lines));
    }
  }

  /** What the parser gets to see of a line: at most the line limit, without the line end. */
  function Text(c: Config, raw: seq<Byte>): seq<Byte> {
    TrimLineEnd(raw[..Min(c.LineLimit(), |raw|)])
  }

  /** A short prefix survives the cut and the trimming of the line. */
  lemma TextKeepsPrefix(c: Config, raw: seq<Byte>, prefix: seq<Byte>)
    requires prefix != [] && prefix <= raw && |prefix| <= METADATA_LINE_LIMIT
    requires prefix[|prefix| - 1] != NEWLINE && prefix[|prefix| - 1] != CARRIAGE_RETURN
    ensures prefix <= Text(c, raw)
  {
    var cut := raw[..Min(c.LineLimit(), |raw|)];
    assert prefix <= cut && cut[|prefix| - 1] == prefix[|prefix| - 1];
  }

  ghost predicate IsSection(c: Config, section: seq<seq<Byte>>) {
    section != [] && IsIndex(Text(c, section[0]))
  }

  ghost predicate AllSections(c: Config, sections: seq<seq<seq<Byte>>>) {
    forall k | 0 <= k < |sections| :: IsSection(c, sections[k])
  }

  /** A section is an Index line with everything up to the next one; lines before the first are nobody's. */
  function Sections(c: Config, lines: seq<seq<Byte>>): (r: seq<seq<seq<Byte>>>)
    ensures AllSections(c, r)
  {
    if lines == [] then []
    else
      var n := |lines| - 1;
      var sections := Sections(c, lines[..n]);
      if IsIndex(Text(c, lines[n])) then sections + [[lines[n]]]
      else if sections == [] then []
      else sections[..|sections| - 1] + [sections[|sections| - 1] + [lines[n]]]
  }

  ghost predicate LineIsBinary(c: Config, raw: seq<Byte>) {
    0 in raw || MarksBinary(Text(c, raw))
  }

  /** One line that holds NUL or says so is enough. */
  ghost predicate IsBinary(c: Config, section: seq<seq<Byte>>) {
    exists k :: 0 <= k < |section| && LineIsBinary(c, section[k])
  }

  /** What each line means for the hunk it may be in. */
  function MarksOf(c: Config, lines: seq<seq<Byte>>): (marks: seq<Mark>)
    ensures |marks| == |lines|
  {
    seq(|lines|, k requires 0 <= k < |lines| => MarkOf(Text(c, lines[k])))
  }

  /** Line `j` opens a hunk, and no later one closes it. */
  ghost predicate OpensFor(marks: seq<Mark>, j: int) {
    && 0 <= j < |marks| && marks[j] == OpensHunk
    && forall k | j < k < |marks| :: marks[k] != ClosesHunk
  }

  /** After these lines a hunk is open: some line opened one, and none closed it since. */
  ghost predicate InHunk(marks: seq<Mark>) {
    exists j :: OpensFor(marks, j)
  }

  /** The lines with this mark that stand inside a hunk. */
  ghost function CountInHunks(marks: seq<Mark>, mark: Mark): nat {
    if marks == [] then 0
    else
      var before := marks[..|marks| - 1];
      CountInHunks(before, mark) + if InHunk(before) && marks[|marks| - 1] == mark then 1 else 0
  }

  /** The body of a section when `retained` bytes of earlier bodies are kept. */
  ghost function SectionBody(c: Config, section: seq<seq<Byte>>, retained: nat): Body {
    var raw := Flatten(section);
    if IsBinary(c, section) then Deferred
    else if |raw| > c.fileLimit || |Utf8.Lossy(raw)| > c.fileLimit then TooLarge
    else if retained + |Utf8.Lossy(raw)| > c.totalLimit then Deferred
    else Retained(Utf8.Lossy(raw))
  }

  ghost function SectionFile(c: Config, section: seq<seq<Byte>>, retained: nat): PatchFile {
    var marks := MarksOf(c, section);
    PatchFile(SectionBody(c, section, retained),
              CountInHunks(marks, Plus), CountInHunks(marks, Minus), IsBinary(c, section))
  }

  function SectionPath(c: Config, section: seq<seq<Byte>>): seq<Byte>
    requires IsSection(c, section)
  {
    IndexPath(c, Text(c, section[0]))
  }

  /** All sections in order; a later section of the same path replaces the earlier one. */
  ghost function Collect(c: Config, sections: seq<seq<seq<Byte>>>): PatchSet
    requires AllSections(c, sections)
  {
    if sections == [] then PatchSet(map[], 0)
    else
      var n := |sections| - 1;
      var before := Collect(c, sections[..n]);
      var file := SectionFile(c, sections[n], before.bytes);
      PatchSet(before.files[SectionPath(c, sections[n]) := file], before.bytes + Kept(file.body))
  }

  ghost function Offline(c: Config, text: seq<Byte>): PatchSet {
    Collect(c, Sections(c, RawLines(text)))
  }

  // ----- One more line of a section

  lemma BinarySnoc(c: Config, section: seq<seq<Byte>>, raw: seq<Byte>)
    ensures IsBinary(c, section + [raw]) <==> IsBinary(c, section) || LineIsBinary(c, raw)
  {
    var longer := section + [raw];
    assert longer[|section|] == raw;
    if IsBinary(c, section) {
      var k :| 0 <= k < |section| && LineIsBinary(c, section[k]);
      assert longer[k] == section[k];
    }
  }

  lemma MarksSnoc(c: Config, section: seq<seq<Byte>>, raw: seq<Byte>)
    ensures MarksOf(c, section + [raw]) == MarksOf(c, section) + [MarkOf(Text(c, raw))]
  {
  }

  lemma InHunkSnoc(marks: seq<Mark>, last: Mark)
    ensures InHunk(marks + [last]) <==> last == OpensHunk || (last != ClosesHunk && InHunk(marks))
  {
    var longer := marks + [last];
    if last == OpensHunk {
      assert OpensFor(longer, |marks|);
    } else if last != ClosesHunk && InHunk(marks) {
      var j :| OpensFor(marks, j);
      assert OpensFor(longer, j);
    }
    if InHunk(longer) && last != OpensHunk {
      var j :| OpensFor(longer, j);
      assert longer[|marks|] == last;
      assert forall k | 0 <= k < |marks| :: marks[k] == longer[k];
      assert OpensFor(marks, j);
    }
  }

  lemma CountSnoc(marks: seq<Mark>, last: Mark, mark: Mark)
    ensures CountInHunks(marks + [last], mark)
         == CountInHunks(marks, mark) + if InHunk(marks) && last == mark then 1 else 0
  {
    assert (marks + [last])[..|marks|] == marks;
  }

  /** The streaming record of an unfinished section agrees with the section's lines so far. */
  ghost predicate Tracks(c: Config, cur: Current, section: seq<seq<Byte>>) {
    && IsSection(c, section)
    && cur.path == SectionPath(c, section)
    && (cur.isBinary <==> IsBinary(c, section))
    && (cur.inHunk <==> InHunk(MarksOf(c, section)))
    && cur.additions == CountInHunks(MarksOf(c, section), Plus)
    && cur.deletions == CountInHunks(MarksOf(c, section), Minus)
    && (!cur.isBinary ==> HoldsRaw(c, cur, Flatten(section)))
  }

  function ExtendRaw(c: Config, cur: Current, raw: seq<Byte>): Current {
    Extend(c, cur, raw[..Min(c.LineLimit(), |raw|)], |raw| > c.LineLimit(), 0 in raw)
  }

  lemma {:induction false} ExtendCounts(c: Config, cur: Current, section: seq<seq<Byte>>, raw: seq<Byte>)
    requires Tracks(c, cur, section)
    ensures var next := ExtendRaw(c, cur, raw);
            var longer := section + [raw];
            && (next.isBinary <==> IsBinary(c, longer))
            && (next.inHunk <==> InHunk(MarksOf(c, longer)))
            && next.additions == CountInHunks(MarksOf(c, longer), Plus)
            && next.deletions == CountInHunks(MarksOf(c, longer), Minus)
  {
    BinarySnoc(c, section, raw);
    var marks, last := MarksOf(c, section), MarkOf(Text(c, raw));
    MarksSnoc(c, section, raw);
    InHunkSnoc(marks, last);
    CountSnoc(marks, last, Plus);
    CountSnoc(marks, last, Minus);
  }

  /** The patch bytes and the size flag are right for the raw bytes `before`. */
  ghost predicate HoldsRaw(c: Config, cur: Current, before: seq<Byte>) {
    (cur.tooLarge <==> |before| > c.fileLimit) && cur.patch == if cur.tooLarge then [] else before
  }

  /** A cut line is longer than the file limit, so cutting never hides that a section is too large. */
  lemma ExtendPatch(c: Config, cur: Current, before: seq<Byte>, raw: seq<Byte>)
    requires c.Valid() && HoldsRaw(c, cur, before) && !ExtendRaw(c, cur, raw).isBinary
    ensures HoldsRaw(c, ExtendRaw(c, cur, raw), before + raw)
  {
    if |raw| <= c.LineLimit() {
      assert raw[..Min(c.LineLimit(), |raw|)] == raw;
    }
  }

  lemma {:induction false} ExtendTracks(c: Config, cur: Current, section: seq<seq<Byte>>, raw: seq<Byte>)
    requires c.Valid() && Tracks(c, cur, section)
    ensures Tracks(c, ExtendRaw(c, cur, raw), section + [raw])
  {
    ExtendCounts(c, cur, section, raw);
    if !ExtendRaw(c, cur, raw).isBinary {
      ExtendPatch(c, cur, Flatten(section), raw);
      FlattenSnoc(section, raw);
    }
    assert (section + [raw])[0] == section[0];
  }

  lemma {:induction false} FreshTracks(c: Config, raw: seq<Byte>)
    requires c.Valid() && IsIndex(Text(c, raw))
    ensures Tracks(c, ExtendRaw(c, FreshSection(IndexPath(c, Text(c, raw))), raw), [raw])
  {
    var none: seq<seq<Byte>> := [];
    assert none + [raw] == [raw];
    assert !IsBinary(c, none) && MarksOf(c, none) == [];
    BinarySnoc(c, none, raw);
    MarksSnoc(c, none, raw);
    InHunkSnoc([], MarkOf(Text(c, raw)));
    CountSnoc([], MarkOf(Text(c, raw)), Plus);
    CountSnoc([], MarkOf(Text(c, raw)), Minus);
    FlattenSnoc(none, raw);
    var start := FreshSection(IndexPath(c, Text(c, raw)));
    if !ExtendRaw(c, start, raw).isBinary {
      ExtendPatch(c, start, [], raw);
    }
  }

  lemma {:induction false} BodyAgrees(c: Config, cur: Current, section: seq<seq<Byte>>, retained: nat)
    requires c.Valid() && Tracks(c, cur, section)
    ensures BodyOf(c, cur, retained) == SectionBody(c, section, retained)
  {
    if !cur.isBinary && !cur.tooLarge {
      Utf8.WellFormedExactlyWhenValid(cur.patch);
      Utf8.LossyIdentity(cur.patch);
    }
  }

  // ----- Line by line

  function FoldLines(c: Config, lines: seq<seq<Byte>>): (s: State)
    ensures s.line == [] && !s.overflow && !s.hasNul
  {
    if lines == [] then INITIAL
    else AddLine(c, FoldLines(c, lines[..|lines| - 1]), lines[|lines| - 1])
  }

  ghost predicate Agrees(c: Config, s: State, sections: seq<seq<seq<Byte>>>) {
    && Clear(s)
    && AllSections(c, sections)
    && if sections == [] then s == INITIAL
       else
         var n := |sections| - 1;
         && s.current.Some? && Tracks(c, s.current.value, sections[n])
         && PatchSet(s.files, s.retained) == Collect(c, sections[..n])
  }

  lemma {:induction false} FinishFileAgrees(c: Config, s: State, sections: seq<seq<seq<Byte>>>)
    requires c.Valid() && AllSections(c, sections)
    ensures var t := FinishFile(c, s);
            Agrees(c, s, sections) ==>
              && t.current == None && t.line == [] && !t.overflow && !t.hasNul
              && PatchSet(t.files, t.retained) == Collect(c, sections)
  {
    if Agrees(c, s, sections) && sections != [] {
      BodyAgrees(c, s.current.value, sections[|sections| - 1], s.retained);
    }
  }

  function AddLine(c: Config, s: State, raw: seq<Byte>): State
    requires s.line == []
  {
    FinishLine(c, Append(c, s, raw))
  }

  predicate Clear(s: State) {
    s.line == [] && !s.overflow && !s.hasNul
  }

  lemma AppendClear(c: Config, s: State, raw: seq<Byte>)
    requires Clear(s)
    ensures Append(c, s, raw)
         == s.(line := raw[..Min(c.LineLimit(), |raw|)], overflow := |raw| > c.LineLimit(), hasNul := 0 in raw)
  {
    assert s.line + raw[..Min(c.LineLimit(), |raw|)] == raw[..Min(c.LineLimit(), |raw|)];
  }

  lemma {:induction false} AddLineMeans(c: Config, s: State, raw: seq<Byte>)
    requires Clear(s)
    ensures IsIndex(Text(c, raw)) ==>
              AddLine(c, s, raw) == FinishFile(c, s).(
                                      current := Some(ExtendRaw(c, FreshSection(IndexPath(c, Text(c, raw))), raw)))
    ensures !IsIndex(Text(c, raw)) ==>
              AddLine(c, s, raw) == s.(current := if s.current.None? then None
                                                  else Some(ExtendRaw(c, s.current.value, raw)))
  {
    AppendClear(c, s, raw);
  }

  lemma {:induction false} IndexLineAgrees(c: Config, s: State, sections: seq<seq<seq<Byte>>>, raw: seq<Byte>)
    requires c.Valid() && IsIndex(Text(c, raw)) && Clear(s)
    ensures Agrees(c, s, sections) ==> Agrees(c, AddLine(c, s, raw), sections + [[raw]])
  {
    if !Agrees(c, s, sections) {
      return;
    }
    AddLineMeans(c, s, raw);
    FreshTracks(c, raw);
    FinishFileAgrees(c, s, sections);
    OpenSection(c, FinishFile(c, s), sections, ExtendRaw(c, FreshSection(IndexPath(c, Text(c, raw))), raw), raw);
  }

  lemma {:induction false} OpenSection(c: Config, t: State, sections: seq<seq<seq<Byte>>>, cur: Current, raw: seq<Byte>)
    requires Clear(t) && AllSections(c, sections) && IsIndex(Text(c, raw)) && Tracks(c, cur, [raw])
    requires PatchSet(t.files, t.retained) == Collect(c, sections)
    ensures Agrees(c, t.(current := Some(cur)), sections + [[raw]])
  {
    assert (sections + [[raw]])[..|sections|] == sections;
  }

  lemma {:induction false} PlainLineAgrees(c: Config, s: State, sections: seq<seq<seq<Byte>>>, raw: seq<Byte>)
    requires c.Valid() && sections != [] && !IsIndex(Text(c, raw)) && Clear(s)
    ensures var n := |sections| - 1;
            Agrees(c, s, sections) ==> Agrees(c, AddLine(c, s, raw), sections[..n] + [sections[n] + [raw]])
  {
    if !Agrees(c, s, sections) {
      return;
    }
    var n := |sections| - 1;
    AddLineMeans(c, s, raw);
    ExtendTracks(c, s.current.value, sections[n], raw);
    GrowSection(c, s, sections, ExtendRaw(c, s.current.value, raw), raw);
  }

  lemma {:induction false} GrowSection(c: Config, s: State, sections: seq<seq<seq<Byte>>>, cur: Current, raw: seq<Byte>)
    requires Clear(s) && AllSections(c, sections) && sections != []
    requires Tracks(c, cur, sections[|sections| - 1] + [raw])
    requires PatchSet(s.files, s.retained) == Collect(c, sections[..|sections| - 1])
    ensures var n := |sections| - 1; Agrees(c, s.(current := Some(cur)), sections[..n] + [sections[n] + [raw]])
  {
    var n := |sections| - 1;
    assert (sections[..n] + [sections[n] + [raw]])[..n] == sections[..n];
  }

  lemma {:induction false} LineAgrees(c: Config, s: State, lines: seq<seq<Byte>>, raw: seq<Byte>)
    requires c.Valid() && Clear(s)
    ensures Agrees(c, s, Sections(c, lines)) ==> Agrees(c, AddLine(c, s, raw), Sections(c, lines + [raw]))
  {
    var sections := Sections(c, lines);
    if !Agrees(c, s, sections) {
      return;
    }
    assert (lines + [raw])[..|lines|] == lines;
    if IsIndex(Text(c, raw)) {
      IndexLineAgrees(c, s, sections, raw);
    } else if sections != [] {
      PlainLineAgrees(c, s, sections, raw);
    } else {
      AddLineMeans(c, s, raw);
    }
  }

  lemma {:induction false} FoldAgrees(c: Config, lines: seq<seq<Byte>>)
    requires c.Valid()
    ensures Agrees(c, FoldLines(c, lines), Sections(c, lines))
    decreases |lines|
  {
    if lines != [] {
      var front, raw := lines[..|lines| - 1], lines[|lines| - 1];
      FoldAgrees(c, front);
      LineAgrees(c, FoldLines(c, front), front, raw);
      FoldStep(c, lines, front, raw);
    }
  }

  lemma FoldStep(c: Config, lines: seq<seq<Byte>>, front: seq<seq<Byte>>, raw: seq<Byte>)
    requires lines != [] && front == lines[..|lines| - 1] && raw == lines[|lines| - 1]
    ensures front + [raw] == lines && FoldLines(c, lines) == AddLine(c, FoldLines(c, front), raw)
  {
  }

  /** The state after these lines, the last of which may be open. */
  function AfterLines(c: Config, lines: seq<seq<Byte>>): (s: State)
    ensures |s.line| <= c.LineLimit()
  {
    if lines == [] || Ended(lines[|lines| - 1]) then FoldLines(c, lines)
    else Append(c, FoldLines(c, lines[..|lines| - 1]), lines[|lines| - 1])
  }

  lemma {:induction false} BeginsLine(c: Config, lines: seq<seq<Byte>>, b: Byte)
    requires lines == [] || Ended(lines[|lines| - 1])
    ensures AfterLines(c, AddByte(lines, b)) == Step(c, AfterLines(c, lines), b)
  {
    var longer := lines + [[b]];
    assert longer[..|lines|] == lines && longer[|lines|] == [b];
    FoldStep(c, longer, lines, [b]);
  }

  lemma {:induction false} ExtendsLine(c: Config, lines: seq<seq<Byte>>, b: Byte)
    requires lines != [] && !Ended(lines[|lines| - 1])
    ensures AfterLines(c, AddByte(lines, b)) == Step(c, AfterLines(c, lines), b)
  {
    var m := |lines| - 1;
    var longer := AddByte(lines, b);
    assert longer[..m] == lines[..m] && longer[m] == lines[m] + [b];
    AppendTwice(c, FoldLines(c, lines[..m]), lines[m], [b]);
  }

  lemma {:induction false} StepAddsByte(c: Config, lines: seq<seq<Byte>>, b: Byte)
    ensures AfterLines(c, AddByte(lines, b)) == Step(c, AfterLines(c, lines), b)
  {
    if lines == [] || Ended(lines[|lines| - 1]) {
      BeginsLine(c, lines, b);
    } else {
      ExtendsLine(c, lines, b);
    }
  }

  /** The byte-level state after `text` is the state after its finished lines plus the open line. */
  lemma {:induction false} FeedIsLines(c: Config, text: seq<Byte>)
    ensures Feed(c, INITIAL, text) == AfterLines(c, RawLines(text))
    decreases |text|
  {
    if text != [] {
      FeedIsLines(c, text[..|text| - 1]);
      StepAddsByte(c, RawLines(text[..|text| - 1]), text[|text| - 1]);
    }
  }

  /** The incremental parser computes the offline meaning of the whole stream. */
  lemma {:induction false} ParserIsOffline(c: Config, text: seq<Byte>)
    requires c.Valid()
    ensures Finish(c, Feed(c, INITIAL, text)) == Offline(c, text)
  {
    var lines := RawLines(text);
    FeedIsLines(c, text);
    FoldAgrees(c, lines);
    FinishFileAgrees(c, FoldLines(c, lines), Sections(c, lines));
    RawLinesCutTheText(text);
  }

  /** However the stream is cut into pushes, the parser returns the offline result of the whole. */
  method Parse(normalize: seq<Byte> -> seq<Byte>, fileLimit: nat, totalLimit: nat, chunks: seq<seq<Byte>>)
    returns (r: PatchSet)
    requires fileLimit < USIZE_MAX && totalLimit < USIZE_MAX
    ensures r == Offline(Config(normalize, fileLimit, totalLimit), Flatten(chunks))
  {
    var parser := new SvnPatchParser.WithLimits(normalize, fileLimit, totalLimit);
    for i := 0 to |chunks|
      invariant parser.Valid() && fresh(parser) && parser.config == Config(normalize, fileLimit, totalLimit)
      invariant parser.Now() == Feed(parser.config, INITIAL, Flatten(chunks[..i]))
    {
      FlattenStep(chunks, i);
      FeedConcat(parser.config, INITIAL, Flatten(chunks[..i]), chunks[i]);
      parser.Push(chunks[i]);
    }
    assert chunks[..|chunks|] == chunks;
    ParserIsOffline(parser.config, Flatten(chunks));
    r := parser.FinishStream();
  }
}
