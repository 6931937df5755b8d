/** The memory budget of a parsed patch: which bodies are kept, and what the byte counter says. */
module PatchBudget {
  import opened Base
  import opened PatchFormat
  import opened PatchParser
  import opened PatchOffline
  import Utf8

  /** The bytes of all kept bodies in a result. */
  ghost function KeptSum(files: map<seq<Byte>, PatchFile>): nat
    decreases |files|
  {
    if files == map[] then 0
    else
      var p :| p in files;
      Kept(files[p].body) + KeptSum(files - {p})
  }

  lemma {:induction false} KeptSumRemove(files: map<seq<Byte>, PatchFile>, p: seq<Byte>)
    requires p in files
    ensures KeptSum(files) == Kept(files[p].body) + KeptSum(files - {p})
    decreases |files|
  {
    var q :| q in files && KeptSum(files) == Kept(files[q].body) + KeptSum(files - {q});
    if q != p {
      KeptSumRemove(files - {q}, p);
      KeptSumRemove(files - {p}, q);
      assert files - {q} - {p} == files - {p} - {q};
    }
  }

  lemma KeptSumInsert(files: map<seq<Byte>, PatchFile>, p: seq<Byte>, file: PatchFile)
    ensures KeptSum(files[p := file]) + (if p in files then Kept(files[p].body) else 0)
         == KeptSum(files) + Kept(file.body)
  {
    KeptSumRemove(files[p := file], p);
    assert files[p := file] - {p} == files - {p};
    if p in files {
      KeptSumRemove(files, p);
    } else {
      assert files - {p} == files;
    }
  }

  /** What the sections of a patch insert into the result, in order. */
  datatype Entry = Entry(path: seq<Byte>, file: PatchFile)

  function Build(entries: seq<Entry>): map<seq<Byte>, PatchFile> {
    if entries == [] then map[]
    else
      var last := entries[|entries| - 1];
      Build(entries[..|entries| - 1])[last.path := last.file]
  }

  function Total(entries: seq<Entry>): nat {
    if entries == [] then 0 else Total(entries[..|entries| - 1]) + Kept(entries[|entries| - 1].file.body)
  }

  /** Entry `i` is the last one of its path. */
  ghost predicate IsLast(entries: seq<Entry>, i: nat) {
    i < |entries| && forall j | i < j < |entries| :: entries[j].path != entries[i].path
  }

  /** A path maps to its last entry, and only paths with an entry are there. */
  lemma {:induction false} BuildIsLatest(entries: seq<Entry>, p: seq<Byte>)
    ensures p in Build(entries) ==> exists i: nat :: IsLast(entries, i) && entries[i].path == p
    ensures forall i: nat | IsLast(entries, i) && entries[i].path == p ::
              p in Build(entries) && Build(entries)[p] == entries[i].file
    decreases |entries|
  {
    if entries != [] {
      var n := |entries| - 1;
      BuildIsLatest(entries[..n], p);
      if entries[n].path == p {
        assert IsLast(entries, n);
      } else if p in Build(entries) {
        var i: nat :| IsLast(entries[..n], i) && entries[..n][i].path == p;
        assert IsLast(entries, i);
      }
      forall i: nat | IsLast(entries, i) && entries[i].path == p
        ensures p in Build(entries) && Build(entries)[p] == entries[i].file
      {
        if i < n {
          assert IsLast(entries[..n], i);
        }
      }
    }
  }

  /** No entry whose body was kept is replaced by a later one. */
  ghost predicate NothingKeptIsReplaced(entries: seq<Entry>) {
    forall i: nat | i < |entries| && !IsLast(entries, i) :: Kept(entries[i].file.body) == 0
  }

  lemma {:induction false} ReplacedStep(entries: seq<Entry>)
    requires entries != []
    ensures var n := |entries| - 1;
            var before := Build(entries[..n]);
            var p := entries[n].path;
            NothingKeptIsReplaced(entries) <==>
              NothingKeptIsReplaced(entries[..n]) && (p in before ==> Kept(before[p].body) == 0)
  {
    var n := |entries| - 1;
    var shorter := entries[..n];
    var p := entries[n].path;
    BuildIsLatest(shorter, p);
    assert IsLast(entries, n);
    forall i: nat | i < n
      ensures IsLast(entries, i) <==> IsLast(shorter, i) && shorter[i].path != p
    {
    }
    if NothingKeptIsReplaced(entries) && p in Build(shorter) {
      var i: nat :| IsLast(shorter, i) && shorter[i].path == p;
      assert !IsLast(entries, i);
    }
  }

  lemma {:induction false} SumExact(entries: seq<Entry>)
    ensures KeptSum(Build(entries)) <= Total(entries)
    ensures KeptSum(Build(entries)) == Total(entries) <==> NothingKeptIsReplaced(entries)
    decreases |entries|
  {
    if entries != [] {
      var n := |entries| - 1;
      SumExact(entries[..n]);
      ReplacedStep(entries);
      KeptSumInsert(Build(entries[..n]), entries[n].path, entries[n].file);
    }
  }

  ghost function Entries(c: Config, sections: seq<seq<seq<Byte>>>): (r: seq<Entry>)
    requires AllSections(c, sections)
    ensures |r| == |sections|
  {
    if sections == [] then []
    else
      var n := |sections| - 1;
      var before := Entries(c, sections[..n]);
      before + [Entry(SectionPath(c, sections[n]), SectionFile(c, sections[n], Total(before)))]
  }

  lemma EarlierEntry(c: Config, sections: seq<seq<seq<Byte>>>, s: nat)
    requires AllSections(c, sections) && s < |sections| - 1
    ensures Entries(c, sections)[s] == Entries(c, sections[..|sections| - 1])[s]
  {
  }

  lemma BuildSnoc(entries: seq<Entry>, last: Entry)
    ensures Build(entries + [last]) == Build(entries)[last.path := last.file]
    ensures Total(entries + [last]) == Total(entries) + Kept(last.file.body)
  {
    assert (entries + [last])[..|entries|] == entries;
  }

  /** The result of a patch is what its sections insert, and the counter adds up all the bodies they keep. */
  lemma {:induction false} CollectIsBuild(c: Config, sections: seq<seq<seq<Byte>>>)
    requires AllSections(c, sections)
    ensures Collect(c, sections) == PatchSet(Build(Entries(c, sections)), Total(Entries(c, sections)))
    decreases |sections|
  {
    if sections != [] {
      var n := |sections| - 1;
      CollectIsBuild(c, sections[..n]);
      BuildSnoc(Entries(c, sections[..n]), Entries(c, sections)[n]);
    }
  }

  lemma {:induction false} WithinBudget(c: Config, sections: seq<seq<seq<Byte>>>)
    requires AllSections(c, sections)
    ensures Collect(c, sections).bytes <= c.totalLimit
    decreases |sections|
  {
    if sections != [] {
      WithinBudget(c, sections[..|sections| - 1]);
    }
  }

  /**
   * The parser's byte counter never exceeds the budget and never falls short of what the result holds. It equals
   * that exactly when no kept body was replaced by a later section of the same path.
   */
  lemma {:induction false} ParsedBudget(c: Config, text: seq<Byte>)
    requires c.Valid()
    ensures var r := Finish(c, Feed(c, INITIAL, text));
            && KeptSum(r.files) <= r.bytes <= c.totalLimit
            && (KeptSum(r.files) == r.bytes <==> NothingKeptIsReplaced(Entries(c, Sections(c, RawLines(text)))))
  {
    ParserIsOffline(c, text);
    var sections := Sections(c, RawLines(text));
    CollectIsBuild(c, sections);
    WithinBudget(c, sections);
    SumExact(Entries(c, sections));
  }

  lemma {:induction false} FirstEntry(c: Config, a: seq<seq<Byte>>, b: seq<seq<Byte>>)
    requires IsSection(c, a) && IsSection(c, b)
    ensures var e := Entries(c, [a, b]);
            && e[0] == Entry(SectionPath(c, a), SectionFile(c, a, 0))
            && e[1].path == SectionPath(c, b)
  {
    assert [a, b][..1] == [a] && [a][..0] == [];
    assert Entries(c, [a]) == [Entry(SectionPath(c, a), SectionFile(c, a, 0))];
  }

  lemma {:induction false} TwoSections(c: Config, line: seq<Byte>)
    requires IsIndex(Text(c, line))
    ensures Sections(c, [line, line]) == [[line], [line]]
  {
    assert [line, line][..1] == [line] && [line][..0] == [];
    assert Sections(c, [line]) == [[line]];
  }

  /** A complete Index line whose section would be kept. */
  ghost predicate IsPlainIndexLine(c: Config, line: seq<Byte>) {
    && IsSegment(line) && Ended(line) && IsIndex(Text(c, line)) && !LineIsBinary(c, line)
    && Utf8.WellFormed(line) && |line| <= c.fileLimit && |line| <= c.totalLimit
  }

  lemma {:induction false} KeptAlone(c: Config, line: seq<Byte>)
    requires IsPlainIndexLine(c, line)
    ensures SectionBody(c, [line], 0) == Retained(line)
  {
    FlattenOne(line);
    Utf8.LossyIdentity(line);
    assert !IsBinary(c, [line]);
  }

  lemma TwoLines(line: seq<Byte>)
    requires IsSegment(line) && Ended(line)
    ensures RawLines(line + line) == [line, line]
  {
    FlattenOne(line);
    FlattenCons(line, [line]);
    assert [line] + [line] == [line, line];
    RawLinesUnique([line, line]);
  }

  /** The counter may exceed what the result holds: if a line comes twice, the body it replaced is still counted. */
  lemma {:induction false} ReplacedBodyStillCounts(c: Config, line: seq<Byte>)
    requires c.Valid() && IsPlainIndexLine(c, line)
    ensures var r := Finish(c, Feed(c, INITIAL, line + line));
            KeptSum(r.files) < r.bytes
  {
    TwoLines(line);
    TwoSections(c, line);
    FirstEntry(c, [line], [line]);
    KeptAlone(c, line);
    var entries := Entries(c, [[line], [line]]);
    assert !IsLast(entries, 0);
    ParsedBudget(c, line + line);
  }

  /** For instance the line that names the path `a`. */
  lemma IndexLineOfA(c: Config, line: seq<Byte>)
    requires line == [73, 110, 100, 101, 120, 58, 32, 97, 10] && |line| <= c.fileLimit && |line| <= c.totalLimit
    ensures line == Bytes("Index: a\n") && IsPlainIndexLine(c, line)
  {
    assert line[..|line|] == line;
    PlainText(c, line, line[..8]);
    Utf8.AsciiIsWellFormed(line);
  }

  lemma PlainText(c: Config, line: seq<Byte>, text: seq<Byte>)
    requires text == [73, 110, 100, 101, 120, 58, 32, 97] && line == text + [NEWLINE]
    ensures Text(c, line) == text && IsIndex(text) && !MarksBinary(text)
  {
    assert line[..|line|] == line && line[..8] == text;
    assert Bytes("Index: ") == text[..7];
    assert Bytes("Cannot display:")[0] == 67 && Bytes("svn:mime-type = ")[0] == 115;
  }

  /** What looking up `p` in these files gives: the last entry of the path, or nothing when it has none. */
  ghost predicate LooksUpLast(files: map<seq<Byte>, PatchFile>, entries: seq<Entry>, p: seq<Byte>) {
    && (p in files ==> exists i: nat :: IsLast(entries, i) && entries[i].path == p)
    && forall i: nat | IsLast(entries, i) && entries[i].path == p :: p in files && files[p] == entries[i].file
  }

  /** Looking a path up gives its last section in the patch, or nothing when it has none. */
  lemma {:induction false} ParsedLookup(c: Config, text: seq<Byte>, p: seq<Byte>)
    requires c.Valid()
    ensures LooksUpLast(Finish(c, Feed(c, INITIAL, text)).files, Entries(c, Sections(c, RawLines(text))), p)
  {
    ParserIsOffline(c, text);
    CollectIsBuild(c, Sections(c, RawLines(text)));
    BuildIsLatest(Entries(c, Sections(c, RawLines(text))), p);
  }
}
