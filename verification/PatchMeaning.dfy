/** What a parsed patch says about its files, by the literal bytes at the front of its lines (svn_patch.rs). */
module PatchMeaning {
  import opened Base
  import opened PatchFormat
  import opened PatchParser
  import opened PatchOffline
  import opened PatchBudget
  import Utf8

  // Nothing here refers to the marks by which the parser and its offline definition tell lines apart.

  /** "Index: " */
  const INDEX: seq<Byte> := [73, 110, 100, 101, 120, 58, 32]

  /** "@@" */
  const HUNK: seq<Byte> := [64, 64]

  /** "Property changes on:" */
  const PROPERTY: seq<Byte> :=
    [80, 114, 111, 112, 101, 114, 116, 121, 32, 99, 104, 97, 110, 103, 101, 115, 32, 111, 110, 58]

  /** "Cannot display:" */
  const CANNOT: seq<Byte> := [67, 97, 110, 110, 111, 116, 32, 100, 105, 115, 112, 108, 97, 121, 58]

  /** "svn:mime-type = " */
  const MIME: seq<Byte> := [115, 118, 110, 58, 109, 105, 109, 101, 45, 116, 121, 112, 101, 32, 61, 32]

  /** "text/" */
  const TEXT: seq<Byte> := [116, 101, 120, 116, 47]

  const PLUS: Byte := 43
  const MINUS: Byte := 45

  // ----- Reference definitions

  predicate StartsWithByte(line: seq<Byte>, b: Byte) {
    line != [] && line[0] == b
  }

  /** Line `k` stands between a hunk header and the property changes that follow it. */
  ghost predicate Inside(lines: seq<seq<Byte>>, k: nat)
    requires k <= |lines|
  {
    exists j :: 0 <= j < k && HunkReaches(lines, j, k)
  }

  /** Line `j` is a hunk header, and no property changes begin between it and line `k`. */
  predicate HunkReaches(lines: seq<seq<Byte>>, j: nat, k: nat)
    requires j < k <= |lines|
  {
    HUNK <= lines[j] && forall i | j < i < k :: !(PROPERTY <= lines[i])
  }

  /** The lines inside a hunk that begin with this byte. */
  ghost function Counted(lines: seq<seq<Byte>>, b: Byte): set<nat> {
    set k: nat | k < |lines| && Inside(lines, k) && StartsWithByte(lines[k], b)
  }

  /** A character with the Unicode property White_Space. */
  predicate IsWhite(one: seq<Byte>) {
    || (|one| == 1 && (9 <= one[0] <= 13 || one[0] == 32))
    || one == [0xC2, 0x85] || one == [0xC2, 0xA0] || one == [0xE1, 0x9A, 0x80]
    || (|one| == 3 && one[..2] == [0xE2, 0x80]
        && (0x80 <= one[2] <= 0x8A || one[2] == 0xA8 || one[2] == 0xA9 || one[2] == 0xAF))
    || one == [0xE2, 0x81, 0x9F] || one == [0xE3, 0x80, 0x80]
  }

  ghost predicate AllWhite(s: seq<Byte>)
    decreases |s|
  {
    s == [] || exists n :: 1 <= n <= |s| && IsWhite(s[..n]) && AllWhite(s[n..])
  }

  /** Whitespace and then "text/". */
  ghost predicate SaysText(value: seq<Byte>) {
    exists n :: 0 <= n <= |value| && WhiteUpTo(value, n) && TEXT <= value[n..]
  }

  ghost predicate WhiteUpTo(value: seq<Byte>, n: nat)
    requires n <= |value|
  {
    AllWhite(value[..n])
  }

  /** The line holds NUL, says that the file cannot be displayed, or names a type that is not text. */
  ghost predicate SaysBinary(c: Config, raw: seq<Byte>) {
    || 0 in raw
    || CANNOT <= raw
    || (MIME <= raw && |MIME| <= |Text(c, raw)|
        && var value := Text(c, raw)[|MIME|..];
           Utf8.WellFormed(value) && !SaysText(value))
  }

  /** The path on an Index line. */
  function PathOn(c: Config, raw: seq<Byte>): seq<Byte> {
    (c.normalize)(Utf8.Lossy(Text(c, raw)[Min(|INDEX|, |Text(c, raw)|)..]))
  }

  // ----- The literals

  lemma Literals()
    ensures Bytes("Index: ") == INDEX && Bytes("@@") == HUNK && Bytes("+") == [PLUS] && Bytes("-") == [MINUS]
  {
  }

  lemma PropertyLiteral()
    ensures Bytes("Property changes on:") == PROPERTY
  {
  }

  lemma CannotLiteral()
    ensures Bytes("Cannot display:") == CANNOT
  {
  }

  lemma MimeLiteral()
    ensures Bytes("svn:mime-type = ") == MIME && Bytes("text/") == TEXT && |"svn:mime-type = "| == |MIME|
  {
  }

  // ----- What the parser sees of a line begins with a literal exactly if the line does

  lemma TextIsPrefix(c: Config, raw: seq<Byte>)
    ensures Text(c, raw) <= raw
  {
  }

  lemma PrefixSeen(c: Config, raw: seq<Byte>, prefix: seq<Byte>)
    requires 0 < |prefix| <= METADATA_LINE_LIMIT
    requires prefix[|prefix| - 1] != NEWLINE && prefix[|prefix| - 1] != CARRIAGE_RETURN
    ensures prefix <= Text(c, raw) <==> prefix <= raw
  {
    TextIsPrefix(c, raw);
    if prefix <= raw {
      TextKeepsPrefix(c, raw, prefix);
    }
  }

  lemma IndexSeen(c: Config, raw: seq<Byte>)
    ensures IsIndex(Text(c, raw)) <==> INDEX <= raw
    ensures IsIndex(Text(c, raw)) ==> IndexPath(c, Text(c, raw)) == PathOn(c, raw)
  {
    Literals();
    PrefixSeen(c, raw, INDEX);
  }

  lemma MarkSeen(c: Config, raw: seq<Byte>)
    ensures var mark := MarkOf(Text(c, raw));
            && (mark == OpensHunk <==> HUNK <= raw)
            && (mark == ClosesHunk <==> PROPERTY <= raw)
            && (mark == Plus <==> StartsWithByte(raw, PLUS))
            && (mark == Minus <==> StartsWithByte(raw, MINUS))
  {
    Literals();
    PropertyLiteral();
    PrefixSeen(c, raw, HUNK);
    PrefixSeen(c, raw, PROPERTY);
    PrefixSeen(c, raw, [PLUS]);
    PrefixSeen(c, raw, [MINUS]);
    FirstBytes(Text(c, raw));
    FirstBytes(raw);
  }

  lemma FirstBytes(line: seq<Byte>)
    ensures HUNK <= line ==> StartsWithByte(line, 64)
    ensures PROPERTY <= line ==> StartsWithByte(line, 80)
    ensures [PLUS] <= line <==> StartsWithByte(line, PLUS)
    ensures [MINUS] <= line <==> StartsWithByte(line, MINUS)
  {
  }

  // ----- Whitespace

  lemma WhitespaceIsWhite(s: seq<Byte>)
    ensures var n := WhitespaceLen(s); n > 0 ==> IsWhite(s[..n])
    ensures forall n | 1 <= n <= |s| && IsWhite(s[..n]) :: n == WhitespaceLen(s)
  {
  }

  lemma {:induction false} TrimSplits(value: seq<Byte>) returns (n: nat)
    ensures n <= |value| && TrimFront(value) == value[n..] && AllWhite(value[..n])
    decreases |value|
  {
    var w := WhitespaceLen(value);
    if w == 0 {
      n := 0;
      assert value[0..] == value;
    } else {
      var rest := value[w..];
      var m := TrimSplits(rest);
      n := w + m;
      WhitespaceIsWhite(value);
      CutFurther(value, w, n);
      assert value[..n][..w] == value[..w] && value[..n][w..] == rest[..m];
    }
  }

  lemma {:induction false} TextAfterWhite(value: seq<Byte>, n: nat)
    requires n <= |value| && AllWhite(value[..n]) && TEXT <= value[n..]
    ensures TEXT <= TrimFront(value)
    decreases |value|
  {
    if n > 0 {
      var m := FirstWhite(value[..n]);
      CutFurther(value, m, n);
      OneWhite(value, m);
      TextAfterWhite(value[m..], n - m);
    } else {
      TextIsNotWhite(value);
    }
  }

  lemma FirstWhite(white: seq<Byte>) returns (m: nat)
    requires white != [] && AllWhite(white)
    ensures 1 <= m <= |white| && IsWhite(white[..m]) && AllWhite(white[m..])
  {
    m :| 1 <= m <= |white| && IsWhite(white[..m]) && AllWhite(white[m..]);
  }

  lemma TextIsNotWhite(value: seq<Byte>)
    requires TEXT <= value[0..]
    ensures TEXT <= TrimFront(value)
  {
    assert value[0..] == value && value[0] == TEXT[0];
  }

  lemma OneWhite(value: seq<Byte>, m: nat)
    requires 1 <= m <= |value| && IsWhite(value[..m])
    ensures TrimFront(value) == TrimFront(value[m..])
  {
    WhitespaceIsWhite(value);
  }

  lemma {:induction false} MimeSeen(value: seq<Byte>)
    ensures TEXT <= TrimFront(value) <==> SaysText(value)
  {
    var n := TrimSplits(value);
    if TEXT <= TrimFront(value) {
      assert WhiteUpTo(value, n);
    }
    if SaysText(value) {
      var k :| 0 <= k <= |value| && WhiteUpTo(value, k) && TEXT <= value[k..];
      TextAfterWhite(value, k);
    }
  }

  lemma {:induction false} BinarySeen(c: Config, raw: seq<Byte>)
    ensures LineIsBinary(c, raw) <==> SaysBinary(c, raw)
  {
    CannotLiteral();
    MimeLiteral();
    PrefixSeen(c, raw, CANNOT);
    PrefixSeen(c, raw, MIME);
    if MIME <= Text(c, raw) {
      var value := Text(c, raw)[|MIME|..];
      MimeSeen(value);
      Utf8.WellFormedExactlyWhenValid(value);
    }
  }

  /** A line that names a type makes its section binary exactly if the type is not text. */
  lemma {:induction false} TypeLine(c: Config, value: seq<Byte>)
    requires Utf8.WellFormed(value) && 0 !in value && NEWLINE !in value
    requires value != [] && value[0] < 128 && value[0] != 32 && !(9 <= value[0] <= 13)
    requires value[|value| - 1] != CARRIAGE_RETURN && |MIME| + |value| <= METADATA_LINE_LIMIT
    ensures SaysBinary(c, MIME + value + [NEWLINE]) <==> !(TEXT <= value)
  {
    TypeLineBytes(value);
    LineWithin(c, MIME + value);
    VisibleFirst(value);
  }

  lemma TypeLineBytes(value: seq<Byte>)
    requires 0 !in value && NEWLINE !in value
    ensures var raw := MIME + value + [NEWLINE]; MIME <= raw && !(CANNOT <= raw) && 0 !in raw
    ensures (MIME + value)[|MIME|..] == value && NEWLINE !in MIME + value
    ensures value != [] ==> (MIME + value)[|MIME + value| - 1] == value[|value| - 1]
  {
    var raw := MIME + value + [NEWLINE];
    assert raw[..|MIME|] == MIME && raw[0] == MIME[0];
  }

  /** A line within the limit is seen as it is, without its line end. */
  lemma LineWithin(c: Config, front: seq<Byte>)
    requires 0 < |front| <= METADATA_LINE_LIMIT && NEWLINE !in front && front[|front| - 1] != CARRIAGE_RETURN
    ensures Text(c, front + [NEWLINE]) == front
  {
    var raw := front + [NEWLINE];
    assert raw[..|raw|] == raw && raw[..|front|] == front;
  }

  lemma VisibleFirst(value: seq<Byte>)
    requires value != [] && value[0] < 128 && value[0] != 32 && !(9 <= value[0] <= 13)
    ensures SaysText(value) <==> TEXT <= value
  {
    MimeSeen(value);
    assert WhitespaceLen(value) == 0;
  }

  // ----- Counting

  ghost function Positions(marks: seq<Mark>, mark: Mark): set<nat> {
    set k: nat | k < |marks| && InHunk(marks[..k]) && marks[k] == mark
  }

  lemma {:induction false} CountIsCardinality(marks: seq<Mark>, mark: Mark)
    ensures CountInHunks(marks, mark) == |Positions(marks, mark)|
    decreases |marks|
  {
    if marks == [] {
      assert Positions(marks, mark) == {};
    } else {
      CountIsCardinality(marks[..|marks| - 1], mark);
      PositionsStep(marks, mark);
    }
  }

  lemma PositionsStep(marks: seq<Mark>, mark: Mark)
    requires marks != []
    ensures var n := |marks| - 1;
            && Positions(marks, mark)
               == Positions(marks[..n], mark) + (if InHunk(marks[..n]) && marks[n] == mark then {n} else {})
            && n !in Positions(marks[..n], mark)
  {
    var n := |marks| - 1;
    forall k: nat | k < n
      ensures k in Positions(marks, mark) <==> k in Positions(marks[..n], mark)
    {
      assert marks[..n][..k] == marks[..k];
    }
  }

  lemma {:induction false} InsideSeen(c: Config, lines: seq<seq<Byte>>, k: nat)
    requires k <= |lines|
    ensures InHunk(MarksOf(c, lines)[..k]) <==> Inside(lines, k)
  {
    var marks := MarksOf(c, lines)[..k];
    forall i | 0 <= i < k
      ensures (marks[i] == OpensHunk <==> HUNK <= lines[i]) && (marks[i] == ClosesHunk <==> PROPERTY <= lines[i])
    {
      MarkSeen(c, lines[i]);
    }
    if InHunk(marks) {
      var j :| OpensFor(marks, j);
      assert HunkReaches(lines, j, k);
    }
    if Inside(lines, k) {
      var j :| 0 <= j < k && HunkReaches(lines, j, k);
      assert OpensFor(marks, j);
    }
  }

  /** The counts of a section are the numbers of its lines inside hunks that begin with a plus or a minus sign. */
  lemma {:induction false} CountsSeen(c: Config, lines: seq<seq<Byte>>)
    ensures CountInHunks(MarksOf(c, lines), Plus) == |Counted(lines, PLUS)|
    ensures CountInHunks(MarksOf(c, lines), Minus) == |Counted(lines, MINUS)|
  {
    var marks := MarksOf(c, lines);
    CountIsCardinality(marks, Plus);
    CountIsCardinality(marks, Minus);
    forall k: nat | k < |lines|
      ensures InHunk(marks[..k]) <==> Inside(lines, k)
      ensures marks[k] == Plus <==> StartsWithByte(lines[k], PLUS)
      ensures marks[k] == Minus <==> StartsWithByte(lines[k], MINUS)
    {
      InsideSeen(c, lines, k);
      MarkSeen(c, lines[k]);
    }
    assert Positions(marks, Plus) == Counted(lines, PLUS);
    assert Positions(marks, Minus) == Counted(lines, MINUS);
  }

  /** An Index line, a hunk with one minus and two plus lines, and a plus line behind the property changes. */
  lemma PropertyLinesDoNotCount(lines: seq<seq<Byte>>)
    requires |lines| == 8 && INDEX <= lines[0] && HUNK <= lines[1] && StartsWithByte(lines[2], 32)
    requires StartsWithByte(lines[3], MINUS) && StartsWithByte(lines[4], PLUS) && StartsWithByte(lines[5], PLUS)
    requires PROPERTY <= lines[6] && StartsWithByte(lines[7], PLUS)
    ensures Counted(lines, PLUS) == {4, 5} && Counted(lines, MINUS) == {3}
  {
    FirstBytes(lines[0]);
    FirstBytes(lines[1]);
    forall k: nat | k < 8
      ensures Inside(lines, k) <==> 2 <= k <= 6
    {
      if 2 <= k <= 6 {
        assert HunkReaches(lines, 1, k);
      }
      if Inside(lines, k) {
        var j :| 0 <= j < k && HunkReaches(lines, j, k);
        OnlyHunk(lines, j);
      }
    }
  }

  lemma OnlyHunk(lines: seq<seq<Byte>>, j: nat)
    requires j < |lines| == 8 && HUNK <= lines[j] && INDEX <= lines[0] && StartsWithByte(lines[2], 32)
    requires StartsWithByte(lines[3], MINUS) && StartsWithByte(lines[4], PLUS) && StartsWithByte(lines[5], PLUS)
    requires PROPERTY <= lines[6] && StartsWithByte(lines[7], PLUS)
    ensures j == 1
  {
    assert lines[j][0] == HUNK[0] && lines[0][0] == INDEX[0] && lines[6][0] == PROPERTY[0];
  }

  // ----- Sections

  /** Lines `i..j` are an Index line and everything up to the next one or the end. */
  ghost predicate IsCut(lines: seq<seq<Byte>>, i: nat, j: nat) {
    && i < j <= |lines| && INDEX <= lines[i]
    && (forall k | i < k < j :: !(INDEX <= lines[k]))
    && (j < |lines| ==> INDEX <= lines[j])
  }

  /** Section `s` is lines `i..j`, and the sections behind it begin with Index lines behind it. */
  ghost predicate SectionIs(sections: seq<seq<seq<Byte>>>, lines: seq<seq<Byte>>, i: nat, j: nat, s: nat)
    requires i < j <= |lines|
  {
    && s < |sections| && sections[s] == lines[i..j]
    && (j < |lines| ==> s + 1 < |sections|)
    && forall later: nat {:trigger StartsBehind(sections, later, lines, j)} | s < later < |sections| ::
         StartsBehind(sections, later, lines, j)
  }

  ghost predicate StartsBehind(sections: seq<seq<seq<Byte>>>, s: nat, lines: seq<seq<Byte>>, j: nat)
    requires s < |sections|
  {
    exists k :: j <= k < |lines| && INDEX <= lines[k] && sections[s] != [] && sections[s][0] == lines[k]
  }

  lemma {:induction false} CutIsSection(c: Config, lines: seq<seq<Byte>>, i: nat, j: nat) returns (s: nat)
    requires IsCut(lines, i, j)
    ensures SectionIs(Sections(c, lines), lines, i, j, s)
    decreases |lines|
  {
    var n := |lines| - 1;
    var front, last := lines[..n], lines[n];
    SectionsStep(c, lines, front, last);
    if i == n {
      s := |Sections(c, front)|;
      NewSection(Sections(c, front), Sections(c, lines), lines, i);
    } else {
      CutOfFront(lines, front, i, j);
      s := CutIsSection(c, front, i, Min(j, n));
      if INDEX <= last {
        IndexExtends(Sections(c, front), Sections(c, lines), lines, i, j, s);
      } else {
        PlainExtends(Sections(c, front), Sections(c, lines), lines, front, i, j, s);
      }
    }
  }

  lemma NewSection(sections: seq<seq<seq<Byte>>>, longer: seq<seq<seq<Byte>>>, lines: seq<seq<Byte>>, i: nat)
    requires i == |lines| - 1 && longer == sections + [[lines[i]]]
    ensures SectionIs(longer, lines, i, |lines|, |sections|)
  {
    assert lines[i..|lines|] == [lines[i]];
  }

  lemma CutOfFront(lines: seq<seq<Byte>>, front: seq<seq<Byte>>, i: nat, j: nat)
    requires IsCut(lines, i, j) && i < |lines| - 1 && front == lines[..|lines| - 1]
    ensures IsCut(front, i, Min(j, |front|))
  {
  }

  lemma SectionsStep(c: Config, lines: seq<seq<Byte>>, front: seq<seq<Byte>>, last: seq<Byte>)
    requires lines != [] && front == lines[..|lines| - 1] && last == lines[|lines| - 1]
    ensures Sections(c, lines) == if INDEX <= last then Sections(c, front) + [[last]]
                                  else if Sections(c, front) == [] then []
                                  else Grown(Sections(c, front), last)
    ensures forall k | 0 <= k < |Sections(c, front)| :: Sections(c, front)[k] != []
  {
    IndexSeen(c, last);
  }

  /** The line belongs to the last section. */
  function Grown(sections: seq<seq<seq<Byte>>>, last: seq<Byte>): seq<seq<seq<Byte>>>
    requires sections != []
  {
    sections[..|sections| - 1] + [sections[|sections| - 1] + [last]]
  }

  lemma BehindStays(sections: seq<seq<seq<Byte>>>, longer: seq<seq<seq<Byte>>>, lines: seq<seq<Byte>>, j: nat, s: nat)
    requires lines != [] && s < |sections| && s < |longer| && sections[s] != [] && longer[s] != []
    requires longer[s][0] == sections[s][0] && StartsBehind(sections, s, lines[..|lines| - 1], j)
    ensures StartsBehind(longer, s, lines, j)
  {
    var k :| j <= k < |lines| - 1 && INDEX <= lines[..|lines| - 1][k] && sections[s][0] == lines[..|lines| - 1][k];
    assert lines[k] == sections[s][0];
  }

  lemma {:induction false} IndexExtends(sections: seq<seq<seq<Byte>>>, longer: seq<seq<seq<Byte>>>,
                                        lines: seq<seq<Byte>>, i: nat, j: nat, s: nat)
    requires IsCut(lines, i, j) && i < |lines| - 1 && INDEX <= lines[|lines| - 1]
    requires longer == sections + [[lines[|lines| - 1]]] && forall k | 0 <= k < |sections| :: sections[k] != []
    requires SectionIs(sections, lines[..|lines| - 1], i, Min(j, |lines| - 1), s)
    ensures SectionIs(longer, lines, i, j, s)
  {
    var n := |lines| - 1;
    assert j <= n && lines[..n][i..j] == lines[i..j];
    forall later: nat | s < later < |longer|
      ensures StartsBehind(longer, later, lines, j)
    {
      if later < |sections| {
        BehindStays(sections, longer, lines, j, later);
      } else {
        assert longer[later][0] == lines[n];
      }
    }
  }

  lemma {:induction false} PlainExtends(sections: seq<seq<seq<Byte>>>, longer: seq<seq<seq<Byte>>>,
                                        lines: seq<seq<Byte>>, front: seq<seq<Byte>>, i: nat, j: nat, s: nat)
    requires IsCut(lines, i, j) && i < |lines| - 1 && front == lines[..|lines| - 1] && j != |lines| - 1
    requires sections != [] && longer == Grown(sections, lines[|lines| - 1])
    requires forall k | 0 <= k < |sections| :: sections[k] != []
    requires SectionIs(sections, front, i, Min(j, |lines| - 1), s)
    ensures SectionIs(longer, lines, i, j, s)
  {
    if j == |lines| {
      assert !StartsBehind(sections, |sections| - 1, front, |front|);
      assert front[i..|front|] + [lines[|lines| - 1]] == lines[i..j];
    } else {
      assert front[i..j] == lines[i..j];
      AllBehindStay(sections, longer, lines, j, s);
    }
  }

  lemma AllBehindStay(sections: seq<seq<seq<Byte>>>, longer: seq<seq<seq<Byte>>>, lines: seq<seq<Byte>>, j: nat, s: nat)
    requires lines != [] && |longer| == |sections|
    requires forall k | 0 <= k < |sections| :: sections[k] != [] && longer[k] != [] && longer[k][0] == sections[k][0]
    requires forall later: nat {:trigger StartsBehind(sections, later, lines[..|lines| - 1], j)} |
               s < later < |sections| :: StartsBehind(sections, later, lines[..|lines| - 1], j)
    ensures forall later: nat {:trigger StartsBehind(longer, later, lines, j)} |
              s < later < |longer| :: StartsBehind(longer, later, lines, j)
  {
    forall later: nat | s < later < |longer|
      ensures StartsBehind(longer, later, lines, j)
    {
      assert StartsBehind(sections, later, lines[..|lines| - 1], j);
      BehindStays(sections, longer, lines, j, later);
    }
  }

  // ----- The result

  lemma {:induction false} EntryPath(c: Config, sections: seq<seq<seq<Byte>>>, s: nat)
    requires AllSections(c, sections) && s < |sections|
    ensures Entries(c, sections)[s].path == SectionPath(c, sections[s])
    decreases |sections|
  {
    if s < |sections| - 1 {
      EntryPath(c, sections[..|sections| - 1], s);
      EarlierEntry(c, sections, s);
    }
  }

  lemma {:induction false} EntryFile(c: Config, sections: seq<seq<seq<Byte>>>, s: nat) returns (retained: nat)
    requires AllSections(c, sections) && s < |sections|
    ensures Entries(c, sections)[s].file == SectionFile(c, sections[s], retained)
    decreases |sections|
  {
    if s < |sections| - 1 {
      retained := EntryFile(c, sections[..|sections| - 1], s);
      EarlierEntry(c, sections, s);
    } else {
      retained := LastFile(c, sections);
    }
  }

  lemma LastFile(c: Config, sections: seq<seq<seq<Byte>>>) returns (retained: nat)
    requires AllSections(c, sections) && sections != []
    ensures Entries(c, sections)[|sections| - 1].file == SectionFile(c, sections[|sections| - 1], retained)
  {
    retained := Total(Entries(c, sections[..|sections| - 1]));
  }

  /** No Index line from line `j` on names this path. */
  ghost predicate NotAgain(c: Config, lines: seq<seq<Byte>>, j: nat, path: seq<Byte>)
    requires j <= |lines|
  {
    forall k | j <= k < |lines| && INDEX <= lines[k] :: PathOn(c, lines[k]) != path
  }

  lemma {:induction false} CutIsLast(c: Config, lines: seq<seq<Byte>>, i: nat, j: nat, s: nat)
    requires IsCut(lines, i, j) && NotAgain(c, lines, j, PathOn(c, lines[i]))
    requires SectionIs(Sections(c, lines), lines, i, j, s)
    ensures var entries := Entries(c, Sections(c, lines));
            IsLast(entries, s) && entries[s].path == PathOn(c, lines[i])
  {
    var sections := Sections(c, lines);
    var entries := Entries(c, sections);
    EntryPath(c, sections, s);
    IndexSeen(c, lines[i]);
    forall later: nat | s < later < |entries|
      ensures entries[later].path != entries[s].path
    {
      EntryPath(c, sections, later);
      assert StartsBehind(sections, later, lines, j);
      IndexSeen(c, sections[later][0]);
    }
  }

  /** What the lines of a section say, in terms of their literal beginnings. */
  ghost predicate Describes(c: Config, file: PatchFile, section: seq<seq<Byte>>) {
    && file.additions == |Counted(section, PLUS)|
    && file.deletions == |Counted(section, MINUS)|
    && (file.isBinary <==> exists k :: 0 <= k < |section| && SaysBinary(c, section[k]))
    && (file.body.Retained? ==> file.body.text == Utf8.Lossy(Flatten(section)))
    && (file.isBinary ==> file.body == Deferred)
  }

  lemma {:induction false} SectionDescribes(c: Config, section: seq<seq<Byte>>, retained: nat)
    ensures Describes(c, SectionFile(c, section, retained), section)
  {
    CountsSeen(c, section);
    forall k | 0 <= k < |section|
      ensures LineIsBinary(c, section[k]) <==> SaysBinary(c, section[k])
    {
      BinarySeen(c, section[k]);
    }
  }

  /**
   * The meaning of a parsed patch. For every Index line whose path no later one names, the result has a record under
   * this path: its additions and deletions are the lines beginning with a plus or a minus sign that stand between a
   * hunk header and the next property changes, up to the next Index line; it is binary exactly if one of these lines
   * says so; and a kept body is their text.
   */
  lemma {:induction false} ParsedMeaning(c: Config, text: seq<Byte>, i: nat, j: nat)
    requires c.Valid() && IsCut(RawLines(text), i, j)
    requires NotAgain(c, RawLines(text), j, PathOn(c, RawLines(text)[i]))
    ensures var lines, files := RawLines(text), Finish(c, Feed(c, INITIAL, text)).files;
            && PathOn(c, lines[i]) in files
            && Describes(c, files[PathOn(c, lines[i])], lines[i..j])
  {
    var lines := RawLines(text);
    var path := PathOn(c, lines[i]);
    ParsedLookup(c, text, path);
    var s := CutIsSection(c, lines, i, j);
    CutIsLast(c, lines, i, j, s);
    var retained := EntryFile(c, Sections(c, lines), s);
    SectionDescribes(c, lines[i..j], retained);
  }
}
