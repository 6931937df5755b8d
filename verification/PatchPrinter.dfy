/**
 * Printing an unversioned file as an added patch, and reading that patch back (svn_patch.rs).
 *
 * The printed patch is described line by line first. Then follow, in this order: why its lines are one section of the
 * parser, which of them stand inside a hunk and are counted, when the path of the section is the path that was
 * printed, why the printed patch is well-formed text, and the main result: what the parser makes of it.
 *
 * Paths and contents are byte sequences. A path has no line end in it and is well-formed UTF-8, as every `&str` is;
 * the content is arbitrary and goes through the lossy conversion first.
 */
module PatchPrinter {
  import opened Base
  import opened PatchFormat
  import opened PatchParser
  import opened PatchOffline
  import Utf8

  const NO_NEWLINE: string := "\\ No newline at end of file\n"

  /** `replace("\r\n", "\n")` */
  function NormalizeNewlines(s: seq<Byte>): seq<Byte>
    decreases |s|
  {
    if s == [] then []
    else if |s| >= 2 && s[0] == CARRIAGE_RETURN && s[1] == NEWLINE then [NEWLINE] + NormalizeNewlines(s[2..])
    else [s[0]] + NormalizeNewlines(s[1..])
  }

  function Decimal(n: nat): (r: seq<Byte>)
    ensures r != [] && forall k | 0 <= k < |r| :: 48 <= r[k] <= 57
  {
    if n < 10 then [48 + n] else Decimal(n / 10) + [48 + n % 10]
  }

  /** The file content as the printer sees it. */
  function TextOf(content: seq<Byte>): seq<Byte> {
    NormalizeNewlines(Utf8.Lossy(content))
  }

  function HunkHeader(count: nat): seq<Byte> {
    Bytes("@@ -0,0 +1,") + Decimal(count) + Bytes(" @@\n")
  }

  function Header(path: seq<Byte>): seq<Byte> {
    Bytes("Index: ") + path + Bytes("\n") + Bytes("--- /dev/null\n") + Bytes("+++ b/") + path + Bytes("\n")
  }

  /** Every line with a plus sign in front. */
  function Added(lines: seq<seq<Byte>>): seq<seq<Byte>> {
    seq(|lines|, i requires 0 <= i < |lines| => Bytes("+") + lines[i])
  }

  function HeaderLines(path: seq<Byte>): seq<seq<Byte>> {
    [Bytes("Index: ") + path + Bytes("\n"), Bytes("--- /dev/null\n"), Bytes("+++ b/") + path + Bytes("\n")]
  }

  /** An open last line gets its end and the remark that the file has none. */
  function CloseLast(lines: seq<seq<Byte>>): seq<seq<Byte>>
    requires lines != []
  {
    lines[..|lines| - 1] + [lines[|lines| - 1] + Bytes("\n"), Bytes(NO_NEWLINE)]
  }

  /** The printed patch line by line. */
  function PrintedLines(path: seq<Byte>, text: seq<Byte>): seq<seq<Byte>> {
    var lines := RawLines(text);
    if text == [] then HeaderLines(path)
    else
      var all := HeaderLines(path) + [HunkHeader(|lines|)] + Added(lines);
      if text[|text| - 1] == NEWLINE then all else CloseLast(all)
  }

  /** `added_file_patch` */
  method AddedFilePatch(path: seq<Byte>, content: seq<Byte>) returns (patch: seq<Byte>)
    ensures patch == PrintedText(path, content)
  {
    var text := TextOf(content);
    patch := Header(path);
    HeaderIsThreeLines(path);
    if text == [] {
      return;
    }
    var lines := RawLines(text);
    FlattenSnoc(HeaderLines(path), HunkHeader(|lines|));
    patch := patch + HunkHeader(|lines|);
    ghost var front := HeaderLines(path) + [HunkHeader(|lines|)];
    assert front + Added(lines[..0]) == front;
    for i := 0 to |lines|
      invariant patch == Flatten(front + Added(lines[..i]))
    {
      AddedStep(front, lines, i);
      ConcatAssociative(patch, Bytes("+"), lines[i]);
      patch := patch + Bytes("+");
      patch := patch + lines[i];
    }
    assert lines[..|lines|] == lines;
    if text[|text| - 1] != NEWLINE {
      CloseLastFlat(front + Added(lines));
      patch := patch + Bytes("\n");
      patch := patch + Bytes(NO_NEWLINE);
    }
  }

  lemma AddedStep(front: seq<seq<Byte>>, lines: seq<seq<Byte>>, i: nat)
    requires i < |lines|
    ensures Flatten(front + Added(lines[..i + 1])) == Flatten(front + Added(lines[..i])) + (Bytes("+") + lines[i])
  {
    AddedSnoc(lines, i);
    ConcatAssociative(front, Added(lines[..i]), [Bytes("+") + lines[i]]);
    FlattenSnoc(front + Added(lines[..i]), Bytes("+") + lines[i]);
  }

  lemma AddedSnoc(lines: seq<seq<Byte>>, i: nat)
    requires i < |lines|
    ensures Added(lines[..i + 1]) == Added(lines[..i]) + [Bytes("+") + lines[i]]
  {
  }

  lemma CloseLastFlat(lines: seq<seq<Byte>>)
    requires lines != []
    ensures Flatten(CloseLast(lines)) == Flatten(lines) + Bytes("\n") + Bytes(NO_NEWLINE)
  {
    var m := |lines| - 1;
    var closed := lines[..m] + [lines[m] + Bytes("\n")];
    FlattenSnoc(lines[..m], lines[m] + Bytes("\n"));
    FlattenSnoc(closed, Bytes(NO_NEWLINE));
    assert CloseLast(lines) == closed + [Bytes(NO_NEWLINE)];
    ConcatAssociative(Flatten(lines[..m]), lines[m], Bytes("\n"));
  }

  lemma HeaderIsThreeLines(path: seq<Byte>)
    ensures Flatten(HeaderLines(path)) == Header(path)
  {
    var a := Bytes("Index: ") + path + Bytes("\n");
    var b := Bytes("--- /dev/null\n");
    var d := Bytes("+++ b/") + path + Bytes("\n");
    FlattenOne(a);
    FlattenSnoc([a], b);
    FlattenSnoc([a, b], d);
    assert [a] + [b] == [a, b] && [a, b] + [d] == [a, b, d];
    assert a + b + d == Header(path);
  }

  // ----- What the normalization and the numbers mean

  /** The line ends in CR LF. */
  predicate EndsInBoth(line: seq<Byte>) {
    |line| >= 2 && line[|line| - 2] == 13 && line[|line| - 1] == 10
  }

  /** The line loses the carriage return before its line end, if it has one there. */
  function WithoutReturn(line: seq<Byte>): seq<Byte> {
    if EndsInBoth(line) then line[..|line| - 2] + [10] else line
  }

  function EachWithoutReturn(lines: seq<seq<Byte>>): seq<seq<Byte>> {
    seq(|lines|, i requires 0 <= i < |lines| => WithoutReturn(lines[i]))
  }

  /** A character without a line end stays as it is. */
  lemma {:induction false} NormalizeSkips(s: seq<Byte>, n: nat)
    requires n <= |s|
    requires forall k | 0 <= k < n :: s[k] != CARRIAGE_RETURN || !(k + 1 < |s| && s[k + 1] == NEWLINE)
    ensures NormalizeNewlines(s) == s[..n] + NormalizeNewlines(s[n..])
    decreases n
  {
    if n > 0 {
      var rest := s[1..];
      NormalizeSkips(rest, n - 1);
      CutFurther(s, 1, n);
      ConcatAssociative([s[0]], rest[..n - 1], NormalizeNewlines(s[n..]));
      assert s[..1] == [s[0]];
    }
  }

  lemma {:induction false} NormalizeLine(line: seq<Byte>)
    requires IsSegment(line)
    ensures NormalizeNewlines(line) == WithoutReturn(line)
  {
    var n := if EndsInBoth(line) then |line| - 2 else |line|;
    assert forall k | 0 <= k < |line| - 1 :: line[k] != NEWLINE by {
      assert forall k | 0 <= k < |line| - 1 :: line[k] == line[..|line| - 1][k];
    }
    NormalizeSkips(line, n);
    if EndsInBoth(line) {
      assert line[n..] == [CARRIAGE_RETURN, NEWLINE] && [CARRIAGE_RETURN, NEWLINE][2..] == [];
    } else {
      assert line[..n] == line && line[n..] == [];
    }
  }

  /** A text can be normalized in two parts if no line end is torn. */
  lemma {:induction false} NormalizeConcat(a: seq<Byte>, b: seq<Byte>)
    requires a == [] || a[|a| - 1] != CARRIAGE_RETURN
    ensures NormalizeNewlines(a + b) == NormalizeNewlines(a) + NormalizeNewlines(b)
    decreases |a|
  {
    if a == [] {
      assert a + b == b;
    } else {
      var n := if |a| >= 2 && a[0] == CARRIAGE_RETURN && a[1] == NEWLINE then 2 else 1;
      var rest := a[n..];
      assert (a + b)[n..] == rest + b && (a + b)[0] == a[0];
      NormalizeConcat(rest, b);
      ConcatAssociative([if n == 2 then NEWLINE else a[0]], NormalizeNewlines(rest), NormalizeNewlines(b));
    }
  }

  lemma FrontEnds(lines: seq<seq<Byte>>, n: nat)
    requires 0 < n <= |lines| && Ended(lines[n - 1])
    ensures Ended(Flatten(lines[..n]))
  {
    FlattenStep(lines, n - 1);
  }

  lemma {:induction false} NormalizeFlatten(lines: seq<seq<Byte>>)
    requires AreLines(lines)
    ensures NormalizeNewlines(Flatten(lines)) == Flatten(EachWithoutReturn(lines))
    decreases |lines|
  {
    if lines != [] {
      var n := |lines| - 1;
      NormalizeFlatten(lines[..n]);
      NormalizeLine(lines[n]);
      if n > 0 {
        FrontEnds(lines, n);
      }
      NormalizeConcat(Flatten(lines[..n]), lines[n]);
      assert EachWithoutReturn(lines)[..n] == EachWithoutReturn(lines[..n]);
    }
  }

  lemma WithoutReturnIsLine(line: seq<Byte>)
    requires IsSegment(line)
    ensures IsSegment(WithoutReturn(line)) && (Ended(line) ==> Ended(WithoutReturn(line)))
  {
    if EndsInBoth(line) {
      var short := WithoutReturn(line);
      assert short[..|short| - 1] == line[..|line| - 2];
      assert forall k | 0 <= k < |line| - 2 :: line[k] == line[..|line| - 1][k];
    }
  }

  /**
   * What the printer sees of a file: line by line the decoded content, and exactly one carriage return is gone from
   * every line that ends in CR LF.
   */
  lemma {:induction false} TextLineByLine(content: seq<Byte>)
    ensures var decoded, text := RawLines(Utf8.Lossy(content)), RawLines(TextOf(content));
            && |text| == |decoded|
            && forall k | 0 <= k < |text| :: text[k] == WithoutReturn(decoded[k])
  {
    var decoded := RawLines(Utf8.Lossy(content));
    var lines := EachWithoutReturn(decoded);
    RawLinesCutTheText(Utf8.Lossy(content));
    NormalizeFlatten(decoded);
    forall k | 0 <= k < |lines|
      ensures IsSegment(lines[k]) && (k < |lines| - 1 ==> Ended(lines[k]))
    {
      WithoutReturnIsLine(decoded[k]);
    }
    RawLinesUnique(lines);
  }

  /** The number that decimal digits stand for. */
  function ValueOf(digits: seq<Byte>): int {
    if digits == [] then 0 else 10 * ValueOf(digits[..|digits| - 1]) + digits[|digits| - 1] - 48
  }

  /** Reading the digits gives the number back, and there is no superfluous zero in front. */
  lemma {:induction false} DecimalReads(n: nat)
    ensures ValueOf(Decimal(n)) == n
    ensures Decimal(n)[0] == 48 ==> n == 0 && |Decimal(n)| == 1
  {
    if n >= 10 {
      DecimalReads(n / 10);
      assert Decimal(n)[..|Decimal(n)| - 1] == Decimal(n / 10);
    } else {
      assert Decimal(n)[..0] == [];
    }
  }

  /** "Index: ", "--- /dev/null", "+++ b/" and the frame of a hunk header, as bytes. */
  lemma PrintedLiterals(count: nat)
    ensures Bytes("Index: ") == [73, 110, 100, 101, 120, 58, 32]
    ensures Bytes("--- /dev/null\n") == [45, 45, 45, 32, 47, 100, 101, 118, 47, 110, 117, 108, 108, 10]
    ensures Bytes("+++ b/") == [43, 43, 43, 32, 98, 47] && Bytes("+") == [43]
    ensures HunkHeader(count) == [64, 64, 32, 45, 48, 44, 48, 32, 43, 49, 44] + Decimal(count) + [32, 64, 64, 10]
  {
    assert Bytes("@@ -0,0 +1,") == [64, 64, 32, 45, 48, 44, 48, 32, 43, 49, 44];
    assert Bytes(" @@\n") == [32, 64, 64, 10];
  }

  /** "\ No newline at end of file" */
  lemma RemarkLiteral()
    ensures Bytes(NO_NEWLINE)
         == [92, 32, 78, 111, 32, 110, 101, 119, 108, 105, 110, 101, 32, 97, 116, 32,
             101, 110, 100, 32, 111, 102, 32, 102, 105, 108, 101, 10]
  {
  }

  // ----- Reading it back

  lemma TextKeepsIndex(c: Config, raw: seq<Byte>)
    requires Bytes("Index: ") <= raw
    ensures IsIndex(Text(c, raw))
  {
    var prefix := Bytes("Index: ");
    assert prefix == [73, 110, 100, 101, 120, 58, 32];
    TextKeepsPrefix(c, raw, prefix);
  }

  /** What the first characters of a printed line say about it. */
  lemma HeadDecides(line: seq<Byte>)
    requires line != []
    ensures line[0] == '+' as int ==> MarkOf(line) == Plus
    ensures line[0] == '-' as int ==> MarkOf(line) == Minus
    ensures line[0] == '\\' as int || line[0] == 'I' as int ==> MarkOf(line) == Plain
    ensures |line| >= 2 && line[..2] == Bytes("@@") ==> MarkOf(line) == OpensHunk
    ensures line[0] != 'C' as int && line[0] != 's' as int ==> !MarksBinary(line)
    ensures line[0] != 'I' as int ==> !IsIndex(line)
  {
    assert Bytes("@@")[0] == '@' as int && Bytes("Property changes on:")[0] == 'P' as int;
    assert Bytes("+") == ['+' as int] && Bytes("-") == ['-' as int];
    assert Bytes("Index: ")[0] == 'I' as int;
    assert Bytes("Cannot display:")[0] == 'C' as int && Bytes("svn:mime-type = ")[0] == 's' as int;
  }

  /** A patch whose only Index line is the first one is a single section. */
  lemma {:induction false} OneSection(c: Config, lines: seq<seq<Byte>>)
    requires lines != [] && IsIndex(Text(c, lines[0]))
    requires forall k | 1 <= k < |lines| :: !IsIndex(Text(c, lines[k]))
    ensures Sections(c, lines) == [lines]
    decreases |lines|
  {
    var n := |lines| - 1;
    if n > 0 {
      var front := lines[..n];
      OneSection(c, front);
      assert [front][..0] + [front + [lines[n]]] == [front + [lines[n]]];
      assert front + [lines[n]] == lines;
    } else {
      assert lines == [lines[0]];
    }
  }

  /** The line begins with this visible character. */
  ghost predicate Begins(line: seq<Byte>, first: char) {
    line != [] && line[0] == first as int && line[0] > 32
  }

  lemma TextBegins(c: Config, line: seq<Byte>, first: char)
    requires Begins(line, first)
    ensures Begins(Text(c, line), first)
  {
    TextKeepsPrefix(c, line, [line[0]]);
  }

  /** How the lines of a printed patch begin; `count` of them are added lines. */
  ghost predicate Shaped(lines: seq<seq<Byte>>, count: nat) {
    && |lines| >= 3
    && Bytes("Index: ") <= lines[0]
    && Begins(lines[0], 'I') && Begins(lines[1], '-') && Begins(lines[2], '+')
    && if count == 0 then |lines| == 3
       else
         && 4 + count <= |lines| <= 5 + count
         && Bytes("@@") <= lines[3] && Begins(lines[3], '@')
         && (forall k | 4 <= k < 4 + count :: Begins(lines[k], '+'))
         && (|lines| == 5 + count ==> Begins(lines[4 + count], '\\'))
  }

  lemma AddedBegins(lines: seq<seq<Byte>>, k: nat)
    requires k < |lines|
    ensures Begins(Added(lines)[k], '+')
  {
    assert Added(lines)[k] == Bytes("+") + lines[k];
  }

  lemma PrintedFirst(path: seq<Byte>, text: seq<Byte>)
    ensures PrintedLines(path, text) != []
    ensures PrintedLines(path, text)[0] == Bytes("Index: ") + path + Bytes("\n")
  {
  }

  lemma HeaderIsShaped(path: seq<Byte>)
    ensures Shaped(HeaderLines(path), 0)
  {
  }

  lemma AllIsShaped(path: seq<Byte>, lines: seq<seq<Byte>>)
    requires lines != []
    ensures Shaped(HeaderLines(path) + [HunkHeader(|lines|)] + Added(lines), |lines|)
  {
    HeaderIsShaped(path);
    var hunk := HunkHeader(|lines|);
    assert Bytes("@@ -0,0 +1,")[..2] == Bytes("@@");
    assert Bytes("@@") <= hunk && Begins(hunk, '@');
    var front := HeaderLines(path) + [hunk];
    forall k | 4 <= k < 4 + |lines|
      ensures Begins((front + Added(lines))[k], '+')
    {
      AddedBegins(lines, k - 4);
    }
  }

  lemma CloseLastIsShaped(all: seq<seq<Byte>>, count: nat)
    requires count > 0 && |all| == 4 + count && Shaped(all, count)
    ensures Shaped(CloseLast(all), count)
  {
    var closed := CloseLast(all);
    assert closed[3 + count] == all[3 + count] + Bytes("\n") && closed[4 + count] == Bytes(NO_NEWLINE);
    assert Begins(Bytes(NO_NEWLINE), '\\');
    assert forall k | 0 <= k < 3 + count :: closed[k] == all[k];
  }

  lemma {:induction false} PrintedIsShaped(path: seq<Byte>, text: seq<Byte>)
    ensures Shaped(PrintedLines(path, text), |RawLines(text)|)
  {
    if text == [] {
      HeaderIsShaped(path);
    } else {
      var lines := RawLines(text);
      AllIsShaped(path, lines);
      CloseLastIsShaped(HeaderLines(path) + [HunkHeader(|lines|)] + Added(lines), |lines|);
    }
  }

  // ----- The counts

  function ShapedMark(count: nat, k: nat): Mark {
    if k == 1 then Minus else if k == 2 then Plus else if k == 3 then OpensHunk
    else if 4 <= k < 4 + count then Plus else Plain
  }

  ghost predicate MarksAre(marks: seq<Mark>, count: nat) {
    && (if count == 0 then |marks| == 3 else 4 + count <= |marks| <= 5 + count)
    && forall k: nat | k < |marks| :: marks[k] == ShapedMark(count, k)
  }

  lemma {:induction false} NoHunkYet(marks: seq<Mark>, count: nat, k: nat)
    requires MarksAre(marks, count) && k <= 3
    ensures !InHunk(marks[..k])
    ensures CountInHunks(marks[..k], Plus) == 0 && CountInHunks(marks[..k], Minus) == 0
    decreases k
  {
    if k > 0 {
      NoHunkYet(marks, count, k - 1);
      MarksStep(marks, k);
    }
  }

  lemma {:induction false} MarksStep(marks: seq<Mark>, k: nat)
    requires 0 < k <= |marks|
    ensures var last, before := marks[k - 1], marks[..k - 1];
            && (InHunk(marks[..k]) <==> last == OpensHunk || (last != ClosesHunk && InHunk(before)))
            && CountInHunks(marks[..k], Plus)
               == CountInHunks(before, Plus) + (if InHunk(before) && last == Plus then 1 else 0)
            && CountInHunks(marks[..k], Minus)
               == CountInHunks(before, Minus) + (if InHunk(before) && last == Minus then 1 else 0)
  {
    var last, before := marks[k - 1], marks[..k - 1];
    assert marks[..k] == before + [last];
    InHunkSnoc(before, last);
    CountSnoc(before, last, Plus);
    CountSnoc(before, last, Minus);
  }

  /** After the hunk header at index 3, every plus line counts and nothing closes the hunk. */
  lemma {:induction false} PlusLinesCount(marks: seq<Mark>, count: nat, k: nat)
    requires MarksAre(marks, count) && count > 0 && 4 <= k <= |marks|
    ensures InHunk(marks[..k])
    ensures CountInHunks(marks[..k], Minus) == 0 && CountInHunks(marks[..k], Plus) == Min(k - 4, count)
    decreases k
  {
    MarksStep(marks, k);
    if k == 4 {
      NoHunkYet(marks, count, 3);
    } else {
      PlusLinesCount(marks, count, k - 1);
    }
  }

  lemma {:induction false} ShapedMarks(c: Config, lines: seq<seq<Byte>>, count: nat, k: nat)
    requires Shaped(lines, count) && k < |lines|
    ensures MarksOf(c, lines)[k] == ShapedMark(count, k)
    ensures !MarksBinary(Text(c, lines[k])) && (k > 0 ==> !IsIndex(Text(c, lines[k])))
  {
    var first := if k == 0 then 'I' else if k == 1 then '-' else if k == 3 then '@'
                 else if k < 4 + count then '+' else '\\';
    TextBegins(c, lines[k], first);
    HeadDecides(Text(c, lines[k]));
    if k == 3 {
      TextKeepsPrefix(c, lines[k], Bytes("@@"));
      assert Text(c, lines[k])[..2] == Bytes("@@");
    }
  }

  lemma ShapedCounts(c: Config, lines: seq<seq<Byte>>, count: nat)
    requires Shaped(lines, count)
    ensures CountInHunks(MarksOf(c, lines), Plus) == count && CountInHunks(MarksOf(c, lines), Minus) == 0
  {
    var marks := MarksOf(c, lines);
    forall k: nat | k < |marks|
      ensures marks[k] == ShapedMark(count, k)
    {
      ShapedMarks(c, lines, count, k);
    }
    CountsOf(marks, count);
  }

  lemma CountsOf(marks: seq<Mark>, count: nat)
    requires MarksAre(marks, count)
    ensures CountInHunks(marks, Plus) == count && CountInHunks(marks, Minus) == 0
  {
    assert marks[..|marks|] == marks;
    if count == 0 {
      NoHunkYet(marks, count, 3);
    } else {
      PlusLinesCount(marks, count, |marks|);
    }
  }

  // ----- Section, binary test, path and body

  /** A printed patch is one section of text, unless some byte of it is NUL. */
  lemma {:induction false} ShapedSection(c: Config, lines: seq<seq<Byte>>, count: nat)
    requires Shaped(lines, count)
    ensures IsSection(c, lines) && Sections(c, lines) == [lines]
    ensures IsBinary(c, lines) <==> 0 in Flatten(lines)
  {
    TextKeepsIndex(c, lines[0]);
    forall k: nat | k < |lines|
      ensures !MarksBinary(Text(c, lines[k])) && (k > 0 ==> !IsIndex(Text(c, lines[k])))
    {
      ShapedMarks(c, lines, count, k);
    }
    OneSection(c, lines);
    InFlatten(lines, 0);
    assert forall k | 0 <= k < |lines| :: LineIsBinary(c, lines[k]) <==> 0 in lines[k];
  }

  lemma {:induction false} InFlatten(parts: seq<seq<Byte>>, x: Byte)
    ensures x in Flatten(parts) <==> exists k :: 0 <= k < |parts| && x in parts[k]
    decreases |parts|
  {
    if parts != [] {
      var n := |parts| - 1;
      InFlatten(parts[..n], x);
      if x in Flatten(parts) && x !in parts[n] {
        var k :| 0 <= k < n && x in parts[..n][k];
        assert x in parts[k];
      }
      if k :| 0 <= k < |parts| && x in parts[k] {
        assert k < n ==> x in parts[..n][k];
      }
    }
  }

  /** What the parser sees of a line: it is cut at the limit and loses one carriage return at its end. */
  lemma LineText(c: Config, front: seq<Byte>)
    requires front != [] && NEWLINE !in front
    ensures Text(c, front + [NEWLINE]) == DropReturn(front[..Min(c.LineLimit(), |front|)])
    ensures Text(c, front + [NEWLINE]) == front
       <==> |front| <= c.LineLimit() && front[|front| - 1] != CARRIAGE_RETURN
    ensures |front| <= c.LineLimit() && front[|front| - 1] == 13 ==> Text(c, front + [NEWLINE]) == front[..|front| - 1]
  {
    var raw := front + [NEWLINE];
    var limit := c.LineLimit();
    if limit > |front| {
      assert raw[..|raw|] == raw && raw[..|front|] == front && front[..|front|] == front;
    } else {
      assert raw[..limit] == front[..limit];
      assert front[..limit][limit - 1] in front;
    }
  }

  /** How many bytes of a path fit on an Index line. */
  function PathRoom(c: Config): nat {
    c.LineLimit() - |"Index: "|
  }

  /** The path of a printed patch as the parser reads it, before it is normalized. */
  function ReadPath(c: Config, path: seq<Byte>): seq<Byte> {
    Utf8.Lossy(DropReturn(path[..Min(PathRoom(c), |path|)]))
  }

  lemma IndexLineText(c: Config, path: seq<Byte>)
    requires NEWLINE !in path
    ensures Text(c, Bytes("Index: ") + path + Bytes("\n"))
         == Bytes("Index: ") + DropReturn(path[..Min(PathRoom(c), |path|)])
  {
    var index := Bytes("Index: ");
    var front := index + path;
    assert Bytes("\n") == [NEWLINE] && index == [73, 110, 100, 101, 120, 58, 32];
    LineText(c, front);
    var cut := path[..Min(PathRoom(c), |path|)];
    assert front[..Min(c.LineLimit(), |front|)] == index + cut;
    ReturnAfter(index, cut);
  }

  lemma ReturnAfter(index: seq<Byte>, cut: seq<Byte>)
    requires index != [] && index[|index| - 1] != CARRIAGE_RETURN
    ensures DropReturn(index + cut) == index + DropReturn(cut)
  {
  }

  /** The path fits on its line and does not end in a carriage return. */
  predicate PathFits(c: Config, path: seq<Byte>) {
    |path| <= PathRoom(c) && (path == [] || path[|path| - 1] != CARRIAGE_RETURN)
  }

  /**
   * A path comes back from a printed patch exactly when it fits its line and does not end in a carriage return, or
   * when it ends in U+FFFD and the cut falls inside this character, because the lossy decoding then restores it.
   */
  lemma {:induction false} PathComesBack(c: Config, path: seq<Byte>, text: seq<Byte>)
    requires NEWLINE !in path && Utf8.WellFormed(path)
    ensures var lines := PrintedLines(path, text);
            IsSection(c, lines) && SectionPath(c, lines) == (c.normalize)(ReadPath(c, path))
    ensures ReadPath(c, path) == path <==> PathFits(c, path) || Utf8.CutsReplacement(path, PathRoom(c))
  {
    var lines := PrintedLines(path, text);
    PrintedFirst(path, text);
    TextKeepsIndex(c, lines[0]);
    IndexLineText(c, path);
    var read := DropReturn(path[..Min(PathRoom(c), |path|)]);
    assert (Bytes("Index: ") + read)[|"Index: "|..] == read;
    ReadPathExactly(c, path);
  }

  lemma {:induction false} ReadPathExactly(c: Config, path: seq<Byte>)
    requires Utf8.WellFormed(path)
    ensures ReadPath(c, path) == path <==> PathFits(c, path) || Utf8.CutsReplacement(path, PathRoom(c))
  {
    var room := PathRoom(c);
    if |path| <= room {
      assert path[..|path|] == path;
      if path != [] && path[|path| - 1] == CARRIAGE_RETURN {
        Utf8.LossyOfCut(path, |path| - 1);
        ReplacementHasNoReturn(path, |path| - 1, |path| - 1);
      } else {
        Utf8.LossyIdentity(path);
      }
    } else {
      ReadLongPath(path, room);
    }
  }

  lemma {:induction false} ReadLongPath(path: seq<Byte>, room: nat)
    requires Utf8.WellFormed(path) && 0 < room < |path|
    ensures Utf8.Lossy(DropReturn(path[..room])) == path <==> Utf8.CutsReplacement(path, room)
  {
    if path[room - 1] == CARRIAGE_RETURN {
      assert path[..room][..room - 1] == path[..room - 1];
      Utf8.LossyOfCut(path, room - 1);
      ReplacementHasNoReturn(path, room - 1, room - 1);
      ReplacementHasNoReturn(path, room - 1, room);
    } else {
      Utf8.LossyOfCut(path, room);
    }
  }

  lemma ReplacementHasNoReturn(path: seq<Byte>, at: nat, cut: nat)
    requires at < |path| && path[at] == CARRIAGE_RETURN && at <= cut <= at + 1
    ensures !Utf8.CutsReplacement(path, cut)
  {
  }

  // ----- The printed patch is well-formed text

  lemma {:induction false} NormalizedIsWellFormed(s: seq<Byte>)
    requires Utf8.WellFormed(s)
    ensures Utf8.WellFormed(NormalizeNewlines(s))
    decreases |s|
  {
    if s != [] {
      var n := Utf8.HeadLen(s);
      if s[0] == CARRIAGE_RETURN && |s| >= 2 && s[1] == NEWLINE {
        Utf8.CutAfterAscii(s, 1);
        NormalizedIsWellFormed(s[2..]);
        Utf8.PrependHead([NEWLINE], NormalizeNewlines(s[2..]));
      } else {
        NormalizedIsWellFormed(s[n..]);
        NormalizeSkips(s, n);
        Utf8.PrependHead(s[..n], NormalizeNewlines(s[n..]));
      }
    }
  }

  lemma {:induction false} FrontIsWellFormed(lines: seq<seq<Byte>>)
    requires AreLines(lines) && lines != [] && Utf8.WellFormed(Flatten(lines))
    ensures Utf8.WellFormed(Flatten(lines[..|lines| - 1])) && Utf8.WellFormed(lines[|lines| - 1])
  {
    var n := |lines| - 1;
    var front, all := Flatten(lines[..n]), Flatten(lines);
    assert all == front + lines[n];
    if n > 0 {
      FrontEnds(lines, n);
      assert all[|front| - 1] == NEWLINE && all[..|front|] == front && all[|front|..] == lines[n];
      Utf8.CutAfterAscii(all, |front| - 1);
    }
  }

  lemma {:induction false} LinesAreWellFormed(lines: seq<seq<Byte>>)
    requires AreLines(lines) && Utf8.WellFormed(Flatten(lines))
    ensures forall k | 0 <= k < |lines| :: Utf8.WellFormed(lines[k])
    decreases |lines|
  {
    if lines != [] {
      var n := |lines| - 1;
      FrontIsWellFormed(lines);
      LinesAreWellFormed(lines[..n]);
      assert forall k | 0 <= k < n :: lines[..n][k] == lines[k];
    }
  }

  lemma {:induction false} FlattenIsWellFormed(lines: seq<seq<Byte>>)
    requires forall k | 0 <= k < |lines| :: Utf8.WellFormed(lines[k])
    ensures Utf8.WellFormed(Flatten(lines))
    decreases |lines|
  {
    if lines != [] {
      FlattenIsWellFormed(lines[..|lines| - 1]);
      Utf8.WellFormedConcat(Flatten(lines[..|lines| - 1]), lines[|lines| - 1]);
    }
  }

  lemma AsciiPiece(s: string)
    requires forall k | 0 <= k < |s| :: s[k] as int < 128
    ensures Utf8.WellFormed(Bytes(s))
  {
    Utf8.AsciiIsWellFormed(Bytes(s));
  }

  lemma {:induction false} AllIsWellFormed(path: seq<Byte>, lines: seq<seq<Byte>>)
    requires Utf8.WellFormed(path) && forall k | 0 <= k < |lines| :: Utf8.WellFormed(lines[k])
    ensures Utf8.WellFormed(Flatten(HeaderLines(path)))
    ensures Utf8.WellFormed(Flatten(HeaderLines(path) + [HunkHeader(|lines|)] + Added(lines)))
  {
    HeaderIsWellFormed(path);
    HunkIsWellFormed(|lines|);
    AsciiPiece("+");
    forall k | 0 <= k < |lines|
      ensures Utf8.WellFormed(Added(lines)[k])
    {
      Utf8.WellFormedConcat(Bytes("+"), lines[k]);
    }
    FlattenIsWellFormed(HeaderLines(path));
    FlattenIsWellFormed(HeaderLines(path) + [HunkHeader(|lines|)] + Added(lines));
  }

  lemma {:induction false} CloseLastIsWellFormed(all: seq<seq<Byte>>)
    requires all != [] && Utf8.WellFormed(Flatten(all))
    ensures Utf8.WellFormed(Flatten(CloseLast(all)))
  {
    RemarkIsWellFormed();
    CloseLastFlat(all);
    ThreePieces(Flatten(all), Bytes("\n"), Bytes(NO_NEWLINE));
  }

  lemma RemarkIsWellFormed()
    ensures Utf8.WellFormed(Bytes("\n")) && Utf8.WellFormed(Bytes(NO_NEWLINE))
  {
    AsciiPiece("\n");
    AsciiPiece(NO_NEWLINE);
  }

  lemma {:induction false} ThreePieces(a: seq<Byte>, b: seq<Byte>, c: seq<Byte>)
    requires Utf8.WellFormed(a) && Utf8.WellFormed(b) && Utf8.WellFormed(c)
    ensures Utf8.WellFormed(a + b + c)
  {
    Utf8.WellFormedConcat(a, b);
    Utf8.WellFormedConcat(a + b, c);
  }

  lemma {:induction false} PrintedIsWellFormed(path: seq<Byte>, content: seq<Byte>)
    requires Utf8.WellFormed(path)
    ensures Utf8.WellFormed(Flatten(PrintedLines(path, TextOf(content))))
  {
    var text := TextOf(content);
    Utf8.LossyIsWellFormed(content);
    NormalizedIsWellFormed(Utf8.Lossy(content));
    var lines := RawLines(text);
    RawLinesCutTheText(text);
    LinesAreWellFormed(lines);
    AllIsWellFormed(path, lines);
    CloseLastIsWellFormed(HeaderLines(path) + [HunkHeader(|lines|)] + Added(lines));
  }

  lemma FramedIsWellFormed(before: string, path: seq<Byte>)
    requires Utf8.WellFormed(path) && forall k | 0 <= k < |before| :: before[k] as int < 128
    ensures Utf8.WellFormed(Bytes(before) + path + Bytes("\n"))
  {
    AsciiPiece(before);
    AsciiPiece("\n");
    Utf8.WellFormedConcat(Bytes(before), path);
    Utf8.WellFormedConcat(Bytes(before) + path, Bytes("\n"));
  }

  lemma HeaderIsWellFormed(path: seq<Byte>)
    requires Utf8.WellFormed(path)
    ensures forall k | 0 <= k < 3 :: Utf8.WellFormed(HeaderLines(path)[k])
  {
    NamedAreWellFormed(path);
    NullIsWellFormed();
  }

  lemma NamedAreWellFormed(path: seq<Byte>)
    requires Utf8.WellFormed(path)
    ensures Utf8.WellFormed(Bytes("Index: ") + path + Bytes("\n"))
    ensures Utf8.WellFormed(Bytes("+++ b/") + path + Bytes("\n"))
  {
    FramedIsWellFormed("Index: ", path);
    FramedIsWellFormed("+++ b/", path);
  }

  lemma NullIsWellFormed()
    ensures Utf8.WellFormed(Bytes("--- /dev/null\n"))
  {
    AsciiPiece("--- /dev/null\n");
  }

  lemma HunkIsWellFormed(count: nat)
    ensures Utf8.WellFormed(HunkHeader(count))
  {
    AsciiPiece("@@ -0,0 +1,");
    Utf8.AsciiIsWellFormed(Decimal(count));
    AsciiPiece(" @@\n");
    Utf8.WellFormedConcat(Bytes("@@ -0,0 +1,"), Decimal(count));
    Utf8.WellFormedConcat(Bytes("@@ -0,0 +1,") + Decimal(count), Bytes(" @@\n"));
  }

  lemma {:induction false} PrintedAreLines(path: seq<Byte>, text: seq<Byte>)
    requires NEWLINE !in path
    ensures AreLines(PrintedLines(path, text))
  {
    var lines := RawLines(text);
    RawLinesCutTheText(text);
    HeaderAreLines(path);
    if text != [] {
      HunkIsLine(|lines|);
      assert AreLines(HeaderLines(path) + [HunkHeader(|lines|)]);
      AddedAreLines(lines);
      var all := HeaderLines(path) + [HunkHeader(|lines|)] + Added(lines);
      assert AreLines(all);
      if text[|text| - 1] != NEWLINE {
        assert !Ended(lines[|lines| - 1]) by {
          assert text == Flatten(lines);
        }
        CloseLastAreLines(all);
      }
    }
  }

  lemma LineOf(front: seq<Byte>)
    requires NEWLINE !in front
    ensures IsSegment(front + Bytes("\n")) && Ended(front + Bytes("\n"))
  {
    assert Bytes("\n") == [NEWLINE];
    assert (front + [NEWLINE])[..|front|] == front;
  }

  lemma HeaderAreLines(path: seq<Byte>)
    requires NEWLINE !in path
    ensures AreLines(HeaderLines(path)) && Ended(HeaderLines(path)[2])
  {
    PathLine(Bytes("Index: "), path);
    PathLine(Bytes("+++ b/"), path);
    NullLine();
  }

  lemma PathLine(before: seq<Byte>, path: seq<Byte>)
    requires NEWLINE !in before && NEWLINE !in path
    ensures IsSegment(before + path + Bytes("\n")) && Ended(before + path + Bytes("\n"))
  {
    LineOf(before + path);
  }

  lemma NullLine()
    ensures IsSegment(Bytes("--- /dev/null\n")) && Ended(Bytes("--- /dev/null\n"))
  {
    assert Bytes("--- /dev/null") == [45, 45, 45, 32, 47, 100, 101, 118, 47, 110, 117, 108, 108];
    LineOf(Bytes("--- /dev/null"));
    assert Bytes("--- /dev/null\n") == Bytes("--- /dev/null") + Bytes("\n");
  }

  lemma HunkIsLine(count: nat)
    ensures IsSegment(HunkHeader(count)) && Ended(HunkHeader(count))
  {
    assert Bytes("@@ -0,0 +1,") == [64, 64, 32, 45, 48, 44, 48, 32, 43, 49, 44];
    assert Bytes(" @@") == [32, 64, 64];
    LineOf(Bytes("@@ -0,0 +1,") + Decimal(count) + Bytes(" @@"));
    assert Bytes(" @@\n") == Bytes(" @@") + Bytes("\n");
    ConcatAssociative(Bytes("@@ -0,0 +1,") + Decimal(count), Bytes(" @@"), Bytes("\n"));
  }

  lemma AddedAreLines(lines: seq<seq<Byte>>)
    requires AreLines(lines)
    ensures AreLines(Added(lines))
    ensures lines != [] ==> (Ended(Added(lines)[|lines| - 1]) <==> Ended(lines[|lines| - 1]))
  {
    assert Bytes("+") == [43];
    forall k | 0 <= k < |lines|
      ensures IsSegment(Added(lines)[k]) && (Ended(lines[k]) <==> Ended(Added(lines)[k]))
    {
      var line := lines[k];
      assert Added(lines)[k] == [43] + line && ([43] + line)[..|line|] == [43] + line[..|line| - 1];
    }
  }

  lemma CloseLastAreLines(all: seq<seq<Byte>>)
    requires AreLines(all) && all != [] && !Ended(all[|all| - 1])
    ensures AreLines(CloseLast(all))
  {
    var m := |all| - 1;
    var last := all[m];
    assert last == last[..|last| - 1] + [last[|last| - 1]];
    LineOf(last);
    var remark := Bytes(NO_NEWLINE);
    assert forall k | 0 <= k < |remark| - 1 :: remark[k] != NEWLINE;
    assert IsSegment(remark);
  }

  /** The record that the section of a printed patch gets. */
  function PrintedFile(c: Config, patch: seq<Byte>, additions: nat): PatchFile {
    PatchFile(if 0 in patch then Deferred
              else if |patch| > c.fileLimit then TooLarge
              else if |patch| > c.totalLimit then Deferred
              else Retained(patch),
              additions, 0, 0 in patch)
  }

  lemma {:induction false} PrintedSection(c: Config, path: seq<Byte>, content: seq<Byte>, patch: seq<Byte>)
    requires NEWLINE !in path && Utf8.WellFormed(path)
    requires patch == Flatten(PrintedLines(path, TextOf(content)))
    ensures var lines := PrintedLines(path, TextOf(content));
            && RawLines(patch) == lines && IsSection(c, lines) && Sections(c, lines) == [lines]
            && SectionFile(c, lines, 0) == PrintedFile(c, patch, |RawLines(TextOf(content))|)
  {
    var text := TextOf(content);
    var lines := PrintedLines(path, text);
    PrintedAreLines(path, text);
    RawLinesUnique(lines);
    PrintedIsShaped(path, text);
    PrintedIsWellFormed(path, content);
    ShapedText(c, lines, |RawLines(text)|, patch);
  }

  lemma {:induction false} ShapedText(c: Config, lines: seq<seq<Byte>>, additions: nat, patch: seq<Byte>)
    requires Shaped(lines, additions) && patch == Flatten(lines) && Utf8.WellFormed(patch)
    ensures IsSection(c, lines) && Sections(c, lines) == [lines]
    ensures SectionFile(c, lines, 0) == PrintedFile(c, patch, additions)
  {
    ShapedSection(c, lines, additions);
    ShapedCounts(c, lines, additions);
    Utf8.LossyIdentity(patch);
  }

  /** What `added_file_patch` prints. */
  function PrintedText(path: seq<Byte>, content: seq<Byte>): seq<Byte> {
    Flatten(PrintedLines(path, TextOf(content)))
  }

  /**
   * Reading a printed patch back, for every path without a line end and every content: one section whose body is
   * the printed patch unless a limit or a NUL forbids it, the text's line count as additions and no deletions.
   */
  lemma {:induction false} PrintedPatchParses(c: Config, path: seq<Byte>, content: seq<Byte>)
    requires c.Valid() && NEWLINE !in path && Utf8.WellFormed(path)
    ensures var patch := PrintedText(path, content);
            Finish(c, Feed(c, INITIAL, patch)).files
            == map[(c.normalize)(ReadPath(c, path)) := PrintedFile(c, patch, |RawLines(TextOf(content))|)]
  {
    var patch := PrintedText(path, content);
    var lines := PrintedLines(path, TextOf(content));
    ParserIsOffline(c, patch);
    PrintedSection(c, path, content, patch);
    CollectOne(c, lines);
    PathComesBack(c, path, TextOf(content));
  }

  lemma CollectOne(c: Config, section: seq<seq<Byte>>)
    requires IsSection(c, section)
    ensures Collect(c, [section]).files == map[SectionPath(c, section) := SectionFile(c, section, 0)]
  {
    assert [section][..0] == [];
  }
}
