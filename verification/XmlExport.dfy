/** The XML form of a diff export (export.rs), and a reader that gets everything back from it. */
module XmlExport {
  import opened Base

  // The reader is a plain one for documents of this form: it reads adjacent CDATA sections as one text, replaces the
  // predefined entities in attribute values, and refuses a document with any other tags. It takes characters, line ends
  // and attribute values as they stand: a conforming reader refuses control characters that are not in the production
  // Char (section 2.2 of XML 1.0), which the writer puts out unchanged, and normalizes line ends and attribute values.
  //
  // Texts are strings of characters; a missing old path is written as an empty one.

  // ---- writing ----

  const OPEN: string := "<![CDATA["
  const CLOSE: string := "]]>"

  predicate AtClose(s: string) {
    |s| >= 3 && s[0] == ']' && s[1] == ']' && s[2] == '>'
  }

  /** `value.replace("]]>", "]]]]><![CDATA[>")`: the section is closed inside the sequence and opened again. */
  function Cdata(value: string): string {
    if value == "" then ""
    else if AtClose(value) then "]]" + CLOSE + OPEN + ">" + Cdata(value[3..])
    else [value[0]] + Cdata(value[1..])
  }

  function Replace(s: string, c: char, put: string): string {
    if s == "" then "" else (if s[0] == c then put else [s[0]]) + Replace(s[1..], c, put)
  }

  function XmlAttr(value: string): string {
    Replace(
      Replace(Replace(Replace(Replace(value, '&', "&amp;"), '"', "&quot;"), '\'', "&apos;"), '<', "&lt;"),
      '>', "&gt;")
  }

  // ---- reading ----

  predicate StartsWith(s: string, prefix: string) {
    |prefix| <= |s| && s[..|prefix|] == prefix
  }

  datatype Parsed = Parsed(text: string, rest: string)

  function Cons(c: char, p: Option<Parsed>): Option<Parsed> {
    match p
    case None => None
    case Some(Parsed(text, rest)) => Some(Parsed([c] + text, rest))
  }

  /** The text from inside a CDATA section on: adjacent sections are one text. */
  function ReadCdata(s: string): Option<Parsed>
    decreases |s|
  {
    if s == "" then None
    else if AtClose(s) then
      if StartsWith(s[3..], OPEN) then ReadCdata(s[3..][|OPEN|..]) else Some(Parsed("", s[3..]))
    else Cons(s[0], ReadCdata(s[1..]))
  }

  datatype Entity = Entity(name: string, meaning: char)

  const ENTITIES: seq<Entity> := [
    Entity("&amp;", '&'), Entity("&quot;", '"'), Entity("&apos;", '\''), Entity("&lt;", '<'), Entity("&gt;", '>')
  ]

  function EntityAt(s: string): Option<Entity> {
    if StartsWith(s, ENTITIES[0].name) then Some(ENTITIES[0])
    else if StartsWith(s, ENTITIES[1].name) then Some(ENTITIES[1])
    else if StartsWith(s, ENTITIES[2].name) then Some(ENTITIES[2])
    else if StartsWith(s, ENTITIES[3].name) then Some(ENTITIES[3])
    else if StartsWith(s, ENTITIES[4].name) then Some(ENTITIES[4])
    else None
  }

  /** An attribute value up to its closing quote, with the predefined entities replaced; bare `<` or `&` is an error. */
  function ReadAttr(s: string): Option<Parsed>
    decreases |s|
  {
    if s == "" || s[0] == '<' then None
    else if s[0] == '"' then Some(Parsed("", s[1..]))
    else if s[0] == '&' then
      var entity := EntityAt(s);
      if entity.None? then None else Cons(entity.value.meaning, ReadAttr(s[|entity.value.name|..]))
    else Cons(s[0], ReadAttr(s[1..]))
  }

  // ---- character data ----

  /** Replacing never makes the end of a section appear where the text did not have it. */
  lemma {:induction false} NoNewClose(value: string, tail: string)
    requires value != "" && !AtClose(value)
    ensures !AtClose([value[0]] + (Cdata(value[1..]) + (['\n'] + tail)))
  {
    var w := value[1..];
    if w != "" && !AtClose(w) && w[1..] != "" {
      assert w[1..][0] == value[2];
    }
  }

  lemma ReadOne(c: char, s: string)
    requires !AtClose([c] + s)
    ensures ReadCdata([c] + s) == Cons(c, ReadCdata(s))
  {
    assert ([c] + s)[1..] == s;
  }

  lemma ReadReopened(s: string)
    ensures ReadCdata("]]" + CLOSE + OPEN + ">" + s) == Cons(']', Cons(']', ReadCdata(">" + s)))
  {
    var behind := CLOSE + (OPEN + (">" + s));
    assert "]]" + CLOSE + OPEN + ">" + s == [']'] + ([']'] + behind);
    ReadJoin(">" + s);
    ReadOne(']', [']'] + behind);
    ReadOne(']', behind);
  }

  lemma ReadJoin(s: string)
    ensures ReadCdata(CLOSE + (OPEN + s)) == ReadCdata(s)
  {
    Front(CLOSE, OPEN + s);
    Front(OPEN, s);
  }

  function PutBefore(text: string, p: Option<Parsed>): Option<Parsed> {
    match p
    case None => None
    case Some(Parsed(more, rest)) => Some(Parsed(text + more, rest))
  }

  lemma PutBeforeOne(c: char, text: string, p: Option<Parsed>)
    ensures Cons(c, PutBefore(text, p)) == PutBefore([c] + text, p)
    ensures PutBefore("", p) == p
  {
    if p.Some? {
      ConcatAssociative([c], text, p.value.text);
      assert "" + p.value.text == p.value.text;
    }
  }

  lemma ReopenedCdata(value: string, end: string)
    requires AtClose(value)
    ensures Cdata(value) + end == "]]" + CLOSE + OPEN + ">" + (Cdata(value[3..]) + end)
    ensures value == [']'] + ([']'] + (['>'] + value[3..]))
  {
  }

  lemma {:induction false} ReadsClose(s: string, text: string, p: Option<Parsed>)
    requires ReadCdata(s) == PutBefore(text, p)
    ensures ReadCdata("]]" + CLOSE + OPEN + ">" + s) == PutBefore([']'] + ([']'] + (['>'] + text)), p)
  {
    ReadReopened(s);
    ReadOne('>', s);
    PutBeforeOne('>', text, p);
    PutBeforeOne(']', ['>'] + text, p);
    PutBeforeOne(']', [']'] + (['>'] + text), p);
  }

  lemma {:induction false} OrdinaryChar(value: string, end: string)
    requires value != "" && !AtClose(value) && end != "" && end[0] == '\n'
    ensures Cdata(value) + end == [value[0]] + (Cdata(value[1..]) + end)
    ensures !AtClose([value[0]] + (Cdata(value[1..]) + end))
  {
    assert end == ['\n'] + end[1..];
    NoNewClose(value, end[1..]);
  }

  /** Up to a line break that follows it, the written text reads as the original text. */
  lemma {:induction false} ReadsAsWritten(value: string, end: string)
    requires end != "" && end[0] == '\n'
    ensures ReadCdata(Cdata(value) + end) == PutBefore(value, ReadCdata(end))
    decreases |value|
  {
    var p := ReadCdata(end);
    if value == "" {
      assert Cdata(value) + end == end;
      PutBeforeOne(' ', "", p);
    } else if AtClose(value) {
      ReadsAsWritten(value[3..], end);
      ReopenedCdata(value, end);
      ReadsClose(Cdata(value[3..]) + end, value[3..], p);
    } else {
      var c, more := value[0], value[1..];
      ReadsAsWritten(more, end);
      OrdinaryChar(value, end);
      ReadOne(c, Cdata(more) + end);
      PutBeforeOne(c, more, p);
      assert value == [c] + more;
    }
  }

  /** Reading the sections written around any text gives the text and the line break behind it. */
  lemma CdataRoundTrip(value: string, tail: string)
    requires !StartsWith(tail, OPEN)
    ensures ReadCdata(Cdata(value) + (['\n'] + (CLOSE + tail))) == Some(Parsed(value + "\n", tail))
  {
    var end := CLOSE + tail;
    ReadsAsWritten(value, ['\n'] + end);
    ReadOne('\n', end);
    assert end[3..] == tail && AtClose(end);
    assert ReadCdata(end) == Some(Parsed("", tail));
    assert value + (['\n'] + "") == value + "\n";
  }

  // ---- attributes ----

  function EscapeChar(c: char): string {
    match c
    case '&' => "&amp;"
    case '"' => "&quot;"
    case '\'' => "&apos;"
    case '<' => "&lt;"
    case '>' => "&gt;"
    case _ => [c]
  }

  /** Every character by itself. */
  function Escape(value: string): string {
    if value == "" then "" else EscapeChar(value[0]) + Escape(value[1..])
  }

  lemma {:induction false} ReplaceConcat(a: string, b: string, c: char, put: string)
    ensures Replace(a + b, c, put) == Replace(a, c, put) + Replace(b, c, put)
  {
    if a == "" {
      assert a + b == b;
    } else {
      assert (a + b)[1..] == a[1..] + b;
      ReplaceConcat(a[1..], b, c, put);
    }
  }

  lemma {:induction false} ReplaceAbsent(s: string, c: char, put: string)
    requires forall i | 0 <= i < |s| :: s[i] != c
    ensures Replace(s, c, put) == s
  {
    if s != "" {
      ReplaceAbsent(s[1..], c, put);
    }
  }

  lemma ReplaceOne(x: char, c: char, put: string)
    ensures Replace([x], c, put) == if x == c then put else [x]
  {
    assert Replace([x][1..], c, put) == "";
  }

  predicate Free(s: string, chars: set<char>) {
    forall i | 0 <= i < |s| :: s[i] !in chars
  }

  /** What one replacement puts in stays as it is in the later ones. */
  lemma FromSecondOn(s: string)
    requires Free(s, {'"', '\'', '<', '>'})
    ensures Replace(Replace(Replace(Replace(s, '"', "&quot;"), '\'', "&apos;"), '<', "&lt;"), '>', "&gt;") == s
  {
    ReplaceAbsent(s, '"', "&quot;");
    FromThirdOn(s);
  }

  lemma FromThirdOn(s: string)
    requires Free(s, {'\'', '<', '>'})
    ensures Replace(Replace(Replace(s, '\'', "&apos;"), '<', "&lt;"), '>', "&gt;") == s
  {
    ReplaceAbsent(s, '\'', "&apos;");
    FromFourthOn(s);
  }

  lemma FromFourthOn(s: string)
    requires Free(s, {'<', '>'})
    ensures Replace(Replace(s, '<', "&lt;"), '>', "&gt;") == s
  {
    ReplaceAbsent(s, '<', "&lt;");
    ReplaceAbsent(s, '>', "&gt;");
  }

  /** One character through all five replacements. */
  lemma AttrChar(x: char)
    ensures XmlAttr([x]) == EscapeChar(x)
  {
    ReplaceOne(x, '&', "&amp;");
    if x == '&' {
      FromSecondOn(EscapeChar(x));
    } else {
      ReplaceOne(x, '"', "&quot;");
      if x == '"' {
        FromThirdOn(EscapeChar(x));
      } else {
        AttrCharFromThird(x);
      }
    }
  }

  lemma AttrCharFromThird(x: char)
    requires x != '&' && x != '"'
    ensures Replace(Replace(Replace([x], '\'', "&apos;"), '<', "&lt;"), '>', "&gt;") == EscapeChar(x)
  {
    ReplaceOne(x, '\'', "&apos;");
    if x == '\'' {
      FromFourthOn(EscapeChar(x));
    } else {
      ReplaceOne(x, '<', "&lt;");
      if x == '<' {
        ReplaceAbsent(EscapeChar(x), '>', "&gt;");
      } else {
        ReplaceOne(x, '>', "&gt;");
      }
    }
  }

  lemma AttrConcat(a: string, b: string)
    ensures XmlAttr(a + b) == XmlAttr(a) + XmlAttr(b)
  {
    var a1, b1 := Replace(a, '&', "&amp;"), Replace(b, '&', "&amp;");
    var a2, b2 := Replace(a1, '"', "&quot;"), Replace(b1, '"', "&quot;");
    var a3, b3 := Replace(a2, '\'', "&apos;"), Replace(b2, '\'', "&apos;");
    var a4, b4 := Replace(a3, '<', "&lt;"), Replace(b3, '<', "&lt;");
    ReplaceConcat(a, b, '&', "&amp;");
    ReplaceConcat(a1, b1, '"', "&quot;");
    ReplaceConcat(a2, b2, '\'', "&apos;");
    ReplaceConcat(a3, b3, '<', "&lt;");
    ReplaceConcat(a4, b4, '>', "&gt;");
  }

  /** The five replacements in a row escape every character once: no replacement touches what an earlier one put in. */
  lemma {:induction false} FiveReplacements(value: string)
    ensures XmlAttr(value) == Escape(value)
  {
    if value != "" {
      FiveReplacements(value[1..]);
      AttrChar(value[0]);
      AttrConcat([value[0]], value[1..]);
      assert value == [value[0]] + value[1..];
    }
  }

  lemma ReadEscaped(c: char, s: string)
    ensures ReadAttr(EscapeChar(c) + s) == Cons(c, ReadAttr(s))
  {
    var e := EscapeChar(c);
    assert (e + s)[|e|..] == s;
    if c == '&' || c == '"' || c == '\'' || c == '<' || c == '>' {
      EntityRead(c, s);
    }
  }

  lemma EntityRead(c: char, s: string)
    requires c == '&' || c == '"' || c == '\'' || c == '<' || c == '>'
    ensures EntityAt(EscapeChar(c) + s) == Some(Entity(EscapeChar(c), c))
  {
    var all := EscapeChar(c) + s;
    assert all[..|EscapeChar(c)|] == EscapeChar(c);
    assert all[1] == EscapeChar(c)[1];
    assert all[2] == EscapeChar(c)[2];
  }

  /** Unescaping the predefined entities undoes the five replacements, and the value ends at its own quote. */
  lemma {:induction false} AttrRoundTrip(value: string, tail: string)
    ensures ReadAttr(XmlAttr(value) + "\"" + tail) == Some(Parsed(value, tail))
    decreases |value|
  {
    FiveReplacements(value);
    EscapeRoundTrip(value, tail);
  }

  lemma {:induction false} EscapeRoundTrip(value: string, tail: string)
    ensures ReadAttr(Escape(value) + "\"" + tail) == Some(Parsed(value, tail))
    decreases |value|
  {
    if value == "" {
      assert Escape(value) + "\"" + tail == ['"'] + tail;
    } else {
      EscapeRoundTrip(value[1..], tail);
      ReadEscaped(value[0], Escape(value[1..]) + "\"" + tail);
      assert Escape(value) + "\"" + tail == EscapeChar(value[0]) + (Escape(value[1..]) + "\"" + tail);
      assert value == [value[0]] + value[1..];
    }
  }

  // ---- the whole document ----

  datatype Content = Split(original: string, modified: string) | Diff(diff: string)

  datatype FileRecord = FileRecord(path: string, oldPath: Option<string>, status: string, content: Content) {
    /** A missing old path is written as an empty one. */
    function Shown(): FileRecord {
      this.(oldPath := Some(OldPath()))
    }

    function OldPath(): string {
      if oldPath.Some? then oldPath.value else ""
    }
  }

  const HEAD: string := "<?xml version=\"1.0\" encoding=\"UTF-8\"?>\n<git_diff_export generator=\"WinriseF Toolbox\">\n"
  const FOOT: string := "</git_diff_export>\n"
  const FILE: string := "  <file path=\""
  const OLD_PATH: string := " old_path=\""
  const STATUS: string := " status=\""
  const TAG_END: string := ">\n"
  const ORIGINAL: string := "    <original>"
  const ORIGINAL_END: string := "</original>\n"
  const MODIFIED: string := "    <modified>"
  const MODIFIED_END: string := "</modified>\n"
  const DIFF: string := "    <diff>"
  const DIFF_END: string := "</diff>\n"
  const FILE_END: string := "  </file>\n"

  function AttrText(before: string, value: string, tail: string): string {
    before + (XmlAttr(value) + "\"" + tail)
  }

  function SectionText(open: string, value: string, close: string, tail: string): string {
    open + (OPEN + (['\n'] + (Cdata(value) + (['\n'] + (CLOSE + (close + tail))))))
  }

  function ContentText(content: Content, tail: string): string {
    match content
    case Split(original, modified) =>
      SectionText(ORIGINAL, original, ORIGINAL_END, SectionText(MODIFIED, modified, MODIFIED_END, tail))
    case Diff(diff) => SectionText(DIFF, diff, DIFF_END, tail)
  }

  /** One file, and `tail` behind it. */
  function FileText(record: FileRecord, tail: string): string {
    AttrText(FILE, record.path,
      AttrText(OLD_PATH, record.OldPath(),
        AttrText(STATUS, record.status, TAG_END + ContentText(record.content, FILE_END + tail))))
  }

  /** Item after item, and `tail` behind the last one. */
  function WriteMany<T>(items: seq<T>, write: (T, string) -> string, tail: string): string {
    if items == [] then tail else write(items[0], WriteMany(items[1..], write, tail))
  }

  function Document(records: seq<FileRecord>): string {
    HEAD + WriteMany(records, FileText, FOOT)
  }

  // The elements as the format strings of the source spell them.

  lemma QuoteJoins(plain: string, quoted: string, rest: string)
    requires quoted == "\"" + plain
    ensures "\"" + (plain + rest) == quoted + rest
  {
  }

  lemma AttrMeans(before: string, value: string, escaped: string, plain: string, quoted: string, rest: string)
    requires escaped == XmlAttr(value) && quoted == "\"" + plain
    ensures AttrText(before, value, plain + rest) == before + (escaped + (quoted + rest))
  {
    QuoteJoins(plain, quoted, rest);
  }

  lemma FileElement(record: FileRecord, path: string, oldPath: string, status: string, content: string, tail: string)
    requires path == XmlAttr(record.path) && oldPath == XmlAttr(record.OldPath()) && status == XmlAttr(record.status)
    requires content == ContentText(record.content, "  </file>\n" + tail)
    ensures FileText(record, tail)
         == "  <file path=\"" + (path
            + ("\" old_path=\"" + (oldPath + ("\" status=\"" + (status + ("\">\n" + content))))))
  {
    AttrMeans(STATUS, record.status, status, TAG_END, "\">\n", content);
    var third := status + ("\">\n" + content);
    AttrMeans(OLD_PATH, record.OldPath(), oldPath, STATUS, "\" status=\"", third);
    var second := oldPath + ("\" status=\"" + third);
    AttrMeans(FILE, record.path, path, OLD_PATH, "\" old_path=\"", second);
  }

  lemma SectionJoins(open: string, value: string, close: string, before: string, behind: string, tail: string)
    requires before == open + (OPEN + "\n") && behind == "\n" + (CLOSE + close)
    ensures SectionText(open, value, close, tail) == before + (Cdata(value) + (behind + tail))
  {
    var rest := Cdata(value) + (behind + tail);
    assert "\n" + (CLOSE + (close + tail)) == behind + tail;
    assert open + (OPEN + ("\n" + rest)) == before + rest;
  }

  lemma ContentElements(content: Content, tail: string)
    ensures content.Diff? ==>
              ContentText(content, tail) == "    <diff><![CDATA[\n" + (Cdata(content.diff) + ("\n]]></diff>\n" + tail))
    ensures content.Split? ==>
              ContentText(content, tail)
              == "    <original><![CDATA[\n" + (Cdata(content.original) + ("\n]]></original>\n"
                 + ("    <modified><![CDATA[\n" + (Cdata(content.modified) + ("\n]]></modified>\n" + tail)))))
  {
    match content
    case Diff(diff) => SectionJoins(DIFF, diff, DIFF_END, "    <diff><![CDATA[\n", "\n]]></diff>\n", tail);
    case Split(original, modified) =>
      SectionJoins(MODIFIED, modified, MODIFIED_END, "    <modified><![CDATA[\n", "\n]]></modified>\n", tail);
      SectionJoins(ORIGINAL, original, ORIGINAL_END, "    <original><![CDATA[\n", "\n]]></original>\n",
                   SectionText(MODIFIED, modified, MODIFIED_END, tail));
  }

  lemma DocumentFrame(records: seq<FileRecord>)
    ensures Document(records)
         == "<?xml version=\"1.0\" encoding=\"UTF-8\"?>\n<git_diff_export generator=\"WinriseF Toolbox\">\n"
            + WriteMany(records, FileText, "</git_diff_export>\n")
  {
  }

  lemma SectionTail(open: string, value: string, close: string, more: string, tail: string)
    ensures SectionText(open, value, close, more + tail) == SectionText(open, value, close, more) + tail
  {
  }

  lemma AttrTail(before: string, value: string, more: string, tail: string)
    ensures AttrText(before, value, more + tail) == AttrText(before, value, more) + tail
  {
  }

  lemma ContentTail(content: Content, more: string, tail: string)
    ensures ContentText(content, more + tail) == ContentText(content, more) + tail
  {
    match content
    case Split(original, modified) =>
      SectionTail(MODIFIED, modified, MODIFIED_END, more, tail);
      SectionTail(ORIGINAL, original, ORIGINAL_END, SectionText(MODIFIED, modified, MODIFIED_END, more), tail);
    case Diff(diff) => SectionTail(DIFF, diff, DIFF_END, more, tail);
  }

  lemma FileTail(record: FileRecord, more: string, tail: string)
    ensures FileText(record, more + tail) == FileText(record, more) + tail
  {
    ConcatAssociative(FILE_END, more, tail);
    ContentTail(record.content, FILE_END + more, tail);
    ConcatAssociative(TAG_END, ContentText(record.content, FILE_END + more), tail);
    var inner := TAG_END + ContentText(record.content, FILE_END + more);
    AttrTail(STATUS, record.status, inner, tail);
    var outer := AttrText(STATUS, record.status, inner);
    AttrTail(OLD_PATH, record.OldPath(), outer, tail);
    AttrTail(FILE, record.path, AttrText(OLD_PATH, record.OldPath(), outer), tail);
  }

  lemma {:induction false} ManyTail<T(!new)>(items: seq<T>, write: (T, string) -> string, more: string, tail: string)
    requires forall item: T, a: string, b: string :: write(item, a + b) == write(item, a) + b
    ensures WriteMany(items, write, more + tail) == WriteMany(items, write, more) + tail
  {
    if items != [] {
      ManyTail(items[1..], write, more, tail);
    }
  }

  lemma {:induction false} ManySnoc<T>(items: seq<T>, write: (T, string) -> string, last: T, tail: string)
    ensures WriteMany(items + [last], write, tail) == WriteMany(items, write, write(last, tail))
  {
    if items == [] {
      assert (items + [last])[1..] == [];
    } else {
      assert (items + [last])[1..] == items[1..] + [last];
      ManySnoc(items[1..], write, last, tail);
    }
  }

  /** Writing with nothing behind and appending is writing with something behind. */
  lemma {:induction false} Appended<T(!new)>(items: seq<T>, write: (T, string) -> string, tail: string)
    requires forall item: T, a: string, b: string :: write(item, a + b) == write(item, a) + b
    ensures WriteMany(items, write, tail) == WriteMany(items, write, "") + tail
  {
    assert "" + tail == tail;
    ManyTail(items, write, "", tail);
  }

  lemma FileAppends()
    ensures forall record: FileRecord, a: string, b: string :: FileText(record, a + b) == FileText(record, a) + b
  {
    forall record: FileRecord, a: string, b: string
      ensures FileText(record, a + b) == FileText(record, a) + b
    {
      FileTail(record, a, b);
    }
  }

  /** What has been written after some files. */
  function Written(records: seq<FileRecord>): string {
    HEAD + WriteMany(records, FileText, "")
  }

  lemma {:induction false} WrittenMore(records: seq<FileRecord>, next: FileRecord)
    ensures Written(records + [next]) == Written(records) + FileText(next, "")
  {
    FileAppends();
    ManySnoc(records, FileText, next, "");
    Appended(records, FileText, FileText(next, ""));
    ConcatAssociative(HEAD, WriteMany(records, FileText, ""), FileText(next, ""));
  }

  lemma {:induction false} WrittenAll(records: seq<FileRecord>)
    ensures Document(records) == Written(records) + FOOT
    ensures Written([]) == HEAD
  {
    FileAppends();
    Appended(records, FileText, FOOT);
    ConcatAssociative(HEAD, WriteMany(records, FileText, ""), FOOT);
  }

  /** The writer appends file after file. */
  method WriteXml(records: seq<FileRecord>) returns (out: string)
    ensures out == Document(records)
  {
    WrittenAll(records);
    out := HEAD;
    for i := 0 to |records|
      invariant out == Written(records[..i])
    {
      TakeNext(records, i);
      WrittenMore(records[..i], records[i]);
      out := out + FileText(records[i], "");
    }
    assert records[..|records|] == records;
    out := out + FOOT;
  }

  // ---- reading the document ----

  function Expect(s: string, token: string): Option<string> {
    if StartsWith(s, token) then Some(s[|token|..]) else None
  }

  function ReadAttrAfter(s: string, before: string): Option<Parsed> {
    var rest := Expect(s, before);
    if rest.None? then None else ReadAttr(rest.value)
  }

  /** The text of an element that holds nothing but character data, without the line breaks around it. */
  function ReadSection(s: string, open: string, close: string): Option<Parsed> {
    var start := Expect(s, open + OPEN);
    if start.None? then None
    else
      var text := ReadCdata(start.value);
      if text.None? then None
      else
        var rest := Expect(text.value.rest, close);
        var t := text.value.text;
        if rest.None? || |t| < 2 || t[0] != '\n' || t[|t| - 1] != '\n' then None
        else Some(Parsed(t[1..|t| - 1], rest.value))
  }

  datatype Found<T> = Found(value: T, rest: string)

  function ReadContent(s: string): Option<Found<Content>> {
    if StartsWith(s, ORIGINAL) then
      var original := ReadSection(s, ORIGINAL, ORIGINAL_END);
      if original.None? then None
      else
        var modified := ReadSection(original.value.rest, MODIFIED, MODIFIED_END);
        if modified.None? then None
        else Some(Found(Split(original.value.text, modified.value.text), modified.value.rest))
    else
      var diff := ReadSection(s, DIFF, DIFF_END);
      if diff.None? then None else Some(Found(Diff(diff.value.text), diff.value.rest))
  }

  function ReadFile(s: string): Option<Found<FileRecord>> {
    var path := ReadAttrAfter(s, FILE);
    if path.None? then None
    else
      var oldPath := ReadAttrAfter(path.value.rest, OLD_PATH);
      if oldPath.None? then None
      else
        var status := ReadAttrAfter(oldPath.value.rest, STATUS);
        if status.None? then None
        else ReadBody(path.value.text, oldPath.value.text, status.value)
  }

  function ReadBody(path: string, oldPath: string, status: Parsed): Option<Found<FileRecord>> {
    var body := Expect(status.rest, TAG_END);
    if body.None? then None
    else
      var content := ReadContent(body.value);
      if content.None? then None
      else
        var rest := Expect(content.value.rest, FILE_END);
        if rest.None? then None
        else Some(Found(FileRecord(path, Some(oldPath), status.text, content.value.value), rest.value))
  }

  /** At most `count` items, then the end. */
  function ReadMany<T>(s: string, read: string -> Option<Found<T>>, end: string, count: nat): Option<seq<T>>
    decreases count
  {
    if s == end then Some([])
    else if count == 0 then None
    else
      var first := read(s);
      if first.None? then None
      else
        var more := ReadMany(first.value.rest, read, end, count - 1);
        if more.None? then None else Some([first.value.value] + more.value)
  }

  function ReadDocument(s: string): Option<seq<FileRecord>> {
    var files := Expect(s, HEAD);
    if files.None? then None else ReadMany(files.value, ReadFile, FOOT, |files.value|)
  }

  lemma Expected(token: string, rest: string)
    ensures Expect(token + rest, token) == Some(rest)
  {
    assert (token + rest)[..|token|] == token;
  }

  lemma AttrTextReads(before: string, value: string, tail: string)
    ensures ReadAttrAfter(AttrText(before, value, tail), before) == Some(Parsed(value, tail))
  {
    Expected(before, XmlAttr(value) + "\"" + tail);
    AttrRoundTrip(value, tail);
  }

  /** No closing tag looks like a reopened section, because its first character is followed by another one. */
  lemma {:induction false} SectionTextReads(open: string, value: string, close: string, tail: string)
    requires |close| > 1 && close[1] != '!'
    ensures ReadSection(SectionText(open, value, close, tail), open, close) == Some(Parsed(value, tail))
  {
    var inner := Cdata(value) + (['\n'] + (CLOSE + (close + tail)));
    ConcatAssociative(open, OPEN, ['\n'] + inner);
    Expected(open + OPEN, ['\n'] + inner);
    DiffersAt(close + tail, OPEN, 1);
    CdataRoundTrip(value, close + tail);
    ReadOne('\n', inner);
    var text := ['\n'] + (value + "\n");
    assert text[1..|text| - 1] == value;
    Expected(close, tail);
  }

  lemma DiffersAt(s: string, prefix: string, i: nat)
    requires i < |s| && i < |prefix| && s[i] != prefix[i]
    ensures !StartsWith(s, prefix)
  {
    assert |prefix| <= |s| ==> s[..|prefix|][i] == s[i];
  }

  lemma {:induction false} ContentTextReads(content: Content, tail: string)
    ensures ReadContent(ContentText(content, tail)) == Some(Found(content, tail))
  {
    match content
    case Split(original, modified) =>
      var more := SectionText(MODIFIED, modified, MODIFIED_END, tail);
      var s := SectionText(ORIGINAL, original, ORIGINAL_END, more);
      assert s[..|ORIGINAL|] == ORIGINAL;
      SectionTextReads(ORIGINAL, original, ORIGINAL_END, more);
      SectionTextReads(MODIFIED, modified, MODIFIED_END, tail);
    case Diff(diff) =>
      var s := SectionText(DIFF, diff, DIFF_END, tail);
      DiffersAt(s, ORIGINAL, 5);
      SectionTextReads(DIFF, diff, DIFF_END, tail);
  }

  lemma {:induction false} FileTextReads(record: FileRecord, tail: string)
    ensures ReadFile(FileText(record, tail)) == Some(Found(record.Shown(), tail))
  {
    var body := ContentText(record.content, FILE_END + tail);
    var status := AttrText(STATUS, record.status, TAG_END + body);
    AttrTextReads(FILE, record.path, AttrText(OLD_PATH, record.OldPath(), status));
    AttrTextReads(OLD_PATH, record.OldPath(), status);
    AttrTextReads(STATUS, record.status, TAG_END + body);
    Expected(TAG_END, body);
    ContentTextReads(record.content, FILE_END + tail);
    Expected(FILE_END, tail);
  }

  function AllShown(records: seq<FileRecord>): seq<FileRecord> {
    if records == [] then [] else [records[0].Shown()] + AllShown(records[1..])
  }

  lemma {:induction false} ShownOneByOne(records: seq<FileRecord>)
    ensures |AllShown(records)| == |records|
    ensures forall i | 0 <= i < |records| ::
              AllShown(records)[i]
              == if records[i].oldPath.Some? then records[i] else records[i].(oldPath := Some(""))
  {
    if records != [] {
      ShownOneByOne(records[1..]);
    }
  }

  /** An item can be told from the end, is not empty, and reads as what is shown of it. */
  ghost predicate ReadsBack(write: (FileRecord, string) -> string, read: string -> Option<Found<FileRecord>>,
                            end: string) {
    forall record: FileRecord, tail: string ::
      && read(write(record, tail)) == Some(Found(record.Shown(), tail))
      && write(record, tail) != end
      && |write(record, tail)| > |tail|
  }

  lemma {:induction false} ManyReadBack(records: seq<FileRecord>, write: (FileRecord, string) -> string,
                                        read: string -> Option<Found<FileRecord>>, end: string, count: nat)
    requires ReadsBack(write, read, end) && |records| <= count
    ensures ReadMany(WriteMany(records, write, end), read, end, count) == Some(AllShown(records))
    ensures |WriteMany(records, write, end)| >= |records|
  {
    if records != [] {
      ManyReadBack(records[1..], write, read, end, count - 1);
      var rest := WriteMany(records[1..], write, end);
      assert read(write(records[0], rest)) == Some(Found(records[0].Shown(), rest));
    }
  }

  lemma {:induction false} FilesReadBack()
    ensures ReadsBack(FileText, ReadFile, FOOT)
  {
    forall record: FileRecord, tail: string
      ensures ReadFile(FileText(record, tail)) == Some(Found(record.Shown(), tail))
      ensures FileText(record, tail) != FOOT && |FileText(record, tail)| > |tail|
    {
      FileTextReads(record, tail);
      assert FileText(record, tail)[0] == FILE[0];
      assert "" + tail == tail;
      FileTail(record, "", tail);
    }
  }

  /** The main property of the export: this reader gets every record back, whatever characters the document has. */
  lemma {:induction false} DocumentRoundTrip(records: seq<FileRecord>)
    ensures ReadDocument(Document(records)) == Some(AllShown(records)) && |AllShown(records)| == |records|
    ensures forall i | 0 <= i < |records| ::
              AllShown(records)[i]
              == if records[i].oldPath.Some? then records[i] else records[i].(oldPath := Some(""))
  {
    ShownOneByOne(records);
    var files := WriteMany(records, FileText, FOOT);
    Expected(HEAD, files);
    FilesReadBack();
    ManyReadBack(records, FileText, ReadFile, FOOT, |records|);
    ManyReadBack(records, FileText, ReadFile, FOOT, |files|);
  }
}
