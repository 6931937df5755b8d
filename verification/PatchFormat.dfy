/** Lines, markers and results of an SVN patch (svn_patch.rs). */
module PatchFormat {
  import opened Base
  import Utf8

  const METADATA_LINE_LIMIT: nat := 64 * 1024

  const NEWLINE: Byte := 10
  const CARRIAGE_RETURN: Byte := 13

  /** The bytes of an ASCII literal. */
  function Bytes(s: string): seq<Byte> {
    seq(|s|, i requires 0 <= i < |s| => (s[i] as int) % 256)
  }

  datatype Body = Retained(text: seq<Byte>) | Deferred | TooLarge

  datatype PatchFile = PatchFile(body: Body, additions: nat, deletions: nat, isBinary: bool)

  datatype PatchSet = PatchSet(files: map<seq<Byte>, PatchFile>, bytes: nat)

  /** What a parser is created with: the path normaliser and the two memory limits. */
  datatype Config = Config(normalize: seq<Byte> -> seq<Byte>, fileLimit: nat, totalLimit: nat) {
    ghost predicate Valid() {
      fileLimit < USIZE_MAX && totalLimit < USIZE_MAX
    }

    function LineLimit(): nat {
      Max(SaturatingAdd(fileLimit, 1), METADATA_LINE_LIMIT)
    }
  }

  function TrimLineEnd(line: seq<Byte>): seq<Byte> {
    DropReturn(if line != [] && line[|line| - 1] == NEWLINE then line[..|line| - 1] else line)
  }

  function DropReturn(s: seq<Byte>): seq<Byte> {
    if s != [] && s[|s| - 1] == CARRIAGE_RETURN then s[..|s| - 1] else s
  }

  predicate StartsWith(line: seq<Byte>, prefix: seq<Byte>) {
    prefix <= line
  }

  /** The length of a character with the Unicode White_Space property at the front of valid UTF-8, else 0. */
  function WhitespaceLen(s: seq<Byte>): (n: nat)
    ensures n <= |s|
  {
    if |s| >= 1 && (9 <= s[0] <= 13 || s[0] == 32) then 1
    else if |s| >= 2 && s[0] == 0xC2 && (s[1] == 0x85 || s[1] == 0xA0) then 2
    else if |s| >= 3
      && (|| s[..3] == [0xE1, 0x9A, 0x80]
          || (s[..2] == [0xE2, 0x80] && (0x80 <= s[2] <= 0x8A || s[2] == 0xA8 || s[2] == 0xA9 || s[2] == 0xAF))
          || s[..3] == [0xE2, 0x81, 0x9F]
          || s[..3] == [0xE3, 0x80, 0x80]) then 3
    else 0
  }

  /** `str::trim` as far as a prefix test can see it. */
  function TrimFront(s: seq<Byte>): seq<Byte>
    decreases |s|
  {
    var n := WhitespaceLen(s);
    if n == 0 then s else TrimFront(s[n..])
  }

  /** A line on which Subversion says that the file is not text. */
  predicate MarksBinary(line: seq<Byte>) {
    || StartsWith(line, Bytes("Cannot display:"))
    || (&& StartsWith(line, Bytes("svn:mime-type = "))
        && var mime := line[|"svn:mime-type = "|..];
           Utf8.FromUtf8(mime) == Utf8.Valid && !StartsWith(TrimFront(mime), Bytes("text/")))
  }

  predicate IsIndex(line: seq<Byte>) {
    StartsWith(line, Bytes("Index: "))
  }

  /** What a line means for the hunk it may be in. */
  datatype Mark = OpensHunk | ClosesHunk | Plus | Minus | Plain

  function MarkOf(line: seq<Byte>): Mark {
    if StartsWith(line, Bytes("@@")) then OpensHunk
    else if StartsWith(line, Bytes("Property changes on:")) then ClosesHunk
    else if StartsWith(line, Bytes("+")) then Plus
    else if StartsWith(line, Bytes("-")) then Minus
    else Plain
  }

  /** The path that an Index line names. */
  function IndexPath(c: Config, line: seq<Byte>): seq<Byte>
    requires IsIndex(line)
  {
    (c.normalize)(Utf8.Lossy(line[|"Index: "|..]))
  }
}
