/** The incremental patch parser: its byte-level meaning and the class that implements it (svn_patch.rs). */
module PatchParser {
  import opened Base
  import opened PatchFormat
  import Utf8

  /** The section being read. */
  datatype Current = Current(
    path: seq<Byte>,
    patch: seq<Byte>,
    tooLarge: bool,
    additions: nat,
    deletions: nat,
    isBinary: bool,
    inHunk: bool
  )

  datatype State = State(
    files: map<seq<Byte>, PatchFile>,
    current: Option<Current>,
    line: seq<Byte>,
    overflow: bool,
    hasNul: bool,
    retained: nat
  )

  /** An empty section, before its Index line is added. */
  function FreshSection(path: seq<Byte>): Current {
    Current(path, [], false, 0, 0, false, false)
  }

  const INITIAL: State := State(map[], None, [], false, false, 0)

  ghost predicate Valid(c: Config, s: State) {
    c.Valid() && |s.line| <= c.LineLimit()
  }

  /** Adds a piece of a line without its end: bytes past the limit are dropped but remembered. */
  function Append(c: Config, s: State, piece: seq<Byte>): State
    requires |s.line| <= c.LineLimit()
  {
    var room := c.LineLimit() - |s.line|;
    s.(line := s.line + piece[..Min(room, |piece|)],
       overflow := s.overflow || |piece| > room,
       hasNul := s.hasNul || 0 in piece)
  }

  /** What one finished line does to the section it belongs to. */
  function Extend(c: Config, cur: Current, line: seq<Byte>, overflow: bool, hasNul: bool): Current {
    var trimmed := TrimLineEnd(line);
    var binary := cur.isBinary || hasNul || MarksBinary(trimmed);
    var exceeds := overflow || SaturatingAdd(|cur.patch|, |line|) > c.fileLimit;
    var mark := MarkOf(trimmed);
    Current(
      cur.path,
      if binary || exceeds then [] else if cur.tooLarge then cur.patch else cur.patch + line,
      cur.tooLarge || (!binary && exceeds),
      cur.additions + (if cur.inHunk && mark == Plus then 1 else 0),
      cur.deletions + (if cur.inHunk && mark == Minus then 1 else 0),
      binary,
      mark == OpensHunk || (mark != ClosesHunk && cur.inHunk))
  }

  /** The body that a finished section gets when `retained` bytes are already kept. */
  function BodyOf(c: Config, cur: Current, retained: nat): Body {
    if cur.isBinary then Deferred
    else if cur.tooLarge then TooLarge
    else
      var text := if Utf8.FromUtf8(cur.patch) == Utf8.Valid then cur.patch else Utf8.Lossy(cur.patch);
      if |text| > c.fileLimit then TooLarge
      else if SaturatingAdd(retained, |text|) > c.totalLimit then Deferred
      else Retained(text)
  }

  function Kept(body: Body): nat {
    if body.Retained? then |body.text| else 0
  }

  function FinishFile(c: Config, s: State): State {
    if s.current.None? then s
    else
      var cur := s.current.value;
      var body := BodyOf(c, cur, s.retained);
      s.(current := None,
         retained := s.retained + Kept(body),
         files := s.files[cur.path := PatchFile(body, cur.additions, cur.deletions, cur.isBinary)])
  }

  function FinishLine(c: Config, s: State): State {
    var trimmed := TrimLineEnd(s.line);
    var t := if IsIndex(trimmed)
      then FinishFile(c, s).(current := Some(FreshSection(IndexPath(c, trimmed))))
      else s;
    t.(current := if t.current.None? then None
                  else Some(Extend(c, t.current.value, s.line, s.overflow, s.hasNul)),
       line := [], overflow := false, hasNul := false)
  }

  function Step(c: Config, s: State, b: Byte): State
    requires |s.line| <= c.LineLimit()
  {
    var t := Append(c, s, [b]);
    if b == NEWLINE then FinishLine(c, t) else t
  }

  /** The meaning of pushing bytes: one byte after the other. */
  function Feed(c: Config, s: State, bytes: seq<Byte>): (r: State)
    requires |s.line| <= c.LineLimit()
    ensures |r.line| <= c.LineLimit()
  {
    if bytes == [] then s
    else Step(c, Feed(c, s, bytes[..|bytes| - 1]), bytes[|bytes| - 1])
  }

  function Finish(c: Config, s: State): PatchSet {
    var t := FinishFile(c, if s.line != [] || s.overflow then FinishLine(c, s) else s);
    PatchSet(t.files, t.retained)
  }

  lemma {:induction false} FeedConcat(c: Config, s: State, a: seq<Byte>, b: seq<Byte>)
    requires |s.line| <= c.LineLimit()
    ensures Feed(c, s, a + b) == Feed(c, Feed(c, s, a), b)
    decreases |b|
  {
    if b == [] {
      assert a + b == a;
    } else {
      var n := |b| - 1;
      assert (a + b)[..|a + b| - 1] == a + b[..n];
      FeedConcat(c, s, a, b[..n]);
    }
  }

  lemma {:induction false} AppendTwice(c: Config, s: State, a: seq<Byte>, b: seq<Byte>)
    requires |s.line| <= c.LineLimit()
    ensures Append(c, Append(c, s, a), b) == Append(c, s, a + b)
  {
    var room := c.LineLimit() - |s.line|;
    var once := Append(c, s, a);
    assert (a + b)[..Min(room, |a + b|)] == a[..Min(room, |a|)] + b[..Min(c.LineLimit() - |once.line|, |b|)];
  }

  /** Bytes without a line end only lengthen the open line. */
  lemma {:induction false} FeedPiece(c: Config, s: State, piece: seq<Byte>)
    requires |s.line| <= c.LineLimit() && NEWLINE !in piece
    ensures Feed(c, s, piece) == Append(c, s, piece)
    decreases |piece|
  {
    if piece == [] {
      assert s.line + piece[..0] == s.line;
    } else {
      var n := |piece| - 1;
      FeedPiece(c, s, piece[..n]);
      AppendTwice(c, s, piece[..n], [piece[n]]);
      assert piece[..n] + [piece[n]] == piece;
    }
  }

  /** One segment of `split_inclusive`: a piece of a line, ended or not. */
  predicate IsSegment(seg: seq<Byte>) {
    seg != [] && NEWLINE !in seg[..|seg| - 1]
  }

  function PushSegment(c: Config, s: State, seg: seq<Byte>): State
    requires |s.line| <= c.LineLimit() && seg != []
  {
    var t := Append(c, s, seg);
    if seg[|seg| - 1] == NEWLINE then FinishLine(c, t) else t
  }

  lemma {:induction false} FeedSegment(c: Config, s: State, seg: seq<Byte>)
    requires |s.line| <= c.LineLimit() && IsSegment(seg)
    ensures Feed(c, s, seg) == PushSegment(c, s, seg)
  {
    var n := |seg| - 1;
    FeedPiece(c, s, seg[..n]);
    AppendTwice(c, s, seg[..n], [seg[n]]);
    assert seg[..n] + [seg[n]] == seg;
  }

  /** Pushing the next segment of a stream is feeding the stream up to its end. */
  lemma {:induction false} FeedNext(c: Config, s: State, bytes: seq<Byte>, start: nat, end: nat)
    requires |s.line| <= c.LineLimit() && start < end <= |bytes| && IsSegment(bytes[start..end])
    ensures PushSegment(c, Feed(c, s, bytes[..start]), bytes[start..end]) == Feed(c, s, bytes[..end])
  {
    var done, seg := bytes[..start], bytes[start..end];
    assert done + seg == bytes[..end];
    FeedConcat(c, s, done, seg);
    FeedSegment(c, Feed(c, s, done), seg);
  }

  class SvnPatchParser {
    const config: Config
    var files: map<seq<Byte>, PatchFile>
    var current: Option<Current>
    var line: seq<Byte>
    var lineOverflow: bool
    var lineHasNul: bool
    var retainedBytes: nat

    ghost predicate Valid()
      reads this
    {
      config.Valid() && |line| <= config.LineLimit()
    }

    function Now(): State
      reads this
    {
      State(files, current, line, lineOverflow, lineHasNul, retainedBytes)
    }

    constructor WithLimits(normalize: seq<Byte> -> seq<Byte>, fileLimit: nat, totalLimit: nat)
      requires fileLimit < USIZE_MAX && totalLimit < USIZE_MAX
      ensures Valid() && Now() == INITIAL && config == Config(normalize, fileLimit, totalLimit)
    {
      config := Config(normalize, fileLimit, totalLimit);
      files, current, line := map[], None, [];
      lineOverflow, lineHasNul, retainedBytes := false, false, 0;
    }

    method FinishCurrentFile()
      modifies this
      ensures Now() == FinishFile(config, old(Now()))
    {
      if current.None? {
        return;
      }
      var cur := current.value;
      current := None;
      var body: Body;
      if cur.isBinary {
        body := Deferred;
      } else if cur.tooLarge {
        body := TooLarge;
      } else {
        var patch := if Utf8.FromUtf8(cur.patch) == Utf8.Valid then cur.patch else Utf8.Lossy(cur.patch);
        if |patch| > config.fileLimit {
          body := TooLarge;
        } else if SaturatingAdd(retainedBytes, |patch|) > config.totalLimit {
          body := Deferred;
        } else {
          retainedBytes := retainedBytes + |patch|;
          body := Retained(patch);
        }
      }
      files := files[cur.path := PatchFile(body, cur.additions, cur.deletions, cur.isBinary)];
    }

    /** The part of `finish_line` that updates the body of the current section. */
    method ExtendBody(section: Current, binary: bool) returns (cur: Current)
      ensures var exceeds := lineOverflow || SaturatingAdd(|section.patch|, |line|) > config.fileLimit;
              cur == section.(
                isBinary := binary,
                patch := if binary || exceeds then [] else section.patch + if section.tooLarge then [] else line,
                tooLarge := section.tooLarge || (!binary && exceeds))
    {
      cur := section.(isBinary := binary);
      if cur.isBinary {
        cur := cur.(patch := []);
      } else if lineOverflow || SaturatingAdd(|cur.patch|, |line|) > config.fileLimit {
        cur := cur.(patch := [], tooLarge := true);
      } else if !cur.tooLarge {
        cur := cur.(patch := cur.patch + line);
      }
    }

    /** The part of `finish_line` that counts added and removed lines. */
    method CountLine(section: Current, mark: Mark) returns (cur: Current)
      ensures cur == section.(
                additions := section.additions + (if section.inHunk && mark == Plus then 1 else 0),
                deletions := section.deletions + (if section.inHunk && mark == Minus then 1 else 0),
                inHunk := mark == OpensHunk || (mark != ClosesHunk && section.inHunk))
    {
      cur := section;
      match mark {
        case OpensHunk => cur := cur.(inHunk := true);
        case ClosesHunk => cur := cur.(inHunk := false);
        case Plus => cur := cur.(additions := cur.additions + if cur.inHunk then 1 else 0);
        case Minus => cur := cur.(deletions := cur.deletions + if cur.inHunk then 1 else 0);
        case Plain =>
      }
    }

    method ExtendSection(section: Current, trimmed: seq<Byte>) returns (cur: Current)
      requires trimmed == TrimLineEnd(line)
      ensures cur == Extend(config, section, line, lineOverflow, lineHasNul)
    {
      cur := ExtendBody(section, section.isBinary || lineHasNul || MarksBinary(trimmed));
      cur := CountLine(cur, MarkOf(trimmed));
    }

    method FinishCurrentLine()
      modifies this
      ensures Now() == FinishLine(config, old(Now()))
    {
      var trimmed := TrimLineEnd(line);
      if IsIndex(trimmed) {
        var path := IndexPath(config, trimmed);
        FinishCurrentFile();
        current := Some(FreshSection(path));
      }
      if current.Some? {
        var cur := ExtendSection(current.value, trimmed);
        current := Some(cur);
      }
      line, lineOverflow, lineHasNul := [], false, false;
    }

    method AddSegment(segment: seq<Byte>)
      requires Valid() && segment != []
      modifies this
      ensures Valid() && Now() == PushSegment(config, old(Now()), segment)
    {
      ghost var before := Now();
      lineHasNul := lineHasNul || 0 in segment;
      var lineLimit := Max(SaturatingAdd(config.fileLimit, 1), METADATA_LINE_LIMIT);
      if |line| < lineLimit {
        var kept := Min(lineLimit - |line|, |segment|);
        line := line + segment[..kept];
        lineOverflow := lineOverflow || kept < |segment|;
      } else {
        lineOverflow := true;
        assert before.line + segment[..0] == before.line;
      }
      assert Now() == Append(config, before, segment);
      if segment[|segment| - 1] == NEWLINE {
        FinishCurrentLine();
      }
    }

    /** One chunk of the stream, cut wherever the pipe happened to cut it. */
    method Push(bytes: seq<Byte>)
      requires Valid()
      modifies this
      ensures Valid() && Now() == Feed(config, old(Now()), bytes)
    {
      var start := 0;
      ghost var was := Now();
      while start < |bytes|
        invariant start <= |bytes| && Valid()
        invariant Now() == Feed(config, was, bytes[..start])
      {
        var end := SegmentEnd(bytes, start);
        FeedNext(config, was, bytes, start, end);
        AddSegment(bytes[start..end]);
        start := end;
      }
      assert bytes[..start] == bytes;
    }

    /** The end of the `split_inclusive` segment that starts at `start`. */
    static method SegmentEnd(bytes: seq<Byte>, start: nat) returns (end: nat)
      requires start < |bytes|
      ensures start < end <= |bytes| && IsSegment(bytes[start..end])
      ensures end == |bytes| || bytes[end - 1] == NEWLINE
    {
      end := start;
      while end < |bytes| && bytes[end] != NEWLINE
        invariant start <= end <= |bytes| && NEWLINE !in bytes[start..end]
      {
        end := end + 1;
      }
      if end < |bytes| {
        end := end + 1;
        assert bytes[start..end][..end - start - 1] == bytes[start..end - 1];
      } else {
        assert bytes[start..end][..end - start - 1] <= bytes[start..end];
      }
    }

    method FinishStream() returns (r: PatchSet)
      requires Valid()
      modifies this
      ensures r == Finish(config, old(Now()))
    {
      if line != [] || lineOverflow {
        FinishCurrentLine();
      }
      FinishCurrentFile();
      r := PatchSet(files, retainedBytes);
    }
  }
}
