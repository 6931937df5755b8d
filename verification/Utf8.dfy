/** Well-formed text, its decoding, and the chunked text check of the working directory (repository/diff.rs). */
module Utf8 {
  import opened Base

  // UTF-8 as section 4 of RFC 3629 defines it, and the parts of the standard decoder that the program relies on.

  predicate Tail(b: Byte) {
    0x80 <= b <= 0xBF
  }

  // The productions UTF8-1, UTF8-2, UTF8-3 and UTF8-4 of RFC 3629, section 4.

  predicate IsUtf8One(s: seq<Byte>) {
    |s| == 1 && s[0] <= 0x7F
  }

  predicate IsUtf8Two(s: seq<Byte>) {
    |s| == 2 && 0xC2 <= s[0] <= 0xDF && Tail(s[1])
  }

  predicate IsUtf8Three(s: seq<Byte>) {
    && |s| == 3 && Tail(s[2])
    && (|| (s[0] == 0xE0 && 0xA0 <= s[1] <= 0xBF)
        || (0xE1 <= s[0] <= 0xEC && Tail(s[1]))
        || (s[0] == 0xED && 0x80 <= s[1] <= 0x9F)
        || (0xEE <= s[0] <= 0xEF && Tail(s[1])))
  }

  predicate IsUtf8Four(s: seq<Byte>) {
    && |s| == 4 && Tail(s[2]) && Tail(s[3])
    && (|| (s[0] == 0xF0 && 0x90 <= s[1] <= 0xBF)
        || (0xF1 <= s[0] <= 0xF3 && Tail(s[1]))
        || (s[0] == 0xF4 && 0x80 <= s[1] <= 0x8F))
  }

  /** UTF8-char */
  predicate IsChar(s: seq<Byte>) {
    IsUtf8One(s) || IsUtf8Two(s) || IsUtf8Three(s) || IsUtf8Four(s)
  }

  /** The length of the character at the front of `s`, 0 when there is none. */
  function HeadLen(s: seq<Byte>): (n: nat)
    ensures n <= |s| && n <= 4
    ensures n > 0 ==> IsChar(s[..n])
    ensures n == 0 ==> forall k | 1 <= k <= |s| :: !IsChar(s[..k])
  {
    if |s| >= 1 && IsUtf8One(s[..1]) then 1
    else if |s| >= 2 && IsUtf8Two(s[..2]) then 2
    else if |s| >= 3 && IsUtf8Three(s[..3]) then 3
    else if |s| >= 4 && IsUtf8Four(s[..4]) then 4
    else 0
  }

  /** The first byte decides how long a character is. */
  lemma HeadLenUnique(s: seq<Byte>, n: nat)
    requires 1 <= n <= |s| && IsChar(s[..n])
    ensures HeadLen(s) == n
  {
  }

  /** Well-formed text, character by character from the front. */
  predicate WellFormed(s: seq<Byte>)
    decreases |s|
  {
    s == [] || (HeadLen(s) > 0 && WellFormed(s[HeadLen(s)..]))
  }

  ghost predicate AreChars(chars: seq<seq<Byte>>) {
    forall k | 0 <= k < |chars| :: IsChar(chars[k])
  }

  /** A character that needs more bytes: what the decoder reports as an error without a length. */
  predicate Incomplete(s: seq<Byte>) {
    || (|s| == 1 && 0xC2 <= s[0] <= 0xF4)
    || (|s| == 2 && SecondFits(s[0], s[1]) && 0xE0 <= s[0])
    || (|s| == 3 && SecondFits(s[0], s[1]) && 0xF0 <= s[0] && Tail(s[2]))
  }

  predicate SecondFits(first: Byte, second: Byte) {
    || (first == 0xE0 && 0xA0 <= second <= 0xBF)
    || (0xE1 <= first <= 0xEC && Tail(second))
    || (first == 0xED && 0x80 <= second <= 0x9F)
    || (0xEE <= first <= 0xEF && Tail(second))
    || (first == 0xF0 && 0x90 <= second <= 0xBF)
    || (0xF1 <= first <= 0xF3 && Tail(second))
    || (first == 0xF4 && 0x80 <= second <= 0x8F)
  }

  /** Incomplete means exactly: not empty, no character yet, and some continuation makes it one. */
  lemma IncompleteExactlyWhenExtensible(s: seq<Byte>)
    ensures Incomplete(s) <==> s != [] && exists more: seq<Byte> :: more != [] && IsChar(s + more)
  {
    if Incomplete(s) {
      var more: seq<Byte> :=
        if |s| == 1 then
          if s[0] <= 0xDF then [0x80]
          else if s[0] <= 0xEF then [if s[0] == 0xE0 then 0xA0 else 0x80, 0x80]
          else [if s[0] == 0xF0 then 0x90 else 0x80, 0x80, 0x80]
        else if |s| == 2 && s[0] >= 0xF0 then [0x80, 0x80]
        else [0x80];
      assert IsChar(s + more);
    }
    if s != [] && exists more: seq<Byte> :: more != [] && IsChar(s + more) {
      var more: seq<Byte> :| more != [] && IsChar(s + more);
      var c := s + more;
      assert |c| == |s| + |more| && forall k | 0 <= k < |s| :: c[k] == s[k];
    }
  }

  /** How far the decoder of `bytes` gets: `Utf8Error::valid_up_to`, or all of `bytes`. */
  function ValidUpTo(s: seq<Byte>): (n: nat)
    ensures n <= |s|
    decreases |s|
  {
    var n := HeadLen(s);
    if n == 0 then 0 else n + ValidUpTo(s[n..])
  }

  /** `str::from_utf8`: success, an incomplete last character, or a definite error. */
  datatype Verdict = Valid | NeedsMore(validUpTo: nat) | Malformed(validUpTo: nat)

  function FromUtf8(s: seq<Byte>): (v: Verdict) {
    var n := ValidUpTo(s);
    if n == |s| then Valid
    else if Incomplete(s[n..]) then NeedsMore(n)
    else Malformed(n)
  }

  // ----- Well-formedness of concatenations

  /** After a well-formed front, the whole is well-formed exactly when the rest is. */
  lemma {:induction false} WellFormedConcat(a: seq<Byte>, b: seq<Byte>)
    requires WellFormed(a)
    ensures WellFormed(a + b) <==> WellFormed(b)
    decreases |a|
  {
    if a == [] {
      assert a + b == b;
    } else {
      var n := HeadLen(a);
      assert (a + b)[..n] == a[..n] && (a + b)[n..] == a[n..] + b;
      HeadLenUnique(a + b, n);
      WellFormedConcat(a[n..], b);
    }
  }

  lemma {:induction false} NoHeadLater(t: seq<Byte>, more: seq<Byte>)
    requires t != [] && HeadLen(t) == 0 && !Incomplete(t)
    ensures HeadLen(t + more) == 0
  {
    var whole := t + more;
    assert |t| <= |whole| && forall k | 0 <= k < |t| :: whole[k] == t[k];
  }

  /** A definite error stays one: no continuation of the text repairs it. */
  lemma {:induction false} MalformedForever(t: seq<Byte>, more: seq<Byte>)
    requires t != [] && HeadLen(t) == 0 && !Incomplete(t)
    ensures !WellFormed(t + more)
  {
    NoHeadLater(t, more);
  }

  lemma {:induction false} IncompleteIsNotWellFormed(t: seq<Byte>)
    requires Incomplete(t)
    ensures |t| <= 3 && HeadLen(t) == 0 && !WellFormed(t)
  {
  }

  lemma {:induction false} WellFormedExactlyWhenValid(s: seq<Byte>)
    ensures WellFormed(s) <==> FromUtf8(s) == Valid
  {
    ValidPrefix(s);
    var n := ValidUpTo(s);
    assert s == s[..n] + s[n..];
    WellFormedConcat(s[..n], s[n..]);
    if n == |s| {
      assert s[..n] == s;
    }
  }

  /** Inside a character every byte but the first is a tail byte. */
  lemma {:induction false} HeadEndsBefore(s: seq<Byte>, k: nat)
    requires WellFormed(s) && 0 < k < |s| && !Tail(s[k])
    ensures 0 < HeadLen(s) <= k && WellFormed(s[HeadLen(s)..])
  {
    assert IsChar(s[..HeadLen(s)]);
  }

  /** Any other byte begins a character, so text can be cut before it. */
  lemma {:induction false} CutBeforeHead(s: seq<Byte>, k: nat)
    requires WellFormed(s) && k < |s| && !Tail(s[k])
    ensures WellFormed(s[..k]) && WellFormed(s[k..])
    decreases |s|
  {
    if k == 0 {
      assert s[..0] == [] && s[0..] == s;
    } else {
      HeadEndsBefore(s, k);
      var n := HeadLen(s);
      var head, rest := s[..n], s[n..];
      CutBeforeHead(rest, k - n);
      PrependHead(head, rest[..k - n]);
      CutFurther(s, n, k);
    }
  }

  lemma {:induction false} PrependHead(head: seq<Byte>, rest: seq<Byte>)
    requires IsChar(head) && WellFormed(rest)
    ensures WellFormed(head + rest)
  {
    CharIsWellFormed(head);
    WellFormedConcat(head, rest);
  }

  /** The decoder's valid part is well-formed, and no character begins behind it. */
  lemma {:induction false} ValidPrefix(s: seq<Byte>)
    ensures WellFormed(s[..ValidUpTo(s)])
    ensures HeadLen(s[ValidUpTo(s)..]) == 0
  {
    ValidPart(s);
    InvalidRest(s);
  }

  lemma {:induction false} ValidPart(s: seq<Byte>)
    ensures WellFormed(s[..ValidUpTo(s)])
    decreases |s|
  {
    var n := HeadLen(s);
    if n > 0 {
      var head, rest := s[..n], s[n..];
      ValidPart(rest);
      PrependHead(head, rest[..ValidUpTo(rest)]);
      CutFurther(s, n, ValidUpTo(s));
    }
  }

  lemma {:induction false} InvalidRest(s: seq<Byte>)
    ensures HeadLen(s[ValidUpTo(s)..]) == 0
    decreases |s|
  {
    var n := HeadLen(s);
    if n > 0 {
      InvalidRest(s[n..]);
      CutFurther(s, n, ValidUpTo(s));
    }
  }

  /** An ASCII byte is a character of its own, so text can be cut after it, too. */
  lemma {:induction false} CutAfterAscii(s: seq<Byte>, k: nat)
    requires WellFormed(s) && k < |s| && s[k] <= 0x7F
    ensures WellFormed(s[..k + 1]) && WellFormed(s[k + 1..])
  {
    CutBeforeHead(s, k);
    var c := [s[k]];
    TakeNext(s, k);
    CharIsWellFormed(c);
    WellFormedConcat(s[..k], c);
    WellFormedConcat(s[..k + 1], s[k + 1..]);
    assert s == s[..k + 1] + s[k + 1..];
  }

  lemma {:induction false} AsciiIsWellFormed(s: seq<Byte>)
    requires forall k | 0 <= k < |s| :: s[k] <= 0x7F
    ensures WellFormed(s)
    decreases |s|
  {
    if s != [] {
      AsciiIsWellFormed(s[1..]);
      assert IsChar(s[..1]);
    }
  }

  // ----- Lossy decoding

  /** U+FFFD in UTF-8. */
  const REPLACEMENT: seq<Byte> := [0xEF, 0xBF, 0xBD]

  /** How many bytes one replacement character stands for: the longest incomplete start, or one byte. */
  function InvalidLen(s: seq<Byte>): (n: nat)
    requires s != []
    ensures 1 <= n <= |s|
  {
    if |s| >= 3 && Incomplete(s[..3]) then 3
    else if |s| >= 2 && Incomplete(s[..2]) then 2
    else 1
  }

  /** `String::from_utf8_lossy` */
  function Lossy(s: seq<Byte>): seq<Byte>
    decreases |s|
  {
    if s == [] then []
    else
      var n := HeadLen(s);
      if n > 0 then s[..n] + Lossy(s[n..])
      else REPLACEMENT + Lossy(s[InvalidLen(s)..])
  }

  lemma {:induction false} CharIsWellFormed(c: seq<Byte>)
    requires IsChar(c)
    ensures WellFormed(c)
  {
    assert c[..|c|] == c;
    HeadLenUnique(c, |c|);
  }

  /** UTF8-octets: well-formed means exactly that the text is some string of UTF8-char. */
  lemma WellFormedIsCharString(s: seq<Byte>)
    ensures WellFormed(s) <==> exists chars: seq<seq<Byte>> :: AreChars(chars) && Flatten(chars) == s
  {
    if WellFormed(s) {
      var chars := CharsOf(s);
    }
    if chars: seq<seq<Byte>> :| AreChars(chars) && Flatten(chars) == s {
      CharStringIsWellFormed(chars);
    }
  }

  lemma {:induction false} CharsOf(s: seq<Byte>) returns (chars: seq<seq<Byte>>)
    requires WellFormed(s)
    ensures AreChars(chars) && Flatten(chars) == s
    decreases |s|
  {
    if s == [] {
      chars := [];
    } else {
      var n := HeadLen(s);
      var head, tail := s[..n], s[n..];
      var rest := CharsOf(tail);
      FlattenCons(head, rest);
      MoreChars(head, rest);
      assert s == head + tail;
      chars := [head] + rest;
    }
  }

  lemma MoreChars(head: seq<Byte>, rest: seq<seq<Byte>>)
    requires IsChar(head) && AreChars(rest)
    ensures AreChars([head] + rest)
  {
  }

  lemma {:induction false} CharStringIsWellFormed(chars: seq<seq<Byte>>)
    requires AreChars(chars)
    ensures WellFormed(Flatten(chars))
    decreases |chars|
  {
    if chars != [] {
      var n := |chars| - 1;
      CharStringIsWellFormed(chars[..n]);
      CharIsWellFormed(chars[n]);
      WellFormedConcat(Flatten(chars[..n]), chars[n]);
    }
  }

  lemma {:induction false} LossyIsWellFormed(s: seq<Byte>)
    ensures WellFormed(Lossy(s))
    decreases |s|
  {
    if s != [] {
      var n := HeadLen(s);
      if n > 0 {
        LossyIsWellFormed(s[n..]);
        CharIsWellFormed(s[..n]);
        WellFormedConcat(s[..n], Lossy(s[n..]));
      } else {
        LossyIsWellFormed(s[InvalidLen(s)..]);
        CharIsWellFormed(REPLACEMENT);
        WellFormedConcat(REPLACEMENT, Lossy(s[InvalidLen(s)..]));
      }
    }
  }

  /** Lossy decoding leaves exactly the well-formed texts alone. */
  lemma {:induction false} LossyIdentity(s: seq<Byte>)
    ensures Lossy(s) == s <==> WellFormed(s)
    decreases |s|
  {
    LossyIsWellFormed(s);
    if s != [] && WellFormed(s) {
      LossyIdentity(s[HeadLen(s)..]);
    }
  }

  /** Some continuation makes the first `n` bytes a character. */
  ghost predicate Begins(s: seq<Byte>, n: nat) {
    1 <= n <= |s| && exists more: seq<Byte> :: more != [] && IsChar(s[..n] + more)
  }

  lemma {:induction false} BeginsMeans(s: seq<Byte>, n: nat)
    requires 1 <= n <= |s|
    ensures Begins(s, n) <==> Incomplete(s[..n])
  {
    IncompleteExactlyWhenExtensible(s[..n]);
  }

  /**
   * Where no character begins, one U+FFFD stands for the longest beginning of a character, or for one byte if there
   * is none; where one begins, it stays.
   */
  lemma {:induction false} LossyStep(s: seq<Byte>) returns (n: nat)
    requires s != []
    ensures 1 <= n <= |s|
    ensures Lossy(s) == (if IsChar(s[..n]) then s[..n] else [0xEF, 0xBF, 0xBD]) + Lossy(s[n..])
    ensures !IsChar(s[..n]) ==>
              && (forall k | 1 <= k <= |s| :: !IsChar(s[..k]))
              && (n == 1 || Begins(s, n))
              && forall k: nat | Begins(s, k) :: k <= n
  {
    n := HeadLen(s);
    if n == 0 {
      n := InvalidLen(s);
      forall k: nat | Begins(s, k)
        ensures k <= n
      {
        BeginsMeans(s, k);
      }
      if n > 1 {
        BeginsMeans(s, n);
      }
    }
  }

  // ----- Lossy decoding of a text that was cut

  /** A cut either falls between two characters or leaves the incomplete beginning of one. */
  ghost predicate CutsAt(s: seq<Byte>, k: nat, m: nat)
    requires k <= |s|
  {
    && m <= k && WellFormed(s[..m]) && WellFormed(s[m..])
    && (m == k || (Incomplete(s[m..k]) && k - m < HeadLen(s[m..])))
  }

  lemma BeginningIsIncomplete(s: seq<Byte>, k: nat)
    requires 0 < k < HeadLen(s)
    ensures Incomplete(s[..k])
  {
    assert IsChar(s[..HeadLen(s)]);
  }

  lemma {:induction false} FindCut(s: seq<Byte>, k: nat) returns (m: nat)
    requires WellFormed(s) && k <= |s|
    ensures CutsAt(s, k, m)
    decreases |s|
  {
    var n := HeadLen(s);
    if k < n || k == 0 {
      m := 0;
      assert s[0..k] == s[..k] && s[0..] == s && s[..0] == [];
      if k > 0 {
        BeginningIsIncomplete(s, k);
      }
    } else {
      var head, rest := s[..n], s[n..];
      var j := FindCut(rest, k - n);
      m := n + j;
      PrependHead(head, rest[..j]);
      CutFurther(s, n, m);
      assert s[m..k] == rest[j..k - n];
    }
  }

  lemma LossyHead(c: seq<Byte>, rest: seq<Byte>)
    requires IsChar(c)
    ensures Lossy(c + rest) == c + Lossy(rest)
  {
    var s := c + rest;
    assert s[..|c|] == c && s[|c|..] == rest;
    HeadLenUnique(s, |c|);
  }

  lemma {:induction false} LossyKeepsFront(a: seq<Byte>, b: seq<Byte>)
    requires WellFormed(a)
    ensures Lossy(a + b) == a + Lossy(b)
    decreases |a|
  {
    if a == [] {
      assert a + b == b;
    } else {
      var n := HeadLen(a);
      var head, rest := a[..n], a[n..];
      LossyKeepsFront(rest, b);
      LossyHead(head, rest + b);
      ConcatAssociative(head, rest, b);
      ConcatAssociative(head, rest, Lossy(b));
      assert a == head + rest;
    }
  }

  lemma LossyOfIncomplete(s: seq<Byte>)
    requires Incomplete(s)
    ensures Lossy(s) == REPLACEMENT
  {
    assert s[..|s|] == s && s[|s|..] == [];
  }

  /** The text ends in U+FFFD, and the cut falls inside it. */
  predicate CutsReplacement(s: seq<Byte>, k: nat) {
    |s| >= 3 && s[|s| - 3..] == REPLACEMENT && |s| - 3 < k < |s|
  }

  lemma {:induction false} InsideReplacement(s: seq<Byte>, k: nat, m: nat)
    requires WellFormed(s) && k < |s| && CutsReplacement(s, k) && CutsAt(s, k, m)
    ensures m == |s| - 3 && m < k
  {
    var at := |s| - 3;
    assert s[at] == s[at..][0] && s[at + 1] == s[at..][1] && s[at + 2] == s[at..][2];
    if m < at {
      HeadEndsBefore(s[m..], at - m);
    }
  }

  lemma {:induction false} LossyOfBroken(s: seq<Byte>, k: nat, m: nat)
    requires k <= |s| && CutsAt(s, k, m) && m < k
    ensures Lossy(s[..k]) == s[..m] + REPLACEMENT
  {
    var front, broken := s[..m], s[m..k];
    assert s[..k] == front + broken;
    LossyOfIncomplete(broken);
    LossyKeepsFront(front, broken);
  }

  lemma SameRest(s: seq<Byte>, m: nat, rest: seq<Byte>)
    requires m <= |s|
    ensures s[..m] + rest == s <==> s[m..] == rest
  {
    assert s == s[..m] + s[m..];
    assert (s[..m] + rest)[m..] == rest;
  }

  /** Lossy decoding gives back a text that was cut exactly if the cut falls inside a last U+FFFD. */
  lemma {:induction false} LossyOfCut(s: seq<Byte>, k: nat)
    requires WellFormed(s) && k < |s|
    ensures Lossy(s[..k]) == s <==> CutsReplacement(s, k)
  {
    var m := FindCut(s, k);
    if CutsReplacement(s, k) {
      InsideReplacement(s, k, m);
    }
    if m == k {
      LossyIdentity(s[..k]);
    } else {
      LossyOfBroken(s, k, m);
      SameRest(s, m, REPLACEMENT);
    }
  }

  // ----- The chunked check

  /** True exactly for content that the export treats as text. */
  ghost predicate IsText(content: seq<Byte>) {
    0 !in content && WellFormed(content)
  }

  predicate BinarySample(bytes: seq<Byte>) {
    0 in bytes
  }

  lemma MalformedSpoils(good: seq<Byte>, pending: seq<Byte>, rest: seq<Byte>)
    requires WellFormed(good) && FromUtf8(pending).Malformed?
    ensures !WellFormed(good + pending + rest)
  {
    var n := ValidUpTo(pending);
    var front, back := pending[..n], pending[n..];
    assert pending == front + back;
    ValidPrefix(pending);
    PendingSpoils(front, back, rest);
    WellFormedConcat(good, pending + rest);
    ConcatAssociative(good, pending, rest);
  }

  lemma PendingSpoils(front: seq<Byte>, back: seq<Byte>, rest: seq<Byte>)
    requires WellFormed(front) && back != [] && HeadLen(back) == 0 && !Incomplete(back)
    ensures !WellFormed(front + back + rest)
  {
    MalformedForever(back, rest);
    WellFormedConcat(front, back + rest);
    ConcatAssociative(front, back, rest);
  }

  lemma NeedsMoreSplits(good: seq<Byte>, pending: seq<Byte>)
    requires WellFormed(good) && FromUtf8(pending).NeedsMore?
    ensures var n := ValidUpTo(pending);
            WellFormed(good + pending[..n]) && good + pending[..n] + pending[n..] == good + pending
            && Incomplete(pending[n..]) && |pending[n..]| <= 3
  {
    var n := ValidUpTo(pending);
    ValidPrefix(pending);
    WellFormedConcat(good, pending[..n]);
    IncompleteIsNotWellFormed(pending[n..]);
    ConcatAssociative(good, pending[..n], pending[n..]);
    assert pending[..n] + pending[n..] == pending;
  }

  /**
   * `chunks` is what the successive calls of `read` deliver before the end of the file. Whatever the split, the
   * answer is about the whole content, and at most three bytes are carried from one read to the next.
   */
  method InvalidWorkdirText(chunks: seq<seq<Byte>>) returns (invalid: bool)
    ensures invalid <==> !IsText(Flatten(chunks))
  {
    var pending: seq<Byte> := [];
    ghost var good: seq<Byte> := [];
    for i := 0 to |chunks|
      invariant Flatten(chunks[..i]) == good + pending
      invariant WellFormed(good) && 0 !in good + pending
      invariant pending != [] ==> Incomplete(pending)
      invariant |pending| <= 3
    {
      ghost var rest := Flatten(chunks[i + 1..]);
      FlattenStep(chunks, i);
      FlattenSplit(chunks, i + 1);
      ConcatAssociative(good, pending, chunks[i]);
      if BinarySample(chunks[i]) {
        return true;
      }
      pending := pending + chunks[i];
      match FromUtf8(pending) {
        case Valid =>
          WellFormedExactlyWhenValid(pending);
          WellFormedConcat(good, pending);
          good := good + pending;
          pending := [];
        case Malformed(n) =>
          MalformedSpoils(good, pending, rest);
          return true;
        case NeedsMore(n) =>
          NeedsMoreSplits(good, pending);
          good := good + pending[..n];
          pending := pending[n..];
      }
    }
    assert chunks[..|chunks|] == chunks;
    WellFormedConcat(good, pending);
    if pending != [] {
      IncompleteIsNotWellFormed(pending);
    }
    return pending != [];
  }
}
