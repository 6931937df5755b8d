/** Integer widths and small containers shared by all components. */
module Base {

  const TWO_64: int := 0x1_0000_0000_0000_0000
  const USIZE_MAX: int := 0xFFFF_FFFF_FFFF_FFFF

  type Byte = n: int | 0 <= n < 256
  type U64 = n: int | 0 <= n < 0x1_0000_0000_0000_0000

  datatype Option<+T> = None | Some(value: T)

  datatype Result<+T, +E> = Ok(value: T) | Err(error: E)

  function Min(a: int, b: int): int {
    if a <= b then a else b
  }

  function Max(a: int, b: int): int {
    if a <= b then b else a
  }

  /** `a.saturating_add(b)` on a 64-bit `usize` or `u64`. */
  function SaturatingAdd(a: nat, b: nat): nat {
    Min(a + b, USIZE_MAX)
  }

  /** `a.saturating_sub(b)`. */
  function SaturatingSub(a: nat, b: nat): nat {
    if a < b then 0 else a - b
  }

  lemma MulMonotone(x: int, y: int, d: nat)
    requires x <= y
    ensures x * d <= y * d
  {
  }

  /** Division with remainder is unique. */
  lemma DivUnique(a: nat, d: nat, q: nat, r: nat)
    requires d > 0 && r < d && a == q * d + r
    ensures a / d == q && a % d == r
  {
    var q', r' := a / d, a % d;
    assert a == q' * d + r';
    if q < q' {
      MulMonotone(q + 1, q', d);
    } else if q' < q {
      MulMonotone(q' + 1, q, d);
    }
  }

  lemma ConcatAssociative<T>(a: seq<T>, b: seq<T>, c: seq<T>)
    ensures a + b + c == a + (b + c)
  {
  }

  lemma Front<T>(a: seq<T>, b: seq<T>)
    ensures (a + b)[..|a|] == a && (a + b)[|a|..] == b
  {
  }

  lemma TakeNext<T>(s: seq<T>, i: nat)
    requires i < |s|
    ensures s[..i + 1] == s[..i] + [s[i]]
    ensures s[..|s|] == s
  {
  }

  /** Cutting at `k` is cutting the rest after `n` at `k - n`. */
  lemma CutFurther<T>(s: seq<T>, n: nat, k: nat)
    requires n <= k <= |s|
    ensures s[..k] == s[..n] + s[n..][..k - n]
    ensures s[k..] == s[n..][k - n..]
    ensures s[..k][n..] == s[n..][..k - n] && s[..k][..n] == s[..n]
  {
  }

  lemma Rejoin<T>(s: seq<T>, i: nat, j: nat)
    requires i <= j <= |s|
    ensures s[i..] == s[i..j] + s[j..]
    ensures s[i..|s|] == s[i..]
    ensures i == 0 ==> s == s[..j] + s[j..]
  {
  }

  /** The concatenation of a list of sequences. */
  function Flatten<T>(parts: seq<seq<T>>): seq<T> {
    if parts == [] then [] else Flatten(parts[..|parts| - 1]) + parts[|parts| - 1]
  }

  lemma FlattenSnoc<T>(parts: seq<seq<T>>, last: seq<T>)
    ensures Flatten(parts + [last]) == Flatten(parts) + last
  {
    assert (parts + [last])[..|parts|] == parts;
  }

  lemma FlattenOne<T>(part: seq<T>)
    ensures Flatten([part]) == part
  {
    var none: seq<seq<T>> := [];
    FlattenSnoc(none, part);
    assert none + [part] == [part];
  }

  lemma FlattenCons<T>(first: seq<T>, rest: seq<seq<T>>)
    ensures Flatten([first] + rest) == first + Flatten(rest)
  {
    FlattenOne(first);
    FlattenConcat([first], rest);
  }

  lemma {:induction false} FlattenConcat<T>(a: seq<seq<T>>, b: seq<seq<T>>)
    ensures Flatten(a + b) == Flatten(a) + Flatten(b)
    decreases |b|
  {
    if b == [] {
      assert a + b == a;
    } else {
      var n := |b| - 1;
      var front := a + b[..n];
      assert a + b == front + [b[n]];
      FlattenConcat(a, b[..n]);
      FlattenSnoc(front, b[n]);
      ConcatAssociative(Flatten(a), Flatten(b[..n]), b[n]);
    }
  }

  lemma FlattenStep<T>(parts: seq<seq<T>>, i: nat)
    requires i < |parts|
    ensures Flatten(parts[..i + 1]) == Flatten(parts[..i]) + parts[i]
  {
    assert parts[..i + 1] == parts[..i] + [parts[i]];
    FlattenSnoc(parts[..i], parts[i]);
  }

  lemma FlattenSplit<T>(parts: seq<seq<T>>, i: nat)
    requires i <= |parts|
    ensures Flatten(parts) == Flatten(parts[..i]) + Flatten(parts[i..])
  {
    var a, b := parts[..i], parts[i..];
    assert a + b == parts;
    FlattenConcat(a, b);
  }

  /** `content` with `block` laid over it at `at`: what one positional write does. */
  function Splice<T>(content: seq<T>, at: nat, block: seq<T>): (r: seq<T>)
    requires at + |block| <= |content|
    ensures |r| == |content|
    ensures r[at..at + |block|] == block
  {
    content[..at] + block + content[at + |block|..]
  }

  lemma SpliceOutside<T>(content: seq<T>, at: nat, block: seq<T>, lo: nat, hi: nat)
    requires at + |block| <= |content|
    requires lo <= hi <= |content|
    requires hi <= at || at + |block| <= lo
    ensures Splice(content, at, block)[lo..hi] == content[lo..hi]
  {
    var spliced := Splice(content, at, block);
    assert forall k | lo <= k < hi :: spliced[k] == content[k];
  }

  lemma SpliceFrame<T>(content: seq<T>, at: nat, block: seq<T>, end: nat)
    requires at + |block| <= end <= |content|
    ensures Splice(content, at, block)[..at] == content[..at]
    ensures Splice(content, at, block)[end..] == content[end..]
  {
  }

  lemma SpliceSame<T>(content: seq<T>, at: nat, block: seq<T>)
    requires at + |block| <= |content| && content[at..at + |block|] == block
    ensures Splice(content, at, block) == content
  {
  }

  lemma SpliceTwice<T>(content: seq<T>, at: nat, first: seq<T>, second: seq<T>)
    requires at + |first| + |second| <= |content|
    ensures Splice(Splice(content, at, first), at + |first|, second) == Splice(content, at, first + second)
  {
  }
}
