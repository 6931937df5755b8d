/**
 * How the bytes of one segment move: out of an HTTP connection into blocks, and between blocks and the file. The
 * operating system may read or write less than it is asked to; `accepts` and `supplies` say how much it moves at
 * each call, and a list that has run out is an I/O error.
 */
module BlockTransfer {
  import opened Base

  datatype Error = EndOfStream | EndOfFile | EmptyWrite | IoFailed | LengthMismatch

  /** No block is empty or larger than a buffer, and only the last one is smaller. */
  predicate Cut(blocks: seq<seq<Byte>>, size: nat) {
    && (forall k | 0 <= k < |blocks| :: 0 < |blocks[k]| <= size)
    && forall k | 0 <= k < |blocks| - 1 :: |blocks[k]| == size
  }

  predicate AllFull(blocks: seq<seq<Byte>>, size: nat) {
    forall k | 0 <= k < |blocks| :: |blocks[k]| == size
  }

  lemma NextPart(incoming: seq<Byte>, position: nat, count: nat, blocks: seq<seq<Byte>>, block: seq<Byte>)
    requires position + count <= |incoming| && Flatten(blocks) == incoming[..position]
    requires block == incoming[position..][..count]
    ensures Flatten(blocks + [block]) == incoming[..position + count]
    ensures incoming[position..][count..] == incoming[position + count..]
  {
    FlattenSnoc(blocks, block);
    CutFurther(incoming, position, position + count);
  }

  /** `pending` was read ahead together with the request head; `stream` is what the peer sends from here on. */
  class HttpConnection {
    var pending: seq<Byte>
    var stream: seq<Byte>

    function Incoming(): seq<Byte>
      reads this
    {
      pending + stream
    }

    constructor (pending: seq<Byte>, stream: seq<Byte>)
      ensures this.pending == pending && this.stream == stream
    {
      this.pending, this.stream := pending, stream;
    }

    /** Fills `buffer[from..to]` from the socket, or consumes what was left of it. */
    method ReadExact(buffer: array<Byte>, from: nat, to: nat) returns (ok: bool)
      requires from <= to <= buffer.Length
      modifies this`stream, buffer
      ensures ok <==> to - from <= |old(stream)|
      ensures ok ==> buffer[..] == old(buffer[..from]) + old(stream)[..to - from] + old(buffer[to..])
      ensures stream == if ok then old(stream)[to - from..] else []
    {
      if |stream| < to - from {
        stream := [];
        return false;
      }
      forall i | from <= i < to {
        buffer[i] := stream[i - from];
      }
      stream := stream[to - from..];
      return true;
    }

    /** The next `count` bytes, first those read ahead and then those from the socket. */
    method NextBlock(buffer: array<Byte>, count: nat) returns (ok: bool)
      requires count <= buffer.Length
      modifies this, buffer
      ensures ok <==> count <= |old(Incoming())|
      ensures ok ==> buffer[..count] == old(Incoming())[..count] && Incoming() == old(Incoming())[count..]
    {
      ghost var incoming := Incoming();
      ghost var wasStream := stream;
      var buffered := Min(count, |pending|);
      ghost var front := pending[..buffered];
      forall i | 0 <= i < buffered {
        buffer[i] := pending[i];
      }
      assert buffer[..buffered] == front;
      pending := pending[buffered..];
      if buffered < count {
        ok := ReadExact(buffer, buffered, count);
        if ok {
          assert pending == [] && front + wasStream == incoming;
          assert buffer[..count] == front + wasStream[..count - buffered];
        }
      } else {
        ok := true;
      }
    }

    /** The blocks that one upload request hands to the file writer. */
    method ReceiveSegment(len: nat, buffer: array<Byte>) returns (r: Result<seq<seq<Byte>>, Error>)
      requires buffer.Length > 0
      modifies this, buffer
      ensures r.Ok? <==> len <= |old(Incoming())|
      ensures r.Err? ==> r.error == EndOfStream
      ensures r.Ok? ==> Flatten(r.value) == old(Incoming())[..len] && Incoming() == old(Incoming())[len..]
      ensures r.Ok? ==> Cut(r.value, buffer.Length)
    {
      var blocks: seq<seq<Byte>> := [];
      var remaining := len;
      ghost var incoming := Incoming();
      while remaining > 0
        invariant 0 <= remaining <= len && len - remaining <= |incoming|
        invariant Flatten(blocks) == incoming[..len - remaining] && Incoming() == incoming[len - remaining..]
        invariant Cut(blocks, buffer.Length) && (remaining > 0 ==> AllFull(blocks, buffer.Length))
      {
        var count := Min(remaining, buffer.Length);
        ghost var position := len - remaining;
        var ok := NextBlock(buffer, count);
        if !ok {
          return Err(EndOfStream);
        }
        NextPart(incoming, position, count, blocks, buffer[..count]);
        blocks := blocks + [buffer[..count]];
        remaining := remaining - count;
      }
      return Ok(blocks);
    }
  }

  function Sum(amounts: seq<nat>): nat {
    if amounts == [] then 0 else Sum(amounts[..|amounts| - 1]) + amounts[|amounts| - 1]
  }

  /** The first `n` calls move something each, and together at least `len` bytes. */
  predicate MovedBy(amounts: seq<nat>, len: nat, n: nat) {
    n <= |amounts| && 0 !in amounts[..n] && Sum(amounts[..n]) >= len
  }

  /** The operating system moves `len` bytes before it moves none or fails. */
  ghost predicate Moves(amounts: seq<nat>, len: nat) {
    exists n :: MovedBy(amounts, len, n)
  }

  lemma {:induction false} SumGrows(amounts: seq<nat>, n: nat, m: nat)
    requires n <= m <= |amounts|
    ensures Sum(amounts[..n]) <= Sum(amounts[..m])
    decreases m
  {
    if n < m {
      SumGrows(amounts, n, m - 1);
      assert amounts[..m][..m - 1] == amounts[..m - 1];
    }
  }

  lemma SumStep(amounts: seq<nat>, n: nat)
    requires n < |amounts|
    ensures Sum(amounts[..n + 1]) == Sum(amounts[..n]) + amounts[n]
    ensures 0 in amounts[..n + 1] <==> 0 in amounts[..n] || amounts[n] == 0
  {
    assert amounts[..n + 1] == amounts[..n] + [amounts[n]];
    assert (amounts[..n] + [amounts[n]])[..n] == amounts[..n];
  }

  /** After `n` calls that moved too little, a call that moves nothing or fails ends it. */
  lemma StopsShort(amounts: seq<nat>, len: nat, n: nat)
    requires n <= |amounts| && Sum(amounts[..n]) < len && (n == |amounts| || amounts[n] == 0)
    ensures !Moves(amounts, len)
  {
    forall m: nat
      ensures !MovedBy(amounts, len, m)
    {
      if m <= n {
        SumGrows(amounts, m, n);
      } else if m <= |amounts| {
        assert amounts[n] in amounts[..m];
      }
    }
  }

  /** Enough calls that each move something are enough. */
  lemma {:induction false} EnoughMoves(amounts: seq<nat>, len: nat)
    requires 0 !in amounts && len <= |amounts|
    ensures Moves(amounts, len)
  {
    SumAtLeast(amounts, len);
    assert MovedBy(amounts, len, len);
  }

  lemma {:induction false} SumAtLeast(amounts: seq<nat>, n: nat)
    requires 0 !in amounts && n <= |amounts|
    ensures Sum(amounts[..n]) >= n
    decreases n
  {
    if n > 0 {
      SumAtLeast(amounts, n - 1);
      SumStep(amounts, n - 1);
      assert amounts[n - 1] in amounts;
    }
  }

  /** Every call moves something, and there are as many calls as a block may have bytes. */
  predicate Willing(amounts: seq<nat>, block: nat) {
    0 !in amounts && block <= |amounts|
  }

  /** The operating system supplies every block from `position` to `end`. */
  ghost predicate Supplied(supplies: nat -> seq<nat>, position: nat, end: nat, block: nat)
    requires block > 0
    decreases Max(0, end - position)
  {
    position >= end
    || (var count := Min(end - position, block);
        Moves(supplies(position), count) && Supplied(supplies, position + count, end, block))
  }

  lemma {:induction false} WillingSupplies(supplies: nat -> seq<nat>, position: nat, end: nat, block: nat)
    requires block > 0 && forall p: nat | position <= p < end :: Willing(supplies(p), block)
    ensures Supplied(supplies, position, end, block)
    decreases Max(0, end - position)
  {
    if position < end {
      var count := Min(end - position, block);
      EnoughMoves(supplies(position), count);
      WillingSupplies(supplies, position + count, end, block);
    }
  }

  /** How a transfer of a block ends that the operating system does not carry through. */
  function WriteFailure(accepts: seq<nat>): Error {
    if 0 in accepts then EmptyWrite else IoFailed
  }

  /** The operating system carries the first `n` blocks through. */
  ghost predicate StoresFirst(accepts: seq<seq<nat>>, blocks: seq<seq<Byte>>, n: nat)
    requires n <= |blocks| == |accepts|
  {
    forall k | 0 <= k < n :: Moves(accepts[k], |blocks[k]|)
  }

  /** Block `k` is the first one that it does not carry through. */
  ghost predicate Refused(accepts: seq<seq<nat>>, blocks: seq<seq<Byte>>, k: nat)
    requires k < |blocks| == |accepts|
  {
    StoresFirst(accepts, blocks, k) && !Moves(accepts[k], |blocks[k]|)
  }

  lemma RefusedOnce(accepts: seq<seq<nat>>, blocks: seq<seq<Byte>>, i: nat)
    requires i < |blocks| == |accepts| && Refused(accepts, blocks, i)
    ensures !StoresFirst(accepts, blocks, |blocks|)
    ensures forall k: nat {:trigger Refused(accepts, blocks, k)} | k < |blocks| && Refused(accepts, blocks, k) :: k == i
  {
  }

  lemma NoneRefused(accepts: seq<seq<nat>>, blocks: seq<seq<Byte>>)
    requires |blocks| == |accepts| && StoresFirst(accepts, blocks, |blocks|)
    ensures forall k: nat {:trigger Refused(accepts, blocks, k)} | k < |blocks| :: !Refused(accepts, blocks, k)
  {
  }

  lemma {:induction false} FirstRefused(accepts: seq<seq<nat>>, blocks: seq<seq<Byte>>, n: nat) returns (k: nat)
    requires n <= |blocks| == |accepts| && !StoresFirst(accepts, blocks, n)
    ensures k < n && Refused(accepts, blocks, k)
    decreases n
  {
    if StoresFirst(accepts, blocks, n - 1) {
      k := n - 1;
    } else {
      k := FirstRefused(accepts, blocks, n - 1);
    }
  }

  lemma NextSent(content: seq<Byte>, offset: nat, position: nat, end: nat, blocks: seq<seq<Byte>>, block: seq<Byte>)
    requires offset <= position <= end <= |content| && block == content[position..end]
    requires if position == offset then blocks == [] else Flatten(blocks) == content[offset..position]
    ensures Flatten(blocks + [block]) == content[offset..end]
  {
    FlattenSnoc(blocks, block);
    assert content[offset..position] + content[position..end] == content[offset..end];
  }

  /** One write of a block stores a further part of it. */
  lemma WriteStep(was: seq<Byte>, at: nat, block: seq<Byte>, stored: nat, written: nat)
    requires stored + written <= |block| && at + |block| <= |was|
    ensures Splice(Splice(was, at, block[..stored]), at + stored, block[stored..][..written])
         == Splice(was, at, block[..stored + written])
    ensures block[stored..][written..] == block[stored + written..]
  {
    CutFurther(block, stored, stored + written);
    SpliceTwice(was, at, block[..stored], block[stored..][..written]);
  }

  lemma BlocksSoFar(blocks: seq<seq<Byte>>, i: nat)
    requires i < |blocks|
    ensures Flatten(blocks[..i + 1]) == Flatten(blocks[..i]) + blocks[i]
    ensures |Flatten(blocks[..i + 1])| <= |Flatten(blocks)|
  {
    FlattenStep(blocks, i);
    FlattenSplit(blocks, i + 1);
  }

  /** What the file holds after the first blocks and a part of the next; it is untouched outside of `offset..end`. */
  lemma PartStored(was: seq<Byte>, offset: nat, done: seq<Byte>, part: seq<Byte>, end: nat)
    requires offset + |done| + |part| <= end <= |was|
    ensures Splice(Splice(was, offset, done), offset + |done|, part) == Splice(was, offset, done + part)
    ensures Splice(was, offset, done + part)[..offset] == was[..offset]
    ensures Splice(was, offset, done + part)[end..] == was[end..]
  {
    SpliceTwice(was, offset, done, part);
    SpliceFrame(was, offset, done + part, end);
  }

  class DataFile {
    var content: seq<Byte>

    constructor (content: seq<Byte>)
      ensures this.content == content
    {
      this.content := content;
    }

    /** The operating system stores the first `accept` bytes of the block at most. */
    method PositionalWrite(block: seq<Byte>, at: nat, accept: nat) returns (written: nat)
      requires at + |block| <= |content|
      modifies this
      ensures written == Min(accept, |block|)
      ensures content == Splice(old(content), at, block[..written])
    {
      written := Min(accept, |block|);
      content := Splice(content, at, block[..written]);
    }

    /** Succeeds exactly with the whole block stored; a failure leaves a prefix of it stored and no more. */
    method WriteAllAt(block: seq<Byte>, at: nat, accepts: seq<nat>) returns (r: Result<nat, Error>, ghost stored: nat)
      requires at + |block| <= |content|
      modifies this
      ensures stored <= |block| && content == Splice(old(content), at, block[..stored])
      ensures r.Ok? <==> stored == |block|
      ensures r.Ok? <==> Moves(accepts, |block|)
      ensures r.Ok? ==> r.value == at + |block|
      ensures r.Err? ==> r.error == WriteFailure(accepts)
    {
      var rest, offset, turn := block, at, 0;
      stored := 0;
      ghost var was := content;
      assert Splice(was, at, []) == was;
      while rest != []
        invariant 0 <= turn <= |accepts| && 0 !in accepts[..turn]
        invariant stored <= |block| && offset == at + stored && rest == block[stored..]
        invariant stored == Min(Sum(accepts[..turn]), |block|)
        invariant content == Splice(was, at, block[..stored])
        decreases |rest|
      {
        if turn == |accepts| {
          StopsShort(accepts, |block|, turn);
          assert accepts[..turn] == accepts;
          return Err(IoFailed), stored;
        }
        var written := PositionalWrite(rest, offset, accepts[turn]);
        if written == 0 {
          StopsShort(accepts, |block|, turn);
          assert Splice(content, offset, []) == content;
          return Err(EmptyWrite), stored;
        }
        SumStep(accepts, turn);
        WriteStep(was, at, block, stored, written);
        stored := stored + written;
        offset, rest, turn := offset + written, rest[written..], turn + 1;
      }
      assert MovedBy(accepts, |block|, turn);
      return Ok(offset), stored;
    }

    /** The loop of the file writer; `refused` is the block at which it gives up. */
    method StoreBlocks(blocks: seq<seq<Byte>>, offset: nat, accepts: seq<seq<nat>>)
      returns (r: Result<nat, Error>, ghost refused: nat)
      requires offset + |Flatten(blocks)| <= |content| && |accepts| == |blocks|
      modifies this
      ensures |content| == |old(content)|
      ensures r.Ok? ==> StoresFirst(accepts, blocks, |blocks|) && r.value == offset + |Flatten(blocks)|
      ensures r.Ok? ==> content == Splice(old(content), offset, Flatten(blocks))
      ensures r.Err? ==> refused < |blocks| && Refused(accepts, blocks, refused)
      ensures r.Err? ==> r.error == WriteFailure(accepts[refused])
      ensures content[..offset] == old(content)[..offset]
      ensures content[offset + |Flatten(blocks)|..] == old(content)[offset + |Flatten(blocks)|..]
    {
      var position := offset;
      ghost var was, done := content, [];
      ghost var end := offset + |Flatten(blocks)|;
      assert Splice(was, offset, []) == was;
      for i := 0 to |blocks|
        invariant done == Flatten(blocks[..i]) && position == offset + |done| <= end
        invariant StoresFirst(accepts, blocks, i)
        invariant content == Splice(was, offset, done)
        invariant content[..offset] == was[..offset] && content[end..] == was[end..]
      {
        BlocksSoFar(blocks, i);
        var result, stored := WriteAllAt(blocks[i], position, accepts[i]);
        PartStored(was, offset, done, blocks[i][..stored], end);
        if result.Err? {
          return Err(result.error), i;
        }
        assert blocks[i][..stored] == blocks[i];
        position, done := result.value, done + blocks[i];
      }
      assert blocks[..|blocks|] == blocks;
      return Ok(position), 0;
    }

    /** The file writer of one upload: block after block, and in the end exactly `len` bytes. */
    method WriteBlocks(blocks: seq<seq<Byte>>, offset: nat, len: nat, accepts: seq<seq<nat>>)
      returns (r: Result<nat, Error>)
      requires offset + |Flatten(blocks)| <= |content| && |accepts| == |blocks|
      modifies this
      ensures |content| == |old(content)|
      ensures r.Ok? <==> StoresFirst(accepts, blocks, |blocks|) && |Flatten(blocks)| == len
      ensures r.Ok? ==> content == Splice(old(content), offset, Flatten(blocks)) && r.value == offset + len
      ensures r == Err(LengthMismatch) <==> StoresFirst(accepts, blocks, |blocks|) && |Flatten(blocks)| != len
      ensures forall k: nat {:trigger Refused(accepts, blocks, k)} | k < |blocks| && Refused(accepts, blocks, k) ::
                r == Err(WriteFailure(accepts[k]))
      ensures content[..offset] == old(content)[..offset]
      ensures content[offset + |Flatten(blocks)|..] == old(content)[offset + |Flatten(blocks)|..]
    {
      var position, refused := StoreBlocks(blocks, offset, accepts);
      if position.Err? {
        RefusedOnce(accepts, blocks, refused);
        return Err(position.error);
      }
      NoneRefused(accepts, blocks);
      if position.value != offset + len {
        return Err(LengthMismatch);
      }
      return Ok(position.value);
    }

    /** The operating system fills at most `supply` bytes of `buffer[from..to]`, and none behind the end of the file. */
    method PositionalRead(buffer: array<Byte>, from: nat, to: nat, at: nat, supply: nat) returns (read: nat)
      requires from <= to <= buffer.Length
      modifies buffer
      ensures read == Min(Min(supply, to - from), SaturatingSub(|content|, at))
      ensures forall k | 0 <= k < buffer.Length ::
                buffer[k] == if from <= k < from + read then content[at + k - from] else old(buffer[k])
    {
      read := Min(Min(supply, to - from), SaturatingSub(|content|, at));
      forall i | 0 <= i < read {
        buffer[from + i] := content[at + i];
      }
    }

    /** Fills `buffer[..count]` from the file, however little each read yields. */
    method ReadExactAt(buffer: array<Byte>, count: nat, at: nat, supplies: seq<nat>) returns (r: Result<(), Error>)
      requires count <= buffer.Length
      modifies buffer
      ensures r.Ok? <==> count == 0 || (at + count <= |content| && Moves(supplies, count))
      ensures r.Ok? && count > 0 ==> buffer[..count] == content[at..at + count]
      ensures r == Err(EndOfFile) ==> at + count > |content| || 0 in supplies
      ensures r == Err(IoFailed) ==> |supplies| < count
      ensures r.Err? ==> r.error.EndOfFile? || r.error.IoFailed?
      ensures forall k | count <= k < buffer.Length :: buffer[k] == old(buffer[k])
    {
      var filled, turn := 0, 0;
      while filled < count
        invariant 0 <= filled <= count && 0 <= turn <= |supplies| && turn <= filled
        invariant 0 !in supplies[..turn]
        invariant filled <= Sum(supplies[..turn])
        invariant at + count <= |content| ==> filled == Min(Sum(supplies[..turn]), count)
        invariant filled > 0 ==> at + filled <= |content|
        invariant forall k | 0 <= k < filled :: buffer[k] == content[at + k]
        invariant forall k | count <= k < buffer.Length :: buffer[k] == old(buffer[k])
        decreases count - filled
      {
        if turn == |supplies| {
          if at + count <= |content| {
            StopsShort(supplies, count, turn);
          }
          return Err(IoFailed);
        }
        SumStep(supplies, turn);
        var read := PositionalRead(buffer, filled, count, at + filled, supplies[turn]);
        if read == 0 {
          if at + count <= |content| {
            StopsShort(supplies, count, turn);
          }
          return Err(EndOfFile);
        }
        filled, turn := filled + read, turn + 1;
      }
      assert MovedBy(supplies, count, turn);
      return Ok(());
    }

    /** The reader of one download: the blocks it sends are the segment, in order. */
    method SendSegment(offset: nat, len: nat, buffer: array<Byte>, supplies: nat -> seq<nat>)
      returns (r: Result<seq<seq<Byte>>, Error>)
      requires buffer.Length > 0
      modifies buffer
      ensures r.Ok? <==>
                len == 0 || (offset + len <= |content| && Supplied(supplies, offset, offset + len, buffer.Length))
      ensures r.Ok? && len > 0 ==> Flatten(r.value) == content[offset..offset + len]
      ensures r.Ok? && len == 0 ==> r.value == []
      ensures r.Ok? ==> Cut(r.value, buffer.Length)
    {
      var blocks: seq<seq<Byte>> := [];
      var position := offset;
      while position < offset + len
        invariant offset <= position <= offset + len
        invariant position > offset ==> position <= |content| && Flatten(blocks) == content[offset..position]
        invariant position == offset ==> blocks == []
        invariant Supplied(supplies, offset, offset + len, buffer.Length)
                  <==> Supplied(supplies, position, offset + len, buffer.Length)
        invariant Cut(blocks, buffer.Length) && (position < offset + len ==> AllFull(blocks, buffer.Length))
      {
        var count := Min(offset + len - position, buffer.Length);
        var result := ReadExactAt(buffer, count, position, supplies(position));
        if result.Err? {
          return Err(result.error);
        }
        NextSent(content, offset, position, position + count, blocks, buffer[..count]);
        blocks := blocks + [buffer[..count]];
        position := position + count;
      }
      return Ok(blocks);
    }
  }

  /** One upload request from the socket to the file: exactly the first `len` incoming bytes land at `offset`. */
  method Upload(connection: HttpConnection, file: DataFile, offset: nat, len: nat, buffer: array<Byte>,
                accepts: nat -> seq<nat>)
    returns (r: Result<nat, Error>)
    requires buffer.Length > 0 && offset + len <= |file.content|
    modifies connection, file, buffer
    ensures |file.content| == |old(file.content)|
    ensures r == Err(EndOfStream) <==> len > |old(connection.Incoming())|
    ensures (forall k: nat :: Willing(accepts(k), buffer.Length)) ==>
              (r.Ok? <==> len <= |old(connection.Incoming())|)
    ensures r.Err? && r.error != EndOfStream ==>
              exists k: nat :: !Willing(accepts(k), buffer.Length) && r == Err(WriteFailure(accepts(k)))
    ensures r.Ok? ==> file.content == Splice(old(file.content), offset, old(connection.Incoming())[..len])
    ensures r.Ok? ==> connection.Incoming() == old(connection.Incoming())[len..]
    ensures file.content[..offset] == old(file.content)[..offset]
    ensures file.content[offset + len..] == old(file.content)[offset + len..]
  {
    var blocks := connection.ReceiveSegment(len, buffer);
    if blocks.Err? {
      return Err(blocks.error);
    }
    var lists := seq(|blocks.value|, i requires i >= 0 => accepts(i));
    r := file.WriteBlocks(blocks.value, offset, len, lists);
    if r.Err? {
      ghost var k := FirstRefused(lists, blocks.value, |blocks.value|);
      if Willing(accepts(k), buffer.Length) {
        EnoughMoves(accepts(k), |blocks.value[k]|);
      }
    }
  }
}
