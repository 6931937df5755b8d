/** The pool of equally large buffers of one transfer, and why a transfer can never exhaust it. */
module BufferPools {
  import opened Base

  datatype PoolError = EmptyPool | EmptyBuffer | Exhausted | LengthOutOfRange(requested: nat, capacity: nat)

  /** The counters of a pool: every allocated buffer is either available or lent out. */
  datatype Counts = Counts(limit: nat, created: nat, available: nat) {
    predicate Valid() {
      available <= created <= limit
    }

    function Lent(): int {
      created - available
    }

    /** A returned buffer is reused before a new one is created. */
    function Acquired(): Option<Counts> {
      if available > 0 then Some(this.(available := available - 1))
      else if created < limit then Some(this.(created := created + 1))
      else None
    }

    function Returned(n: nat): Counts {
      this.(available := available + n)
    }
  }

  class PooledBuffer {
    const bytes: array<Byte>
    var logicalLen: nat

    constructor (bytes: array<Byte>)
      ensures this.bytes == bytes && logicalLen == 0
    {
      this.bytes := bytes;
      logicalLen := 0;
    }

    method SetLen(len: nat) returns (r: Result<(), PoolError>)
      modifies this
      ensures r == if len <= bytes.Length then Ok(()) else Err(LengthOutOfRange(len, bytes.Length))
      ensures logicalLen == if r.Ok? then len else old(logicalLen)
    {
      if len > bytes.Length {
        return Err(LengthOutOfRange(len, bytes.Length));
      }
      logicalLen := len;
      return Ok(());
    }
  }

  class BufferPool {
    const blockSize: nat
    const bufferCount: nat
    var created: nat
    var available: seq<array<Byte>>
    ghost var lent: set<array<Byte>>

    ghost predicate Valid()
      reads this
    {
      && blockSize > 0
      && |available| + |lent| == created <= bufferCount
      && (forall i | 0 <= i < |available| :: available[i] !in lent && available[i].Length == blockSize)
      && (forall i, j | 0 <= i < j < |available| :: available[i] != available[j])
      && (forall b | b in lent :: b.Length == blockSize)
    }

    function Tally(): Counts
      reads this
    {
      Counts(bufferCount, created, |available|)
    }

    constructor Empty(bufferCount: nat, blockSize: nat)
      requires bufferCount > 0 && blockSize > 0
      ensures Valid() && Tally() == Counts(bufferCount, 0, 0) && lent == {} && this.blockSize == blockSize
    {
      this.blockSize, this.bufferCount := blockSize, bufferCount;
      created, available, lent := 0, [], {};
    }

    static method NewLazy(bufferCount: nat, blockSize: nat) returns (r: Result<BufferPool, PoolError>)
      ensures r.Ok? <==> bufferCount > 0 && blockSize > 0
      ensures r == Err(EmptyPool) <==> bufferCount == 0
      ensures r == Err(EmptyBuffer) <==> bufferCount > 0 && blockSize == 0
      ensures r.Ok? ==> fresh(r.value) && r.value.Valid() && r.value.Tally() == Counts(bufferCount, 0, 0)
      ensures r.Ok? ==> r.value.blockSize == blockSize && r.value.lent == {}
    {
      if bufferCount == 0 {
        return Err(EmptyPool);
      }
      if blockSize == 0 {
        return Err(EmptyBuffer);
      }
      var pool := new BufferPool.Empty(bufferCount, blockSize);
      return Ok(pool);
    }

    /** Fails exactly when all buffers are lent out; never lends a buffer twice. */
    method Acquire() returns (r: Result<PooledBuffer, PoolError>)
      requires Valid()
      modifies this
      ensures Valid()
      ensures r.Ok? <==> |old(lent)| < bufferCount
      ensures r.Ok? ==> fresh(r.value) && r.value.logicalLen == 0 && r.value.bytes.Length == blockSize
      ensures r.Ok? ==> lent == old(lent) + {r.value.bytes} && r.value.bytes !in old(lent)
      ensures r.Ok? ==> Some(Tally()) == old(Tally()).Acquired()
      ensures r.Ok? && old(available) != [] ==> r.value.bytes == old(available)[|old(available)| - 1]
      ensures r.Ok? && old(available) == [] ==>
                fresh(r.value.bytes) && forall k | 0 <= k < blockSize :: r.value.bytes[k] == 0
      ensures r.Err? ==> r.error == Exhausted && lent == old(lent)
      ensures r.Err? ==> Tally() == old(Tally()) && available == old(available)
    {
      var bytes: array<Byte>;
      if available != [] {
        bytes := available[|available| - 1];
        available := available[..|available| - 1];
      } else if created < bufferCount {
        bytes := new Byte[blockSize](_ => 0);
        created := created + 1;
      } else {
        return Err(Exhausted);
      }
      lent := lent + {bytes};
      var buffer := new PooledBuffer(bytes);
      return Ok(buffer);
    }

    /** Dropping a buffer puts its storage on top of the available ones. */
    method Return(buffer: PooledBuffer)
      requires Valid() && buffer.bytes in lent
      modifies this
      ensures Valid()
      ensures lent == old(lent) - {buffer.bytes} && available == old(available) + [buffer.bytes]
      ensures Tally() == old(Tally()).Returned(1)
    {
      lent := lent - {buffer.bytes};
      available := available + [buffer.bytes];
    }
  }

  /** What is returned last is acquired first, with the same storage. */
  method ReuseReturned(pool: BufferPool, buffer: PooledBuffer) returns (again: PooledBuffer)
    requires pool.Valid() && buffer.bytes in pool.lent
    modifies pool
    ensures pool.Valid() && again.bytes == buffer.bytes
    ensures pool.lent == old(pool.lent) && pool.Tally() == old(pool.Tally())
  {
    pool.Return(buffer);
    var r := pool.Acquire();
    again := r.value;
  }
}
