/** The one-time tokens of the WebTransport connections of a transfer. */
module ConnectionTokens {
  import opened Base

  datatype Direction = Send | Receive

  /** What a transfer was set up for; one expected token for each connection. */
  datatype Terms = Terms(webTransport: bool, direction: Direction, peer: string, expected: seq<seq<Byte>>)

  /** A request to open a connection, with what it finds of the cancelled flag and of the two time limits. */
  datatype Attempt = Attempt(
    index: nat,
    token: seq<Byte>,
    direction: Direction,
    peer: string,
    cancelled: bool,
    inTime: bool
  )

  datatype Refusal = OtherPlane | OtherDirection | OtherPeer | Cancelled | BadIndex | BadToken | Expired | Consumed

  /** Everything but the flag of the token is right. */
  predicate Fits(terms: Terms, attempt: Attempt) {
    && terms.webTransport && terms.direction == attempt.direction && terms.peer == attempt.peer
    && !attempt.cancelled && attempt.inTime
    && attempt.index < |terms.expected| && terms.expected[attempt.index] == attempt.token
  }

  predicate Admits(consumed: seq<bool>, terms: Terms, attempt: Attempt)
    requires |consumed| == |terms.expected|
  {
    Fits(terms, attempt) && !consumed[attempt.index]
  }

  class Tokens {
    const terms: Terms
    var consumed: seq<bool>

    ghost predicate Valid()
      reads this
    {
      |consumed| == |terms.expected|
    }

    constructor (terms: Terms)
      ensures Valid() && this.terms == terms && forall i | 0 <= i < |consumed| :: !consumed[i]
    {
      this.terms := terms;
      consumed := seq(|terms.expected|, _ => false);
    }

    method Consume(attempt: Attempt) returns (r: Result<(), Refusal>)
      requires Valid()
      modifies this`consumed
      ensures Valid()
      ensures r.Ok? <==> Admits(old(consumed), terms, attempt)
      ensures r == Err(Consumed) <==> Fits(terms, attempt) && old(consumed)[attempt.index]
      ensures consumed == if r.Ok? then old(consumed)[attempt.index := true] else old(consumed)
    {
      if !terms.webTransport {
        return Err(OtherPlane);
      }
      if terms.direction != attempt.direction {
        return Err(OtherDirection);
      }
      if terms.peer != attempt.peer {
        return Err(OtherPeer);
      }
      if attempt.cancelled {
        return Err(Cancelled);
      }
      if attempt.index >= |terms.expected| {
        return Err(BadIndex);
      }
      if terms.expected[attempt.index] != attempt.token {
        return Err(BadToken);
      }
      if !attempt.inTime {
        return Err(Expired);
      }
      if consumed[attempt.index] {
        return Err(Consumed);
      }
      consumed := consumed[attempt.index := true];
      return Ok(());
    }
  }

  /** How many of a series of attempts are admitted as connection `index`. */
  function Admitted(consumed: seq<bool>, terms: Terms, attempts: seq<Attempt>, index: nat): nat
    requires |consumed| == |terms.expected|
    decreases |attempts|
  {
    if attempts == [] then 0
    else if Admits(consumed, terms, attempts[0]) then
      (if attempts[0].index == index then 1 else 0)
      + Admitted(consumed[attempts[0].index := true], terms, attempts[1..], index)
    else Admitted(consumed, terms, attempts[1..], index)
  }

  ghost predicate SomeFits(terms: Terms, attempts: seq<Attempt>, index: nat) {
    exists a :: a in attempts && a.index == index && Fits(terms, a)
  }

  /**
   * No token opens two connections, whoever presents it and in whatever order; one connection opens exactly if some
   * attempt with its token comes from the right peer, for the right direction, in time and before a cancellation.
   */
  lemma {:induction false} AtMostOneConnection(consumed: seq<bool>, terms: Terms, attempts: seq<Attempt>, index: nat)
    requires |consumed| == |terms.expected|
    ensures Admitted(consumed, terms, attempts, index) <= 1
    ensures Admitted(consumed, terms, attempts, index) == 1 <==>
              index < |consumed| && !consumed[index] && SomeFits(terms, attempts, index)
    decreases |attempts|
  {
    if attempts != [] {
      var first, rest := attempts[0], attempts[1..];
      if Admits(consumed, terms, first) {
        AtMostOneConnection(consumed[first.index := true], terms, rest, index);
      } else {
        AtMostOneConnection(consumed, terms, rest, index);
      }
      assert attempts == [first] + rest;
    }
  }
}
