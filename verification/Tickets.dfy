/** One-time peer tickets and the launch token (auth.rs). Clock readings and random tokens are inputs. */
module Tickets {
  import opened Base

  const TTL_MS: nat := 120_000
  const MAX_PENDING: nat := 64
  const TOKEN_LEN: nat := 16

  type Token = t: seq<bv8> | |t| == TOKEN_LEN witness [0, 0, 0, 0, 0, 0, 0, 0, 0, 0, 0, 0, 0, 0, 0, 0]

  datatype Ticket = Ticket(token: Token, expires: nat)

  // ---- comparing tokens ----

  /** All byte differences, or-ed together. */
  function Difference(left: seq<bv8>, right: seq<bv8>): bv8
    requires |left| == |right|
  {
    if left == [] then 0
    else Difference(left[..|left| - 1], right[..|right| - 1]) | (left[|left| - 1] ^ right[|right| - 1])
  }

  lemma NoDifference(d: bv8, a: bv8, b: bv8)
    ensures d | (a ^ b) == 0 <==> d == 0 && a == b
  {
  }

  lemma {:induction false} DifferenceIsZeroExactlyForEqual(left: seq<bv8>, right: seq<bv8>)
    requires |left| == |right|
    ensures Difference(left, right) == 0 <==> left == right
  {
    if left != [] {
      var l, r := left[..|left| - 1], right[..|right| - 1];
      DifferenceIsZeroExactlyForEqual(l, r);
      NoDifference(Difference(l, r), left[|left| - 1], right[|right| - 1]);
      assert left == l + [left[|left| - 1]] && right == r + [right[|right| - 1]];
    }
  }

  /** Looks at every byte, whatever the earlier ones say. */
  function ConstantTimeEqual(left: Token, right: Token): (r: bool)
    ensures r <==> left == right
  {
    DifferenceIsZeroExactlyForEqual(left, right);
    Difference(left, right) == 0
  }

  // ---- the store as a list ----

  function Live(tickets: seq<Ticket>, now: U64): seq<Ticket> {
    if tickets == [] then []
    else
      var init, last := Live(tickets[..|tickets| - 1], now), tickets[|tickets| - 1];
      if last.expires >= now then init + [last] else init
  }

  /** The position of the last ticket with this token, or the length if there is none. */
  function LastMatch(tickets: seq<Ticket>, token: Token): (i: nat)
    ensures i <= |tickets|
    ensures i < |tickets| ==> tickets[i].token == token && forall j | i < j < |tickets| :: tickets[j].token != token
    ensures i == |tickets| ==> forall j | 0 <= j < |tickets| :: tickets[j].token != token
  {
    if tickets == [] then 0
    else if tickets[|tickets| - 1].token == token then |tickets| - 1
    else
      var i := LastMatch(tickets[..|tickets| - 1], token);
      if i == |tickets| - 1 then |tickets| else i
  }

  function Without(tickets: seq<Ticket>, i: nat): seq<Ticket>
    requires i < |tickets|
  {
    tickets[..i] + tickets[i + 1..]
  }

  function NewTicket(now: U64, token: Token): Ticket {
    Ticket(token, SaturatingAdd(now, TTL_MS))
  }

  datatype Outcome = Outcome(tickets: seq<Ticket>, granted: bool)

  function Issued(tickets: seq<Ticket>, now: U64, token: Token): Outcome {
    var live := Live(tickets, now);
    if |live| < MAX_PENDING then Outcome(live + [NewTicket(now, token)], true) else Outcome(live, false)
  }

  function Consumed(tickets: seq<Ticket>, now: U64, token: Token): Outcome {
    var i := LastMatch(tickets, token);
    if i == |tickets| then Outcome(Live(tickets, now), false)
    else Outcome(Live(Without(tickets, i), now), tickets[i].expires >= now)
  }

  class TicketAuthority {
    const launchToken: Token
    const launchExpires: nat
    var launchUsed: bool
    var tickets: seq<Ticket>

    ghost predicate Valid()
      reads this
    {
      |tickets| <= MAX_PENDING
    }

    constructor (launchToken: Token, launchExpires: nat)
      ensures Valid() && tickets == [] && !launchUsed
      ensures this.launchToken == launchToken && this.launchExpires == launchExpires
    {
      this.launchToken, this.launchExpires := launchToken, launchExpires;
      launchUsed, tickets := false, [];
    }

    method ConsumeLaunchToken(now: U64, token: Token) returns (accepted: bool)
      modifies this`launchUsed
      ensures accepted <==> !old(launchUsed) && LaunchMatches(launchToken, launchExpires, LaunchAttempt(now, token))
      ensures launchUsed <==> old(launchUsed) || accepted
    {
      if now > launchExpires {
        return false;
      }
      if !ConstantTimeEqual(token, launchToken) {
        return false;
      }
      accepted := !launchUsed;
      launchUsed := true;
    }

    method IssueTicket(now: U64, token: Token) returns (ticket: Option<Ticket>)
      requires Valid()
      modifies this`tickets
      ensures Valid()
      ensures Outcome(tickets, ticket.Some?) == Issued(old(tickets), now, token)
      ensures ticket.Some? ==> ticket.value == NewTicket(now, token)
    {
      Prune(now);
      if |tickets| >= MAX_PENDING {
        return None;
      }
      tickets := tickets + [NewTicket(now, token)];
      return Some(NewTicket(now, token));
    }

    /** The loop does not stop at a match, so the last one counts. */
    method ConsumeTicket(now: U64, token: Token) returns (valid: bool)
      requires Valid()
      modifies this`tickets
      ensures Valid()
      ensures Outcome(tickets, valid) == Consumed(old(tickets), now, token)
    {
      var matched := |tickets|;
      for index := 0 to |tickets|
        invariant 0 <= matched < index || matched == |tickets|
        invariant matched == |tickets| ==> forall j | 0 <= j < index :: tickets[j].token != token
        invariant matched < |tickets| ==> tickets[matched].token == token
        invariant matched < |tickets| ==> forall j | matched < j < index :: tickets[j].token != token
      {
        if ConstantTimeEqual(token, tickets[index].token) {
          matched := index;
        }
      }
      assert matched == LastMatch(tickets, token);
      if matched == |tickets| {
        Prune(now);
        return false;
      }
      var ticket := tickets[matched];
      tickets := Without(tickets, matched);
      Prune(now);
      return ticket.expires >= now;
    }

    method Prune(now: U64)
      requires Valid()
      modifies this`tickets
      ensures Valid() && tickets == Live(old(tickets), now)
    {
      LiveFacts(tickets, now);
      tickets := Live(tickets, now);
    }
  }

  // ---- the launch token ----

  datatype LaunchAttempt = LaunchAttempt(now: U64, token: Token)

  predicate LaunchMatches(token: Token, expires: nat, attempt: LaunchAttempt) {
    attempt.now <= expires && attempt.token == token
  }

  /** How many of these attempts, from any number of callers, are accepted. The exchange of the flag is one step. */
  function LaunchAccepted(token: Token, expires: nat, used: bool, attempts: seq<LaunchAttempt>): nat
    decreases |attempts|
  {
    if attempts == [] then 0
    else if !used && LaunchMatches(token, expires, attempts[0]) then
      1 + LaunchAccepted(token, expires, true, attempts[1..])
    else LaunchAccepted(token, expires, used, attempts[1..])
  }

  lemma {:induction false} LaunchAtMostOnce(token: Token, expires: nat, used: bool, attempts: seq<LaunchAttempt>)
    ensures LaunchAccepted(token, expires, used, attempts) <= 1
    ensures LaunchAccepted(token, expires, used, attempts) == 1 <==>
              !used && exists a :: a in attempts && LaunchMatches(token, expires, a)
    decreases |attempts|
  {
    if attempts != [] {
      LaunchAtMostOnce(token, expires, true, attempts[1..]);
      LaunchAtMostOnce(token, expires, used, attempts[1..]);
      assert attempts == [attempts[0]] + attempts[1..];
    }
  }

  // ---- runs ----

  datatype Op = Issue(now: U64, token: Token) | Consume(now: U64, token: Token)

  function Step(tickets: seq<Ticket>, op: Op): Outcome {
    match op
    case Issue(now, token) => Issued(tickets, now, token)
    case Consume(now, token) => Consumed(tickets, now, token)
  }

  function Run(ops: seq<Op>): seq<Ticket> {
    if ops == [] then [] else Step(Run(ops[..|ops| - 1]), ops[|ops| - 1]).tickets
  }

  /** The reference: every ticket issued and not consumed yet, for ever. */
  function Open(ops: seq<Op>): seq<Ticket> {
    if ops == [] then []
    else
      var before, op := ops[..|ops| - 1], ops[|ops| - 1];
      if Step(Run(before), op).granted then OpenAfter(Open(before), op) else Open(before)
  }

  function OpenAfter(open: seq<Ticket>, op: Op): seq<Ticket> {
    match op
    case Issue(now, token) => open + [NewTicket(now, token)]
    case Consume(_, token) =>
      var i := LastMatch(open, token);
      if i < |open| then Without(open, i) else open
  }

  function LastClock(ops: seq<Op>): U64 {
    if ops == [] then 0 else ops[|ops| - 1].now
  }

  ghost predicate ClockAdvances(ops: seq<Op>) {
    forall i, j | 0 <= i <= j < |ops| :: ops[i].now <= ops[j].now
  }

  ghost predicate ByExpiry(tickets: seq<Ticket>) {
    forall i, j | 0 <= i < j < |tickets| :: tickets[i].expires <= tickets[j].expires
  }

  /** A ticket with this token that was issued, not consumed and has not expired. */
  predicate Available(open: seq<Ticket>, token: Token, now: U64) {
    exists t :: t in open && t.token == token && t.expires >= now
  }

  lemma {:induction false} LiveFacts(tickets: seq<Ticket>, now: U64)
    ensures |Live(tickets, now)| <= |tickets|
    ensures forall t :: t in Live(tickets, now) <==> t in tickets && t.expires >= now
  {
    if tickets != [] {
      LiveFacts(tickets[..|tickets| - 1], now);
      assert tickets == tickets[..|tickets| - 1] + [tickets[|tickets| - 1]];
    }
  }

  lemma {:induction false} LiveConcat(a: seq<Ticket>, b: seq<Ticket>, now: U64)
    ensures Live(a + b, now) == Live(a, now) + Live(b, now)
    decreases |b|
  {
    if b == [] {
      assert a + b == a;
    } else {
      var n := |b| - 1;
      LiveConcat(a, b[..n], now);
      assert (a + b)[..|a| + n] == a + b[..n];
    }
  }

  lemma {:induction false} LiveTwice(tickets: seq<Ticket>, early: U64, late: U64)
    requires early <= late
    ensures Live(Live(tickets, early), late) == Live(tickets, late)
  {
    if tickets != [] {
      var init, last := tickets[..|tickets| - 1], tickets[|tickets| - 1];
      LiveTwice(init, early, late);
      if last.expires >= early {
        assert (Live(init, early) + [last])[..|Live(init, early)|] == Live(init, early);
      }
    }
  }

  lemma LiveOne(t: Ticket, now: U64)
    ensures Live([t], now) == if t.expires >= now then [t] else []
  {
    assert [t][..0] == [];
  }

  /**
   * In a list ordered by expiry, the last match is live if any match is; removing it from the list or from the live
   * part is the same.
   */
  lemma {:induction false} LastLiveMatch(open: seq<Ticket>, token: Token, clock: U64)
    requires ByExpiry(open)
    ensures var live := Live(open, clock); var i, k := LastMatch(open, token), LastMatch(live, token);
            && (k < |live| <==> i < |open| && open[i].expires >= clock)
            && (k < |live| ==> live[k] == open[i] && Without(live, k) == Live(Without(open, i), clock))
  {
    var i := LastMatch(open, token);
    LiveFacts(open, clock);
    if i < |open| && open[i].expires >= clock {
      LiveAround(open, i, clock);
      LiveFacts(open[i + 1..], clock);
      MatchBetween(Live(open[..i], clock), open[i], Live(open[i + 1..], clock), token);
    } else {
      NoLiveMatch(open, token, clock);
    }
  }

  lemma {:induction false} LiveAround(open: seq<Ticket>, i: nat, clock: U64)
    requires i < |open|
    ensures Live(open, clock)
         == if open[i].expires >= clock then Live(open[..i], clock) + ([open[i]] + Live(open[i + 1..], clock))
            else Live(Without(open, i), clock)
    ensures Live(Without(open, i), clock) == Live(open[..i], clock) + Live(open[i + 1..], clock)
  {
    var front, back := open[..i], open[i + 1..];
    assert open == front + ([open[i]] + back);
    LiveConcat(front, [open[i]] + back, clock);
    LiveConcat([open[i]], back, clock);
    LiveOne(open[i], clock);
    LiveConcat(front, back, clock);
    assert [] + Live(back, clock) == Live(back, clock);
  }

  lemma {:induction false} NoLiveMatch(open: seq<Ticket>, token: Token, clock: U64)
    requires ByExpiry(open)
    requires var i := LastMatch(open, token); i < |open| ==> open[i].expires < clock
    ensures forall t | t in Live(open, clock) :: t.token != token
  {
    LiveFacts(open, clock);
    forall t | t in Live(open, clock)
      ensures t.token != token
    {
      var j :| 0 <= j < |open| && open[j] == t;
    }
  }

  lemma MatchBetween(front: seq<Ticket>, t: Ticket, back: seq<Ticket>, token: Token)
    requires t.token == token && forall b | b in back :: b.token != token
    ensures LastMatch(front + ([t] + back), token) == |front|
    ensures Without(front + ([t] + back), |front|) == front + back
  {
    var all := front + ([t] + back);
    assert all[|front|] == t;
    assert forall j | |front| < j < |all| :: all[j] == back[j - |front| - 1];
    assert all[..|front|] == front && all[|front| + 1..] == back;
  }

  /** The reference is ordered, and nothing in it outlives a ticket issued now. */
  ghost predicate Ordered(open: seq<Ticket>, clock: U64) {
    ByExpiry(open) && forall t | t in open :: t.expires <= SaturatingAdd(clock, TTL_MS)
  }

  /** While the clock does not go back, the store is the unexpired part of the reference. */
  lemma {:induction false} StoreIsLiveReference(ops: seq<Op>)
    requires ClockAdvances(ops)
    ensures Run(ops) == Live(Open(ops), LastClock(ops)) && Ordered(Open(ops), LastClock(ops))
  {
    if ops != [] {
      var before, op := ops[..|ops| - 1], ops[|ops| - 1];
      assert ClockAdvances(before);
      StoreIsLiveReference(before);
      assert LastClock(before) <= op.now;
      match op {
        case Issue(now, token) => IssueKeepsStore(Open(before), LastClock(before), now, token);
        case Consume(now, token) => ConsumeKeepsStore(Open(before), LastClock(before), now, token);
      }
    }
  }

  /** So a ticket is accepted exactly when one with its token was issued, not consumed and has not expired. */
  lemma {:induction false} AcceptedExactlyWhenAvailable(ops: seq<Op>, now: U64, token: Token)
    requires ClockAdvances(ops) && now >= LastClock(ops)
    ensures Step(Run(ops), Consume(now, token)).granted <==> Available(Open(ops), token, now)
  {
    StoreIsLiveReference(ops);
    GrantedExactly(Open(ops), LastClock(ops), now, token);
  }

  /** The positions of the tickets that have not expired. */
  function Unexpired(tickets: seq<Ticket>, now: U64): set<nat> {
    set i: nat | i < |tickets| && tickets[i].expires >= now
  }

  lemma {:induction false} LiveCounts(tickets: seq<Ticket>, now: U64)
    ensures |Live(tickets, now)| == |Unexpired(tickets, now)|
  {
    if tickets == [] {
      assert Unexpired(tickets, now) == {};
    } else {
      var n := |tickets| - 1;
      LiveCounts(tickets[..n], now);
      assert Unexpired(tickets, now) == Unexpired(tickets[..n], now) + if tickets[n].expires >= now then {n} else {};
    }
  }

  /**
   * A ticket is issued exactly if fewer than 64 that were issued and not consumed have not expired: of those in the
   * store, under any clock, and of all of them while the clock does not go back.
   */
  lemma {:induction false} IssuedExactly(ops: seq<Op>, now: U64, token: Token)
    ensures Step(Run(ops), Issue(now, token)).granted <==> |Unexpired(Run(ops), now)| < 64
    ensures ClockAdvances(ops) && now >= LastClock(ops) ==>
              (Step(Run(ops), Issue(now, token)).granted <==> |Unexpired(Open(ops), now)| < 64)
  {
    LiveCounts(Run(ops), now);
    if ClockAdvances(ops) && now >= LastClock(ops) {
      StoreIsLiveReference(ops);
      LiveTwice(Open(ops), LastClock(ops), now);
      LiveCounts(Open(ops), now);
    }
  }

  lemma {:induction false} GrantedExactly(open: seq<Ticket>, clock: U64, now: U64, token: Token)
    requires ByExpiry(open) && clock <= now
    ensures Consumed(Live(open, clock), now, token).granted <==> Available(open, token, now)
  {
    LastLiveMatch(open, token, clock);
    var i := LastMatch(open, token);
    if i < |open| {
      assert open[i] in open;
      forall t | t in open && t.token == token
        ensures t.expires <= open[i].expires
      {
        var j :| 0 <= j < |open| && open[j] == t;
      }
    }
  }

  lemma OrderedPush(open: seq<Ticket>, clock: U64, now: U64, token: Token)
    requires Ordered(open, clock) && clock <= now
    ensures Ordered(open, now) && Ordered(open + [NewTicket(now, token)], now)
  {
    assert forall i | 0 <= i < |open| :: open[i] in open;
  }

  lemma OrderedWithout(open: seq<Ticket>, i: nat, clock: U64, now: U64)
    requires Ordered(open, clock) && i < |open| && clock <= now
    ensures Ordered(Without(open, i), now)
  {
    var rest := Without(open, i);
    assert forall j | 0 <= j < |rest| :: rest[j] == open[if j < i then j else j + 1];
  }

  lemma {:induction false} IssueKeepsStore(open: seq<Ticket>, clock: U64, now: U64, token: Token)
    requires Ordered(open, clock) && clock <= now
    ensures var o := Issued(Live(open, clock), now, token);
            var after := if o.granted then OpenAfter(open, Issue(now, token)) else open;
            o.tickets == Live(after, now) && Ordered(after, now)
  {
    LiveTwice(open, clock, now);
    LiveConcat(open, [NewTicket(now, token)], now);
    LiveOne(NewTicket(now, token), now);
    OrderedPush(open, clock, now, token);
  }

  lemma {:induction false} ConsumeKeepsStore(open: seq<Ticket>, clock: U64, now: U64, token: Token)
    requires Ordered(open, clock) && clock <= now
    ensures var o := Consumed(Live(open, clock), now, token);
            var after := if o.granted then OpenAfter(open, Consume(now, token)) else open;
            o.tickets == Live(after, now) && Ordered(after, now)
  {
    var i := LastMatch(open, token);
    LastLiveMatch(open, token, clock);
    LiveTwice(open, clock, now);
    if i < |open| {
      LiveTwice(Without(open, i), clock, now);
      LiveAround(open, i, now);
      OrderedWithout(open, i, clock, now);
    }
  }

  // ---- under any clock ----

  function Pending(tickets: seq<Ticket>, token: Token): nat {
    if tickets == [] then 0
    else Pending(tickets[..|tickets| - 1], token) + if tickets[|tickets| - 1].token == token then 1 else 0
  }

  /** Successful issues and consumptions of a token. */
  function Issues(ops: seq<Op>, token: Token): nat {
    if ops == [] then 0
    else
      var before, op := ops[..|ops| - 1], ops[|ops| - 1];
      Issues(before, token) + if op.Issue? && op.token == token && Step(Run(before), op).granted then 1 else 0
  }

  function Successes(ops: seq<Op>, token: Token): nat {
    if ops == [] then 0
    else
      var before, op := ops[..|ops| - 1], ops[|ops| - 1];
      Successes(before, token) + if op.Consume? && op.token == token && Step(Run(before), op).granted then 1 else 0
  }

  lemma {:induction false} PendingConcat(a: seq<Ticket>, b: seq<Ticket>, token: Token)
    ensures Pending(a + b, token) == Pending(a, token) + Pending(b, token)
    decreases |b|
  {
    if b == [] {
      assert a + b == a;
    } else {
      var n := |b| - 1;
      PendingConcat(a, b[..n], token);
      assert (a + b)[..|a| + n] == a + b[..n];
    }
  }

  lemma {:induction false} PendingLive(tickets: seq<Ticket>, now: U64, token: Token)
    ensures Pending(Live(tickets, now), token) <= Pending(tickets, token)
  {
    if tickets != [] {
      var init, last := tickets[..|tickets| - 1], tickets[|tickets| - 1];
      PendingLive(init, now, token);
      PendingConcat(Live(init, now), [last], token);
      assert [last][..0] == [];
    }
  }

  lemma {:induction false} PendingWithout(tickets: seq<Ticket>, i: nat, token: Token)
    requires i < |tickets|
    ensures Pending(Without(tickets, i), token) == Pending(tickets, token) - if tickets[i].token == token then 1 else 0
  {
    var one := [tickets[i]];
    assert tickets == tickets[..i] + (one + tickets[i + 1..]);
    PendingConcat(tickets[..i], one + tickets[i + 1..], token);
    PendingConcat(one, tickets[i + 1..], token);
    PendingConcat(tickets[..i], tickets[i + 1..], token);
    assert one[..0] == [];
  }

  /** However the clock behaves: no ticket opens more than one door, and at most 64 are pending. */
  lemma {:induction false} NeverMoreThanIssued(ops: seq<Op>, token: Token)
    ensures Successes(ops, token) + Pending(Run(ops), token) <= Issues(ops, token)
    ensures |Run(ops)| <= MAX_PENDING
  {
    if ops != [] {
      var before, op := ops[..|ops| - 1], ops[|ops| - 1];
      var tickets := Run(before);
      NeverMoreThanIssued(before, token);
      PendingLive(tickets, op.now, token);
      LiveFacts(tickets, op.now);
      match op
      case Issue(now, t) =>
        PendingConcat(Live(tickets, now), [NewTicket(now, t)], token);
        assert [NewTicket(now, t)][..0] == [];
      case Consume(now, t) =>
        var i := LastMatch(tickets, t);
        if i < |tickets| {
          PendingWithout(tickets, i, token);
          PendingLive(Without(tickets, i), now, token);
          LiveFacts(Without(tickets, i), now);
        }
    }
  }

  // ---- exactly when a ticket is accepted, under any clock ----

  /** Two minutes later, in milliseconds, as far as the clock goes. */
  function ExpiryOf(now: U64): nat {
    if now + 120_000 <= 0xFFFF_FFFF_FFFF_FFFF then now + 120_000 else 0xFFFF_FFFF_FFFF_FFFF
  }

  /** Step `i` issued a ticket with this token. */
  predicate IssuedAt(ops: seq<Op>, i: nat, token: Token) {
    i < |ops| && ops[i].Issue? && ops[i].token == token && Step(Run(ops[..i]), ops[i]).granted
  }

  /** No clock reading after step `i` was past `expires`. */
  predicate NeverPast(ops: seq<Op>, i: nat, expires: nat) {
    forall j | i < j < |ops| :: ops[j].now <= expires
  }

  lemma {:induction false} PendingIsMembership(tickets: seq<Ticket>, token: Token)
    ensures Pending(tickets, token) == 0 <==> forall t | t in tickets :: t.token != token
  {
    if tickets != [] {
      var init, last := tickets[..|tickets| - 1], tickets[|tickets| - 1];
      PendingIsMembership(init, token);
      assert tickets == init + [last];
    }
  }

  lemma {:induction false} IssuesGrow(ops: seq<Op>, i: nat, token: Token)
    requires IssuedAt(ops, i, token)
    ensures Issues(ops, token) >= 1
    decreases |ops|
  {
    var before := ops[..|ops| - 1];
    if i < |ops| - 1 {
      assert before[..i] == ops[..i];
      IssuesGrow(before, i, token);
    }
  }

  /** `t` is the only ticket with its token that may be in the store, and it is there if `present`. */
  ghost predicate Only(tickets: seq<Ticket>, t: Ticket, present: bool) {
    && Pending(tickets, t.token) == (if present then 1 else 0)
    && (t in tickets <==> present)
  }

  lemma {:induction false} OnlyMatches(tickets: seq<Ticket>, t: Ticket, present: bool)
    requires Only(tickets, t, present)
    ensures var i := LastMatch(tickets, t.token);
            if present then i < |tickets| && tickets[i] == t && Only(Without(tickets, i), t, false) else i == |tickets|
  {
    PendingIsMembership(tickets, t.token);
    var i := LastMatch(tickets, t.token);
    if present {
      PendingWithout(tickets, i, t.token);
      PendingIsMembership(Without(tickets, i), t.token);
      OthersRemain(tickets, i, tickets[i]);
    }
  }

  lemma {:induction false} OnlyLive(tickets: seq<Ticket>, t: Ticket, present: bool, now: U64)
    requires Only(tickets, t, present)
    ensures Only(Live(tickets, now), t, present && now <= t.expires)
  {
    LiveFacts(tickets, now);
    PendingLive(tickets, now, t.token);
    PendingIsMembership(Live(tickets, now), t.token);
    if present && now > t.expires {
      OnlyMatches(tickets, t, present);
      PendingIsMembership(Without(tickets, LastMatch(tickets, t.token)), t.token);
      OthersRemain(tickets, LastMatch(tickets, t.token), t);
    }
  }

  lemma OthersRemain(tickets: seq<Ticket>, i: nat, t: Ticket)
    requires i < |tickets| && tickets[i] == t
    ensures forall u | u in tickets && u != t :: u in Without(tickets, i)
  {
    assert tickets == tickets[..i] + ([t] + tickets[i + 1..]);
  }

  lemma {:induction false} OnlyWithout(tickets: seq<Ticket>, i: nat, t: Ticket, present: bool)
    requires Only(tickets, t, present) && i < |tickets| && tickets[i].token != t.token
    ensures Only(Without(tickets, i), t, present)
  {
    PendingWithout(tickets, i, t.token);
    OthersRemain(tickets, i, tickets[i]);
    PendingIsMembership(Without(tickets, i), t.token);
  }

  lemma {:induction false} OnlyPush(tickets: seq<Ticket>, u: Ticket, t: Ticket, present: bool)
    requires Only(tickets, t, present) && u.token != t.token
    ensures Only(tickets + [u], t, present)
  {
    PendingConcat(tickets, [u], t.token);
    assert [u][..0] == [];
  }

  /** One more step: the ticket stays unless it is asked for or the clock is past its expiry. */
  lemma {:induction false} OnlyStep(tickets: seq<Ticket>, op: Op, t: Ticket, present: bool)
    requires Only(tickets, t, present)
    requires op.Issue? && op.token == t.token ==> !Step(tickets, op).granted
    ensures Only(Step(tickets, op).tickets, t,
                 present && op.now <= t.expires && !(op.Consume? && op.token == t.token))
    ensures op.Consume? && op.token == t.token ==> (Step(tickets, op).granted <==> present && op.now <= t.expires)
  {
    match op
    case Issue(now, token) =>
      OnlyLive(tickets, t, present, now);
      if Step(tickets, op).granted {
        OnlyPush(Live(tickets, now), NewTicket(now, token), t, present && now <= t.expires);
      }
    case Consume(now, token) =>
      var i := LastMatch(tickets, token);
      if token == t.token {
        OnlyMatches(tickets, t, present);
        if present {
          OnlyLive(Without(tickets, i), t, false, now);
        } else {
          OnlyLive(tickets, t, false, now);
        }
      } else if i < |tickets| {
        OnlyWithout(tickets, i, t, present);
        OnlyLive(Without(tickets, i), t, present, now);
      } else {
        OnlyLive(tickets, t, present, now);
      }
  }

  /** Right after its issue a ticket is the only one with its token, if none with this token was issued before. */
  lemma {:induction false} OnlyFirst(before: seq<Op>, now: U64, token: Token)
    requires Issues(before, token) == 0 && Issued(Run(before), now, token).granted
    ensures Only(Issued(Run(before), now, token).tickets, NewTicket(now, token), true)
    ensures Successes(before, token) == 0
  {
    var t := NewTicket(now, token);
    var live := Live(Run(before), now);
    NeverMoreThanIssued(before, token);
    PendingLive(Run(before), now, token);
    PendingConcat(live, [t], token);
    assert [t][..0] == [] && (live + [t])[|live|] == t;
  }

  lemma NeverPastStep(ops: seq<Op>, i: nat, expires: nat)
    requires i < |ops| - 1
    ensures NeverPast(ops, i, expires)
       <==> NeverPast(ops[..|ops| - 1], i, expires) && ops[|ops| - 1].now <= expires
  {
  }

  lemma {:induction false} EarlierIssue(ops: seq<Op>, i: nat, token: Token)
    requires i < |ops| - 1 && IssuedAt(ops, i, token)
    ensures IssuedAt(ops[..|ops| - 1], i, token) && Issues(ops[..|ops| - 1], token) >= 1
  {
    assert ops[..|ops| - 1][..i] == ops[..i];
    IssuesGrow(ops[..|ops| - 1], i, token);
  }

  lemma {:induction false} StoredExactly(ops: seq<Op>, i: nat, token: Token)
    requires IssuedAt(ops, i, token) && Issues(ops, token) == 1
    ensures var t := NewTicket(ops[i].now, token);
            Only(Run(ops), t, Successes(ops, token) == 0 && NeverPast(ops, i, t.expires))
    decreases |ops|
  {
    var before, op := ops[..|ops| - 1], ops[|ops| - 1];
    var t := NewTicket(ops[i].now, token);
    if i == |ops| - 1 {
      OnlyFirst(before, op.now, token);
    } else {
      EarlierIssue(ops, i, token);
      StoredExactly(before, i, token);
      NeverPastStep(ops, i, t.expires);
      OnlyStep(Run(before), op, t, Successes(before, token) == 0 && NeverPast(before, i, t.expires));
    }
  }

  /**
   * Whatever the clock does: a ticket that was issued once is accepted exactly if it has not been accepted before, has
   * not expired, and no call in between read a time past its expiry. A token that was never issued is refused.
   */
  lemma {:induction false} AcceptedExactly(ops: seq<Op>, now: U64, token: Token)
    ensures Issues(ops, token) == 0 ==> !Step(Run(ops), Consume(now, token)).granted
    ensures forall i: nat | IssuedAt(ops, i, token) && Issues(ops, token) == 1 ::
              var expires := ExpiryOf(ops[i].now);
              Step(Run(ops), Consume(now, token)).granted
              <==> Successes(ops, token) == 0 && now <= expires && NeverPast(ops, i, expires)
  {
    NeverMoreThanIssued(ops, token);
    PendingIsMembership(Run(ops), token);
    forall i: nat | IssuedAt(ops, i, token) && Issues(ops, token) == 1
      ensures var expires := ExpiryOf(ops[i].now);
              Step(Run(ops), Consume(now, token)).granted
              <==> Successes(ops, token) == 0 && now <= expires && NeverPast(ops, i, expires)
    {
      var t := NewTicket(ops[i].now, token);
      StoredExactly(ops, i, token);
      OnlyStep(Run(ops), Consume(now, token), t, Successes(ops, token) == 0 && NeverPast(ops, i, t.expires));
    }
  }

  /** If the clock goes back, a pruned ticket may be refused although it has not expired again. */
  lemma RefusedAfterClockWentBack(token: Token, other: Token)
    requires token != other
    ensures var ops := [Issue(200_000, token), Consume(320_001, other)];
            && Available(Open(ops), token, 250_000)
            && !Step(Run(ops), Consume(250_000, token)).granted
  {
    var ops := [Issue(200_000, token), Consume(320_001, other)];
    var first := [Issue(200_000, token)];
    assert first[..0] == [] && ops[..1] == first;
    var ticket := Ticket(token, 320_000);
    assert Live([], 200_000) == [] && NewTicket(200_000, token) == ticket;
    assert Issued([], 200_000, token) == Outcome([ticket], true);
    assert Run([]) == [] && Open([]) == [];
    assert Run(first) == [ticket];
    assert Open(first) == [ticket];
    LiveOne(ticket, 320_001);
    assert LastMatch([ticket], other) == 1;
    assert Consumed([ticket], 320_001, other) == Outcome([], false);
    assert Run(ops) == [];
    assert Open(ops) == [ticket];
    assert ticket in Open(ops);
  }
}
