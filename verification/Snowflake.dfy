/**
 Snowflake ids (crates/utils/src/snowflake.rs).

 A transition system over the atomic steps of concurrent callers: reading the clock, drawing a number from the
 wrapping sequence counter, reading the node id.  Any interleaving of any number of callers is a run.
 */
module Snowflake {
  import opened Common
  import opened DivMod

  const NODES: nat := 512
  const SEQUENCES: nat := 4096
  const NANOS_PER_MILLI: nat := 1_000_000
  const NANOS_PER_SEC: nat := 1_000_000_000
  const TWO_TO_43: nat := 0x800_0000_0000
  /** Seconds between the UNIX epoch and the epoch of the ids. */
  const DEFAULT_EPOCH: nat := 1632280000

  // ----- Layout -------------------------------------------------------------------------------

  /** Bitwise or of unsigned words. */
  function Or(a: nat, b: nat): nat {
    if a == 0 && b == 0 then 0
    else 2 * Or(a / 2, b / 2) + (if a % 2 == 1 || b % 2 == 1 then 1 else 0)
  }

  /** `x << 21` on a 64-bit word. */
  function ShiftElapsed(elapsed: nat): nat { elapsed * 0x20_0000 % TWO_TO_64 }

  /** `(elapsed << 21) | ((sequence & 4095) << 9) | node` */
  function Compose(elapsed: nat, sequence: nat, node: nat): nat {
    Or(Or(ShiftElapsed(elapsed), sequence % SEQUENCES * NODES), node)
  }

  lemma {:induction false} OrZero(a: nat)
    ensures Or(a, 0) == a
  {
    if a == 0 {
    } else {
      OrZero(a / 2);
    }
  }

  /** Or adds when the operands share no bit. */
  lemma {:induction false} OrAdds(c: nat, b: nat, k: nat)
    requires b < Pow(2, k)
    ensures Or(c * Pow(2, k), b) == c * Pow(2, k) + b
  {
    if k == 0 {
      OrZero(c);
    } else {
      var a := c * Pow(2, k);
      assert a == 2 * (c * Pow(2, k - 1));
      OrAdds(c, b / 2, k - 1);
    }
  }

  lemma Powers()
    ensures Pow(2, 9) == 512 && Pow(2, 21) == 0x20_0000
  {
    assert Pow(2, 3) == 8 && Pow(2, 5) == 32 && Pow(2, 7) == 128;
    assert Pow(2, 11) == 2048 && Pow(2, 13) == 8192 && Pow(2, 15) == 32768 && Pow(2, 17) == 131072 && Pow(2, 19) == 524288;
  }

  /** The three fields of an id can be read back: 43 bits of milliseconds, 12 of sequence, 9 of node. */
  lemma Fields(elapsed: nat, sequence: nat, node: nat)
    requires node < NODES
    ensures var id := Compose(elapsed, sequence, node);
            && id < 0x1_0000_0000_0000_0000
            && id / 0x20_0000 == elapsed % 0x800_0000_0000
            && id / 512 % 4096 == sequence % 4096
            && id % 512 == node
  {
    hide Or, Pow;
    var top, middle := elapsed % TWO_TO_43, sequence % SEQUENCES;
    assert ShiftElapsed(elapsed) == top * 0x20_0000;
    Powers();
    OrAdds(top, middle * NODES, 21);
    OrAdds(top * 4096 + middle, node, 9);
  }

  lemma FieldsDecide(a: nat, b: nat)
    ensures a == b <==> a / 0x20_0000 == b / 0x20_0000 && a / NODES % SEQUENCES == b / NODES % SEQUENCES && a % NODES == b % NODES
  {
    assert a / 0x20_0000 == a / NODES / SEQUENCES && b / 0x20_0000 == b / NODES / SEQUENCES;
  }

  // ----- Callers ------------------------------------------------------------------------------

  /** What sequence numbers are drawn from: a generator's own counter, or the static one of `global_id`. */
  datatype Source = Generator(index: nat) | Static

  /** `value` wraps; `drawn` is the number of sequence numbers drawn so far. */
  datatype Counter = Counter(value: nat, drawn: nat)

  /**
   A caller in the middle of `generate` (clock first) or of `global_id` and `global_id_from_timestamp` (sequence
   number first).
   */
  datatype Call =
    | HasClock(generator: nat, elapsed: nat)
    | HasSequence(sequence: nat, ticket: nat)
    | HasBoth(source: Source, elapsed: nat, sequence: nat, ticket: nat)

  /** An id with what it was made from; the ticket tells how many numbers its source had given out before its own. */
  datatype Issue = Issue(id: nat, source: Source, elapsed: nat, node: nat, ticket: nat)

  /** All generators of a process, which share the node id; one that has not been used has no counter yet. */
  datatype State = State(counters: map<Source, Counter>, node: nat, calls: map<nat, Call>, issued: seq<Issue>)

  /** For `global_id_from_timestamp` the clock is the one `from_timestamp` arrives at. */
  datatype Event =
    | BeginWithClock(caller: nat, generator: nat, clock: Option<nat>)
    | DrawSequence(caller: nat)
    | ThenClock(caller: nat, clock: Option<nat>)
    | Finish(caller: nat)
    | SetNodeId(node: nat)

  const INITIAL := State(map[], 1, map[], [])

  /** `as_millis() as u64` of the nanoseconds since the epoch. */
  function Millis(nanos: nat): nat { nanos / NANOS_PER_MILLI % TWO_TO_64 }

  /** Every counter starts at zero, that of a cloned generator too. */
  function CounterOf(s: State, source: Source): Counter {
    if source in s.counters then s.counters[source] else Counter(0, 0)
  }

  /** `fetch_add(1)` */
  function Drew(s: State, source: Source): State {
    var c := CounterOf(s, source);
    s.(counters := s.counters[source := Counter((c.value + 1) % TWO_TO_64, c.drawn + 1)])
  }

  /** One atomic step; a step its caller is not ready for does nothing. */
  function Step(s: State, e: Event): State {
    match e
    case BeginWithClock(caller, generator, clock) =>
      if caller in s.calls then s
      else s.(calls := s.calls[caller := HasClock(generator, if clock.Some? then Millis(clock.value) else 0)])
    case DrawSequence(caller) =>
      if caller !in s.calls then
        var c := CounterOf(s, Static);
        Drew(s, Static).(calls := s.calls[caller := HasSequence(c.value, c.drawn)])
      else if s.calls[caller].HasClock? then
        var call := s.calls[caller];
        var source := Generator(call.generator);
        var c := CounterOf(s, source);
        Drew(s, source).(calls := s.calls[caller := HasBoth(source, call.elapsed, c.value, c.drawn)])
      else s
    case ThenClock(caller, clock) =>
      if caller !in s.calls || !s.calls[caller].HasSequence? then s
      else if clock.None? then s.(calls := s.calls - {caller})
      else
        var call := s.calls[caller];
        s.(calls := s.calls[caller := HasBoth(Static, Millis(clock.value), call.sequence, call.ticket)])
    case Finish(caller) =>
      if caller !in s.calls || !s.calls[caller].HasBoth? then s
      else
        var call := s.calls[caller];
        var id := Compose(call.elapsed, call.sequence, s.node);
        s.(calls := s.calls - {caller}, issued := s.issued + [Issue(id, call.source, call.elapsed, s.node, call.ticket)])
    case SetNodeId(node) => s.(node := node % NODES)
  }

  function Run(s: State, events: seq<Event>): State
    decreases |events|
  {
    if events == [] then s else Run(Step(s, events[0]), events[1..])
  }

  // ----- Invariant ----------------------------------------------------------------------------

  ghost predicate GoodTicket(s: State, source: Source, ticket: nat) { ticket < CounterOf(s, source).drawn }

  /** The draw a call holds: its source and its place there. */
  function HeldBy(call: Call): Option<(Source, nat)> {
    match call
    case HasClock(_, _) => None
    case HasSequence(_, ticket) => Some((Static, ticket))
    case HasBoth(source, _, _, ticket) => Some((source, ticket))
  }

  function SpentOn(issue: Issue): (Source, nat) { (issue.source, issue.ticket) }

  ghost predicate GoodCall(s: State, call: Call) {
    HeldBy(call).Some? ==> GoodTicket(s, HeldBy(call).value.0, call.ticket) && call.sequence == call.ticket % TWO_TO_64
  }

  ghost predicate GoodIssue(s: State, issue: Issue) {
    && GoodTicket(s, issue.source, issue.ticket) && issue.node < NODES
    && issue.id == Compose(issue.elapsed, issue.ticket % TWO_TO_64, issue.node)
  }

  ghost predicate Inv(s: State) {
    && (forall source :: CounterOf(s, source).value == CounterOf(s, source).drawn % TWO_TO_64) && s.node < NODES
    && (forall c :: c in s.calls ==> GoodCall(s, s.calls[c]))
    && (forall i :: 0 <= i < |s.issued| ==> GoodIssue(s, s.issued[i]))
  }

  /** No ticket of a source is held or spent twice. */
  ghost predicate TicketsDiffer(s: State) {
    && (forall c, d :: c in s.calls && d in s.calls && c != d && HeldBy(s.calls[c]).Some? ==>
          HeldBy(s.calls[c]) != HeldBy(s.calls[d]))
    && (forall c, i :: c in s.calls && 0 <= i < |s.issued| ==> HeldBy(s.calls[c]) != Some(SpentOn(s.issued[i])))
    && (forall i, j :: 0 <= i < j < |s.issued| ==> SpentOn(s.issued[i]) != SpentOn(s.issued[j]))
  }

  lemma CounterWraps(s: State, source: Source)
    requires Inv(s)
    ensures CounterOf(s, source).value == CounterOf(s, source).drawn % TWO_TO_64
  {}

  /** The source a step draws from, if it draws. */
  function DrawnFrom(s: State, e: Event): Option<Source> {
    if !e.DrawSequence? then None
    else if e.caller !in s.calls then Some(Static)
    else if s.calls[e.caller].HasClock? then Some(Generator(s.calls[e.caller].generator))
    else None
  }

  /** A step moves at most the counter it draws from, by one. */
  lemma CountersMove(s: State, e: Event, source: Source)
    ensures var c := CounterOf(s, source);
            CounterOf(Step(s, e), source)
              == if DrawnFrom(s, e) == Some(source) then Counter((c.value + 1) % TWO_TO_64, c.drawn + 1) else c
  {
    hide Compose, Millis;
  }

  lemma AllCountersMove(s: State, e: Event)
    requires Inv(s)
    ensures forall source :: CounterOf(Step(s, e), source).value == CounterOf(Step(s, e), source).drawn % TWO_TO_64
    ensures forall source, ticket :: GoodTicket(s, source, ticket) ==> GoodTicket(Step(s, e), source, ticket)
  {
    hide CounterOf, Step;
    forall source
      ensures CounterOf(Step(s, e), source).value == CounterOf(Step(s, e), source).drawn % TWO_TO_64
      ensures CounterOf(Step(s, e), source).drawn >= CounterOf(s, source).drawn
    {
      CountersMove(s, e, source);
    }
  }

  lemma StepKeepsInv(s: State, e: Event)
    requires Inv(s)
    ensures Inv(Step(s, e))
  {
    AllCountersMove(s, e);
    if DrawnFrom(s, e).Some? {
      CountersMove(s, e, DrawnFrom(s, e).value);
    }
    hide Compose, Millis, Drew, CounterOf, GoodTicket;
    var s' := Step(s, e);
    forall c | c in s'.calls
      ensures GoodCall(s', s'.calls[c])
    {
      assert c in s.calls ==> GoodCall(s, s.calls[c]);
      NewTicketIsGood(s, e);
    }
    forall i | 0 <= i < |s'.issued|
      ensures GoodIssue(s', s'.issued[i])
    {
      assert i < |s.issued| ==> GoodIssue(s, s.issued[i]);
      assert e.Finish? && e.caller in s.calls ==> GoodCall(s, s.calls[e.caller]);
    }
  }

  /** The number just drawn is good, and newer than every other of its source. */
  lemma NewTicketIsGood(s: State, e: Event)
    requires Inv(s)
    ensures DrawnFrom(s, e).Some? ==>
              var source := DrawnFrom(s, e).value;
              var ticket := CounterOf(s, source).drawn;
              && GoodTicket(Step(s, e), source, ticket) && CounterOf(s, source).value == ticket % TWO_TO_64
              && forall older: nat :: GoodTicket(s, source, older) ==> older < ticket
  {
    if DrawnFrom(s, e).Some? {
      CountersMove(s, e, DrawnFrom(s, e).value);
    }
  }

  /** A caller may take up a ticket nobody holds and nothing was spent on, or one it holds already. */
  lemma HoldKeepsTickets(s: State, caller: nat, call: Call)
    requires TicketsDiffer(s)
    requires (caller in s.calls && HeldBy(s.calls[caller]) == HeldBy(call))
             || (HeldBy(call).Some? ==>
                   && (forall c :: c in s.calls ==> HeldBy(s.calls[c]) != HeldBy(call))
                   && (forall i :: 0 <= i < |s.issued| ==> Some(SpentOn(s.issued[i])) != HeldBy(call)))
    ensures TicketsDiffer(s.(calls := s.calls[caller := call]))
  {
    hide HeldBy, SpentOn;
  }

  /** A caller may give its ticket up, or spend it. */
  lemma SpendKeepsTickets(s: State, caller: nat, issued: seq<Issue>)
    requires TicketsDiffer(s) && caller in s.calls
    requires issued == []
             || (|issued| == 1 && HeldBy(s.calls[caller]) == Some(SpentOn(issued[0])))
    ensures TicketsDiffer(s.(calls := s.calls - {caller}, issued := s.issued + issued))
  {
    hide HeldBy, SpentOn;
  }

  lemma StepKeepsTickets(s: State, e: Event)
    requires Inv(s) && TicketsDiffer(s)
    ensures TicketsDiffer(Step(s, e))
  {
    NewTicketIsGood(s, e);
    hide Compose, Millis, CounterOf, GoodTicket, TicketsDiffer;
    var s' := Step(s, e);
    forall c | c in s.calls
      ensures GoodCall(s, s.calls[c])
    {}
    forall i | 0 <= i < |s.issued|
      ensures GoodIssue(s, s.issued[i])
    {}
    if e.SetNodeId? || s' == s {
      OnlyTicketsMatter(s, s');
    } else if e.caller in s'.calls {
      HoldKeepsTickets(s, e.caller, s'.calls[e.caller]);
      OnlyTicketsMatter(s.(calls := s'.calls), s');
    } else {
      assert s.issued + [] == s.issued;
      SpendKeepsTickets(s, e.caller, if e.Finish? then [s'.issued[|s.issued|]] else []);
    }
  }

  lemma OnlyTicketsMatter(s: State, s': State)
    requires TicketsDiffer(s) && s'.calls == s.calls && s'.issued == s.issued
    ensures TicketsDiffer(s')
  {}

  lemma {:induction false} RunKeepsInv(s: State, events: seq<Event>)
    requires Inv(s) && TicketsDiffer(s)
    ensures Inv(Run(s, events)) && TicketsDiffer(Run(s, events))
    decreases |events|
  {
    hide Inv, TicketsDiffer, Step;
    if events == [] {
    } else {
      StepKeepsInv(s, events[0]);
      StepKeepsTickets(s, events[0]);
      RunKeepsInv(Step(s, events[0]), events[1..]);
    }
  }

  /** What every run from the start keeps of an issued id. */
  lemma IssuedIsGood(events: seq<Event>)
    ensures var s := Run(INITIAL, events);
            && TicketsDiffer(s)
            && forall i :: 0 <= i < |s.issued| ==> GoodIssue(s, s.issued[i])
  {
    RunKeepsInv(INITIAL, events);
  }

  // ----- Theorems -----------------------------------------------------------------------------

  /** The fields of an issued id. */
  lemma IssueFields(events: seq<Event>, i: nat)
    requires i < |Run(INITIAL, events).issued|
    ensures var issue := Run(INITIAL, events).issued[i];
            && issue.id / 0x20_0000 == issue.elapsed % 0x800_0000_0000
            && issue.id / 512 % 4096 == issue.ticket % 4096
            && issue.id % 512 == issue.node
  {
    hide Compose, Step, Run;
    IssuedIsGood(events);
    var s := Run(INITIAL, events);
    var issue := s.issued[i];
    assert GoodIssue(s, issue);
    Fields(issue.elapsed, issue.ticket % TWO_TO_64, issue.node);
    ModOfMod(issue.ticket, 4096, 0x10_0000_0000_0000);
  }

  lemma Congruent(a: nat, b: nat)
    ensures a % SEQUENCES == b % SEQUENCES <==> (a - b) % SEQUENCES == 0
  {}

  /**
   In every interleaving of calls on any generators and on the static counter, two ids coincide exactly if both
   calls read the same millisecond (43 bits of it) and the same node, and their places in the draws of their sources
   agree modulo 4096. Two places in the same source are never equal.
   */
  lemma CollisionsExactly(events: seq<Event>, i: nat, j: nat)
    requires i < j < |Run(INITIAL, events).issued|
    ensures var a, b := Run(INITIAL, events).issued[i], Run(INITIAL, events).issued[j];
            && (a.id == b.id <==> a.elapsed % 0x800_0000_0000 == b.elapsed % 0x800_0000_0000 && a.node == b.node
                                  && (a.ticket - b.ticket) % 4096 == 0)
            && (a.source == b.source ==> a.ticket != b.ticket)
  {
    hide Compose, Step, Run;
    IssuedIsGood(events);
    var s := Run(INITIAL, events);
    IssueFields(events, i);
    IssueFields(events, j);
    FieldsDecide(s.issued[i].id, s.issued[j].id);
    Congruent(s.issued[i].ticket, s.issued[j].ticket);
  }

  /** Among any 4096 consecutive draws of one source all ids differ, whatever the clock and the node settings do. */
  lemma WindowIsUnique(events: seq<Event>, i: nat, j: nat)
    requires i < |Run(INITIAL, events).issued| && j < |Run(INITIAL, events).issued| && i != j
    ensures var a, b := Run(INITIAL, events).issued[i], Run(INITIAL, events).issued[j];
            a.source == b.source && a.id == b.id ==> a.ticket >= b.ticket + 4096 || b.ticket >= a.ticket + 4096
  {
    hide Step, Run;
    if i < j {
      CollisionsExactly(events, i, j);
    } else {
      CollisionsExactly(events, j, i);
    }
  }

  /** The first `generate` and the first `global_id` of a millisecond, one after the other. */
  function FirstOfBoth(clock: nat): seq<Event> {
    [BeginWithClock(0, 0, Some(clock)), DrawSequence(0), Finish(0), DrawSequence(1), ThenClock(1, Some(clock)), Finish(1)]
  }

  /** Across sources uniqueness fails: both calls draw number zero and issue the same id. */
  lemma SourcesCollide(clock: nat)
    ensures var issued := Run(INITIAL, FirstOfBoth(clock)).issued;
            && |issued| == 2 && issued[0].source == Generator(0) && issued[1].source == Static
            && issued[0].ticket == issued[1].ticket == 0 && issued[0].id == issued[1].id
  {
    hide Compose, Millis;
    var e := FirstOfBoth(clock);
    RunThree(INITIAL, e[0], e[1], e[2], e[3..]);
    var s := Step(Step(Step(INITIAL, e[0]), e[1]), e[2]);
    RunThree(s, e[3], e[4], e[5], []);
    assert e == [e[0], e[1], e[2]] + e[3..] && e[3..] == [e[3], e[4], e[5]] + [];
  }

  lemma RunThree(s: State, a: Event, b: Event, c: Event, rest: seq<Event>)
    ensures Run(s, [a, b, c] + rest) == Run(Step(Step(Step(s, a), b), c), rest)
  {
    hide Step;
    var all := [a, b, c] + rest;
    assert all[1..] == [b, c] + rest && all[1..][1..] == [c] + rest && all[1..][1..][1..] == rest;
    assert Run(s, all) == Run(Step(s, a), all[1..]);
    assert Run(Step(s, a), all[1..]) == Run(Step(Step(s, a), b), all[1..][1..]);
  }

  /** Ids issued under different node numbers never collide, even across generators. */
  lemma NodesApart(events: seq<Event>, i: nat, others: seq<Event>, j: nat)
    requires i < |Run(INITIAL, events).issued| && j < |Run(INITIAL, others).issued|
    ensures var a, b := Run(INITIAL, events).issued[i], Run(INITIAL, others).issued[j];
            a.node != b.node ==> a.id != b.id
  {
    hide Run;
    IssueFields(events, i);
    IssueFields(others, j);
  }

  /** The node number of the last setting, cut to nine bits; 1 if there is none. */
  function LastNode(events: seq<Event>): nat {
    if events == [] then 1
    else
      match events[|events| - 1]
      case SetNodeId(node) => node % 512
      case _ => LastNode(events[..|events| - 1])
  }

  lemma {:induction false} RunExtends(s: State, events: seq<Event>, e: Event)
    ensures Run(s, events + [e]) == Step(Run(s, events), e)
    decreases |events|
  {
    hide Step;
    var all := events + [e];
    if events == [] {
      assert all[1..] == [];
      assert Run(s, all) == Run(Step(s, e), []);
    } else {
      assert all[1..] == events[1..] + [e];
      RunExtends(Step(s, events[0]), events[1..], e);
    }
  }

  /** Every id carries the node number that was set last before its call finished. */
  lemma {:induction false} NodeIsLastSet(events: seq<Event>, i: nat)
    ensures Run(INITIAL, events).node == LastNode(events)
    ensures i < |Run(INITIAL, events).issued| ==>
              exists k: nat :: k < |events| && events[k].Finish? && |Run(INITIAL, events[..k]).issued| == i
                               && Run(INITIAL, events).issued[i].node == LastNode(events[..k])
    decreases |events|
  {
    hide Compose, Millis, Run;
    if events == [] {
      assert Run(INITIAL, []) == INITIAL by { NothingRun(); }
    } else {
      var init, last := events[..|events| - 1], events[|events| - 1];
      assert events == init + [last];
      RunExtends(INITIAL, init, last);
      NodeIsLastSet(init, i);
      var before, after := Run(INITIAL, init), Run(INITIAL, events);
      if i < |before.issued| {
        var k: nat :| k < |init| && init[k].Finish? && |Run(INITIAL, init[..k]).issued| == i
                      && before.issued[i].node == LastNode(init[..k]);
        assert events[..k] == init[..k] && events[k] == init[k];
        assert after.issued[i] == before.issued[i];
      } else if i < |after.issued| {
        assert events[..|init|] == init && events[|init|] == last;
      }
    }
  }

  lemma NothingRun()
    ensures Run(INITIAL, []) == INITIAL
  {}

  // ----- One call among others ----------------------------------------------------------------

  predicate By(e: Event, caller: nat) { !e.SetNodeId? && e.caller == caller }

  /** The other callers leave a caller's progress alone. */
  lemma {:induction false} OthersPass(s: State, events: seq<Event>, caller: nat)
    requires forall e :: e in events ==> !By(e, caller)
    ensures var s' := Run(s, events);
            && (caller in s'.calls <==> caller in s.calls)
            && (caller in s.calls ==> s'.calls[caller] == s.calls[caller])
            && s.issued <= s'.issued
            && forall source :: CounterOf(s, source).drawn <= CounterOf(s', source).drawn
    decreases |events|
  {
    hide Compose, Millis, CounterOf;
    if events == [] {
    } else {
      assert !By(events[0], caller);
      forall source
        ensures CounterOf(s, source).drawn <= CounterOf(Step(s, events[0]), source).drawn
      {
        CountersMove(s, events[0], source);
      }
      OthersPass(Step(s, events[0]), events[1..], caller);
    }
  }

  /** `generate`: the id carries the clock read first, the number drawn next and the node id read last. */
  lemma GenerateIssues(s: State, caller: nat, generator: nat, clock: Option<nat>, between: seq<Event>, later: seq<Event>)
    requires Inv(s) && TicketsDiffer(s) && caller !in s.calls
    requires forall e :: e in between + later ==> !By(e, caller)
    ensures var source := Generator(generator);
            var drawing := Run(Step(s, BeginWithClock(caller, generator, clock)), between);
            var ending := Run(Step(drawing, DrawSequence(caller)), later);
            var elapsed := if clock.Some? then clock.value / 1_000_000 % 0x1_0000_0000_0000_0000 else 0;
            var ticket := CounterOf(drawing, source).drawn;
            var issue := Issue(Compose(elapsed, ticket % TWO_TO_64, ending.node), source, elapsed, ending.node, ticket);
            && Step(ending, Finish(caller)).issued == ending.issued + [issue]
            && CounterOf(ending, source).drawn > ticket >= CounterOf(s, source).drawn
            && caller !in Step(ending, Finish(caller)).calls
  {
    hide Compose, Run, Inv, TicketsDiffer, CounterOf;
    var begin := BeginWithClock(caller, generator, clock);
    var started := Step(s, begin);
    StepKeepsInv(s, begin);
    StepKeepsTickets(s, begin);
    RunKeepsInv(started, between);
    OthersPass(started, between, caller);
    var drawing := Run(started, between);
    CounterWraps(drawing, Generator(generator));
    CountersMove(s, begin, Generator(generator));
    CountersMove(drawing, DrawSequence(caller), Generator(generator));
    OthersPass(Step(drawing, DrawSequence(caller)), later, caller);
  }

  /** `global_id`: the number is drawn first, and lost when the clock is before the epoch. */
  lemma GlobalIdIssues(s: State, caller: nat, between: seq<Event>, clock: Option<nat>, later: seq<Event>)
    requires Inv(s) && caller !in s.calls
    requires forall e :: e in between + later ==> !By(e, caller)
    ensures var ticket := CounterOf(s, Static).drawn;
            var reading := Run(Step(s, DrawSequence(caller)), between);
            var read := Step(reading, ThenClock(caller, clock));
            var ending := Run(read, later);
            && CounterOf(read, Static).drawn > ticket
            && (clock.None? ==> caller !in read.calls && Step(ending, Finish(caller)) == ending)
            && (clock.Some? ==>
                  var elapsed := clock.value / 1_000_000 % 0x1_0000_0000_0000_0000;
                  Step(ending, Finish(caller)).issued
                  == ending.issued
                     + [Issue(Compose(elapsed, ticket % TWO_TO_64, ending.node), Static, elapsed, ending.node, ticket)])
  {
    hide Compose, Run, CounterOf;
    var draw := DrawSequence(caller);
    CounterWraps(s, Static);
    CountersMove(s, draw, Static);
    OthersPass(Step(s, draw), between, caller);
    var reading := Run(Step(s, draw), between);
    CountersMove(reading, ThenClock(caller, clock), Static);
    OthersPass(Step(reading, ThenClock(caller, clock)), later, caller);
  }

  // ----- Cuts and timestamps ------------------------------------------------------------------

  /** `past_id` and `from_duration`: the smallest id of the millisecond a period ago. */
  function PastId(clock: Option<nat>, period: nat): Option<nat> {
    if clock.None? || clock.value < period then None else Some(ShiftElapsed(Millis(clock.value - period)))
  }

  /** `from_timestamp` reads the clock twice, in nanoseconds since the UNIX epoch. */
  function FromTimestamp(first: Option<nat>, second: nat, timestamp: nat): Option<nat> {
    if first.None? || first.value / NANOS_PER_SEC < timestamp then None
    else PastId(SinceEpoch(second), (first.value / NANOS_PER_SEC - timestamp) * NANOS_PER_SEC)
  }

  function SinceEpoch(now: nat): Option<nat> {
    if now < DEFAULT_EPOCH * NANOS_PER_SEC then None else Some(now - DEFAULT_EPOCH * NANOS_PER_SEC)
  }

  function ToTimestamp(id: nat): nat { id / 0x20_0000 / 1000 + DEFAULT_EPOCH }

  lemma ShiftedBack(elapsed: nat)
    ensures ShiftElapsed(elapsed) == elapsed % TWO_TO_43 * 0x20_0000
  {}

  lemma MillisWrapped(nanos: nat)
    ensures Millis(nanos) % TWO_TO_43 == nanos / NANOS_PER_MILLI % TWO_TO_43
  {
    ModOfMod(nanos / NANOS_PER_MILLI, 0x800_0000_0000, 0x20_0000);
  }

  /** A past id splits the ids of earlier milliseconds from all others, in the 43 bits kept of the clock. */
  lemma PastIdSeparates(events: seq<Event>, i: nat, clock: nat, period: nat)
    requires i < |Run(INITIAL, events).issued| && period <= clock
    ensures var issue, cut := Run(INITIAL, events).issued[i], PastId(Some(clock), period);
            && cut.Some?
            && (issue.id < cut.value <==>
                issue.elapsed % 0x800_0000_0000 < (clock - period) / 1_000_000 % 0x800_0000_0000)
  {
    hide Run, ShiftElapsed, Millis;
    IssueFields(events, i);
    ShiftedBack(Millis(clock - period));
    MillisWrapped(clock - period);
  }

  /** An id tells the second its clock was read in, until the 43 bits run out. */
  lemma TimestampOfId(events: seq<Event>, i: nat)
    requires i < |Run(INITIAL, events).issued|
    ensures var issue := Run(INITIAL, events).issued[i];
            ToTimestamp(issue.id) == issue.elapsed % 0x800_0000_0000 / 1000 + 1632280000
  {
    hide Run;
    IssueFields(events, i);
  }

  /** A timestamp comes back through its id, late by the seconds that passed between the two clock reads. */
  lemma TimestampRoundTrip(first: nat, second: nat, timestamp: nat)
    requires first <= second < 1632280000 * 1_000_000_000 + 0x800_0000_0000 * 1_000_000
    ensures var id, late := FromTimestamp(Some(first), second, timestamp), second / 1_000_000_000 - first / 1_000_000_000;
            && (id.Some? <==> timestamp <= first / 1_000_000_000 && timestamp + late >= 1632280000)
            && (id.Some? ==> ToTimestamp(id.value) == timestamp + late)
  {
    hide ShiftElapsed, Millis;
    var since := second - DEFAULT_EPOCH * NANOS_PER_SEC;
    var period := (first / NANOS_PER_SEC - timestamp) * NANOS_PER_SEC;
    if timestamp <= first / NANOS_PER_SEC && 0 <= period <= since {
      ShiftedBack(Millis(since - period));
      MillisWrapped(since - period);
    }
  }
}
