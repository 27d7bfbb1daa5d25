/** Machines that are fed one symbol at a time and may report an event after each. */
module Machine {
  import opened Common

  datatype Outcome<S, E> = Outcome(core: S, event: Option<E>)

  datatype Trace<S, E> = Trace(core: S, events: seq<E>)

  function EventSeq<E>(event: Option<E>): seq<E> {
    match event
    case None => []
    case Some(e) => [e]
  }

  /** The machine after a whole input, with every event it reported on the way. */
  function Run<S, E, A>(step: (S, A) -> Outcome<S, E>, s: S, input: seq<A>): Trace<S, E>
    decreases |input|
  {
    if input == [] then Trace(s, [])
    else
      var o := step(s, input[0]);
      var t := Run(step, o.core, input[1..]);
      Trace(t.core, EventSeq(o.event) + t.events)
  }

  /** Running one input frame after the other. */
  function RunFrames<S, E, A>(step: (S, A) -> Outcome<S, E>, s: S, frames: seq<seq<A>>): Trace<S, E>
    decreases |frames|
  {
    if frames == [] then Trace(s, [])
    else
      var first := Run(step, s, frames[0]);
      var rest := RunFrames(step, first.core, frames[1..]);
      Trace(rest.core, first.events + rest.events)
  }

  function Concat<A>(frames: seq<seq<A>>): seq<A> {
    if frames == [] then [] else frames[0] + Concat(frames[1..])
  }

  function Then<S, E>(first: Trace<S, E>, second: Trace<S, E>): Trace<S, E> {
    Trace(second.core, first.events + second.events)
  }

  lemma {:induction false} RunSplits<S, E, A>(step: (S, A) -> Outcome<S, E>, s: S, a: seq<A>, b: seq<A>)
    ensures Run(step, s, a + b) == Then(Run(step, s, a), Run(step, Run(step, s, a).core, b))
    decreases |a|
  {
    if a == [] {
      assert a + b == b;
    } else {
      assert (a + b)[1..] == a[1..] + b;
      RunSplits(step, step(s, a[0]).core, a[1..], b);
    }
  }

  /** Two consecutive runs. */
  lemma RunJoins<S, E, A>(step: (S, A) -> Outcome<S, E>, s: S, a: seq<A>, s1: S, e1: seq<E>, b: seq<A>, s2: S, e2: seq<E>)
    requires Run(step, s, a) == Trace(s1, e1) && Run(step, s1, b) == Trace(s2, e2)
    ensures Run(step, s, a + b) == Trace(s2, e1 + e2)
  {
    RunSplits(step, s, a, b);
  }

  lemma RunNone<S, E, A>(step: (S, A) -> Outcome<S, E>, s: S)
    ensures Run(step, s, []) == Trace(s, [])
  {}

  lemma RunOne<S, E, A>(step: (S, A) -> Outcome<S, E>, s: S, symbol: A)
    ensures Run(step, s, [symbol]) == Trace(step(s, symbol).core, EventSeq(step(s, symbol).event))
  {
    assert Run(step, step(s, symbol).core, []) == Trace(step(s, symbol).core, []);
  }

  /** One more symbol extends a run by one step. */
  lemma RunExtends<S, E, A>(step: (S, A) -> Outcome<S, E>, s: S, input: seq<A>, from: nat, next: nat)
    requires from <= next < |input|
    ensures var t := Run(step, s, input[from..next]);
            var o := step(t.core, input[next]);
            Run(step, s, input[from..next + 1]) == Trace(o.core, t.events + EventSeq(o.event))
  {
    assert input[from..next + 1] == input[from..next] + [input[next]];
    RunSplits(step, s, input[from..next], [input[next]]);
    RunOne(step, Run(step, s, input[from..next]).core, input[next]);
  }

  /** How the input is cut into frames cannot be observed. */
  lemma {:induction false} FramesIrrelevant<S, E, A>(step: (S, A) -> Outcome<S, E>, s: S, frames: seq<seq<A>>)
    ensures RunFrames(step, s, frames) == Run(step, s, Concat(frames))
    decreases |frames|
  {
    if frames == [] {
    } else {
      FramesIrrelevant(step, Run(step, s, frames[0]).core, frames[1..]);
      RunSplits(step, s, frames[0], Concat(frames[1..]));
    }
  }
}
