/**
 * The occupancy counter of the simulated sensor: a running count of the people
 * in the room, updated once per simulated step by an entry that may fire and
 * then an exit that may fire. The random draws of a step are inputs here.
 */
module Occupancy {

  /** Largest occupancy the simulation allows. */
  const MaxPeople: int := 20

  /** The range the reloaded store is checked against: 0 to MaxPeople inclusive. */
  predicate InRange(count: int) {
    0 <= count <= MaxPeople
  }

  /** The outcome of the two random draws of one step (entry draw, exit draw). */
  datatype Draw = Draw(enter: bool, leave: bool)

  /** What one step records: the 0/1 entry and exit flags and the count after the step. */
  datatype Outcome = Outcome(entry: int, exit: int, count: int)

  /**
   * One step of the counter. The entry is tried first and is taken only when
   * its draw succeeds and the room is not full; the exit is tried on the count
   * after the entry and is taken only when its draw succeeds and the room is
   * not empty.
   */
  function Step(count: int, d: Draw): (o: Outcome)
    ensures 0 <= o.entry <= 1 && 0 <= o.exit <= 1
    ensures o.count == count + o.entry - o.exit
    ensures InRange(count) ==> InRange(o.count)
  {
    var entry := if d.enter && count < MaxPeople then 1 else 0;
    var exit := if d.leave && count + entry > 0 then 1 else 0;
    Outcome(entry, exit, count + entry - exit)
  }

  /** Entry before exit: when each of the two flags is set. */
  lemma StepGuards(count: int, d: Draw)
    ensures Step(count, d).entry == 1 <==> d.enter && count < MaxPeople
    ensures Step(count, d).exit == 1 <==> d.leave && count + Step(count, d).entry > 0
  {
  }

  /** From an empty room both flags can be set in the same step; in a full room no entry is taken. */
  lemma StepCorners(d: Draw)
    ensures Step(0, Draw(true, true)) == Outcome(1, 1, 0)
    ensures Step(0, Draw(false, true)) == Outcome(0, 0, 0)
    ensures Step(MaxPeople, d).entry == 0
    ensures Step(MaxPeople, d).count == if d.leave then MaxPeople - 1 else MaxPeople
  {
  }

  /** The count after running the given draws in order, starting from `start`. */
  function CountAfter(start: int, draws: seq<Draw>): (c: int)
    ensures InRange(start) ==> InRange(c)
    decreases |draws|
  {
    if draws == [] then start
    else Step(CountAfter(start, draws[..|draws| - 1]), draws[|draws| - 1]).count
  }

  /**
   * The outcomes of the steps, one per draw, in step order: each records 0/1
   * entry and exit flags and, from an in-range start, an in-range count.
   */
  function Trace(start: int, draws: seq<Draw>): (t: seq<Outcome>)
    ensures |t| == |draws|
    ensures forall k :: 0 <= k < |t| ==> 0 <= t[k].entry <= 1 && 0 <= t[k].exit <= 1
    ensures InRange(start) ==> forall k :: 0 <= k < |t| ==> InRange(t[k].count)
    decreases |draws|
  {
    if draws == [] then []
    else
      var before := draws[..|draws| - 1];
      Trace(start, before) + [Step(CountAfter(start, before), draws[|draws| - 1])]
  }

  /** Sum of the entry flags of a trace. */
  function Entries(t: seq<Outcome>): int
  {
    if t == [] then 0 else Entries(t[..|t| - 1]) + t[|t| - 1].entry
  }

  /** Sum of the exit flags of a trace. */
  function Exits(t: seq<Outcome>): int
  {
    if t == [] then 0 else Exits(t[..|t| - 1]) + t[|t| - 1].exit
  }

  /**
   * Step k of the trace is the step taken from the count after the first k
   * draws, and leaves the count after the first k + 1 draws.
   */
  lemma {:induction false} TraceAt(start: int, draws: seq<Draw>, k: nat)
    requires k < |draws|
    ensures Trace(start, draws)[k] == Step(CountAfter(start, draws[..k]), draws[k])
    ensures Trace(start, draws)[k].count == CountAfter(start, draws[..k + 1])
    decreases |draws|
  {
    var n := |draws|;
    var before := draws[..n - 1];
    assert draws[..k + 1][..k] == draws[..k];
    if k < n - 1 {
      assert before[..k] == draws[..k] && before[k] == draws[k];
      TraceAt(start, before, k);
    } else {
      assert before == draws[..k];
    }
  }

  /**
   * Conservation: the count after all steps is the start count plus every
   * entry taken minus every exit taken.
   */
  lemma {:induction false} Conservation(start: int, draws: seq<Draw>)
    ensures CountAfter(start, draws) == start + Entries(Trace(start, draws)) - Exits(Trace(start, draws))
    decreases |draws|
  {
    if draws != [] {
      var before := draws[..|draws| - 1];
      Conservation(start, before);
      var t := Trace(start, draws);
      assert t[..|t| - 1] == Trace(start, before);
    }
  }

  /** Counting from an empty room, the final count is total entries minus total exits. */
  lemma {:induction false} FromEmpty(draws: seq<Draw>)
    ensures InRange(CountAfter(0, draws))
    ensures CountAfter(0, draws) == Entries(Trace(0, draws)) - Exits(Trace(0, draws))
  {
    Conservation(0, draws);
  }
}
