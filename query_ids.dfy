/**
 * The windowed query-id counter of the network layer (network/QueryIds.java).
 * The time source is read twice per call: once to decide whether the
 * 20-second window has passed and once to record the issue time; both
 * readings are parameters. The call sleeps only when the counter cannot be
 * increased, that is at the VarInt bound.
 */
module QueryIds {
  import opened Wrappers
  import opened VarInts

  const ResetTimeMillis: int := 20 * 1000

  /** The counter's fields: the id after the last one issued, and when it was issued. */
  datatype QueryState = QueryState(nextId: VarInt, lastIdTime: int)

  /** A fresh counter. */
  const Initial: QueryState := QueryState(CreateLong(0), 0)

  /** One call's outcome: the new fields, the id answered, and whether it slept. */
  datatype Issue = Issue(state: QueryState, id: VarInt, slept: bool)

  /**
   * nextQueryId: at or past the end of the window the counter restarts and
   * the answer is 0; otherwise the answer is the counter, which advances by
   * one, except at the bound, where the call sleeps a window and restarts.
   */
  function Step(s: QueryState, now: int, later: int): (r: Issue)
    requires s.nextId.Valid()
    ensures r.state.nextId.Valid() && r.id.Valid()
    ensures r.state.lastIdTime == later
    ensures r.id.value + 1 == r.state.nextId.value
    ensures s.lastIdTime + ResetTimeMillis <= now ==> r.id.value == 0 && !r.slept
    ensures s.lastIdTime + ResetTimeMillis > now && s.nextId.value < LongMaxInteger ==>
      r.id.value == s.nextId.value && !r.slept
    ensures s.lastIdTime + ResetTimeMillis > now && s.nextId.value == LongMaxInteger ==>
      r.id.value == 0 && r.slept
  {
    var (next, slept) :=
      if s.lastIdTime + ResetTimeMillis <= now then (CreateLong(1), false)
      else match s.nextId.Increase()
        case Some(n) => (n, false)
        case None => (CreateLong(1), true);
    var id := match next.Decrease()
      case Some(d) => d
      case None => Zero;
    Issue(QueryState(next, later), id, slept)
  }

  /** The outcomes of n successive calls with the clock standing at now. */
  function Run(s: QueryState, now: int, n: nat): (r: seq<Issue>)
    requires s.nextId.Valid()
    ensures |r| == n
    decreases n
  {
    if n == 0 then []
    else
      var first := Step(s, now, now);
      [first] + Run(first.state, now, n - 1)
  }

  /** Inside the window and below the bound, successive calls count up from the counter without sleeping. */
  lemma {:induction false} CountsUpInsideWindow(s: QueryState, now: int, n: nat)
    requires s.nextId.Valid() && s.lastIdTime + ResetTimeMillis > now
    requires s.nextId.value + n <= LongMaxInteger
    ensures forall i :: 0 <= i < n ==> Run(s, now, n)[i].id.value == s.nextId.value + i && !Run(s, now, n)[i].slept
    decreases n
  {
    if n > 0 {
      var first := Step(s, now, now);
      CountsUpInsideWindow(first.state, now, n - 1);
      var rest := Run(first.state, now, n - 1);
      assert Run(s, now, n) == [first] + rest;
      forall i | 0 <= i < n
        ensures Run(s, now, n)[i].id.value == s.nextId.value + i && !Run(s, now, n)[i].slept
      {
        if i > 0 {
          assert Run(s, now, n)[i] == rest[i - 1];
        }
      }
    }
  }

  /** A fresh counter answers 0, 1, ..., n - 1 to n calls at one instant, and never sleeps. */
  lemma FreshCountsUp(now: int, n: nat)
    requires n <= LongMaxInteger
    ensures forall i :: 0 <= i < n ==> Run(Initial, now, n)[i].id.value == i && !Run(Initial, now, n)[i].slept
  {
    if n > 0 {
      var first := Step(Initial, now, now);
      CountsUpInsideWindow(first.state, now, n - 1);
      var rest := Run(first.state, now, n - 1);
      assert Run(Initial, now, n) == [first] + rest;
      forall i | 0 <= i < n
        ensures Run(Initial, now, n)[i].id.value == i && !Run(Initial, now, n)[i].slept
      {
        if i > 0 {
          assert Run(Initial, now, n)[i] == rest[i - 1];
        }
      }
    }
  }

  /** 255 calls at time 0 answer 0..254 without sleeping. */
  lemma FirstWindowOf255()
    ensures forall i :: 0 <= i < 255 ==> Run(Initial, 0, 255)[i].id.value == i && !Run(Initial, 0, 255)[i].slept
  {
    LongMaxValue();
    FreshCountsUp(0, 255);
  }

  /** After a call at time 0, a call at time 20000 starts over at 0. */
  lemma ResetsAfterWindow()
    ensures Step(Step(Initial, 0, 0).state, 20000, 20000).id.value == 0
  {
  }

  /** The counter in place: its fields are reassigned on every call. */
  class QueryIds {
    var nextId: VarInt
    var lastIdTime: int

    ghost predicate Valid()
      reads this
    {
      nextId.Valid()
    }

    function State(): QueryState
      reads this
    {
      QueryState(nextId, lastIdTime)
    }

    constructor()
      ensures Valid() && State() == Initial
    {
      nextId := CreateLong(0);
      lastIdTime := 0;
    }

    /** nextQueryId, with the time source's readings at lines 20 and 28 as now and later. */
    method NextQueryId(now: int, later: int) returns (id: VarInt, slept: bool)
      requires Valid()
      modifies this
      ensures Valid()
      ensures Issue(State(), id, slept) == Step(old(State()), now, later)
    {
      slept := false;
      if lastIdTime + ResetTimeMillis <= now {
        nextId := CreateLong(1);
      } else {
        var increased := nextId.Increase();
        if increased.Some? {
          nextId := increased.value;
        } else {
          // timeSource.sleep(RESET_TIME_MILLIS), then restart the counter
          slept := true;
          nextId := CreateLong(1);
        }
      }
      lastIdTime := later;
      var decreased := nextId.Decrease();
      id := if decreased.Some? then decreased.value else Zero;
    }
  }
}
