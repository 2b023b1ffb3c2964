/** How much a limited meter lets through over a whole run. */
module RateBound {
  import opened Flow

  /** One call of cifs_flow: the bytes reported, the clock it read, and the clock when its sleep was over. */
  datatype Call = Call(delta: nat, now: nat, wake: nat)

  /** The clock never runs backwards, and a sleep lasts at least as long as asked. */
  predicate Timely(m: Meter, wake: nat, call: Call) {
    m.a <= m.b <= m.c <= wake <= call.now && call.wake >= call.now + Pause(m, call.delta, call.now)
  }

  function After(m: Meter, call: Call): Meter
    requires m.b <= call.now
  {
    Count(m, call.delta, call.now)
  }

  /** A run of calls on the meter `m`, the clock standing at `wake`. */
  predicate Legal(m: Meter, wake: nat, calls: seq<Call>)
    decreases |calls|
  {
    calls == [] || (Timely(m, wake, calls[0]) && Legal(After(m, calls[0]), calls[0].wake, calls[1..]))
  }

  /** How a run ends: the meter, the clock, where the averaging window of the last call began, the flips. */
  datatype End = End(m: Meter, wake: nat, origin: nat, flips: nat)

  function Finish(m: Meter, wake: nat, origin: nat, flips: nat, calls: seq<Call>): End
    requires Legal(m, wake, calls)
    decreases |calls|
  {
    if calls == [] then End(m, wake, origin, flips)
    else Finish(After(m, calls[0]), calls[0].wake, m.a, flips + (if Flips(m, calls[0].now) then 1 else 0), calls[1..])
  }

  // ---------------------------------------------------------------- one call

  lemma {:induction false} MulOrder(k: nat, x: int, y: int)
    requires x <= y
    ensures k * x <= k * y
  {
  }

  lemma {:induction false} MulSum(k: nat, x: int, y: int)
    ensures k * x + k * y == k * (x + y)
  {
  }

  /** After the sleep the bytes counted since the window began are within the limit for the time since then. */
  lemma {:induction false} PauseSuffices(m: Meter, wake: nat, call: Call)
    requires m.limit > 0 && Timely(m, wake, call)
    ensures (m.d + call.delta) * 1_000_000 < m.limit * (call.wake - m.a + 1)
  {
    var q := Quotient((m.d + call.delta) * SECOND, m.limit);
    assert call.wake - m.a >= q;
    MulOrder(m.limit, q + 1, call.wake - m.a + 1);
    MulSum(m.limit, q, 1);
  }

  /** And not one microsecond more is asked for: after any shorter sleep they would not be, and without a limit none
      is asked for at all. */
  lemma {:induction false} PauseIsLeast(m: Meter, delta: nat, now: nat, s: nat)
    requires m.a <= now && s < Pause(m, delta, now)
    ensures m.limit > 0 && (m.d + delta) * 1_000_000 >= m.limit * (now + s - m.a + 1)
  {
    MulOrder(m.limit, now + s - m.a + 1, Quotient((m.d + delta) * SECOND, m.limit));
  }

  /** The newer window never gets older than half a second; when it would, it becomes the older one, with its bytes,
      and an empty one begins. */
  lemma {:induction false} WindowIsShort(m: Meter, delta: nat, now: nat)
    requires m.a <= m.b <= m.c <= now
    ensures var m' := Count(m, delta, now);
      && m'.c == now && m'.b <= now <= m'.b + 500_000 && m'.limit == m.limit && m'.start == m.start
      && if now <= m.b + 500_000 then m'.a == m.a && m'.b == m.b && m'.d == m.d + delta && m'.e == m.e + delta
         else m'.a == m.b && m'.b == now && m'.d == m.e + delta && m'.e == 0
  {
  }

  /** What holds between calls: `flipped` is the clock when the last flip's sleep was over. The bytes older
      than the current windows are paid for by three overlapping spans of time. */
  ghost predicate Paid(m: Meter, wake: nat, flipped: nat, flips: nat) {
    && m.limit > 0
    && m.start <= m.a <= m.b <= flipped <= wake && m.b <= m.c <= wake
    && m.e <= m.d <= m.total
    && 2 * SECOND * (m.total - m.d) + SECOND * (m.d - m.e) <= m.limit * (m.a + m.b + flipped - 3 * m.start + flips)
    && flips * (DEFAULT_INTERVAL + 1) <= m.b - m.start
  }

  ghost predicate Limited(m: Meter, wake: nat, origin: nat, flips: nat) {
    2 * SECOND * m.total < m.limit * (3 * (wake - m.start) + (wake - origin) + flips + 2)
  }

  lemma {:induction false} CallIsLimited(m: Meter, wake: nat, flipped: nat, flips: nat, call: Call)
    requires Paid(m, wake, flipped, flips) && Timely(m, wake, call)
    ensures Limited(After(m, call), call.wake, m.a, flips)
  {
    var k := m.limit;
    PauseSuffices(m, wake, call);
    var past, now := m.a + m.b + flipped - 3 * m.start + flips, call.wake - m.a + 1;
    MulSum(k, past, now);
    MulSum(k, past + now, now);
    MulOrder(k, past + 2 * now, 3 * (call.wake - m.start) + (call.wake - m.a) + flips + 2);
  }

  lemma {:induction false} CallStaysPaid(m: Meter, wake: nat, flipped: nat, flips: nat, call: Call)
    requires Paid(m, wake, flipped, flips) && Timely(m, wake, call)
    ensures Flips(m, call.now) ==> Paid(After(m, call), call.wake, call.wake, flips + 1)
    ensures !Flips(m, call.now) ==> Paid(After(m, call), call.wake, flipped, flips)
  {
    if Flips(m, call.now) {
      var k := m.limit;
      PauseSuffices(m, wake, call);
      var past, now := m.a + m.b + flipped - 3 * m.start + flips, call.wake - m.a + 1;
      MulSum(k, past, now);
      MulOrder(k, past + now, m.b + call.now + call.wake - 3 * m.start + flips + 1);
    }
  }

  // ---------------------------------------------------------------- whole runs

  lemma {:induction false} RunIsLimited(m: Meter, wake: nat, origin: nat, flipped: nat, flips: nat, calls: seq<Call>)
    requires Legal(m, wake, calls) && calls != [] && Paid(m, wake, flipped, flips)
    ensures var end := Finish(m, wake, origin, flips, calls);
      && end.m.limit == m.limit && end.m.start == m.start <= end.origin <= end.wake
      && Limited(end.m, end.wake, end.origin, end.flips)
      && end.flips * (DEFAULT_INTERVAL + 1) <= end.wake - m.start
    decreases |calls|
  {
    var call := calls[0];
    var m' := After(m, call);
    CallIsLimited(m, wake, flipped, flips, call);
    CallStaysPaid(m, wake, flipped, flips, call);
    var flips' := flips + (if Flips(m, call.now) then 1 else 0);
    if |calls| == 1 {
      var span := 3 * (call.wake - m.start) + (call.wake - m.a);
      MulOrder(m.limit, span + flips + 2, span + flips' + 2);
      assert Finish(m', call.wake, m.a, flips', calls[1..]) == End(m', call.wake, m.a, flips');
    } else {
      RunIsLimited(m', call.wake, m.a, if Flips(m, call.now) then call.wake else flipped, flips', calls[1..]);
    }
  }

  /** From a reset meter, whatever is reported whenever: over any run the bytes let through stay below three
      halves of the limit, up to half the last averaging window and half a microsecond a flip; hence below
      twice the limit. */
  lemma {:induction false} LetThroughIsBounded(limit: int, start: nat, calls: seq<Call>)
    requires limit > 0 && Legal(Fresh(limit, start), start, calls) && calls != []
    ensures var end := Finish(Fresh(limit, start), start, start, 0, calls);
      && start <= end.origin <= end.wake && end.flips * 500_001 <= end.wake - start
      && 2_000_000 * end.m.total < limit * (3 * (end.wake - start) + (end.wake - end.origin) + end.flips + 2)
      && 2_000_000 * end.m.total < limit * (4 * (end.wake - start) + end.flips + 2)
  {
    RunIsLimited(Fresh(limit, start), start, start, start, 0, calls);
    var end := Finish(Fresh(limit, start), start, start, 0, calls);
    var span := 3 * (end.wake - start) + (end.wake - end.origin);
    MulOrder(limit, span + end.flips + 2, 4 * (end.wake - start) + end.flips + 2);
  }

  // ---------------------------------------------------------------- when the limit is kept

  /** As long as no window that the averages use has moved on, they see every byte. */
  ghost predicate SeesAll(m: Meter) {
    && m.limit > 0 && m.start <= m.a <= m.b <= m.c
    && (m.a == m.start ==> m.d == m.total) && (m.b == m.start ==> m.a == m.start && m.e == m.total)
  }

  lemma {:induction false} CallStillSeesAll(m: Meter, wake: nat, call: Call)
    requires SeesAll(m) && Timely(m, wake, call)
    ensures SeesAll(After(m, call))
  {
  }

  lemma {:induction false} RunKeepsLimit(m: Meter, wake: nat, origin: nat, flips: nat, calls: seq<Call>)
    requires Legal(m, wake, calls) && calls != [] && SeesAll(m)
    ensures var end := Finish(m, wake, origin, flips, calls);
      && end.m.limit == m.limit && end.m.start == m.start <= end.wake
      && (end.origin == m.start ==> end.m.total * SECOND < m.limit * (end.wake - m.start + 1))
    decreases |calls|
  {
    var call := calls[0];
    var m', flips' := After(m, call), flips + (if Flips(m, call.now) then 1 else 0);
    CallStillSeesAll(m, wake, call);
    if |calls| == 1 {
      assert Finish(m', call.wake, m.a, flips', calls[1..]) == End(m', call.wake, m.a, flips');
      PauseSuffices(m, wake, call);
    } else {
      RunKeepsLimit(m', call.wake, m.a, flips', calls[1..]);
    }
  }

  /** A run whose last call still averaged from the reset on has kept the limit, to the microsecond. */
  lemma {:induction false} LimitIsKept(limit: int, start: nat, calls: seq<Call>)
    requires limit > 0 && Legal(Fresh(limit, start), start, calls) && calls != []
    requires Finish(Fresh(limit, start), start, start, 0, calls).origin == start
    ensures var end := Finish(Fresh(limit, start), start, start, 0, calls);
      start <= end.wake && end.m.total * 1_000_000 < limit * (end.wake - start + 1)
  {
    RunKeepsLimit(Fresh(limit, start), start, start, 0, calls);
  }

  // ---------------------------------------------------------------- the bound is reached

  const PERIOD := 6 * SECOND

  /** Nine seconds' worth of bytes every six seconds. */
  function Greedy(limit: nat, start: nat, i: nat): Call {
    Call(9 * limit, start + PERIOD * i, start + PERIOD * i + if i == 1 then 3 * SECOND else PERIOD)
  }

  function GreedyCalls(limit: nat, start: nat, from: nat, n: nat): (calls: seq<Call>)
    ensures |calls| == n
    decreases n
  {
    if n == 0 then [] else [Greedy(limit, start, from)] + GreedyCalls(limit, start, from + 1, n - 1)
  }

  function GreedyTotal(limit: nat, i: nat): nat {
    if i == 0 then 0 else GreedyTotal(limit, i - 1) + 9 * limit
  }

  /** The meter after `i` greedy calls. */
  function GreedyMeter(limit: nat, start: nat, i: nat): Meter {
    if i == 0 then Fresh(limit, start)
    else Meter(limit, GreedyTotal(limit, i), start, start + PERIOD * (i - 1), start + PERIOD * i, start + PERIOD * i,
               9 * limit, 0)
  }

  function GreedyWake(limit: nat, start: nat, i: nat): nat { if i == 0 then start else Greedy(limit, start, i).wake }

  lemma {:induction false} QuotientExact(q: nat, y: nat)
    requires y > 0
    ensures Quotient(q * y, y) == q
  {
    var r := Quotient(q * y, y);
    if r < q {
      MulOrder(y, r + 1, q);
    } else {
      MulOrder(y, q, r);
    }
    if r > q {
      MulOrder(y, q + 1, r);
    }
  }

  /** What a greedy call is told to sleep. */
  lemma {:induction false} GreedyPause(limit: nat, start: nat, i: nat)
    requires limit > 0
    ensures Pause(GreedyMeter(limit, start, i), 9 * limit, start + PERIOD * (i + 1))
         == if i == 0 then 3 * SECOND else PERIOD
  {
    var m, seconds := GreedyMeter(limit, start, i), if i == 0 then 9 else 18;
    assert m.d + 9 * limit == seconds * limit;
    QuotientExact(seconds * SECOND, limit);
    assert (m.d + 9 * limit) * SECOND == seconds * SECOND * limit;
  }

  lemma {:induction false} GreedyStep(limit: nat, start: nat, i: nat)
    requires limit > 0
    ensures Timely(GreedyMeter(limit, start, i), GreedyWake(limit, start, i), Greedy(limit, start, i + 1))
    ensures After(GreedyMeter(limit, start, i), Greedy(limit, start, i + 1)) == GreedyMeter(limit, start, i + 1)
  {
    hide Pause;
    GreedyPause(limit, start, i);
  }

  lemma {:induction false} GreedyRun(limit: nat, start: nat, i: nat, n: nat, origin: nat, flips: nat)
    requires limit > 0
    ensures Legal(GreedyMeter(limit, start, i), GreedyWake(limit, start, i), GreedyCalls(limit, start, i + 1, n))
    ensures
      var calls := GreedyCalls(limit, start, i + 1, n);
      var end := Finish(GreedyMeter(limit, start, i), GreedyWake(limit, start, i), origin, flips, calls);
      && end.m == GreedyMeter(limit, start, i + n) && end.wake == GreedyWake(limit, start, i + n)
      && end.origin == if n == 0 then origin else GreedyMeter(limit, start, i + n - 1).a
    decreases n
  {
    hide GreedyMeter, GreedyWake, Greedy, Timely, After;
    if n > 0 {
      GreedyStep(limit, start, i);
      var m, call := GreedyMeter(limit, start, i), Greedy(limit, start, i + 1);
      var calls := GreedyCalls(limit, start, i + 1, n);
      assert calls[0] == call && calls[1..] == GreedyCalls(limit, start, i + 2, n - 1);
      GreedyWakes(limit, start, i + 1);
      TimelyOrder(m, GreedyWake(limit, start, i), call);
      GreedyRun(limit, start, i + 1, n - 1, m.a, flips + (if Flips(m, call.now) then 1 else 0));
    }
  }

  lemma {:induction false} GreedyWakes(limit: nat, start: nat, i: nat)
    requires i > 0
    ensures GreedyWake(limit, start, i) == Greedy(limit, start, i).wake
  {
  }

  lemma {:induction false} TimelyOrder(m: Meter, wake: nat, call: Call)
    requires Timely(m, wake, call)
    ensures m.b <= call.now
  {
  }

  /** The condition cannot be dropped, whatever the limit: the third greedy call, the first to average from a later
      time, breaks it. */
  lemma {:induction false} ThirdCallBreaksLimit(limit: nat, start: nat)
    requires limit > 0
    ensures exists calls: seq<Call> ::
      && |calls| == 3 && Legal(Fresh(limit, start), start, calls)
      && var end := Finish(Fresh(limit, start), start, start, 0, calls);
         end.origin == start + PERIOD && end.wake >= start
         && end.m.total * SECOND >= limit * (end.wake - start + 1)
  {
    hide Legal, Finish, GreedyCalls, GreedyTotal;
    var calls := GreedyCalls(limit, start, 1, 3);
    GreedyRun(limit, start, 0, 3, start, 0);
    assert Legal(Fresh(limit, start), start, calls);
    GreedyTotalIs(limit, 3);
  }

  lemma {:induction false} GreedyTotalIs(limit: nat, i: nat)
    ensures GreedyTotal(limit, i) == 9 * (limit * i)
  {
    if i > 0 {
      GreedyTotalIs(limit, i - 1);
      MulSum(limit, i - 1, 1);
    }
  }

  lemma {:induction false} MulScale(k: nat, c: nat, n: nat)
    ensures k * (c * n) == c * (k * n)
  {
  }

  /** The meter does not keep any limit: for every limit and n there is a legal run of n calls that has let through
      exactly one and a half times what the limit allows up to its last call. */
  lemma {:induction false} LimitIsExceeded(limit: nat, start: nat, n: nat)
    requires limit > 0 && n > 0
    ensures exists calls: seq<Call> ::
      && |calls| == n && Legal(Fresh(limit, start), start, calls)
      && var m := Finish(Fresh(limit, start), start, start, 0, calls).m;
         m.c == start + PERIOD * n && 2 * SECOND * m.total == 3 * (limit * (m.c - start))
  {
    hide Legal, Finish, GreedyCalls, GreedyTotal;
    GreedyRun(limit, start, 0, n, start, 0);
    var calls := GreedyCalls(limit, start, 1, n);
    assert Legal(Fresh(limit, start), start, calls);
    GreedyTotalIs(limit, n);
    MulScale(limit, PERIOD, n);
  }
}
