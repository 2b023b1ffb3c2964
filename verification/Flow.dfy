/** flow.c: the transfer meter that averages over two windows a..c and b..c and sleeps to keep a limit. */
module Flow {

  const SECOND := 1_000_000
  const DEFAULT_INTERVAL := 500_000
  const INT_MAX := 0x7FFF_FFFF

  /** The fields of cifs_flow_t that decide what it does; times are microseconds. */
  datatype Meter = Meter(limit: int, total: nat, start: nat, a: nat, b: nat, c: nat, d: nat, e: nat)

  function Fresh(limit: int, now: nat): Meter { Meter(limit, 0, now, now, now, now, 0, 0) }

  /** Unsigned division as the source writes it. */
  function Quotient(x: nat, y: nat): (q: nat)
    requires y > 0
    ensures q * y <= x < q * y + y
  {
    x / y
  }

  /** What the running average over a..now asks to be slept. */
  function Pause(m: Meter, delta: nat, now: nat): nat
    requires m.a <= now
  {
    if m.limit > 0 && Quotient((m.d + delta) * SECOND, m.limit) > now - m.a
    then Quotient((m.d + delta) * SECOND, m.limit) - (now - m.a)
    else 0
  }

  predicate Flips(m: Meter, now: nat)
    requires m.b <= now
  {
    now - m.b > DEFAULT_INTERVAL
  }

  function Count(m: Meter, delta: nat, now: nat): Meter
    requires m.b <= now
  {
    if Flips(m, now)
    then m.(total := m.total + delta, c := now, d := m.e + delta, e := 0, a := m.b, b := now)
    else m.(total := m.total + delta, c := now, d := m.d + delta, e := m.e + delta)
  }

  /** One logged call. */
  datatype Entry = Entry(time: nat, bytes: nat)

  /** The bytes of every call after the first `i`. */
  function Bytes(log: seq<Entry>, i: nat): nat
    requires i <= |log|
    decreases |log| - i
  {
    if i == |log| then 0 else log[i].bytes + Bytes(log, i + 1)
  }

  lemma {:induction false} BytesGrow(log: seq<Entry>, i: nat, entry: Entry)
    requires i <= |log|
    ensures Bytes(log + [entry], i) == Bytes(log, i) + entry.bytes
    decreases |log| - i
  {
    if i < |log| {
      BytesGrow(log, i + 1, entry);
    } else {
      assert Bytes(log + [entry], i + 1) == 0;
    }
  }

  /** Times never run backwards, and the marks are those of the calls that set them. */
  ghost predicate Marks(m: Meter, log: seq<Entry>, ia: nat, ib: nat) {
    && ia <= ib <= |log|
    && m.start <= m.a <= m.b <= m.c
    && m.a == TimeAt(m.start, log, ia) && m.b == TimeAt(m.start, log, ib) && m.c == TimeAt(m.start, log, |log|)
    && (forall k :: 0 <= k < |log| ==> m.start <= log[k].time <= m.c)
    && (forall j, k :: 0 <= j < k < |log| ==> log[j].time <= log[k].time)
  }

  /** When the i-th call was made; the 0-th stands for the reset. */
  function TimeAt(start: nat, log: seq<Entry>, i: nat): nat
    requires i <= |log|
  {
    if i == 0 then start else log[i - 1].time
  }

  /** The windows against the log of all calls: d counts the bytes logged after a, e those after b. */
  ghost predicate Windows(m: Meter, log: seq<Entry>, ia: nat, ib: nat) {
    && Marks(m, log, ia, ib)
    && m.total == Bytes(log, 0) && m.d == Bytes(log, ia) && m.e == Bytes(log, ib)
  }

  lemma {:induction false} CountKeepsMarks(m: Meter, log: seq<Entry>, ia: nat, ib: nat, delta: nat, now: nat)
    requires Marks(m, log, ia, ib) && m.c <= now
    ensures Marks(Count(m, delta, now), log + [Entry(now, delta)],
                  if Flips(m, now) then ib else ia, if Flips(m, now) then |log| + 1 else ib)
  {
  }

  lemma {:induction false} CountKeepsWindows(m: Meter, log: seq<Entry>, ia: nat, ib: nat, delta: nat, now: nat)
    requires Windows(m, log, ia, ib) && m.c <= now
    ensures Windows(Count(m, delta, now), log + [Entry(now, delta)],
                    if Flips(m, now) then ib else ia, if Flips(m, now) then |log| + 1 else ib)
  {
    CountKeepsMarks(m, log, ia, ib, delta, now);
    BytesGrow(log, 0, Entry(now, delta));
    BytesGrow(log, ia, Entry(now, delta));
    BytesGrow(log, ib, Entry(now, delta));
  }

  lemma {:induction false} FreshWindows(now: nat)
    ensures Windows(Fresh(0, now), [], 0, 0)
  {
  }

  lemma {:induction false} WindowsInOrder(m: Meter, log: seq<Entry>, ia: nat, ib: nat)
    requires Windows(m, log, ia, ib)
    ensures m.start <= m.a <= m.b <= m.c
  {
  }

  class FlowControl {
    var limit: int
    var speed: int
    var total: nat
    var time: nat
    var start: nat
    var a: nat
    var b: nat
    var c: nat
    var interval: nat
    var d: int
    var e: int
    ghost var log: seq<Entry>
    ghost var ia: nat
    ghost var ib: nat

    ghost predicate Valid()
      reads this
    {
      && interval == DEFAULT_INTERVAL && 0 <= d && 0 <= e && Windows(State(), log, ia, ib)
    }

    ghost function State(): Meter
      requires 0 <= d && 0 <= e
      reads this
    {
      Meter(limit, total, start, a, b, c, d, e)
    }

    /** cifs_flow_reset at the time `now`; the limit is zeroed with everything else. */
    method Reset(now: nat)
      modifies this
      ensures Valid() && State() == Fresh(0, now) && log == []
    {
      hide Windows;
      FreshWindows(now);
      limit, speed, total, time, d, e := 0, 0, 0, 0, 0, 0;
      interval := DEFAULT_INTERVAL;
      start := now;
      a, b, c := start, start, start;
      log, ia, ib := [], 0, 0;
    }

    /** Lines 35-52: counts the bytes and moves the windows on. */
    method Account(delta: nat, now: nat)
      requires Valid() && c <= now && d + delta <= INT_MAX
      modifies `total, `a, `b, `c, `d, `e, `log, `ia, `ib
      ensures Valid() && State() == Count(old(State()), delta, now) && log == old(log) + [Entry(now, delta)]
    {
      hide Windows;
      ghost var m, was, i, j := State(), log, ia, ib;
      WindowsInOrder(m, was, i, j);
      total := total + delta;
      d := d + delta;
      e := e + delta;
      c := now;
      if c - b > interval {
        d := e;
        e := 0;
        a := b;
        b := c;
        ia, ib := ib, |log| + 1;
      }
      log := log + [Entry(now, delta)];
      assert State() == Count(m, delta, now);
      CountKeepsWindows(m, was, i, j, delta, now);
    }

    /** cifs_flow. `now` is the clock reading it takes, `sleep` the microseconds it passes to cifs_sleep.
        The counters d and e are C ints: the caller must not let two windows' worth of bytes overflow them. */
    method Flow(delta: nat, now: nat) returns (r: int, sleep: nat)
      requires Valid() && c <= now && d + delta <= INT_MAX
      modifies this
      ensures Valid() && State() == Count(old(State()), delta, now) && log == old(log) + [Entry(now, delta)]
      ensures sleep == Pause(old(State()), delta, now)
      ensures time == (now - start) / 1_000_000
      ensures speed == if now > old(a) then Int32(Quotient((old(d) + delta) * 1_000_000, now - old(a))) else 0
      ensures r == if e == 0 then 1 else 0
    {
      hide Windows;
      WindowsInOrder(State(), log, ia, ib);
      var x := (d + delta) * SECOND;
      var t := now - a;
      Account(delta, now);
      time := (c - start) / SECOND;
      speed := if t > 0 then Int32(Quotient(x, t)) else 0;
      sleep := 0;
      if limit > 0 {
        var w := Quotient(x, limit);
        if w > t { sleep := w - t; }
      }
      r := if e == 0 then 1 else 0;
    }
  }

  /** Conversion of a 64-bit value to the int field `speed`. */
  function Int32(v: nat): (r: int)
    ensures -0x8000_0000 <= r < 0x8000_0000 && (v - r) % 0x1_0000_0000 == 0
  {
    if v % 0x1_0000_0000 <= INT_MAX then v % 0x1_0000_0000 else v % 0x1_0000_0000 - 0x1_0000_0000
  }
}
