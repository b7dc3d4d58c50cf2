/**
 The input rate limiter: a fixed window with a credit of grace at the start. Times are nanoseconds
 of a clock that never goes back.
 */
module RateLimit {

  /** What is allowed: `amount` charged per `frequency`; a read of up to `readCap` bytes is charged 1. */
  datatype Limits = Limits(amount: nat, frequency: nat, readCap: nat)

  datatype Counter = Counter(numRead: int, timeRead: int)

  /** A read of n bytes at a time. */
  datatype Call = Call(now: int, n: nat)

  const SECOND: int := 1_000_000_000
  const GRACE: int := 1024 * 1024
  const DEFAULT: Limits := Limits(32768, 60 * SECOND, 128)

  function Charge(l: Limits, n: nat): nat {
    if n <= l.readCap then 1 else n
  }

  function Step(l: Limits, s: Counter, c: Call): Counter {
    var open := if c.now > s.timeRead then Counter(0, c.now + l.frequency) else s;
    open.(numRead := open.numRead + Charge(l, c.n))
  }

  /** Whether a call that left the counter in state s was let through. */
  predicate Allows(l: Limits, s: Counter) {
    s.numRead <= l.amount
  }

  class InputLimiter {
    const limits: Limits
    var numRead: int
    var timeRead: int

    function State(): Counter
      reads this
    {
      Counter(numRead, timeRead)
    }

    constructor (now: int)
      ensures limits == DEFAULT && State() == Counter(-GRACE, now + 3 * SECOND)
      ensures limits == Limits(32768, 60_000_000_000, 128) && numRead == -1_048_576 && timeRead == now + 3_000_000_000
    {
      limits := DEFAULT;
      numRead := -GRACE;
      timeRead := now + 3 * SECOND;
    }

    method Count(n: nat, now: int) returns (ok: bool)
      modifies this
      ensures State() == Step(limits, old(State()), Call(now, n))
      ensures ok <==> Allows(limits, State())
      ensures timeRead == if now > old(timeRead) then now + limits.frequency else old(timeRead)
      ensures numRead == (if now > old(timeRead) then 0 else old(numRead)) + if n <= limits.readCap then 1 else n
      ensures ok <==> numRead <= limits.amount
    {
      if now > timeRead {
        numRead := 0;
        timeRead := now + limits.frequency;
      }
      if n <= limits.readCap {
        numRead := numRead + 1;
      } else {
        numRead := numRead + n;
      }
      ok := numRead <= limits.amount;
    }
  }

  // ---------- runs ----------

  predicate Monotone(calls: seq<Call>) {
    forall i, j :: 0 <= i < j < |calls| ==> calls[i].now <= calls[j].now
  }

  /** The charge let through between the times a and b. */
  function Accepted(l: Limits, s: Counter, calls: seq<Call>, a: int, b: int): nat
    decreases |calls|
  {
    if calls == [] then 0
    else
      var s' := Step(l, s, calls[0]);
      (if Allows(l, s') && a <= calls[0].now <= b then Charge(l, calls[0].n) else 0) + Accepted(l, s', calls[1..], a, b)
  }

  /** The bytes let through between the times a and b. */
  function AcceptedBytes(l: Limits, s: Counter, calls: seq<Call>, a: int, b: int): nat
    decreases |calls|
  {
    if calls == [] then 0
    else
      var s' := Step(l, s, calls[0]);
      (if Allows(l, s') && a <= calls[0].now <= b then calls[0].n else 0) + AcceptedBytes(l, s', calls[1..], a, b)
  }

  /** What the current window still lets through. */
  function Left(l: Limits, s: Counter): nat {
    if s.numRead <= l.amount then l.amount - s.numRead else 0
  }

  /** Nothing is counted outside the interval. */
  lemma {:induction false} NothingAfter(l: Limits, s: Counter, calls: seq<Call>, a: int, b: int)
    requires Monotone(calls) && (calls != [] ==> b < calls[0].now)
    ensures Accepted(l, s, calls, a, b) == 0
    decreases |calls|
  {
    if calls != [] {
      NothingAfter(l, Step(l, s, calls[0]), calls[1..], a, b);
    }
  }

  /** Once in the interval, the current window and at most one more let anything through. */
  lemma {:induction false} TwoWindows(l: Limits, s: Counter, calls: seq<Call>, a: int)
    requires Monotone(calls) && (calls != [] ==> a <= calls[0].now)
    ensures Accepted(l, s, calls, a, a + l.frequency) <=
            Left(l, s) + (if s.timeRead < a + l.frequency then l.amount else 0)
    decreases |calls|
  {
    var b := a + l.frequency;
    if calls != [] {
      if calls[0].now <= b {
        TwoWindows(l, Step(l, s, calls[0]), calls[1..], a);
      } else {
        NothingAfter(l, s, calls, a, b);
      }
    }
  }

  /**
   However reads are timed, no interval of one period lets more through than two windows' worth
   and what is left of the credit: with none left (numRead >= 0, as after any reset) 2 * amount.
   */
  lemma {:induction false} SlidingBound(l: Limits, s: Counter, calls: seq<Call>, a: int, credit: nat)
    requires Monotone(calls) && 0 <= s.numRead + credit
    ensures Accepted(l, s, calls, a, a + l.frequency) <= 2 * l.amount + credit
    decreases |calls|
  {
    if calls == [] || a <= calls[0].now {
      TwoWindows(l, s, calls, a);
    } else {
      SlidingBound(l, Step(l, s, calls[0]), calls[1..], a, credit);
    }
  }

  lemma {:induction false} BytesPerCharge(l: Limits, s: Counter, calls: seq<Call>, a: int, b: int)
    requires l.readCap >= 1
    ensures AcceptedBytes(l, s, calls, a, b) <= l.readCap * Accepted(l, s, calls, a, b)
    decreases |calls|
  {
    if calls != [] {
      var s', n := Step(l, s, calls[0]), calls[0].n;
      BytesPerCharge(l, s', calls[1..], a, b);
      ChargeCovers(l, n);
      Distribute(l.readCap, Charge(l, n), Accepted(l, s', calls[1..], a, b));
    }
  }

  lemma ChargeCovers(l: Limits, n: nat)
    requires l.readCap >= 1
    ensures n <= l.readCap * Charge(l, n)
  {
    assert (l.readCap - 1) * n >= 0;
  }

  lemma Distribute(k: nat, x: nat, y: nat)
    ensures k * (x + y) == k * x + k * y && 0 <= k * x
  {
  }

  /** The limits in use, from the start of a connection: in any minute at most 1,114,112 charged. */
  lemma DefaultBound(start: int, calls: seq<Call>, a: int)
    requires Monotone(calls)
    ensures var s := Counter(-GRACE, start + 3 * SECOND);
            && Accepted(DEFAULT, s, calls, a, a + 60 * SECOND) <= 2 * 32768 + 1_048_576
            && AcceptedBytes(DEFAULT, s, calls, a, a + 60 * SECOND) <= 128 * (2 * 32768 + 1_048_576)
  {
    var s := Counter(-GRACE, start + 3 * SECOND);
    SlidingBound(DEFAULT, s, calls, a, GRACE);
    BytesPerCharge(DEFAULT, s, calls, a, a + 60 * SECOND);
  }

  // ---------- windows, defined by the calls alone ----------

  /** When the window that the last of the calls is in closes. */
  function Deadline(l: Limits, first: int, calls: seq<Call>): int {
    if calls == [] then first
    else
      var last, before := calls[|calls| - 1], Deadline(l, first, calls[..|calls| - 1]);
      if last.now > before then last.now + l.frequency else before
  }

  /** Whether any of the calls began a new window. */
  predicate Reset(l: Limits, first: int, calls: seq<Call>) {
    calls != [] &&
    var init := calls[..|calls| - 1];
    calls[|calls| - 1].now > Deadline(l, first, init) || Reset(l, first, init)
  }

  /** The calls in the same window as the last one. */
  function Window(l: Limits, first: int, calls: seq<Call>): seq<Call> {
    if calls == [] then []
    else
      var init, last := calls[..|calls| - 1], calls[|calls| - 1];
      if last.now > Deadline(l, first, init) then [last] else Window(l, first, init) + [last]
  }

  function Total(l: Limits, calls: seq<Call>): nat {
    if calls == [] then 0 else Total(l, calls[..|calls| - 1]) + Charge(l, calls[|calls| - 1].n)
  }

  function Run(l: Limits, s: Counter, calls: seq<Call>): Counter {
    if calls == [] then s else Step(l, Run(l, s, calls[..|calls| - 1]), calls[|calls| - 1])
  }

  /** The count is the charge of the current window, refused calls included, on top of the credit in the first. */
  lemma {:induction false} CountIsWindowTotal(l: Limits, s: Counter, calls: seq<Call>)
    ensures var r := Run(l, s, calls);
            && r.timeRead == Deadline(l, s.timeRead, calls)
            && r.numRead == Total(l, Window(l, s.timeRead, calls))
                            + (if Reset(l, s.timeRead, calls) then 0 else s.numRead)
    decreases |calls|
  {
    if calls != [] {
      var init, last := calls[..|calls| - 1], calls[|calls| - 1];
      CountIsWindowTotal(l, s, init);
      var w := Window(l, s.timeRead, init);
      assert (w + [last])[..|w|] == w && [last][..0] == [];
    }
  }

  /** A call is refused exactly when its window's total charge exceeds the amount, plus the credit in the first. */
  lemma RefusedExactly(l: Limits, s: Counter, calls: seq<Call>)
    requires calls != []
    ensures !Allows(l, Run(l, s, calls)) <==>
            Total(l, Window(l, s.timeRead, calls)) > l.amount - (if Reset(l, s.timeRead, calls) then 0 else s.numRead)
  {
    CountIsWindowTotal(l, s, calls);
  }

  // ---------- in reads and bytes ----------

  /** How many of the calls are for no more bytes than the read cap. */
  function SmallReads(l: Limits, calls: seq<Call>): nat {
    if calls == [] then 0
    else SmallReads(l, calls[..|calls| - 1]) + if calls[|calls| - 1].n <= l.readCap then 1 else 0
  }

  /** The bytes of the calls for more. */
  function LargeBytes(l: Limits, calls: seq<Call>): nat {
    if calls == [] then 0
    else LargeBytes(l, calls[..|calls| - 1]) + if calls[|calls| - 1].n <= l.readCap then 0 else calls[|calls| - 1].n
  }

  lemma {:induction false} TotalIsReadsAndBytes(l: Limits, calls: seq<Call>)
    ensures Total(l, calls) == SmallReads(l, calls) + LargeBytes(l, calls)
    decreases |calls|
  {
    if calls != [] {
      TotalIsReadsAndBytes(l, calls[..|calls| - 1]);
    }
  }

  /** A call is refused exactly when its window's small reads and the bytes of its large ones exceed the amount, plus the credit in the first. */
  lemma RefusedByReadsAndBytes(l: Limits, s: Counter, calls: seq<Call>)
    requires calls != []
    ensures var w := Window(l, s.timeRead, calls);
            Run(l, s, calls).numRead > l.amount <==>
            SmallReads(l, w) + LargeBytes(l, w) > l.amount - (if Reset(l, s.timeRead, calls) then 0 else s.numRead)
  {
    RefusedExactly(l, s, calls);
    TotalIsReadsAndBytes(l, Window(l, s.timeRead, calls));
  }

  lemma {:induction false} OnlySmallReads(l: Limits, calls: seq<Call>)
    requires forall i :: 0 <= i < |calls| ==> calls[i].n <= l.readCap
    ensures SmallReads(l, calls) == |calls| && LargeBytes(l, calls) == 0
    decreases |calls|
  {
    if calls != [] {
      OnlySmallReads(l, calls[..|calls| - 1]);
    }
  }

  /** In a window of small reads only as many are let through as the amount says, however few bytes they are, and that many always. */
  lemma SmallReadsAreCounted(l: Limits, s: Counter, calls: seq<Call>)
    requires calls != [] && Reset(l, s.timeRead, calls)
    requires var w := Window(l, s.timeRead, calls); forall i :: 0 <= i < |w| ==> w[i].n <= l.readCap
    ensures Run(l, s, calls).numRead <= l.amount <==> |Window(l, s.timeRead, calls)| <= l.amount
  {
    RefusedByReadsAndBytes(l, s, calls);
    OnlySmallReads(l, Window(l, s.timeRead, calls));
  }

  /** A window lasts for one period from the call that opened it, and the next opens with the first call after that. */
  lemma {:induction false} WindowIsAPeriod(l: Limits, first: int, calls: seq<Call>)
    requires Reset(l, first, calls)
    ensures var w := Window(l, first, calls);
            && 0 < |w| <= |calls| && w == calls[|calls| - |w|..]
            && Deadline(l, first, calls) == w[0].now + l.frequency
            && (forall i :: 0 < i < |w| ==> w[i].now <= w[0].now + l.frequency)
            && Deadline(l, first, calls[..|calls| - |w|]) < w[0].now
    decreases |calls|
  {
    var init, last := calls[..|calls| - 1], calls[|calls| - 1];
    if last.now <= Deadline(l, first, init) {
      WindowIsAPeriod(l, first, init);
      var v := Window(l, first, init);
      assert calls[|calls| - |v| - 1..] == v + [last];
      assert calls[..|calls| - |v| - 1] == init[..|init| - |v|];
    } else {
      assert calls[|calls| - 1..] == [last];
    }
  }
}
