/** The relay's per-address packet budget: a fixed one-second window per address,
    with stale windows evicted once the table is large. */
module RateLimit {
  import opened Prelude

  const WINDOW_TTL: nat := 10 * SECOND
  const EVICT_THRESHOLD: nat := 10_000

  datatype Address = Address(id: nat)

  datatype Window = Window(started: nat, count: nat)

  type Table = map<Address, Window>

  function Evict(table: Table, now: nat): Table {
    map a | a in table && Since(now, table[a].started) < WINDOW_TTL :: table[a]
  }

  /** The decision for one packet, before any eviction. */
  function Decide(limit: nat, table: Table, from: Address, now: nat): (Table, bool) {
    if from !in table || Since(now, table[from].started) >= SECOND then
      (table[from := Window(now, 1)], true)
    else if table[from].count < limit then
      (table[from := Window(table[from].started, table[from].count + 1)], true)
    else
      (table, false)
  }

  class RateLimiter {
    const limit: nat
    var table: Table

    constructor (limit: nat)
      ensures this.limit == limit && table == map[]
    {
      this.limit := limit;
      table := map[];
    }

    /** `evictAt` and `now` are the two clock readings of the call. */
    method Allow(from: Address, evictAt: nat, now: nat) returns (ok: bool)
      modifies this
      ensures (table, ok) == Allowed(limit, old(table), Request(from, evictAt, now), true)
    {
      if limit == 0 {
        return true;
      }
      if |table| >= EVICT_THRESHOLD {
        table := map a | a in table && Since(evictAt, table[a].started) < WINDOW_TTL :: table[a];
      }
      if from in table {
        var win := table[from];
        if Since(now, win.started) >= SECOND {
          table := table[from := Window(now, 1)];
          ok := true;
        } else if win.count < limit {
          table := table[from := Window(win.started, win.count + 1)];
          ok := true;
        } else {
          ok := false;
        }
      } else {
        table := table[from := Window(now, 1)];
        ok := true;
      }
    }
  }

  // ------------------------------------------------------------------------- runs

  datatype Request = Request(from: Address, evictAt: nat, at: nat)

  /** One call, with eviction (as coded) or without. */
  function Allowed(limit: nat, table: Table, r: Request, evicting: bool): (Table, bool) {
    if limit == 0 then (table, true)
    else Decide(limit, if evicting && |table| >= EVICT_THRESHOLD then Evict(table, r.evictAt) else table, r.from, r.at)
  }

  /** The clock never goes back. */
  predicate Clocked(requests: seq<Request>) {
    && (forall i :: 0 <= i < |requests| ==> requests[i].evictAt <= requests[i].at)
    && (forall i, j :: 0 <= i < j < |requests| ==> requests[i].at <= requests[j].evictAt)
  }

  function Run(limit: nat, requests: seq<Request>, evicting: bool): (r: (Table, seq<bool>))
    ensures |r.1| == |requests|
  {
    if requests == [] then (map[], [])
    else
      var n := |requests| - 1;
      var (table, verdicts) := Run(limit, requests[..n], evicting);
      var (table', ok) := Allowed(limit, table, requests[n], evicting);
      (table', verdicts + [ok])
  }

  // --------------------------------------------------------- eviction is invisible

  /** The evicting table lacks only windows that have expired. */
  ghost predicate Simulates(small: Table, full: Table, now: nat) {
    && (forall a :: a in small ==> a in full && small[a] == full[a])
    && (forall a :: a in full ==> full[a].started <= now)
    && (forall a :: a in full && a !in small ==> full[a].started + SECOND <= now)
  }

  lemma StepSimulates(limit: nat, small: Table, full: Table, before: nat, r: Request)
    requires Simulates(small, full, before) && before <= r.evictAt <= r.at
    ensures var (small', ok) := Allowed(limit, small, r, true);
            var (full', ok') := Allowed(limit, full, r, false);
            ok == ok' && Simulates(small', full', r.at)
  {
  }

  /** On every run the limiter makes exactly the decisions of one that never
      evicts. */
  lemma {:induction false} EvictionUnobservable(limit: nat, requests: seq<Request>)
    requires Clocked(requests)
    ensures Run(limit, requests, true).1 == Run(limit, requests, false).1
    ensures Simulates(Run(limit, requests, true).0, Run(limit, requests, false).0,
                      if requests == [] then 0 else requests[|requests| - 1].at)
  {
    if requests != [] {
      var n := |requests| - 1;
      EvictionUnobservable(limit, requests[..n]);
      StepSimulates(limit, Run(limit, requests[..n], true).0, Run(limit, requests[..n], false).0,
                    if n == 0 then 0 else requests[n - 1].at, requests[n]);
    }
  }

  // ------------------------------------------------------------------- the budget

  /** Packets of `a` let through with a clock reading in `[lo, hi)`. */
  function CountIn(requests: seq<Request>, verdicts: seq<bool>, a: Address, lo: nat, hi: nat): nat
    requires |requests| == |verdicts|
  {
    if requests == [] then 0
    else
      var n := |requests| - 1;
      CountIn(requests[..n], verdicts[..n], a, lo, hi)
      + if requests[n].from == a && lo <= requests[n].at < hi && verdicts[n] then 1 else 0
  }

  /** How run and count grow with one request. */
  lemma Grows(limit: nat, past: seq<Request>, r: Request, a: Address, lo: nat, hi: nat)
    ensures var (table, verdicts) := Run(limit, past, false);
            var (table', ok) := Allowed(limit, table, r, false);
            && Run(limit, past + [r], false) == (table', verdicts + [ok])
            && CountIn(past + [r], verdicts + [ok], a, lo, hi)
               == CountIn(past, verdicts, a, lo, hi) + if r.from == a && lo <= r.at < hi && ok then 1 else 0
  {
    var all := past + [r];
    var verdicts, ok := Run(limit, past, false).1, Allowed(limit, Run(limit, past, false).0, r, false).1;
    assert all[..|all| - 1] == past && (verdicts + [ok])[..|past|] == verdicts;
  }

  /** What windows before the current one can have let through since `lo`, when
      the current one started `ahead` after `lo`: full windows, and one that was
      opened before `lo` and so lost its first packet to the past. */
  function Earlier(limit: nat, ahead: nat): nat
    requires limit >= 1
  {
    if ahead == 0 then 0 else if ahead < SECOND then limit - 1 else limit + Earlier(limit, ahead - SECOND)
  }

  lemma {:induction false} EarlierMonotone(limit: nat, x: nat, y: nat)
    requires limit >= 1 && x <= y
    ensures Earlier(limit, x) <= Earlier(limit, y)
  {
    if y >= SECOND {
      if x >= SECOND {
        EarlierMonotone(limit, x - SECOND, y - SECOND);
      }
    }
  }

  lemma {:induction false} EarlierBound(limit: nat, ahead: nat, k: nat)
    requires limit >= 1 && ahead < k * SECOND
    ensures Earlier(limit, ahead) <= k * limit - 1
  {
    assert (k - 1) * SECOND == k * SECOND - SECOND;
    assert (k - 1) * limit == k * limit - limit;
    if ahead >= SECOND {
      EarlierBound(limit, ahead - SECOND, k - 1);
    } else {
      MulAtLeast(limit, k);
    }
  }

  /** The bound carried along a run by the current window of `a`. */
  ghost predicate WithinBudget(limit: nat, table: Table, a: Address, lo: nat, now: nat, count: nat)
    requires limit >= 1
  {
    && (now < lo || a !in table ==> count == 0)
    && (a in table ==>
          var w := table[a];
          && w.started <= now && 1 <= w.count <= limit
          && (w.started + SECOND <= lo ==> count == 0)
          && (w.started < lo ==> count <= w.count - 1)
          && (w.started >= lo ==> count <= w.count + Earlier(limit, w.started - lo)))
  }

  lemma StepWithinBudget(limit: nat, table: Table, a: Address, lo: nat, before: nat, count: nat, r: Request)
    requires limit >= 1 && WithinBudget(limit, table, a, lo, before, count) && before <= r.at
    ensures var (table', ok) := Allowed(limit, table, r, false);
            WithinBudget(limit, table', a, lo, r.at, count + if r.from == a && lo <= r.at && ok then 1 else 0)
  {
    if r.from == a && a in table && r.at >= table[a].started + SECOND && r.at >= lo {
      var w := table[a];
      if w.started >= lo {
        EarlierMonotone(limit, w.started - lo + SECOND, r.at - lo);
      } else if r.at > lo {
        EarlierMonotone(limit, 1, r.at - lo);
      }
    }
  }

  lemma {:induction false} RunWithinBudget(limit: nat, requests: seq<Request>, a: Address, lo: nat, hi: nat)
    requires limit >= 1 && Clocked(requests)
    requires forall i :: 0 <= i < |requests| ==> requests[i].at < hi
    ensures var (table, verdicts) := Run(limit, requests, false);
            WithinBudget(limit, table, a, lo, if requests == [] then 0 else requests[|requests| - 1].at,
                         CountIn(requests, verdicts, a, lo, hi))
  {
    if requests != [] {
      var n := |requests| - 1;
      RunWithinBudget(limit, requests[..n], a, lo, hi);
      var (table, verdicts) := Run(limit, requests[..n], false);
      StepWithinBudget(limit, table, a, lo, if n == 0 then 0 else requests[n - 1].at,
                       CountIn(requests[..n], verdicts, a, lo, hi), requests[n]);
      assert Run(limit, requests, false).1[..n] == verdicts;
    }
  }

  /** The rate bound: whatever the interleaving of addresses, in any half-open
      interval of `k` whole seconds one address gets at most (k + 1) * limit - 1
      packets through. */
  lemma {:induction false} RateBound(limit: nat, requests: seq<Request>, a: Address, lo: nat, k: nat)
    requires limit >= 1 && k >= 1 && Clocked(requests)
    ensures CountIn(requests, Run(limit, requests, true).1, a, lo, lo + k * SECOND) <= (k + 1) * limit - 1
  {
    hide Allowed, Earlier, Simulates;
    EvictionUnobservable(limit, requests);
    var hi := lo + k * SECOND;
    if requests != [] && requests[|requests| - 1].at >= hi {
      var n := |requests| - 1;
      RateBound(limit, requests[..n], a, lo, k);
      EvictionUnobservable(limit, requests[..n]);
      assert Run(limit, requests, false).1[..n] == Run(limit, requests[..n], false).1;
    } else {
      RunWithinBudget(limit, requests, a, lo, hi);
      var table := Run(limit, requests, false).0;
      assert (k + 1) * limit == k * limit + limit;
      MulAtLeast(limit, k);
      if a in table && table[a].started >= lo {
        EarlierBound(limit, table[a].started - lo, k);
      }
    }
  }

  /** In particular, fewer than twice the limit in any one second. */
  lemma OneSecondBound(limit: nat, requests: seq<Request>, a: Address, lo: nat)
    requires limit >= 1 && Clocked(requests)
    ensures CountIn(requests, Run(limit, requests, true).1, a, lo, lo + SECOND) < 2 * limit
  {
    RateBound(limit, requests, a, lo, 1);
  }

  // ------------------------------------------------------------ denials are earned

  /** The count of a window is backed by packets let through since it opened. */
  ghost predicate Backed(table: Table, a: Address, lo: nat, count: nat) {
    a in table && lo <= table[a].started ==> table[a].count <= count
  }

  lemma {:induction false} WindowsAreBacked(limit: nat, requests: seq<Request>, a: Address, lo: nat, hi: nat)
    requires limit >= 1 && Clocked(requests)
    requires forall i :: 0 <= i < |requests| ==> requests[i].at < hi
    ensures var (table, verdicts) := Run(limit, requests, false);
            Backed(table, a, lo, CountIn(requests, verdicts, a, lo, hi))
  {
    if requests != [] {
      var n := |requests| - 1;
      WindowsAreBacked(limit, requests[..n], a, lo, hi);
      EvictionUnobservable(limit, requests[..n]);
      var (table, verdicts) := Run(limit, requests[..n], false);
      StepBacked(limit, table, a, lo, if n == 0 then 0 else requests[n - 1].at,
                 CountIn(requests[..n], verdicts, a, lo, hi), requests[n]);
      assert requests == requests[..n] + [requests[n]];
      hide Run, CountIn;
      Grows(limit, requests[..n], requests[n], a, lo, hi);
    }
  }

  lemma StepBacked(limit: nat, table: Table, a: Address, lo: nat, before: nat, count: nat, r: Request)
    requires Backed(table, a, lo, count) && before <= r.at && (a in table ==> table[a].started <= before)
    ensures var (table', ok) := Allowed(limit, table, r, false);
            Backed(table', a, lo, count + if r.from == a && lo <= r.at && ok then 1 else 0)
  {
  }

  /** A packet is refused only when `limit` packets of its address went through
      in the second before it: senders within budget are never refused. */
  lemma DenialJustified(limit: nat, requests: seq<Request>, r: Request, lo: nat)
    requires limit >= 1 && Clocked(requests + [r])
    requires !Allowed(limit, Run(limit, requests, true).0, r, true).1
    requires lo + SECOND <= r.at + 1
    ensures CountIn(requests, Run(limit, requests, true).1, r.from, lo, r.at + 1) >= limit
  {
    hide Clocked, Run, CountIn, Simulates, Allowed;
    ClockedAppend(requests, r);
    EvictionUnobservable(limit, requests);
    var before := if requests == [] then 0 else requests[|requests| - 1].at;
    StepSimulates(limit, Run(limit, requests, true).0, Run(limit, requests, false).0, before, r);
    WindowsAreBacked(limit, requests, r.from, lo, r.at + 1);
    WindowIsFull(limit, Run(limit, requests, false).0, r);
  }

  lemma WindowIsFull(limit: nat, table: Table, r: Request)
    requires limit >= 1 && !Allowed(limit, table, r, false).1
    ensures r.from in table && Since(r.at, table[r.from].started) < SECOND && table[r.from].count >= limit
  {
  }

  lemma ClockedAppend(requests: seq<Request>, r: Request)
    ensures Clocked(requests + [r]) <==>
              && Clocked(requests) && r.evictAt <= r.at
              && forall i :: 0 <= i < |requests| ==> requests[i].at <= r.evictAt
  {
    var all := requests + [r];
    assert all[|requests|] == r && forall i :: 0 <= i < |requests| ==> requests[i] == all[i];
  }

  /** A limit of zero switches the limiter off. */
  lemma {:induction false} ZeroLimitAllowsAll(requests: seq<Request>, evicting: bool)
    ensures forall i :: 0 <= i < |requests| ==> Run(0, requests, evicting).1[i]
  {
    if requests != [] {
      ZeroLimitAllowsAll(requests[..|requests| - 1], evicting);
    }
  }

  /** Once the table is large, a call leaves no window that was stale when it began. */
  lemma StaleWindowsLeave(limit: nat, requests: seq<Request>, r: Request)
    requires limit >= 1 && |Run(limit, requests, true).0| >= EVICT_THRESHOLD && r.evictAt <= r.at
    ensures var table := Run(limit, requests + [r], true).0;
            forall a :: a in table ==> table[a].started + WINDOW_TTL > r.evictAt
  {
    assert (requests + [r])[..|requests|] == requests;
  }

  // ------------------------------------------------------------ the bound is exact

  function Burst(a: Address, at: nat, size: nat): seq<Request> {
    seq(size, _ => Request(a, at, at))
  }

  /** A burst that fits the open window goes through whole. */
  lemma {:induction false} BurstAllowed(
      limit: nat, past: seq<Request>, a: Address, at: nat, size: nat, lo: nat, hi: nat)
    requires limit >= 1 && lo <= at < hi
    requires var table := Run(limit, past, false).0;
             a in table && table[a].started <= at < table[a].started + SECOND && table[a].count + size <= limit
    ensures var (table, verdicts) := Run(limit, past, false);
            var (table', verdicts') := Run(limit, past + Burst(a, at, size), false);
            && a in table' && table'[a] == Window(table[a].started, table[a].count + size)
            && CountIn(past + Burst(a, at, size), verdicts', a, lo, hi) == CountIn(past, verdicts, a, lo, hi) + size
  {
    hide Run, CountIn;
    var all := past + Burst(a, at, size);
    if size == 0 {
      assert all == past;
    } else {
      var r := Request(a, at, at);
      var before := past + Burst(a, at, size - 1);
      assert all == before + [r];
      BurstAllowed(limit, past, a, at, size - 1, lo, hi);
      Grows(limit, before, r, a, lo, hi);
    }
  }

  /** A burst of exactly the limit goes through whole when the last window is over. */
  lemma FreshBurstAllowed(limit: nat, past: seq<Request>, a: Address, at: nat, lo: nat, hi: nat)
    requires limit >= 1 && lo <= at < hi
    requires var table := Run(limit, past, false).0; a in table && table[a].started + SECOND <= at
    ensures var (table', verdicts') := Run(limit, past + Burst(a, at, limit), false);
            && a in table' && table'[a] == Window(at, limit)
            && CountIn(past + Burst(a, at, limit), verdicts', a, lo, hi)
               == CountIn(past, Run(limit, past, false).1, a, lo, hi) + limit
  {
    hide Run, CountIn;
    var r := Request(a, at, at);
    assert past + Burst(a, at, limit) == past + [r] + Burst(a, at, limit - 1);
    Grows(limit, past, r, a, lo, hi);
    BurstAllowed(limit, past + [r], a, at, limit - 1, lo, hi);
  }

  /** One packet opens a window, the rest of its budget comes at its very end,
      and the whole budget of each of the next `k` windows as soon as it opens. */
  function EdgeTraffic(limit: nat, a: Address, k: nat): seq<Request>
    requires limit >= 1
  {
    if k == 0 then [Request(a, 0, 0)] + Burst(a, SECOND - 1, limit - 1)
    else EdgeTraffic(limit, a, k - 1) + Burst(a, k * SECOND, limit)
  }

  lemma {:induction false} ClockedBurst(past: seq<Request>, a: Address, at: nat, size: nat)
    requires Clocked(past) && forall i :: 0 <= i < |past| ==> past[i].at <= at
    ensures Clocked(past + Burst(a, at, size))
    ensures forall r :: r in past + Burst(a, at, size) ==> r.at <= at
  {
    hide Clocked;
    if size == 0 {
      assert past + Burst(a, at, size) == past;
    } else {
      var before, r := past + Burst(a, at, size - 1), Request(a, at, at);
      ClockedBurst(past, a, at, size - 1);
      ClockedAppend(before, r);
      assert past + Burst(a, at, size) == before + [r];
    }
  }

  lemma {:induction false} EdgeTrafficClocked(limit: nat, a: Address, k: nat)
    requires limit >= 1
    ensures Clocked(EdgeTraffic(limit, a, k))
    ensures forall r :: r in EdgeTraffic(limit, a, k) ==> r.at < (k + 1) * SECOND
  {
    hide Burst;
    if k == 0 {
      ClockedBurst([Request(a, 0, 0)], a, SECOND - 1, limit - 1);
    } else {
      EdgeTrafficClocked(limit, a, k - 1);
      ClockedBurst(EdgeTraffic(limit, a, k - 1), a, k * SECOND, limit);
    }
  }

  lemma {:induction false} EdgeTrafficCounted(limit: nat, a: Address, k: nat, hi: nat)
    requires limit >= 1 && SECOND <= hi && k * SECOND < hi
    ensures var (table, verdicts) := Run(limit, EdgeTraffic(limit, a, k), false);
            && a in table && table[a] == Window(k * SECOND, limit)
            && CountIn(EdgeTraffic(limit, a, k), verdicts, a, SECOND - 1, hi) == k * limit + (limit - 1)
  {
    hide Run, CountIn, Burst, Allowed, EdgeTraffic;
    if k == 0 {
      EdgeOpens(limit, a, hi);
    } else {
      EdgeTrafficCounted(limit, a, k - 1, hi);
      EdgeGoesOn(limit, a, k);
      FreshBurstAllowed(limit, EdgeTraffic(limit, a, k - 1), a, k * SECOND, SECOND - 1, hi);
      Distribute(k - 1, 1, limit);
    }
  }

  lemma EdgeGoesOn(limit: nat, a: Address, k: nat)
    requires limit >= 1 && k >= 1
    ensures EdgeTraffic(limit, a, k) == EdgeTraffic(limit, a, k - 1) + Burst(a, k * SECOND, limit)
  {
  }

  lemma EdgeOpens(limit: nat, a: Address, hi: nat)
    requires limit >= 1 && SECOND <= hi
    ensures var (table, verdicts) := Run(limit, EdgeTraffic(limit, a, 0), false);
            && a in table && table[a] == Window(0, limit)
            && CountIn(EdgeTraffic(limit, a, 0), verdicts, a, SECOND - 1, hi) == limit - 1
  {
    var open, lo := Request(a, 0, 0), SECOND - 1;
    assert Run(limit, [], false) == (map[], []) && CountIn([], [], a, lo, hi) == 0;
    hide Run, CountIn, Burst;
    Grows(limit, [], open, a, lo, hi);
    assert [] + [open] == [open];
    BurstAllowed(limit, [open], a, lo, limit - 1, lo, hi);
  }

  /** Such a sender gets (k + 1) * limit - 1 packets through in `k` seconds: the
      bound is exact for every limit and every number of seconds. */
  lemma BoundAttained(limit: nat, a: Address, k: nat)
    requires limit >= 1 && k >= 1
    ensures var requests, lo := EdgeTraffic(limit, a, k), SECOND - 1;
            && Clocked(requests)
            && CountIn(requests, Run(limit, requests, true).1, a, lo, lo + k * SECOND) == (k + 1) * limit - 1
  {
    hide Run, CountIn, Clocked, EdgeTraffic, Simulates;
    EdgeTrafficClocked(limit, a, k);
    EvictionUnobservable(limit, EdgeTraffic(limit, a, k));
    EdgeTrafficCounted(limit, a, k, SECOND - 1 + k * SECOND);
    Distribute(k, 1, limit);
  }
}
