/**
 Host selection and connection counting (upstream.go, selectHost and doCall):
 least-connections with non-atomic scans, and round robin on a 64-bit counter.
 */
module LoadBalancer {
  import opened Arith

  const MAX_INT64: int := 0x7FFF_FFFF_FFFF_FFFF
  const TWO_64: int := 0x1_0000_0000_0000_0000

  // ------------------------------------------------------ The scan itself

  /** sel is the first smallest of the values read. */
  ghost predicate FirstMin(seen: seq<int>, sel: int) {
    && 0 <= sel < |seen|
    && (forall i | 0 <= i < |seen| :: seen[sel] <= seen[i])
    && (forall i | 0 <= i < sel :: seen[sel] < seen[i])
  }

  /** The scan over a snapshot of the counters, which are 64-bit integers. */
  method SelectLeastConns(active: seq<int>) returns (selected: int)
    requires active != [] && forall i | 0 <= i < |active| :: active[i] < 0x8000_0000_0000_0000
    ensures FirstMin(active, selected)
  {
    if |active| == 1 {
      return 0;
    }
    selected := 0;
    var min := MAX_INT64;
    for i := 0 to |active|
      invariant 0 <= selected < |active|
      invariant i == 0 ==> selected == 0
      invariant forall j | 0 <= j < i :: min <= active[j]
      invariant min <= MAX_INT64
      invariant if min == MAX_INT64 then selected == 0 else
                selected < i && active[selected] == min && forall j | 0 <= j < selected :: min < active[j]
    {
      if active[i] < min {
        min := active[i];
        selected := i;
      }
    }
  }

  // -------------------------------------- Interleaved calls and counters

  datatype Call =
    | Scanning(seen: seq<int>, min: int, selected: int)
    | Chosen(seen: seq<int>, selected: int)
    | Active(host: int)

  datatype World = World(counters: seq<int>, calls: map<nat, Call>)

  /** Each action is one atomic operation of one call. */
  datatype Action =
    | Arrive(c: nat)
    | Load(c: nat)        // atomic.LoadInt64 of the next counter
    | Increment(c: nat)   // atomic.AddInt64(+1) on the chosen host
    | Decrement(c: nat)   // the deferred atomic.AddInt64(-1)

  predicate Enabled(w: World, a: Action) {
    match a
    case Arrive(c) => c !in w.calls
    case Load(c) => c in w.calls && w.calls[c].Scanning?
    case Increment(c) => c in w.calls && w.calls[c].Chosen? && 0 <= w.calls[c].selected < |w.counters|
    case Decrement(c) => c in w.calls && w.calls[c].Active? && 0 <= w.calls[c].host < |w.counters|
  }

  function AfterLoad(call: Call, value: int, hosts: nat): Call
    requires call.Scanning?
  {
    var seen := call.seen + [value];
    var better := value < call.min;
    var min, selected := if better then value else call.min, if better then |call.seen| else call.selected;
    if |seen| < hosts then Scanning(seen, min, selected) else Chosen(seen, selected)
  }

  function Next(w: World, a: Action): World {
    if !Enabled(w, a) then w else
    match a
    case Arrive(c) =>
      // a lone host is chosen without looking at the counters
      w.(calls := w.calls[c := if |w.counters| == 1 then Chosen([], 0) else Scanning([], MAX_INT64, 0)])
    case Load(c) =>
      var i := |w.calls[c].seen|;
      if i < |w.counters| then w.(calls := w.calls[c := AfterLoad(w.calls[c], w.counters[i], |w.counters|)]) else w
    case Increment(c) =>
      var h := w.calls[c].selected;
      World(w.counters[h := w.counters[h] + 1], w.calls[c := Active(h)])
    case Decrement(c) =>
      var h := w.calls[c].host;
      World(w.counters[h := w.counters[h] - 1], w.calls - {c})
  }

  datatype Run = Nothing | After(past: Run, last: Action)

  function Zeros(hosts: nat): seq<int> {
    seq(hosts, _ => 0)
  }

  function Final(hosts: nat, r: Run): World {
    match r
    case Nothing => World(Zeros(hosts), map[])
    case After(past, a) => Next(Final(hosts, past), a)
  }

  /** The calls in flight on host h. */
  function InFlight(calls: map<nat, Call>, h: int): set<nat> {
    set c | c in calls && calls[c] == Active(h)
  }

  ghost predicate ScanMeaning(call: Call, hosts: nat) {
    match call
    case Scanning(seen, min, selected) =>
      && |seen| < hosts && hosts > 1
      && min <= MAX_INT64 && (forall i | 0 <= i < |seen| :: min <= seen[i])
      && (if min == MAX_INT64 then selected == 0
          else FirstMin(seen, selected) && seen[selected] == min)
    case Chosen(seen, selected) =>
      0 <= selected < hosts &&
      (hosts > 1 ==>
         |seen| == hosts &&
         (FirstMin(seen, selected) || (selected == 0 && forall i | 0 <= i < hosts :: MAX_INT64 <= seen[i])))
    case Active(h) => 0 <= h < hosts
  }

  ghost predicate Conserved(w: World, hosts: nat) {
    && |w.counters| == hosts
    && (forall c | c in w.calls :: ScanMeaning(w.calls[c], hosts))
    && (forall h | 0 <= h < hosts :: w.counters[h] == |InFlight(w.calls, h)|)
  }

  lemma InFlightUnchanged(calls: map<nat, Call>, c: nat, call: Call, h: int)
    requires (c in calls ==> calls[c] != Active(h)) && call != Active(h)
    ensures InFlight(calls[c := call], h) == InFlight(calls, h)
  {
  }

  lemma LoadKeepsMeaning(call: Call, value: int, hosts: nat)
    requires call.Scanning? && ScanMeaning(call, hosts)
    ensures ScanMeaning(AfterLoad(call, value, hosts), hosts)
  {
    var seen := call.seen + [value];
    assert forall i | 0 <= i < |call.seen| :: seen[i] == call.seen[i];
  }

  lemma InFlightGains(calls: map<nat, Call>, c: nat, host: int, h: int)
    requires c in calls && !calls[c].Active?
    ensures |InFlight(calls[c := Active(host)], h)| == |InFlight(calls, h)| + if h == host then 1 else 0
  {
    var before, after := InFlight(calls, h), InFlight(calls[c := Active(host)], h);
    assert after == if h == host then before + {c} else before;
  }

  lemma InFlightLoses(calls: map<nat, Call>, c: nat, host: int, h: int)
    requires c in calls && calls[c] == Active(host)
    ensures |InFlight(calls - {c}, h)| == |InFlight(calls, h)| - if h == host then 1 else 0
  {
    var before, after := InFlight(calls, h), InFlight(calls - {c}, h);
    assert after == if h == host then before - {c} else before;
  }

  lemma StepCounts(w: World, a: Action, hosts: nat, h: int)
    requires Enabled(w, a) && Conserved(w, hosts) && 0 <= h < hosts
    ensures |Next(w, a).counters| == hosts
    ensures Next(w, a).counters[h] == |InFlight(Next(w, a).calls, h)|
  {
    match a
    case Arrive(c) => InFlightUnchanged(w.calls, c, Next(w, a).calls[c], h);
    case Load(c) => InFlightUnchanged(w.calls, c, Next(w, a).calls[c], h);
    case Increment(c) => InFlightGains(w.calls, c, w.calls[c].selected, h);
    case Decrement(c) => InFlightLoses(w.calls, c, w.calls[c].host, h);
  }

  lemma StepKeepsMeaning(w: World, a: Action, hosts: nat, c: nat)
    requires hosts >= 1 && Enabled(w, a) && Conserved(w, hosts) && c in Next(w, a).calls
    ensures ScanMeaning(Next(w, a).calls[c], hosts)
  {
    if a.Load? {
      assert ScanMeaning(w.calls[a.c], hosts);
      LoadKeepsMeaning(w.calls[a.c], w.counters[|w.calls[a.c].seen|], hosts);
    }
    if c in w.calls {
      assert ScanMeaning(w.calls[c], hosts);
    }
  }

  lemma StepConserves(w: World, a: Action, hosts: nat)
    requires hosts >= 1 && Conserved(w, hosts)
    ensures Conserved(Next(w, a), hosts)
  {
    if Enabled(w, a) {
      var w' := Next(w, a);
      forall h | 0 <= h < hosts ensures |w'.counters| == hosts && w'.counters[h] == |InFlight(w'.calls, h)| {
        StepCounts(w, a, hosts, h);
      }
      forall c | c in w'.calls ensures ScanMeaning(w'.calls[c], hosts) {
        StepKeepsMeaning(w, a, hosts, c);
      }
    }
  }

  /**
   In every interleaving of scans, increments and decrements: each counter is the
   number of calls in flight on its host, never negative, zero when idle; and each
   choice is in range and smallest among the values its scan read.
   */
  lemma {:induction false} ConnectionsConserved(hosts: nat, r: Run)
    requires hosts >= 1
    ensures var w := Final(hosts, r);
            && Conserved(w, hosts)
            && (forall h | 0 <= h < hosts :: w.counters[h] >= 0)
            && (w.calls == map[] ==> w.counters == Zeros(hosts))
  {
    match r
    case Nothing =>
      assert forall h :: InFlight(map[], h) == {};
    case After(past, a) =>
      ConnectionsConserved(hosts, past);
      StepConserves(Final(hosts, past), a, hosts);
      if Final(hosts, r).calls == map[] {
        assert forall h :: InFlight(map[], h) == {};
      }
  }

  /** In every reachable state each call can take its next step, and the step takes it on. */
  lemma CallsProceed(hosts: nat, r: Run, c: nat)
    requires hosts >= 1
    ensures var w := Final(hosts, r);
            if c !in w.calls then c in Next(w, Arrive(c)).calls && !Next(w, Arrive(c)).calls[c].Active?
            else
              match w.calls[c]
              case Scanning(seen, _, _) =>
                && |seen| < |w.counters| && c in Next(w, Load(c)).calls
                && !Next(w, Load(c)).calls[c].Active? && Next(w, Load(c)).calls[c].seen == seen + [w.counters[|seen|]]
              case Chosen(_, host) => c in Next(w, Increment(c)).calls && Next(w, Increment(c)).calls[c] == Active(host)
              case Active(_) => c !in Next(w, Decrement(c)).calls
  {
    ConnectionsConserved(hosts, r);
    var w := Final(hosts, r);
    if c in w.calls {
      assert ScanMeaning(w.calls[c], hosts);
    }
  }

  // ---------------------------------- One arrival at a time, no departure

  /** The loads after m calls arrived one after another and none left. */
  function Loads(hosts: nat, m: nat): seq<int>
    requires hosts >= 1
  {
    seq(hosts, i => if i < m % hosts then m / hosts + 1 else m / hosts)
  }

  lemma DivModStep(m: nat, n: nat)
    requires n >= 1
    ensures m % n + 1 < n ==> (m + 1) / n == m / n && (m + 1) % n == m % n + 1
    ensures m % n + 1 == n ==> (m + 1) / n == m / n + 1 && (m + 1) % n == 0
  {
    var q, r := m / n, m % n;
    assert m == q * n + r;
    if r + 1 < n {
      DivModUnique(m + 1, n, q, r + 1);
    } else {
      assert (q + 1) * n == q * n + n;
      DivModUnique(m + 1, n, q + 1, 0);
    }
  }

  /**
   Whatever host the least-connections scan picks on those loads, the result is the
   loads after one more arrival: they differ by at most one, and earlier hosts fill
   first.
   */
  lemma ArrivalKeepsBalance(hosts: nat, m: nat, selected: int)
    requires hosts >= 1 && FirstMin(Loads(hosts, m), selected)
    ensures var loads := Loads(hosts, m);
            loads[selected := loads[selected] + 1] == Loads(hosts, m + 1)
  {
    var loads := Loads(hosts, m);
    assert selected == m % hosts by {
      assert loads[m % hosts] == m / hosts;
      assert loads[selected] <= loads[m % hosts];
    }
    DivModStep(m, hosts);
  }

  /** The calls that have been dispatched. */
  function Dispatched(calls: map<nat, Call>): set<nat> {
    set c | c in calls && calls[c].Active?
  }

  ghost predicate Settled(w: World) {
    forall c | c in w.calls :: w.calls[c].Active?
  }

  /** Runs in which each arrival is dispatched before the next one comes, and none leaves. */
  ghost predicate OneByOne(hosts: nat, r: Run) {
    r.After? ==>
      && OneByOne(hosts, r.past) && !r.last.Decrement?
      && (r.last.Arrive? ==> Settled(Final(hosts, r.past)))
  }

  function Seen(call: Call): seq<int> {
    if call.Active? then [] else call.seen
  }

  /** The loads are balanced, and at most one call is choosing, having read the counters as they are. */
  ghost predicate InTurn(w: World, hosts: nat)
    requires hosts >= 1
  {
    && w.counters == Loads(hosts, |Dispatched(w.calls)|)
    && (forall c, d | c in w.calls && d in w.calls :: !w.calls[c].Active? && !w.calls[d].Active? ==> c == d)
    && (forall c | c in w.calls :: Seen(w.calls[c]) <= w.counters)
  }

  lemma ChoiceInTurn(w: World, hosts: nat, c: nat)
    requires hosts >= 1 && Conserved(w, hosts) && InTurn(w, hosts)
    requires c in w.calls && w.calls[c].Chosen? && |Dispatched(w.calls)| < MAX_INT64
    ensures FirstMin(w.counters, w.calls[c].selected)
  {
    var m := |Dispatched(w.calls)|;
    assert ScanMeaning(w.calls[c], hosts);
    if hosts > 1 {
      assert w.calls[c].seen == w.counters;
      QuotientBelow(m, hosts);
      assert w.counters[m % hosts] == m / hosts < MAX_INT64;
    }
  }

  lemma DispatchInTurn(w: World, hosts: nat, c: nat)
    requires hosts >= 1 && Conserved(w, hosts) && InTurn(w, hosts)
    requires Enabled(w, Increment(c)) && |Dispatched(w.calls)| < MAX_INT64
    ensures InTurn(Next(w, Increment(c)), hosts)
  {
    var w' := Next(w, Increment(c));
    ChoiceInTurn(w, hosts, c);
    ArrivalKeepsBalance(hosts, |Dispatched(w.calls)|, w.calls[c].selected);
    assert Dispatched(w'.calls) == Dispatched(w.calls) + {c};
    assert forall d | d in w'.calls :: w'.calls[d].Active?;
  }

  lemma ArriveInTurn(w: World, hosts: nat, c: nat)
    requires hosts >= 1 && InTurn(w, hosts) && Settled(w) && Enabled(w, Arrive(c))
    ensures InTurn(Next(w, Arrive(c)), hosts)
  {
    var w' := Next(w, Arrive(c));
    assert Dispatched(w'.calls) == Dispatched(w.calls);
    assert Seen(w'.calls[c]) == [];
  }

  lemma LoadInTurn(w: World, hosts: nat, c: nat)
    requires hosts >= 1 && InTurn(w, hosts) && Enabled(w, Load(c))
    ensures InTurn(Next(w, Load(c)), hosts)
  {
    var w' := Next(w, Load(c));
    assert Dispatched(w'.calls) == Dispatched(w.calls);
    var seen := w.calls[c].seen;
    assert seen == Seen(w.calls[c]) <= w.counters;
    if |seen| < |w.counters| {
      assert Seen(w'.calls[c]) == seen + [w.counters[|seen|]] == w.counters[..|seen| + 1];
    }
  }

  lemma StepInTurn(w: World, hosts: nat, a: Action)
    requires hosts >= 1 && Conserved(w, hosts) && InTurn(w, hosts) && |Dispatched(Next(w, a).calls)| <= MAX_INT64
    requires !a.Decrement? && (a.Arrive? ==> Settled(w))
    ensures InTurn(Next(w, a), hosts)
  {
    if Enabled(w, a) {
      match a
      case Arrive(c) => ArriveInTurn(w, hosts, c);
      case Load(c) => LoadInTurn(w, hosts, c);
      case Increment(c) =>
        assert Dispatched(Next(w, a).calls) == Dispatched(w.calls) + {c};
        DispatchInTurn(w, hosts, c);
    }
  }

  lemma DispatchedGrows(w: World, a: Action)
    requires !a.Decrement?
    ensures |Dispatched(w.calls)| <= |Dispatched(Next(w, a).calls)|
  {
    if Enabled(w, a) && a.Increment? {
      assert Dispatched(Next(w, a).calls) == Dispatched(w.calls) + {a.c};
    } else {
      assert Dispatched(Next(w, a).calls) == Dispatched(w.calls);
    }
  }

  /**
   Calls that are dispatched one after another, none leaving: after m of them host
   i carries floor(m/n) calls, and one more if i < m mod n.
   */
  lemma {:induction false} OneByOneIsBalanced(hosts: nat, r: Run)
    requires hosts >= 1 && OneByOne(hosts, r) && |Dispatched(Final(hosts, r).calls)| <= MAX_INT64
    ensures var w := Final(hosts, r);
            && InTurn(w, hosts)
            && (forall i, j | 0 <= i < hosts && 0 <= j < hosts :: w.counters[i] <= w.counters[j] + 1)
            && (Settled(w) ==> w.counters == Loads(hosts, |w.calls|))
  {
    var w := Final(hosts, r);
    if r.After? {
      DispatchedGrows(Final(hosts, r.past), r.last);
      OneByOneIsBalanced(hosts, r.past);
      ConnectionsConserved(hosts, r.past);
      StepInTurn(Final(hosts, r.past), hosts, r.last);
    } else {
      assert Dispatched(map[]) == {};
      assert Zeros(hosts) == Loads(hosts, 0);
    }
    if Settled(w) {
      assert Dispatched(w.calls) == w.calls.Keys;
    }
  }

  lemma QuotientBelow(k: nat, n: nat)
    requires n >= 1
    ensures k / n <= k
  {
    var q := k / n;
    assert k == q * n + k % n;
    MulMono(1, n, q);
  }

  // --------------------------------------------------------- Round robin

  class RoundRobin {
    var currentHostIdx: int
    const hosts: nat

    ghost predicate Valid()
      reads this
    {
      0 <= currentHostIdx < TWO_64 && hosts >= 1
    }

    constructor (hosts: nat)
      requires hosts >= 1
      ensures Valid() && this.hosts == hosts && currentHostIdx == 0
    {
      this.hosts := hosts;
      this.currentHostIdx := 0;
    }

    /** The counter is bumped atomically, modulo 2^64; a lone host needs no counter. */
    method SelectHost() returns (selected: int)
      requires Valid()
      modifies this
      ensures Valid() && 0 <= selected < hosts
      ensures hosts == 1 ==> currentHostIdx == old(currentHostIdx)
      ensures hosts > 1 ==> currentHostIdx == (old(currentHostIdx) + 1) % TWO_64
      ensures hosts > 1 ==>
                && currentHostIdx == (if old(currentHostIdx) == 0xFFFF_FFFF_FFFF_FFFF then 0 else old(currentHostIdx) + 1)
                && selected == currentHostIdx % hosts
    {
      if hosts == 1 {
        return 0;
      }
      currentHostIdx := (currentHostIdx + 1) % TWO_64;
      selected := currentHostIdx % hosts;
    }

    /** The selections of any number of callers, in the order their increments take effect. */
    method SelectMany(m: nat) returns (picks: seq<int>)
      requires Valid()
      modifies this
      ensures Valid()
      ensures currentHostIdx == Counter(old(currentHostIdx), hosts, m)
      ensures |picks| == m && forall i | 0 <= i < m :: picks[i] == Turn(old(currentHostIdx), hosts, i)
    {
      picks := [];
      for k := 0 to m
        invariant Valid()
        invariant currentHostIdx == Counter(old(currentHostIdx), hosts, k)
        invariant |picks| == k && forall i | 0 <= i < k :: picks[i] == Turn(old(currentHostIdx), hosts, i)
      {
        CounterStep(old(currentHostIdx), hosts, k);
        var h := SelectHost();
        picks := picks + [h];
      }
    }
  }

  /** The counter after i selections from k; a lone host leaves it alone. */
  function Counter(k: nat, hosts: nat, i: nat): nat {
    if hosts == 1 then k else (k + i) % TWO_64
  }

  lemma CounterStep(k: nat, hosts: nat, i: nat)
    requires hosts >= 1
    ensures hosts == 1 ==> Turn(k, hosts, i) == 0
    ensures hosts > 1 ==> Counter(k, hosts, i + 1) == (Counter(k, hosts, i) + 1) % TWO_64
    ensures hosts > 1 ==> Turn(k, hosts, i) == Counter(k, hosts, i + 1) % hosts
  {
  }

  /** The host given to the i-th selection after the counter stood at k. */
  function Turn(k: nat, hosts: nat, i: nat): nat
    requires hosts >= 1
  {
    (k + 1 + i) % TWO_64 % hosts
  }

  /** How often host h is chosen in m consecutive selections. */
  function Turns(k: nat, hosts: nat, m: nat, h: nat): nat
    requires hosts >= 1
  {
    if m == 0 then 0 else
    Turns(k, hosts, m - 1, h) + if Turn(k, hosts, m - 1) == h then 1 else 0
  }

  /** How many of 0 .. x-1 are congruent to h: a closed form. */
  function Below(x: nat, hosts: nat, h: nat): nat
    requires hosts >= 1 && h < hosts
  {
    x / hosts + if h < x % hosts then 1 else 0
  }

  /** The counter does not wrap around during m selections, or wrapping leaves the rotation alone. */
  predicate Seamless(k: nat, hosts: nat, m: nat)
    requires hosts >= 1
  {
    k + m < TWO_64 || TWO_64 % hosts == 0
  }

  lemma ModMod(x: nat, n: nat, d: nat)
    requires n >= 1 && d >= 1 && n % d == 0
    ensures x % n % d == x % d
  {
    var a, y, c := x / n, x % n, n / d;
    assert x == a * n + y && n == c * d && y == (y / d) * d + y % d;
    assert a * (c * d) == (a * c) * d;
    assert (a * c + y / d) * d == (a * c) * d + (y / d) * d;
    DivModUnique(x, d, a * c + y / d, y % d);
  }

  lemma SeamlessTurn(k: nat, hosts: nat, m: nat)
    requires hosts >= 1 && m >= 1 && Seamless(k, hosts, m)
    ensures Turn(k, hosts, m - 1) == (k + m) % hosts
  {
    if TWO_64 % hosts == 0 {
      ModMod(k + m, TWO_64, hosts);
    }
  }

  lemma {:induction false} TurnsCounted(k: nat, hosts: nat, m: nat, h: nat)
    requires hosts >= 1 && h < hosts && Seamless(k, hosts, m)
    ensures Turns(k, hosts, m, h) + Below(k + 1, hosts, h) == Below(k + 1 + m, hosts, h)
  {
    if m > 0 {
      TurnsCounted(k, hosts, m - 1, h);
      SeamlessTurn(k, hosts, m);
      DivModStep(k + m, hosts);
    }
  }

  /** Each host is chosen floor(m/n) or ceil(m/n) times. */
  ghost predicate Even(k: nat, hosts: nat, m: nat, h: nat)
    requires hosts >= 1
  {
    m / hosts <= Turns(k, hosts, m, h) <= (m + hosts - 1) / hosts
  }

  /**
   Over any m consecutive selections, by however many concurrent callers, each of
   n hosts is chosen floor(m/n) or ceil(m/n) times, provided the counter does not
   wrap around, or n divides 2^64.
   */
  lemma RoundRobinBalance(k: nat, hosts: nat, m: nat, h: nat)
    requires hosts >= 1 && h < hosts && Seamless(k, hosts, m)
    ensures Even(k, hosts, m, h)
  {
    TurnsCounted(k, hosts, m, h);
    SumDivMod(k + 1, m, hosts);
    CeilDiv(m, hosts);
  }

  lemma {:induction false} TurnsGrow(k: nat, hosts: nat, j: nat, m: nat, h: nat)
    requires hosts >= 1 && j <= m
    ensures Turns(k, hosts, j, h) <= Turns(k, hosts, m, h)
  {
    if j < m {
      TurnsGrow(k, hosts, j, m - 1, h);
    }
  }

  /** The counter's last r values start the rotation afresh, and so does zero: host 0 comes too early. */
  lemma WrapRepeats(hosts: nat)
    requires 1 <= hosts <= TWO_64 && TWO_64 % hosts != 0
    ensures var r := TWO_64 % hosts; !Even(TWO_64 - r - 1, hosts, r + 1, 0)
  {
    var r, q := TWO_64 % hosts, TWO_64 / hosts;
    var k := TWO_64 - r - 1;
    assert TWO_64 == q * hosts + r;
    DivModUnique(k + 1, hosts, q, 0);
    assert Turn(k, hosts, 0) == 0 && Turn(k, hosts, r) == 0;
    assert Turns(k, hosts, 1, 0) == 1;
    TurnsGrow(k, hosts, 1, r, 0);
    DivUnique(r + hosts, hosts, 1);
  }

  /** Selections stay even for ever, across every wrap of the counter, exactly when n divides 2^64. */
  lemma EvenForeverExactly(hosts: nat)
    requires 1 <= hosts <= TWO_64
    ensures (forall k: nat, m: nat, h: nat | k < TWO_64 && h < hosts :: Even(k, hosts, m, h)) <==>
            TWO_64 % hosts == 0
  {
    if TWO_64 % hosts == 0 {
      forall k: nat, m: nat, h: nat | k < TWO_64 && h < hosts ensures Even(k, hosts, m, h) {
        RoundRobinBalance(k, hosts, m, h);
      }
    } else {
      WrapRepeats(hosts);
    }
  }

  lemma SumDivMod(x: nat, m: nat, n: nat)
    requires n >= 1
    ensures var q, r := x / n + m / n, x % n + m % n;
            if r < n then (x + m) / n == q && (x + m) % n == r
            else (x + m) / n == q + 1 && (x + m) % n == r - n
  {
    var a, b, c, d := x / n, x % n, m / n, m % n;
    assert x == a * n + b;
    assert m == c * n + d;
    SumOfParts(x + m, a, b, c, d, n);
  }

  lemma SumOfParts(t: nat, a: nat, b: nat, c: nat, d: nat, n: nat)
    requires b < n && d < n && t == (a * n + b) + (c * n + d)
    ensures if b + d < n then t / n == a + c && t % n == b + d
            else t / n == a + c + 1 && t % n == b + d - n
  {
    assert (a + c) * n == a * n + c * n && (a + c + 1) * n == (a + c) * n + n;
    if b + d < n {
      DivModUnique(t, n, a + c, b + d);
    } else {
      DivModUnique(t, n, a + c + 1, b + d - n);
    }
  }

  lemma CeilDiv(m: nat, n: nat)
    requires n >= 1
    ensures (m + n - 1) / n == m / n + if m % n == 0 then 0 else 1
  {
    assert m == (m / n) * n + m % n;
    if m % n == 0 {
      DivModUnique(m + n - 1, n, m / n, n - 1);
    } else {
      assert (m / n + 1) * n == (m / n) * n + n;
      DivModUnique(m + n - 1, n, m / n + 1, m % n - 1);
    }
  }
}
