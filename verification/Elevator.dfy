/** The disk elevator: a sorted request queue, a sweep direction, and the turn passed between blocked tasks. */
module Elevator {
  import opened Options
  import opened FiniteSets

  datatype Direction = Up | Down

  /** id numbers the requests in order of arrival. */
  datatype Request = Request(id: nat, idx: int)

  /** turn is the request being served (serving) or whose task has been woken to serve it; blocked are the requests
      whose task sleeps; done lists the completed requests, first to last. */
  datatype State = State(queue: seq<Request>, dir: Direction, turn: Option<nat>, serving: bool, blocked: set<nat>,
                         arrivals: nat, done: seq<Request>)

  const INITIAL := State([], Up, None, false, {}, 0, [])

  // ---------- the steps ----------

  /** Where list_insert_sort puts a request: before the first greater index. */
  function InsertPlace(q: seq<Request>, idx: int): (k: nat)
    ensures k <= |q|
    ensures forall j | 0 <= j < k :: q[j].idx <= idx
    ensures k < |q| ==> q[k].idx > idx
  {
    if q == [] || q[0].idx > idx then 0 else 1 + InsertPlace(q[1..], idx)
  }

  /** A task asks for sector idx: it goes on at once if the queue was empty, and sleeps otherwise. */
  function Arrived(s: State, idx: int): State {
    var r := Request(s.arrivals, idx);
    var k := InsertPlace(s.queue, idx);
    var q := s.queue[..k] + [r] + s.queue[k..];
    if s.queue == [] then
      s.(queue := q, arrivals := s.arrivals + 1, turn := Some(r.id), serving := true)
    else
      s.(queue := q, arrivals := s.arrivals + 1, blocked := s.blocked + {r.id})
  }

  /** The direction after request a of n is finished: it turns round at the end of the queue. */
  function Turned(n: nat, a: nat, dir: Direction): Direction {
    if dir == Up && a + 1 == n then Down else if dir == Down && a == 0 then Up else dir
  }

  /** The neighbour of request a of n that is served next. */
  function NextPlace(n: nat, a: nat, dir: Direction): (next: Option<nat>)
    requires a < n
    ensures next.None? <==> n == 1
    ensures next.Some? ==> next.value < n && (next.value == a + 1 || next.value + 1 == a)
    ensures next.Some? ==> (next.value == a + 1 <==> Turned(n, a, dir) == Up)
  {
    match Turned(n, a, dir)
    case Up => if a + 1 < n then Some(a + 1) else None
    case Down => if a > 0 then Some(a - 1) else None
  }

  ghost predicate At(q: seq<Request>, id: nat, a: nat) {
    a < |q| && q[a].id == id
  }

  /** The request at place a is finished, leaves the queue, and the turn passes to its neighbour. */
  function Completed(s: State, a: nat): State
    requires a < |s.queue|
  {
    var n := |s.queue|;
    var rest := s.(queue := s.queue[..a] + s.queue[a + 1..], dir := Turned(n, a, s.dir), done := s.done + [s.queue[a]],
                   serving := false);
    match NextPlace(n, a, s.dir)
    case None => rest.(turn := None)
    case Some(k) => rest.(turn := Some(s.queue[k].id), blocked := s.blocked - {s.queue[k].id})
  }

  datatype Event = Arrive(idx: int) | Resume | Complete

  /** Who was woken runs on as soon as it is scheduled; only the one whose turn it is completes. */
  ghost predicate Step(s: State, e: Event, s': State) {
    match e
    case Arrive(idx) => s' == Arrived(s, idx)
    case Resume => s.turn.Some? && !s.serving && s' == s.(serving := true)
    case Complete => s.turn.Some? && s.serving && exists a :: At(s.queue, s.turn.value, a) && s' == Completed(s, a)
  }

  // ---------- what every step keeps ----------

  ghost predicate Before(r: Request, t: Request) {
    r.idx < t.idx || (r.idx == t.idx && r.id < t.id)
  }

  /** Sorted by index, and among equal indices in order of arrival. */
  ghost predicate Sorted(q: seq<Request>) {
    forall i, j | 0 <= i < j < |q| :: Before(q[i], q[j])
  }

  ghost predicate IdsDistinct(q: seq<Request>) {
    forall i, j | 0 <= i < j < |q| :: q[i].id != q[j].id
  }

  ghost function Ids(q: seq<Request>): set<nat> {
    set i | 0 <= i < |q| :: q[i].id
  }

  /** Exactly one request of a non-empty queue has the turn; whoever made another one sleeps. */
  ghost predicate OneTurn(s: State) {
    && (s.turn.None? <==> s.queue == [])
    && (s.turn.None? ==> s.blocked == {} && !s.serving)
    && (s.turn.Some? ==> s.turn.value in Ids(s.queue) && s.blocked == Ids(s.queue) - {s.turn.value})
  }

  /** Every request that arrived is waiting or was completed once, and not both. */
  ghost predicate Accounted(s: State) {
    && IdsDistinct(s.done)
    && Ids(s.queue) !! Ids(s.done)
    && Ids(s.queue) + Ids(s.done) == Interval(0, s.arrivals)
  }

  ghost predicate Inv(s: State) {
    Sorted(s.queue) && IdsDistinct(s.queue) && OneTurn(s) && Accounted(s)
  }

  lemma InsertedIds(q: seq<Request>, k: nat, r: Request)
    requires k <= |q|
    ensures Ids(q[..k] + [r] + q[k..]) == Ids(q) + {r.id}
  {
    var p := q[..k] + [r] + q[k..];
    assert p[k] == r;
    forall i | 0 <= i < |q|
      ensures q[i].id in Ids(p)
    {
      assert p[if i < k then i else i + 1] == q[i];
    }
  }

  lemma RemovedIds(q: seq<Request>, a: nat)
    requires a < |q| && IdsDistinct(q)
    ensures Ids(q[..a] + q[a + 1..]) == Ids(q) - {q[a].id}
  {
    var p := q[..a] + q[a + 1..];
    forall i | 0 <= i < |q| && i != a
      ensures q[i].id in Ids(p)
    {
      assert p[if i < a then i else i - 1] == q[i];
    }
  }

  lemma InsertedSorted(q: seq<Request>, r: Request)
    requires Sorted(q) && forall i | 0 <= i < |q| :: q[i].id < r.id
    ensures var k := InsertPlace(q, r.idx); Sorted(q[..k] + [r] + q[k..])
  {
    var k := InsertPlace(q, r.idx);
    var p := q[..k] + [r] + q[k..];
    forall i, j | 0 <= i < j < |p|
      ensures Before(p[i], p[j])
    {
      if i != k && j != k {
        assert Before(q[if i < k then i else i - 1], q[if j < k then j else j - 1]);
      } else if i == k && j > k + 1 {
        assert Before(q[k], q[j - 1]);
      }
    }
  }

  lemma RemovedSorted(q: seq<Request>, a: nat)
    requires Sorted(q) && a < |q|
    ensures Sorted(q[..a] + q[a + 1..])
  {
    var p := q[..a] + q[a + 1..];
    forall i, j | 0 <= i < j < |p|
      ensures Before(p[i], p[j])
    {
      assert Before(q[if i < a then i else i + 1], q[if j < a then j else j + 1]);
    }
  }

  lemma IdOf(q: seq<Request>, i: nat)
    requires i < |q|
    ensures q[i].id in Ids(q)
  {}

  lemma InsertedDistinct(q: seq<Request>, k: nat, r: Request)
    requires IdsDistinct(q) && k <= |q| && r.id !in Ids(q)
    ensures IdsDistinct(q[..k] + [r] + q[k..])
  {
    forall i | 0 <= i < |q|
      ensures q[i].id != r.id
    {
      IdOf(q, i);
    }
  }

  lemma ArrivedKeeps(s: State, idx: int)
    requires Inv(s)
    ensures Inv(Arrived(s, idx))
  {
    hide Sorted, IdsDistinct, Ids, InsertPlace;
    var r, k := Request(s.arrivals, idx), InsertPlace(s.queue, idx);
    forall i: nat | i < |s.queue|
      ensures s.queue[i].id < r.id
    {
      IdOf(s.queue, i);
    }
    InsertedSorted(s.queue, r);
    InsertedIds(s.queue, k, r);
    InsertedDistinct(s.queue, k, r);
    if s.queue == [] {
      NoIds();
    }
  }

  lemma NoIds()
    ensures Ids([]) == {}
  {}

  lemma CompletedKeeps(s: State, a: nat)
    requires Inv(s) && s.turn.Some? && At(s.queue, s.turn.value, a)
    ensures Inv(Completed(s, a))
  {
    hide Sorted, Ids;
    RemovedIds(s.queue, a);
    RemovedSorted(s.queue, a);
    InsertedIds(s.done, |s.done|, s.queue[a]);
    IdOf(s.queue, a);
    InsertedDistinct(s.done, |s.done|, s.queue[a]);
    assert s.done + [s.queue[a]] == s.done[..|s.done|] + [s.queue[a]] + s.done[|s.done|..];
    if NextPlace(|s.queue|, a, s.dir).Some? {
      IdOf(s.queue, NextPlace(|s.queue|, a, s.dir).value);
    } else {
      NoIds();
    }
  }

  lemma StepKeeps(s: State, e: Event, s': State)
    requires Inv(s) && Step(s, e, s')
    ensures Inv(s')
  {
    match e {
      case Arrive(idx) => ArrivedKeeps(s, idx);
      case Resume =>
      case Complete =>
        var a :| At(s.queue, s.turn.value, a) && s' == Completed(s, a);
        CompletedKeeps(s, a);
    }
  }

  ghost predicate Run(ss: seq<State>, es: seq<Event>) {
    |ss| == |es| + 1 && forall n | 0 <= n < |es| :: Step(ss[n], es[n], ss[n + 1])
  }

  /** Over every run: one owner, everybody else asleep, nobody lost, nobody served twice. */
  lemma {:induction false} RunKeeps(ss: seq<State>, es: seq<Event>, n: nat)
    requires Run(ss, es) && ss[0] == INITIAL && n < |ss|
    ensures Inv(ss[n])
  {
    if n > 0 {
      RunKeeps(ss, es, n - 1);
      StepKeeps(ss[n - 1], es[n - 1], ss[n]);
    }
  }

  // ---------- the order of service ----------

  function Reverse(q: seq<Request>): (r: seq<Request>)
    ensures |r| == |q|
  {
    if q == [] then [] else Reverse(q[1..]) + [q[0]]
  }

  lemma {:induction false} ReverseAt(q: seq<Request>, i: nat)
    requires i < |q|
    ensures Reverse(q)[i] == q[|q| - 1 - i]
  {
    if i < |q| - 1 {
      ReverseAt(q[1..], i);
    }
  }

  lemma {:induction false} ReverseLast(q: seq<Request>)
    requires q != []
    ensures Reverse(q) == [q[|q| - 1]] + Reverse(q[..|q| - 1])
  {
    if |q| > 1 {
      ReverseLast(q[1..]);
      assert q[1..][..|q| - 2] == q[..|q| - 1][1..];
    }
  }

  /** One sweep from place a in the direction of travel to the end of the queue, then one the other way. */
  function Sweep(q: seq<Request>, a: nat, dir: Direction): seq<Request>
    requires a < |q|
  {
    match dir
    case Up => q[a..] + Reverse(q[..a])
    case Down => Reverse(q[..a + 1]) + q[a + 1..]
  }

  ghost function TurnPlace(s: State): (a: nat)
    requires s.turn.Some? && s.turn.value in Ids(s.queue)
    ensures At(s.queue, s.turn.value, a)
  {
    assert exists a: nat :: At(s.queue, s.turn.value, a) by {
      var a: nat :| a < |s.queue| && s.queue[a].id == s.turn.value;
      assert At(s.queue, s.turn.value, a);
    }
    var a: nat :| At(s.queue, s.turn.value, a);
    a
  }

  /** The requests still to be served if no more arrive, in order. */
  ghost function Remaining(s: State): seq<Request>
    requires OneTurn(s)
  {
    if s.turn.None? then [] else Sweep(s.queue, TurnPlace(s), s.dir)
  }

  lemma SweepUp(q: seq<Request>, rest: seq<Request>, a: nat)
    requires a + 1 < |q| && rest == q[..a] + q[a + 1..]
    ensures Sweep(q, a, Up) == [q[a]] + Sweep(rest, a, Up)
  {
    hide Reverse;
    assert rest[a..] == q[a + 1..] && rest[..a] == q[..a];
    assert q[a..] == [q[a]] + q[a + 1..];
  }

  lemma SweepDown(q: seq<Request>, rest: seq<Request>, a: nat)
    requires 0 < a < |q| && rest == q[..a] + q[a + 1..]
    ensures Sweep(q, a, Down) == [q[a]] + Sweep(rest, a - 1, Down)
  {
    hide Reverse;
    ReverseLast(q[..a + 1]);
    assert q[..a + 1][..a] == q[..a];
    assert rest[a..] == q[a + 1..] && rest[..a] == q[..a];
  }

  lemma SweepTop(q: seq<Request>, rest: seq<Request>)
    requires |q| > 1 && rest == q[..|q| - 1]
    ensures Sweep(q, |q| - 1, Up) == [q[|q| - 1]] + Sweep(rest, |q| - 2, Down)
  {
    hide Reverse;
    assert q[|q| - 1..] == [q[|q| - 1]];
    assert rest[..|rest|] == rest;
  }

  lemma SweepBottom(q: seq<Request>, rest: seq<Request>)
    requires |q| > 1 && rest == q[1..]
    ensures Sweep(q, 0, Down) == [q[0]] + Sweep(rest, 0, Up)
  {
    assert q[..1] == [q[0]];
    assert Reverse(q[..1]) == [q[0]];
    assert rest[0..] == rest && rest[..0] == [];
  }

  /** After request a the rest is swept from its neighbour in the direction chosen for it. */
  lemma SweepStep(q: seq<Request>, a: nat, dir: Direction)
    requires 1 < |q| && a < |q|
    ensures var next := NextPlace(|q|, a, dir).value;
            Sweep(q, a, dir) ==
              [q[a]] + Sweep(q[..a] + q[a + 1..], if next < a then next else a, Turned(|q|, a, dir))
  {
    hide Sweep;
    var rest := q[..a] + q[a + 1..];
    match dir {
      case Up =>
        if a + 1 < |q| {
          SweepUp(q, rest, a);
        } else {
          SweepTop(q, rest);
        }
      case Down =>
        if a > 0 {
          SweepDown(q, rest, a);
        } else {
          SweepBottom(q, rest);
        }
    }
  }

  lemma TurnAt(s: State, a: nat)
    requires OneTurn(s) && s.turn.Some? && IdsDistinct(s.queue) && At(s.queue, s.turn.value, a)
    ensures Remaining(s) == Sweep(s.queue, a, s.dir)
  {
    hide Sweep;
  }

  lemma CompletedServes(s: State, a: nat)
    requires Inv(s) && s.turn.Some? && At(s.queue, s.turn.value, a) && Inv(Completed(s, a))
    ensures Remaining(s) == [s.queue[a]] + Remaining(Completed(s, a))
  {
    hide Sorted, Ids, Accounted, Sweep, IdsDistinct;
    var s' := Completed(s, a);
    TurnAt(s, a);
    if |s.queue| > 1 {
      var next := NextPlace(|s.queue|, a, s.dir).value;
      SweepStep(s.queue, a, s.dir);
      TurnAt(s', if next < a then next else a);
    } else {
      SingleSweep(s.queue, s.dir);
    }
  }

  lemma SingleSweep(q: seq<Request>, dir: Direction)
    requires |q| == 1
    ensures Sweep(q, 0, dir) == [q[0]]
  {
    assert q[..0] == [] && q[0..] == [q[0]] && q[..1] == [q[0]] && q[1..] == [];
  }

  /** What has been served and what is still to be served, put together, never changes while nothing arrives. */
  lemma ServiceOrder(s: State, e: Event, s': State)
    requires Inv(s) && Step(s, e, s') && !e.Arrive?
    ensures Inv(s') && s'.done + Remaining(s') == s.done + Remaining(s)
    ensures |s'.queue| == |s.queue| - (if e.Complete? then 1 else 0)
  {
    hide Sorted, Ids, Accounted, Sweep, IdsDistinct;
    StepKeeps(s, e, s');
    match e {
      case Resume =>
        TurnAt(s, TurnPlace(s));
        TurnAt(s', TurnPlace(s));
      case Complete =>
        var a :| At(s.queue, s.turn.value, a) && s' == Completed(s, a);
        CompletedServes(s, a);
    }
  }

  function Completions(es: seq<Event>): nat {
    if es == [] then 0 else Completions(es[..|es| - 1]) + if es[|es| - 1].Complete? then 1 else 0
  }

  /** Without arrivals a queue of n requests is empty after exactly n completions, served in two sweeps. */
  lemma {:induction false} DrainsInTwoSweeps(ss: seq<State>, es: seq<Event>)
    requires Run(ss, es) && Inv(ss[0]) && forall n | 0 <= n < |es| :: !es[n].Arrive?
    ensures Inv(ss[|es|]) && ss[|es|].done + Remaining(ss[|es|]) == ss[0].done + Remaining(ss[0])
    ensures |ss[|es|].queue| == |ss[0].queue| - Completions(es)
    ensures Completions(es) == |ss[0].queue| <==> ss[|es|].queue == []
    ensures ss[|es|].queue == [] ==> ss[|es|].done == ss[0].done + Remaining(ss[0])
    decreases |es|
  {
    hide Inv, Step;
    var n := |es|;
    if n > 0 {
      DrainsInTwoSweeps(ss[..n], es[..n - 1]);
      ServiceOrder(ss[n - 1], es[n - 1], ss[n]);
    }
    assert OneTurn(ss[n]) by {
      InvHasOneTurn(ss[n]);
    }
  }

  lemma InvHasOneTurn(s: State)
    requires Inv(s)
    ensures OneTurn(s)
  {}

  // ---------- head travel ----------

  function Distance(a: int, b: int): nat {
    if a < b then b - a else a - b
  }

  /** How far the head moves to serve q in order. */
  function Travel(q: seq<Request>): nat {
    if |q| < 2 then 0 else Distance(q[0].idx, q[1].idx) + Travel(q[1..])
  }

  lemma {:induction false} TravelConcat(p: seq<Request>, q: seq<Request>)
    requires p != [] && q != []
    ensures Travel(p + q) == Travel(p) + Distance(p[|p| - 1].idx, q[0].idx) + Travel(q)
  {
    if |p| == 1 {
      assert (p + q)[1..] == q;
    } else {
      TravelConcat(p[1..], q);
      assert (p + q)[1..] == p[1..] + q;
    }
  }

  ghost predicate Rising(q: seq<Request>) {
    forall i, j | 0 <= i < j < |q| :: q[i].idx <= q[j].idx
  }

  lemma {:induction false} TravelRising(q: seq<Request>)
    requires Rising(q) && q != []
    ensures Travel(q) == Travel(Reverse(q)) == q[|q| - 1].idx - q[0].idx
  {
    if |q| > 1 {
      TravelRising(q[1..]);
      TravelConcat(Reverse(q[1..]), [q[0]]);
    }
  }

  lemma SortedRises(q: seq<Request>, i: nat, j: nat)
    requires Sorted(q) && i <= j <= |q|
    ensures Rising(q[i..j])
  {
    forall k, l | 0 <= k < l < j - i
      ensures q[i..j][k].idx <= q[i..j][l].idx
    {
      assert Before(q[i + k], q[i + l]);
    }
  }

  lemma TravelOfTwo(up: seq<Request>, down: seq<Request>)
    requires Rising(up) && Rising(down) && up != [] && down != []
    ensures var far := Distance(up[|up| - 1].idx, down[|down| - 1].idx);
            Travel(up + Reverse(down)) == up[|up| - 1].idx - up[0].idx + far + down[|down| - 1].idx - down[0].idx
    ensures var far := Distance(down[0].idx, up[0].idx);
            Travel(Reverse(down) + up) == down[|down| - 1].idx - down[0].idx + far + up[|up| - 1].idx - up[0].idx
  {
    hide Rising, Travel, Distance, Reverse;
    TravelRising(up);
    TravelRising(down);
    ReverseAt(down, 0);
    ReverseAt(down, |down| - 1);
    TravelConcat(up, Reverse(down));
    TravelConcat(Reverse(down), up);
  }

  lemma SortedApart(q: seq<Request>, i: nat, j: nat)
    requires Sorted(q) && i <= j < |q|
    ensures q[i].idx <= q[j].idx
  {
    if i < j {
      assert Before(q[i], q[j]);
    }
  }

  /** Draining the queue moves the head exactly this far. */
  function SweepLength(q: seq<Request>, a: nat, dir: Direction): int
    requires a < |q|
  {
    var low, here, high := q[0].idx, q[a].idx, q[|q| - 1].idx;
    match dir
    case Up => (high - here) + (if a == 0 then 0 else high - low)
    case Down => (here - low) + (if a + 1 == |q| then 0 else high - low)
  }

  /** At most twice across the queue. */
  lemma SweepTravel(q: seq<Request>, a: nat, dir: Direction)
    requires Sorted(q) && a < |q|
    ensures Travel(Sweep(q, a, dir)) == SweepLength(q, a, dir) <= 2 * (q[|q| - 1].idx - q[0].idx)
  {
    hide Sorted, Travel, Reverse, Rising;
    SortedApart(q, 0, a);
    SortedApart(q, a, |q| - 1);
    SortedRises(q, 0, |q|);
    assert q[0..|q|] == q;
    match dir {
      case Up =>
        SweepTravelUp(q, a);
      case Down =>
        SweepTravelDown(q, a);
    }
  }

  lemma SweepTravelUp(q: seq<Request>, a: nat)
    requires Sorted(q) && a < |q|
    ensures Travel(Sweep(q, a, Up)) == SweepLength(q, a, Up)
  {
    hide Sorted, Travel, Reverse, Rising;
    SortedRises(q, a, |q|);
    SortedApart(q, 0, a);
    SortedApart(q, a, |q| - 1);
    if a > 0 {
      SortedRises(q, 0, a);
      SortedApart(q, a - 1, |q| - 1);
      assert q[a..|q|] == q[a..] && q[0..a] == q[..a];
      TravelOfTwo(q[a..], q[..a]);
    } else {
      assert Reverse(q[..a]) == [];
      assert Sweep(q, a, Up) == q[a..];
      TravelRising(q[a..]);
    }
  }

  lemma SweepTravelDown(q: seq<Request>, a: nat)
    requires Sorted(q) && a < |q|
    ensures Travel(Sweep(q, a, Down)) == SweepLength(q, a, Down)
  {
    hide Sorted, Travel, Reverse, Rising;
    SortedRises(q, 0, a + 1);
    if a + 1 < |q| {
      SortedRises(q, a + 1, |q|);
      SortedApart(q, 0, a + 1);
      assert q[a + 1..|q|] == q[a + 1..] && q[0..a + 1] == q[..a + 1];
      TravelOfTwo(q[a + 1..], q[..a + 1]);
    } else {
      assert Sweep(q, a, Down) == Reverse(q[..a + 1]);
      TravelRising(q[..a + 1]);
    }
  }

  /** The head turns round exactly when no request lies before it in the direction it was moving, also at the last one of all. */
  lemma TurnsExactly(s: State, a: nat)
    requires a < |s.queue|
    ensures Completed(s, a).dir != s.dir <==> forall b: nat | b < |s.queue| :: !Beyond(s.dir, a, b)
  {
    assert a + 1 < |s.queue| ==> Beyond(Up, a, a + 1);
    assert a > 0 ==> Beyond(Down, a, a - 1);
  }

  // ---------- with arrivals ----------

  /** Request id lies before the head, in the direction it is moving. */
  ghost predicate Ahead(s: State, id: nat) {
    s.turn.Some? && exists a, b :: At(s.queue, s.turn.value, a) && At(s.queue, id, b) && Beyond(s.dir, a, b)
  }

  ghost predicate Beyond(dir: Direction, a: nat, b: nat) {
    if dir == Up then a < b else b < a
  }

  lemma ArrivedAhead(s: State, idx: int, a: nat, b: nat)
    requires s.turn.Some? && a < |s.queue| && b < |s.queue| && s.queue[a].id == s.turn.value && Beyond(s.dir, a, b)
    ensures Ahead(Arrived(s, idx), s.queue[b].id)
  {
    var s', k := Arrived(s, idx), InsertPlace(s.queue, idx);
    var a', b' := if a < k then a else a + 1, if b < k then b else b + 1;
    assert At(s'.queue, s.turn.value, a') && At(s'.queue, s.queue[b].id, b') && Beyond(s.dir, a', b');
  }

  lemma CompletedAhead(s: State, a: nat, b: nat)
    requires a < |s.queue| && b < |s.queue| && Beyond(s.dir, a, b)
    ensures Completed(s, a).dir == s.dir
    ensures Completed(s, a).turn == Some(s.queue[b].id) || Ahead(Completed(s, a), s.queue[b].id)
  {
    var s', next := Completed(s, a), NextPlace(|s.queue|, a, s.dir).value;
    if next != b {
      var a', b' := if next < a then next else a, if b < a then b else b - 1;
      assert At(s'.queue, s'.turn.value, a') && At(s'.queue, s.queue[b].id, b') && Beyond(s.dir, a', b');
    }
  }

  /** A request ahead of the head is served before the head turns round, whatever arrives meanwhile. */
  lemma AheadUntilServed(s: State, e: Event, s': State, id: nat)
    requires Inv(s) && Step(s, e, s') && Ahead(s, id)
    ensures s'.dir == s.dir && (s'.turn == Some(id) || Ahead(s', id))
  {
    hide Sorted, Accounted, Ids;
    var a, b :| At(s.queue, s.turn.value, a) && At(s.queue, id, b) && Beyond(s.dir, a, b);
    match e {
      case Arrive(idx) => ArrivedAhead(s, idx, a, b);
      case Resume =>
      case Complete =>
        var c :| At(s.queue, s.turn.value, c) && s' == Completed(s, c);
        CompletedAhead(s, a, b);
    }
  }

  lemma {:induction false} NotPassedOver(ss: seq<State>, es: seq<Event>, m: nat, n: nat, id: nat)
    requires Run(ss, es) && ss[0] == INITIAL && m <= n < |ss| && Ahead(ss[m], id)
    requires forall k | m <= k <= n :: ss[k].turn != Some(id)
    ensures Ahead(ss[n], id) && ss[n].dir == ss[m].dir
    decreases n
  {
    hide Ahead, Step;
    if m < n {
      NotPassedOver(ss, es, m, n - 1, id);
      RunKeeps(ss, es, n - 1);
      AheadUntilServed(ss[n - 1], es[n - 1], ss[n], id);
    }
  }
}
