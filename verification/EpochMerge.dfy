/** The merge of a session's stimuli with its observations, and the pairing of the two on a card. */
module EpochMerge {
  import opened Wrappers
  import opened StableSort

  // ---------------------------------------------------------------- the two logs

  /** A line of the event log; the tick is the result's, when it has one. */
  datatype Event = Event(id: int, session: int, action: string, tick: Option<int>, detail: string)

  /** A line of the observation log, in write order. */
  datatype Obs = Obs(session: int, tick: int, state: string)

  datatype Payload = Ev(event: Event) | Ob(obs: Obs)

  datatype Entry = Entry(epoch: int, tick: int, kind: int, num: int, payload: Payload)

  function EventTick(e: Event, carry: int): int {
    if e.tick.Some? then e.tick.value else carry
  }

  function OfSession(session: int): Event -> bool {
    (e: Event) => e.session == session
  }

  function ObsOfSession(session: int): Obs -> bool {
    (o: Obs) => o.session == session
  }

  predicate ById(a: Event, b: Event) {
    a.id < b.id
  }

  function SessionEvents(events: seq<Event>, session: int): seq<Event> {
    Sort(Filter(events, OfSession(session)), ById)
  }

  function SessionObs(obs: seq<Obs>, session: int): seq<Obs> {
    Filter(obs, ObsOfSession(session))
  }

  /** How often the clock goes back from one observation to the next. */
  function Rewinds(obs: seq<Obs>): nat {
    if |obs| < 2 then 0 else (if obs[1].tick < obs[0].tick then 1 else 0) + Rewinds(obs[1..])
  }

  // ---------------------------------------------------------------- stamps

  function NextEpoch(epoch: int, prev: int, tick: int): int {
    if tick < prev then epoch + 1 else epoch
  }

  function StampEvents(events: seq<Event>, epoch: int, prev: int): (r: seq<Entry>)
    ensures |r| == |events|
  {
    if events == [] then []
    else
      var t := EventTick(events[0], prev);
      var ep := NextEpoch(epoch, prev, t);
      [Entry(ep, t, 0, events[0].id, Ev(events[0]))] + StampEvents(events[1..], ep, t)
  }

  function StampObs(obs: seq<Obs>, epoch: int, prev: int, num: int): (r: seq<Entry>)
    ensures |r| == |obs|
  {
    if obs == [] then []
    else
      var t := obs[0].tick;
      var ep := NextEpoch(epoch, prev, t);
      [Entry(ep, t, 1, num, Ob(obs[0]))] + StampObs(obs[1..], ep, t, num + 1)
  }

  /** By epoch, tick, kind and number, in this order. */
  predicate Before(a: Entry, b: Entry) {
    a.epoch < b.epoch || (a.epoch == b.epoch && ByTick(a, b))
  }

  /** By tick, kind and number. */
  predicate ByTick(a: Entry, b: Entry) {
    a.tick < b.tick || (a.tick == b.tick && (a.kind < b.kind || (a.kind == b.kind && a.num < b.num)))
  }

  lemma OrdersAreWeak()
    ensures WeakOrder(Before) && WeakOrder(ByTick) && WeakOrder(ById)
  {
  }

  function Entries(events: seq<Event>, obs: seq<Obs>): seq<Entry> {
    StampEvents(events, 0, 0) + StampObs(obs, 0, 0, 0)
  }

  function Timeline(events: seq<Event>, obs: seq<Obs>): seq<Entry> {
    Sort(Entries(events, obs), Before)
  }

  /** The merge without epochs. */
  function RawTimeline(events: seq<Event>, obs: seq<Obs>): seq<Entry> {
    Sort(Entries(events, obs), ByTick)
  }

  function Payloads(entries: seq<Entry>): (r: seq<Payload>)
    ensures |r| == |entries|
  {
    if entries == [] then [] else [entries[0].payload] + Payloads(entries[1..])
  }

  function Merge(events: seq<Event>, obs: seq<Obs>): seq<Payload> {
    Payloads(Timeline(events, obs))
  }

  // ---------------------------------------------------------------- the loops

  method StampEventsLoop(events: seq<Event>) returns (timeline: seq<Entry>)
    ensures timeline == StampEvents(events, 0, 0)
  {
    timeline := [];
    var epoch, prev := 0, 0;
    assert events[0..] == events && timeline + StampEvents(events, 0, 0) == StampEvents(events, 0, 0);
    for i := 0 to |events|
      invariant timeline + StampEvents(events[i..], epoch, prev) == StampEvents(events, 0, 0)
    {
      assert events[i..][1..] == events[i + 1..];
      var t := EventTick(events[i], prev);
      if t < prev {
        epoch := epoch + 1;
      }
      prev := t;
      timeline := timeline + [Entry(epoch, t, 0, events[i].id, Ev(events[i]))];
    }
    assert timeline + [] == timeline;
  }

  method StampObsLoop(obs: seq<Obs>) returns (timeline: seq<Entry>)
    ensures timeline == StampObs(obs, 0, 0, 0)
  {
    timeline := [];
    var epoch, prev := 0, 0;
    assert obs[0..] == obs && timeline + StampObs(obs, 0, 0, 0) == StampObs(obs, 0, 0, 0);
    for i := 0 to |obs|
      invariant timeline + StampObs(obs[i..], epoch, prev, i) == StampObs(obs, 0, 0, 0)
    {
      assert obs[i..][1..] == obs[i + 1..];
      var t := obs[i].tick;
      if t < prev {
        epoch := epoch + 1;
      }
      prev := t;
      timeline := timeline + [Entry(epoch, t, 1, i, Ob(obs[i]))];
    }
    assert timeline + [] == timeline;
  }

  method MergeLoop(events: seq<Event>, obs: seq<Obs>) returns (merged: seq<Payload>)
    ensures merged == Merge(events, obs)
  {
    var stamped := StampEventsLoop(events);
    var observed := StampObsLoop(obs);
    merged := Payloads(Sort(stamped + observed, Before));
  }

  // ---------------------------------------------------------------- stamps rise

  /** Later in time: a later epoch, or a tick no smaller in the same one. */
  predicate NotEarlier(a: Entry, epoch: int, tick: int) {
    a.epoch > epoch || (a.epoch == epoch && a.tick >= tick)
  }

  lemma {:induction false} EventStampsRise(events: seq<Event>, epoch: int, prev: int, x: Entry)
    requires x in StampEvents(events, epoch, prev)
    ensures NotEarlier(x, epoch, prev) && x.kind == 0 && x.payload.Ev? && x.num == x.payload.event.id
    ensures x.payload.event in events
    decreases |events|
  {
    var t := EventTick(events[0], prev);
    var ep := NextEpoch(epoch, prev, t);
    if x in StampEvents(events[1..], ep, t) {
      EventStampsRise(events[1..], ep, t, x);
    }
  }

  lemma {:induction false} ObsStampsRise(obs: seq<Obs>, epoch: int, prev: int, num: int, x: Entry)
    requires x in StampObs(obs, epoch, prev, num)
    ensures NotEarlier(x, epoch, prev) && x.kind == 1 && x.payload.Ob? && x.num >= num
    decreases |obs|
  {
    var t := obs[0].tick;
    var ep := NextEpoch(epoch, prev, t);
    if x in StampObs(obs[1..], ep, t, num + 1) {
      ObsStampsRise(obs[1..], ep, t, num + 1, x);
    }
  }

  /** The ids go up, as sorting by id leaves them. */
  predicate IdsAscend(events: seq<Event>) {
    forall i, j :: 0 <= i < j < |events| ==> events[i].id <= events[j].id
  }

  lemma {:induction false} EventStampsOrdered(events: seq<Event>, epoch: int, prev: int)
    requires IdsAscend(events)
    ensures Ordered(StampEvents(events, epoch, prev), Before)
    decreases |events|
  {
    if events != [] {
      var t := EventTick(events[0], prev);
      var ep := NextEpoch(epoch, prev, t);
      var rest := StampEvents(events[1..], ep, t);
      EventStampsOrdered(events[1..], ep, t);
      var first := Entry(ep, t, 0, events[0].id, Ev(events[0]));
      forall y | y in rest
        ensures !Before(y, first)
      {
        EventStampsRise(events[1..], ep, t, y);
        var k :| 0 <= k < |events[1..]| && events[1..][k] == y.payload.event;
        assert events[k + 1].id >= events[0].id;
      }
      OrderedCons(first, rest, Before);
    }
  }

  lemma {:induction false} ObsStampsOrdered(obs: seq<Obs>, epoch: int, prev: int, num: int)
    ensures Ordered(StampObs(obs, epoch, prev, num), Before)
    decreases |obs|
  {
    if obs != [] {
      var t := obs[0].tick;
      var ep := NextEpoch(epoch, prev, t);
      var rest := StampObs(obs[1..], ep, t, num + 1);
      ObsStampsOrdered(obs[1..], ep, t, num + 1);
      var first := Entry(ep, t, 1, num, Ob(obs[0]));
      forall y | y in rest
        ensures !Before(y, first)
      {
        ObsStampsRise(obs[1..], ep, t, num + 1, y);
      }
      OrderedCons(first, rest, Before);
    }
  }

  predicate IsEvent(x: Entry) {
    x.kind == 0
  }

  predicate IsObs(x: Entry) {
    x.kind == 1
  }

  lemma {:induction false} FilterAll<T>(s: seq<T>, p: T -> bool)
    requires forall x :: x in s ==> p(x)
    ensures Filter(s, p) == s
  {
    if s != [] {
      FilterAll(s[1..], p);
    }
  }

  lemma {:induction false} FilterNone<T>(s: seq<T>, p: T -> bool)
    requires forall x :: x in s ==> !p(x)
    ensures Filter(s, p) == []
  {
    if s != [] {
      FilterNone(s[1..], p);
    }
  }

  lemma PartsOfEntries(events: seq<Event>, obs: seq<Obs>)
    ensures Filter(Entries(events, obs), IsEvent) == StampEvents(events, 0, 0)
    ensures Filter(Entries(events, obs), IsObs) == StampObs(obs, 0, 0, 0)
  {
    var a, b := StampEvents(events, 0, 0), StampObs(obs, 0, 0, 0);
    forall x | x in a
      ensures IsEvent(x)
    {
      EventStampsRise(events, 0, 0, x);
    }
    forall x | x in b
      ensures IsObs(x)
    {
      ObsStampsRise(obs, 0, 0, 0, x);
    }
    FilterAppend(a, b, IsEvent);
    FilterAppend(a, b, IsObs);
    FilterAll(a, IsEvent);
    FilterNone(b, IsEvent);
    FilterNone(a, IsObs);
    FilterAll(b, IsObs);
    assert a + [] == a && [] + b == b;
  }

  // ---------------------------------------------------------------- what the merge keeps

  function EventsOf(merged: seq<Payload>): seq<Event> {
    if merged == [] then []
    else if merged[0].Ev? then [merged[0].event] + EventsOf(merged[1..])
    else EventsOf(merged[1..])
  }

  function ObsOf(merged: seq<Payload>): seq<Obs> {
    if merged == [] then []
    else if merged[0].Ob? then [merged[0].obs] + ObsOf(merged[1..])
    else ObsOf(merged[1..])
  }

  ghost predicate Kinded(entries: seq<Entry>) {
    forall x :: x in entries ==> (x.kind == 0 && x.payload.Ev?) || (x.kind == 1 && x.payload.Ob?)
  }

  lemma TimelineKinded(events: seq<Event>, obs: seq<Obs>)
    ensures Kinded(Timeline(events, obs))
  {
    forall x | x in Timeline(events, obs)
      ensures (x.kind == 0 && x.payload.Ev?) || (x.kind == 1 && x.payload.Ob?)
    {
      SortIn(Entries(events, obs), Before, x);
      if x in StampEvents(events, 0, 0) {
        EventStampsRise(events, 0, 0, x);
      } else {
        ObsStampsRise(obs, 0, 0, 0, x);
      }
    }
  }

  lemma {:induction false} EventsOfEntries(entries: seq<Entry>)
    requires Kinded(entries)
    ensures EventsOf(Payloads(entries)) == EventsOf(Payloads(Filter(entries, IsEvent)))
    ensures ObsOf(Payloads(entries)) == ObsOf(Payloads(Filter(entries, IsObs)))
  {
    if entries != [] {
      EventsOfEntries(entries[1..]);
      PayloadsCons(entries[0], Filter(entries[1..], IsEvent));
      PayloadsCons(entries[0], Filter(entries[1..], IsObs));
      PayloadsCons(entries[0], entries[1..]);
      assert entries[0] in entries && [entries[0]] + entries[1..] == entries;
    }
  }

  lemma PayloadsCons(x: Entry, s: seq<Entry>)
    ensures Payloads([x] + s) == [x.payload] + Payloads(s)
    ensures EventsOf(Payloads([x] + s)) == (if x.payload.Ev? then [x.payload.event] else []) + EventsOf(Payloads(s))
    ensures ObsOf(Payloads([x] + s)) == (if x.payload.Ob? then [x.payload.obs] else []) + ObsOf(Payloads(s))
  {
  }

  lemma {:induction false} StampedEvents(events: seq<Event>, epoch: int, prev: int)
    ensures EventsOf(Payloads(StampEvents(events, epoch, prev))) == events
    decreases |events|
  {
    if events != [] {
      var t := EventTick(events[0], prev);
      var ep := NextEpoch(epoch, prev, t);
      StampedEvents(events[1..], ep, t);
      PayloadsCons(Entry(ep, t, 0, events[0].id, Ev(events[0])), StampEvents(events[1..], ep, t));
    }
  }

  lemma {:induction false} StampedObs(obs: seq<Obs>, epoch: int, prev: int, num: int)
    ensures ObsOf(Payloads(StampObs(obs, epoch, prev, num))) == obs
    decreases |obs|
  {
    if obs != [] {
      var t := obs[0].tick;
      var ep := NextEpoch(epoch, prev, t);
      StampedObs(obs[1..], ep, t, num + 1);
      PayloadsCons(Entry(ep, t, 1, num, Ob(obs[0])), StampObs(obs[1..], ep, t, num + 1));
    }
  }

  /** The merge keeps the observations in write order, rewinds or not, and events whose ids ascend in
    the order of their ids. */
  lemma MergeKeepsStreams(events: seq<Event>, obs: seq<Obs>)
    ensures ObsOf(Merge(events, obs)) == obs
    ensures IdsAscend(events) ==> EventsOf(Merge(events, obs)) == events
  {
    var entries := Entries(events, obs);
    TimelineKinded(events, obs);
    EventsOfEntries(Timeline(events, obs));
    PartsOfEntries(events, obs);
    ObsStampsOrdered(obs, 0, 0, 0);
    SortKeepsOrderedPart(entries, Before, IsObs);
    StampedObs(obs, 0, 0, 0);
    if IdsAscend(events) {
      EventStampsOrdered(events, 0, 0);
      SortKeepsOrderedPart(entries, Before, IsEvent);
      StampedEvents(events, 0, 0);
    }
  }

  lemma {:induction false} InsertPermutesPayloads(x: Entry, s: seq<Entry>)
    ensures multiset(Payloads(Insert(x, s, Before))) == multiset{x.payload} + multiset(Payloads(s))
  {
    if s == [] || !Before(s[0], x) {
      PayloadsCons(x, s);
    } else {
      InsertPermutesPayloads(x, s[1..]);
      PayloadsCons(s[0], Insert(x, s[1..], Before));
      PayloadsCons(s[0], s[1..]);
      assert [s[0]] + s[1..] == s;
    }
  }

  lemma {:induction false} SortPermutesPayloads(s: seq<Entry>)
    ensures multiset(Payloads(Sort(s, Before))) == multiset(Payloads(s))
  {
    if s != [] {
      SortPermutesPayloads(s[1..]);
      InsertPermutesPayloads(s[0], Sort(s[1..], Before));
      PayloadsCons(s[0], s[1..]);
      assert [s[0]] + s[1..] == s;
    }
  }

  function AllEvents(events: seq<Event>): seq<Payload> {
    if events == [] then [] else [Ev(events[0])] + AllEvents(events[1..])
  }

  function AllObs(obs: seq<Obs>): seq<Payload> {
    if obs == [] then [] else [Ob(obs[0])] + AllObs(obs[1..])
  }

  lemma {:induction false} PayloadsOfEvents(events: seq<Event>, epoch: int, prev: int)
    ensures Payloads(StampEvents(events, epoch, prev)) == AllEvents(events)
    decreases |events|
  {
    if events != [] {
      var t := EventTick(events[0], prev);
      var ep := NextEpoch(epoch, prev, t);
      PayloadsOfEvents(events[1..], ep, t);
      PayloadsCons(Entry(ep, t, 0, events[0].id, Ev(events[0])), StampEvents(events[1..], ep, t));
    }
  }

  lemma {:induction false} PayloadsOfObs(obs: seq<Obs>, epoch: int, prev: int, num: int)
    ensures Payloads(StampObs(obs, epoch, prev, num)) == AllObs(obs)
    decreases |obs|
  {
    if obs != [] {
      var t := obs[0].tick;
      var ep := NextEpoch(epoch, prev, t);
      PayloadsOfObs(obs[1..], ep, t, num + 1);
      PayloadsCons(Entry(ep, t, 1, num, Ob(obs[0])), StampObs(obs[1..], ep, t, num + 1));
    }
  }

  lemma {:induction false} PayloadsAppend(a: seq<Entry>, b: seq<Entry>)
    ensures Payloads(a + b) == Payloads(a) + Payloads(b)
  {
    if a == [] {
      assert a + b == b;
      EmptyFront(Payloads(b));
    } else {
      assert (a + b)[1..] == a[1..] + b;
      PayloadsAppend(a[1..], b);
    }
  }

  /** Whatever the ids and ticks, the merge holds exactly the events and the observations, each as often as
    its stream does. */
  lemma MergePermutes(events: seq<Event>, obs: seq<Obs>)
    ensures multiset(Merge(events, obs)) == multiset(AllEvents(events)) + multiset(AllObs(obs))
  {
    SortPermutesPayloads(Entries(events, obs));
    PayloadsAppend(StampEvents(events, 0, 0), StampObs(obs, 0, 0, 0));
    PayloadsOfEvents(events, 0, 0);
    PayloadsOfObs(obs, 0, 0, 0);
  }

  // ---------------------------------------------------------------- where a stimulus lands

  /** In the merge an event stands before an observation exactly when it is not later in epoch and
    tick; on a tie the event comes first. */
  lemma EventBeforeObs(events: seq<Event>, obs: seq<Obs>, a: nat, b: nat)
    requires a < |Timeline(events, obs)| && b < |Timeline(events, obs)|
    requires IsEvent(Timeline(events, obs)[a]) && IsObs(Timeline(events, obs)[b])
    ensures a < b <==> NotEarlier(Timeline(events, obs)[b], Timeline(events, obs)[a].epoch, Timeline(events, obs)[a].tick)
  {
    OrdersAreWeak();
    SortOrders(Entries(events, obs), Before);
  }

  /** What each event is stamped with: its own tick, or without one the tick of the event before it; and
    one epoch more than that event exactly when its tick is lower.  The first follows prev in epoch. */
  lemma {:induction false} EventStampAt(events: seq<Event>, epoch: int, prev: int, i: nat)
    requires i < |events|
    ensures var s := StampEvents(events, epoch, prev);
            && s[i].payload == Ev(events[i]) && s[i].num == events[i].id && s[i].kind == 0
            && (events[i].tick.Some? ==> s[i].tick == events[i].tick.value)
            && (events[i].tick.None? ==> s[i].tick == if i == 0 then prev else s[i - 1].tick)
            && (i == 0 ==> s[i].epoch == if s[i].tick < prev then epoch + 1 else epoch)
            && (i > 0 ==> s[i].epoch == if s[i].tick < s[i - 1].tick then s[i - 1].epoch + 1 else s[i - 1].epoch)
    decreases i
  {
    if i > 0 {
      var t := EventTick(events[0], prev);
      EventStampAt(events[1..], NextEpoch(epoch, prev, t), t, i - 1);
    }
  }

  /** The same for observations, which always have a tick, and are numbered. */
  lemma {:induction false} ObsStampAt(obs: seq<Obs>, epoch: int, prev: int, num: int, i: nat)
    requires i < |obs|
    ensures var s := StampObs(obs, epoch, prev, num);
            && s[i].payload == Ob(obs[i]) && s[i].num == num + i && s[i].kind == 1 && s[i].tick == obs[i].tick
            && (i == 0 ==> s[i].epoch == if s[i].tick < prev then epoch + 1 else epoch)
            && (i > 0 ==> s[i].epoch == if s[i].tick < s[i - 1].tick then s[i - 1].epoch + 1 else s[i - 1].epoch)
    decreases i
  {
    if i > 0 {
      var t := obs[0].tick;
      ObsStampAt(obs[1..], NextEpoch(epoch, prev, t), t, num + 1, i - 1);
    }
  }

  /** An event without a tick stays with the event before it: no observation comes between them. */
  lemma TicklessStaysWithItsEvent(events: seq<Event>, obs: seq<Obs>, i: nat, p: nat, q: nat, r: nat)
    requires 0 < i < |events| && events[i].tick.None?
    requires p < q < r < |Timeline(events, obs)|
    requires Timeline(events, obs)[p] == StampEvents(events, 0, 0)[i - 1]
    requires Timeline(events, obs)[r] == StampEvents(events, 0, 0)[i]
    ensures Timeline(events, obs)[q].payload.Ev?
  {
    EventStampAt(events, 0, 0, i - 1);
    EventStampAt(events, 0, 0, i);
    OrdersAreWeak();
    SortOrders(Entries(events, obs), Before);
    TimelineKinded(events, obs);
    assert Timeline(events, obs)[q] in Timeline(events, obs);
  }

  // ---------------------------------------------------------------- without rewinds

  ghost predicate OneEpoch(entries: seq<Entry>) {
    forall x :: x in entries ==> x.epoch == 0
  }

  /** Ticks that never go below the one before. */
  predicate Rising(ticks: seq<int>, prev: int) {
    ticks == [] || (ticks[0] >= prev && Rising(ticks[1..], ticks[0]))
  }

  /** The ticks of the events, each without its own taking the one before. */
  function EventTicks(events: seq<Event>, prev: int): seq<int> {
    if events == [] then []
    else [EventTick(events[0], prev)] + EventTicks(events[1..], EventTick(events[0], prev))
  }

  function ObsTicks(obs: seq<Obs>): seq<int> {
    if obs == [] then [] else [obs[0].tick] + ObsTicks(obs[1..])
  }

  lemma {:induction false} RisingEventsOneEpoch(events: seq<Event>, prev: int)
    ensures Rising(EventTicks(events, prev), prev) <==> OneEpoch(StampEvents(events, 0, prev))
    decreases |events|
  {
    if events != [] {
      var t := EventTick(events[0], prev);
      var ep := NextEpoch(0, prev, t);
      assert EventTicks(events, prev)[1..] == EventTicks(events[1..], t);
      var s := StampEvents(events, 0, prev);
      assert s[0].epoch == ep && s[1..] == StampEvents(events[1..], ep, t);
      if ep == 0 {
        RisingEventsOneEpoch(events[1..], t);
        OneEpochCons(s);
      } else {
        assert s[0] in s;
      }
    }
  }

  lemma OneEpochCons(s: seq<Entry>)
    requires s != [] && s[0].epoch == 0
    ensures OneEpoch(s) <==> OneEpoch(s[1..])
  {
  }

  lemma {:induction false} RisingObsOneEpoch(obs: seq<Obs>, prev: int, num: int)
    ensures Rising(ObsTicks(obs), prev) <==> OneEpoch(StampObs(obs, 0, prev, num))
    decreases |obs|
  {
    if obs != [] {
      var t := obs[0].tick;
      var ep := NextEpoch(0, prev, t);
      assert ObsTicks(obs)[1..] == ObsTicks(obs[1..]);
      var s := StampObs(obs, 0, prev, num);
      assert s[0].epoch == ep && s[1..] == StampObs(obs[1..], ep, t, num + 1);
      if ep == 0 {
        RisingObsOneEpoch(obs[1..], t, num + 1);
        OneEpochCons(s);
      } else {
        assert s[0] in s;
      }
    }
  }

  /** When neither stream's ticks ever go back, the merge is the sort by raw tick. */
  lemma NoRewindIsRawSort(events: seq<Event>, obs: seq<Obs>)
    requires Rising(EventTicks(events, 0), 0) && Rising(ObsTicks(obs), 0)
    ensures Timeline(events, obs) == RawTimeline(events, obs)
  {
    RisingEventsOneEpoch(events, 0);
    RisingObsOneEpoch(obs, 0, 0);
    var entries := Entries(events, obs);
    assert OneEpoch(entries);
    SameSort(entries, Before, ByTick);
  }

  lemma {:induction false} RawOrderedObs(obs: seq<Obs>, epoch: int, prev: int, num: int)
    ensures Ordered(StampObs(obs, epoch, prev, num), ByTick) <==> Rewinds(obs) == 0
    decreases |obs|
  {
    if |obs| >= 2 {
      var t := obs[0].tick;
      var ep := NextEpoch(epoch, prev, t);
      var rest := StampObs(obs[1..], ep, t, num + 1);
      var s := StampObs(obs, epoch, prev, num);
      var first := Entry(ep, t, 1, num, Ob(obs[0]));
      assert s == [first] + rest && rest[0].tick == obs[1].tick && rest[0].kind == 1 && rest[0].num == num + 1;
      RawOrderedObs(obs[1..], ep, t, num + 1);
      if Ordered(s, ByTick) {
        OrderedTail(first, rest, ByTick);
        assert rest[0] in rest;
      } else if obs[1].tick >= t && Ordered(rest, ByTick) {
        FirstIsLeast(obs[1..], ep, t, num + 1, first);
        OrderedCons(first, rest, ByTick);
      }
    }
  }

  lemma FirstIsLeast(obs: seq<Obs>, epoch: int, prev: int, num: int, first: Entry)
    requires obs != [] && Ordered(StampObs(obs, epoch, prev, num), ByTick)
    requires first.tick <= obs[0].tick && first.kind == 1 && first.num < num
    ensures forall y :: y in StampObs(obs, epoch, prev, num) ==> !ByTick(y, first)
  {
    var s := StampObs(obs, epoch, prev, num);
    forall y | y in s
      ensures !ByTick(y, first)
    {
      ObsStampsRise(obs, epoch, prev, num, y);
      var k :| 0 <= k < |s| && s[k] == y;
      assert s[0].tick == obs[0].tick;
      assert k > 0 ==> !ByTick(s[k], s[0]);
    }
  }

  /** The raw sort keeps the observations in write order exactly when their clock never goes back. */
  lemma RawSortKeepsObsExactly(events: seq<Event>, obs: seq<Obs>)
    ensures Filter(RawTimeline(events, obs), IsObs) == StampObs(obs, 0, 0, 0) <==> Rewinds(obs) == 0
  {
    OrdersAreWeak();
    PartsOfEntries(events, obs);
    SortKeepsPartExactly(Entries(events, obs), ByTick, IsObs);
    RawOrderedObs(obs, 0, 0, 0);
  }

  /** The last observation's epoch is the number of rewinds that the card warns of. */
  lemma {:induction false} EpochCountsRewinds(obs: seq<Obs>, epoch: int, prev: int, num: int)
    requires obs != []
    ensures var s := StampObs(obs, epoch, prev, num);
            s[|s| - 1].epoch == NextEpoch(epoch, prev, obs[0].tick) + Rewinds(obs)
    decreases |obs|
  {
    if |obs| > 1 {
      var t := obs[0].tick;
      EpochCountsRewinds(obs[1..], NextEpoch(epoch, prev, t), t, num + 1);
    }
  }

  // ---------------------------------------------------------------- the card

  predicate IsStimulus(e: Event) {
    e.action !in ["init", "apply_reset_all", "apply_reset_all_error", "run_until_connected", "post_boot_config"]
  }

  /** The stimuli of each observation's block. */
  function Blocks(merged: seq<Payload>, pending: seq<Event>): seq<seq<Event>>
    decreases |merged|
  {
    if merged == [] then []
    else if merged[0].Ob? then [pending] + Blocks(merged[1..], [])
    else Blocks(merged[1..], if IsStimulus(merged[0].event) then pending + [merged[0].event] else pending)
  }

  /** The stimuli that no observation follows. */
  function Leftover(merged: seq<Payload>, pending: seq<Event>): seq<Event>
    decreases |merged|
  {
    if merged == [] then pending
    else if merged[0].Ob? then Leftover(merged[1..], [])
    else Leftover(merged[1..], if IsStimulus(merged[0].event) then pending + [merged[0].event] else pending)
  }

  function Concat<T>(parts: seq<seq<T>>): seq<T> {
    if parts == [] then [] else parts[0] + Concat(parts[1..])
  }

  method RenderBlocks(merged: seq<Payload>) returns (blocks: seq<seq<Event>>, pending: seq<Event>)
    ensures blocks == Blocks(merged, []) && pending == Leftover(merged, [])
  {
    blocks, pending := [], [];
    assert merged[0..] == merged && blocks + Blocks(merged, []) == Blocks(merged, []);
    for i := 0 to |merged|
      invariant blocks + Blocks(merged[i..], pending) == Blocks(merged, [])
      invariant Leftover(merged[i..], pending) == Leftover(merged, [])
    {
      if merged[i].Ob? {
        BlocksStep(merged[i..], blocks, pending);
      }
      assert merged[i..][1..] == merged[i + 1..];
      match merged[i] {
        case Ev(e) =>
          if IsStimulus(e) {
            pending := pending + [e];
          }
        case Ob(_) =>
          blocks := blocks + [pending];
          pending := [];
      }
    }
    assert blocks + [] == blocks;
  }

  lemma BlocksStep(merged: seq<Payload>, blocks: seq<seq<Event>>, pending: seq<Event>)
    requires merged != [] && merged[0].Ob?
    ensures blocks + Blocks(merged, pending) == blocks + [pending] + Blocks(merged[1..], [])
  {
  }

  /** No stimulus is lost and none is shown twice: the blocks, one per observation, and then the
    stimuli after the last observation are all the stimuli in merge order. */
  lemma {:induction false} BlocksLoseNothing(merged: seq<Payload>, pending: seq<Event>)
    ensures Concat(Blocks(merged, pending)) + Leftover(merged, pending) == pending + Filter(EventsOf(merged), IsStimulus)
    ensures |Blocks(merged, pending)| == |ObsOf(merged)|
    decreases |merged|
  {
    if merged == [] {
      assert Concat(Blocks(merged, pending)) == [] && pending + [] == pending && [] + pending == pending;
    } else if merged[0].Ob? {
      BlocksLoseNothing(merged[1..], []);
      ConcatCons(pending, Blocks(merged[1..], []), Leftover(merged[1..], []));
      EmptyFront(Filter(EventsOf(merged), IsStimulus));
    } else {
      var e := merged[0].event;
      BlocksLoseNothing(merged[1..], if IsStimulus(e) then pending + [e] else pending);
      StimuliCons(e, EventsOf(merged[1..]), pending);
    }
  }

  lemma ConcatCons<T>(first: seq<T>, rest: seq<seq<T>>, tail: seq<T>)
    ensures Concat([first] + rest) + tail == first + (Concat(rest) + tail)
  {
  }

  /** The blocks up to and with the one of the observation at k hold exactly the stimuli before k. */
  lemma {:induction false} BlocksUpTo(merged: seq<Payload>, pending: seq<Event>, k: nat)
    requires k < |merged| && merged[k].Ob?
    ensures |ObsOf(merged[..k])| < |Blocks(merged, pending)|
    ensures Concat(Blocks(merged, pending)[..|ObsOf(merged[..k])| + 1]) == pending + Filter(EventsOf(merged[..k]), IsStimulus)
    decreases |merged|
  {
    var blocks := Blocks(merged, pending);
    if k == 0 {
      BlocksFirst(merged, pending);
      assert merged[..0] == [];
    } else {
      assert merged[..k][1..] == merged[1..][..k - 1] && merged[..k][0] == merged[0];
      if merged[0].Ob? {
        BlocksUpTo(merged[1..], [], k - 1);
        BlocksLater(merged, pending, |ObsOf(merged[1..][..k - 1])| + 1);
        EmptyFront(Filter(EventsOf(merged[..k]), IsStimulus));
      } else {
        BlocksUpTo(merged[1..], if IsStimulus(merged[0].event) then pending + [merged[0].event] else pending, k - 1);
        StimuliCons(merged[0].event, EventsOf(merged[1..][..k - 1]), pending);
      }
    }
  }

  lemma StimuliCons(e: Event, rest: seq<Event>, pending: seq<Event>)
    ensures (if IsStimulus(e) then pending + [e] else pending) + Filter(rest, IsStimulus)
         == pending + Filter([e] + rest, IsStimulus)
  {
  }

  lemma BlocksFirst(merged: seq<Payload>, pending: seq<Event>)
    requires merged != [] && merged[0].Ob?
    ensures |Blocks(merged, pending)| > 0 && Concat(Blocks(merged, pending)[..1]) == pending
  {
  }

  lemma BlocksLater(merged: seq<Payload>, pending: seq<Event>, n: nat)
    requires merged != [] && merged[0].Ob? && n <= |Blocks(merged[1..], [])|
    ensures n < |Blocks(merged, pending)|
    ensures Concat(Blocks(merged, pending)[..n + 1]) == pending + Concat(Blocks(merged[1..], [])[..n])
  {
    assert Blocks(merged, pending)[..n + 1] == [pending] + Blocks(merged[1..], [])[..n];
    assert ([pending] + Blocks(merged[1..], [])[..n])[1..] == Blocks(merged[1..], [])[..n];
  }

  lemma SessionIdsAscend(events: seq<Event>, session: int)
    ensures IdsAscend(SessionEvents(events, session))
  {
    OrdersAreWeak();
    SortOrders(Filter(events, OfSession(session)), ById);
  }

  /** A card shows every stimulus of its session once, in the order of the event ids, one block per
    observation of the session; only what follows the last observation stays out. */
  lemma CardShowsEveryStimulusOnce(events: seq<Event>, obs: seq<Obs>, session: int)
    ensures var merged := Merge(SessionEvents(events, session), SessionObs(obs, session));
            && |Blocks(merged, [])| == |SessionObs(obs, session)|
            && Concat(Blocks(merged, [])) + Leftover(merged, []) == Filter(SessionEvents(events, session), IsStimulus)
  {
    var evs, os := SessionEvents(events, session), SessionObs(obs, session);
    SessionIdsAscend(events, session);
    MergeKeepsStreams(evs, os);
    BlocksLoseNothing(Merge(evs, os), []);
    assert [] + Filter(evs, IsStimulus) == Filter(evs, IsStimulus);
  }

  /** The session's events are the log's, with none lost and none of another session. */
  lemma SessionEventsAreTheSessions(events: seq<Event>, session: int, e: Event)
    ensures multiset(SessionEvents(events, session)) == multiset(Filter(events, OfSession(session)))
    ensures e in SessionEvents(events, session) <==> e in events && e.session == session
  {
    SortPermutes(Filter(events, OfSession(session)), ById);
    SortIn(Filter(events, OfSession(session)), ById, e);
    FilterIn(events, OfSession(session), e);
  }

  /** The session's observations are the log's with that session, in write order. */
  lemma {:induction false} SessionObsAreTheSessions(obs: seq<Obs>, session: int, last: Obs)
    ensures SessionObs([], session) == []
    ensures SessionObs(obs + [last], session) == SessionObs(obs, session) + (if last.session == session then [last] else [])
  {
    FilterAppend(obs, [last], ObsOfSession(session));
    assert Filter([last], ObsOfSession(session)) == if last.session == session then [last] else [];
  }

  /** What a card shows, its last stimuli included: the session's events that are not of its set-up. */
  lemma WhatACardShows(events: seq<Event>, obs: seq<Obs>, session: int, e: Event)
    ensures var merged := Merge(SessionEvents(events, session), SessionObs(obs, session));
            e in Concat(Blocks(merged, [])) + Leftover(merged, [])
            <==> (e in events && e.session == session
                  && e.action != "init" && e.action != "apply_reset_all" && e.action != "apply_reset_all_error"
                  && e.action != "run_until_connected" && e.action != "post_boot_config")
  {
    CardShowsEveryStimulusOnce(events, obs, session);
    SessionEventsAreTheSessions(events, session, e);
    FilterIn(SessionEvents(events, session), IsStimulus, e);
  }
}
