/** When the merge gives back the order in which stimuli and observations really happened. */
module EpochAlign {
  import opened Wrappers
  import opened StableSort
  import opened EpochMerge

  // ---------------------------------------------------------------- one true order

  /** Rewinds counted so far, and the last tick seen. */
  datatype Clock = Clock(epoch: int, prev: int)

  const ZERO := Clock(0, 0)

  function Next(c: Clock, tick: int): Clock {
    Clock(NextEpoch(c.epoch, c.prev, tick), tick)
  }

  /** The tick of an item, an event without one taking that of the event before. */
  function TickOf(p: Payload, events: Clock): int {
    if p.Ev? then EventTick(p.event, events.prev) else p.obs.tick
  }

  /** A true order of both streams, each item stamped as its own stream stamps it. */
  function Weave(w: seq<Payload>, events: Clock, obs: Clock, num: int): (r: seq<Entry>)
    ensures |r| == |w|
    decreases |w|
  {
    if w == [] then []
    else
      var t := TickOf(w[0], events);
      if w[0].Ev? then
        [Entry(Next(events, t).epoch, t, 0, w[0].event.id, w[0])] + Weave(w[1..], Next(events, t), obs, num)
      else
        [Entry(Next(obs, t).epoch, t, 1, num, w[0])] + Weave(w[1..], events, Next(obs, t), num + 1)
  }

  function Stamped(w: seq<Payload>): seq<Entry> {
    Weave(w, ZERO, ZERO, 0)
  }

  /** At every item its own stream has seen as many rewinds as the clock has made. */
  predicate Aligned(w: seq<Payload>, events: Clock, obs: Clock, clock: Clock)
    decreases |w|
  {
    w == [] ||
    var t := TickOf(w[0], events);
    var own := Next(if w[0].Ev? then events else obs, t);
    && own.epoch == Next(clock, t).epoch
    && Aligned(w[1..], if w[0].Ev? then own else events, if w[0].Ev? then obs else own, Next(clock, t))
  }

  /** Every rewind of the clock shows in both streams before their next item. */
  predicate RewindsShow(w: seq<Payload>) {
    Aligned(w, ZERO, ZERO, ZERO)
  }

  /** No event stands right behind an observation of its own tick. */
  predicate EventsFirst(entries: seq<Entry>) {
    forall i :: 0 <= i < |entries| - 1 ==>
      !(entries[i].kind == 1 && entries[i + 1].kind == 0 && entries[i].tick == entries[i + 1].tick)
  }

  // ---------------------------------------------------------------- the stamped order

  lemma {:induction false} WeaveParts(w: seq<Payload>, events: Clock, obs: Clock, num: int)
    ensures var s := Weave(w, events, obs, num);
            && Filter(s, IsEvent) == StampEvents(EventsOf(w), events.epoch, events.prev)
            && Filter(s, IsObs) == StampObs(ObsOf(w), obs.epoch, obs.prev, num)
    decreases |w|
  {
    if w != [] {
      var t := TickOf(w[0], events);
      if w[0].Ev? {
        WeaveParts(w[1..], Next(events, t), obs, num);
        assert EventsOf(w)[1..] == EventsOf(w[1..]);
      } else {
        WeaveParts(w[1..], events, Next(obs, t), num + 1);
        assert ObsOf(w)[1..] == ObsOf(w[1..]);
      }
    }
  }

  lemma {:induction false} WeavePayloads(w: seq<Payload>, events: Clock, obs: Clock, num: int)
    ensures Payloads(Weave(w, events, obs, num)) == w && Kinded(Weave(w, events, obs, num))
    decreases |w|
  {
    if w != [] {
      var t := TickOf(w[0], events);
      var s := Weave(w, events, obs, num);
      if w[0].Ev? {
        WeavePayloads(w[1..], Next(events, t), obs, num);
      } else {
        WeavePayloads(w[1..], events, Next(obs, t), num + 1);
      }
      assert s[0].payload == w[0];
      PayloadsCons(s[0], s[1..]);
      assert [s[0]] + s[1..] == s && [w[0]] + w[1..] == w;
    }
  }

  lemma FilterHead(s: seq<Entry>, p: Entry -> bool)
    requires s != [] && p(s[0])
    ensures Filter(s, p) == [s[0]] + Filter(s[1..], p)
  {
  }

  lemma KindedTail(s: seq<Entry>)
    requires s != [] && Kinded(s)
    ensures Kinded(s[1..]) && (s[0].kind == 0 || s[0].kind == 1)
    ensures (s[0].kind == 0 <==> s[0].payload.Ev?) && (s[0].kind == 1 <==> s[0].payload.Ob?)
  {
    assert s[0] in s;
  }

  ghost predicate SameParts(a: seq<Entry>, b: seq<Entry>) {
    Filter(a, IsEvent) == Filter(b, IsEvent) && Filter(a, IsObs) == Filter(b, IsObs)
  }

  lemma SamePartsTail(a: seq<Entry>, b: seq<Entry>)
    requires a != [] && b != [] && Kinded(a) && Kinded(b) && SameParts(a, b) && a[0].kind == b[0].kind
    ensures a[0] == b[0] && SameParts(a[1..], b[1..])
  {
    KindedTail(a);
    KindedTail(b);
    if a[0].kind == 0 {
      FilterHead(a, IsEvent);
      FilterHead(b, IsEvent);
      assert Filter(a, IsEvent)[1..] == Filter(a[1..], IsEvent) && Filter(b, IsEvent)[1..] == Filter(b[1..], IsEvent);
    } else {
      FilterHead(a, IsObs);
      FilterHead(b, IsObs);
      assert Filter(a, IsObs)[1..] == Filter(a[1..], IsObs) && Filter(b, IsObs)[1..] == Filter(b[1..], IsObs);
    }
  }

  /** Both streams and the order of their payloads settle a stamped sequence. */
  lemma {:induction false} SamePattern(a: seq<Entry>, b: seq<Entry>)
    requires Kinded(a) && Kinded(b) && SameParts(a, b) && Payloads(a) == Payloads(b)
    ensures a == b
  {
    if a != [] && b != [] {
      KindedTail(a);
      KindedTail(b);
      assert Payloads(a)[0] == a[0].payload && Payloads(b)[0] == b[0].payload;
      SamePartsTail(a, b);
      assert Payloads(a)[1..] == Payloads(a[1..]) && Payloads(b)[1..] == Payloads(b[1..]);
      SamePattern(a[1..], b[1..]);
      assert a == [a[0]] + a[1..] && b == [b[0]] + b[1..];
    }
  }

  /** An event of one sequence that is ahead of an observation of the other. */
  lemma HeadsAgree(a: seq<Entry>, b: seq<Entry>)
    requires a != [] && b != [] && Kinded(a) && Kinded(b) && SameParts(a, b)
    requires Ordered(a, Before) && Ordered(b, Before)
    ensures a[0].kind == b[0].kind
  {
    KindedTail(a);
    KindedTail(b);
    if a[0].kind != b[0].kind {
      HeadIsElsewhere(a, b);
      HeadIsElsewhere(b, a);
      NotBeforeHead(b, a[0]);
      NotBeforeHead(a, b[0]);
    }
  }

  lemma HeadIsElsewhere(a: seq<Entry>, b: seq<Entry>)
    requires a != [] && Kinded(a) && SameParts(a, b)
    ensures a[0] in b
  {
    KindedTail(a);
    if a[0].kind == 0 {
      FilterIn(a, IsEvent, a[0]);
      FilterIn(b, IsEvent, a[0]);
    } else {
      FilterIn(a, IsObs, a[0]);
      FilterIn(b, IsObs, a[0]);
    }
  }

  lemma NotBeforeHead(s: seq<Entry>, x: Entry)
    requires s != [] && Ordered(s, Before) && x in s
    ensures !Before(x, s[0])
  {
    var i :| 0 <= i < |s| && s[i] == x;
    assert i > 0 ==> !Before(s[i], s[0]);
  }

  lemma {:induction false} NothingLeft(s: seq<Entry>)
    requires Kinded(s) && Filter(s, IsEvent) == [] && Filter(s, IsObs) == []
    ensures s == []
  {
    if s != [] {
      KindedTail(s);
    }
  }

  /** There is one order of both streams by epoch, tick, kind and number. */
  lemma {:induction false} OrderIsUnique(a: seq<Entry>, b: seq<Entry>)
    requires Kinded(a) && Kinded(b) && SameParts(a, b) && Ordered(a, Before) && Ordered(b, Before)
    ensures a == b
  {
    if a == [] {
      NothingLeft(b);
    } else if b == [] {
      NothingLeft(a);
    } else {
      HeadsAgree(a, b);
      SamePartsTail(a, b);
      KindedTail(a);
      KindedTail(b);
      assert a == [a[0]] + a[1..] && b == [b[0]] + b[1..];
      OrderedTail(a[0], a[1..], Before);
      OrderedTail(b[0], b[1..], Before);
      OrderIsUnique(a[1..], b[1..]);
    }
  }

  /** The merge gives an order of both streams back exactly when its stamps are in order. */
  lemma MergeIsStamped(w: seq<Payload>)
    requires IdsAscend(EventsOf(w))
    ensures Merge(EventsOf(w), ObsOf(w)) == w <==> Ordered(Stamped(w), Before)
  {
    var events, obs := EventsOf(w), ObsOf(w);
    var timeline := Timeline(events, obs);
    TimelineParts(events, obs);
    WeaveParts(w, ZERO, ZERO, 0);
    WeavePayloads(w, ZERO, ZERO, 0);
    if Ordered(Stamped(w), Before) {
      OrderIsUnique(timeline, Stamped(w));
    }
    if Payloads(timeline) == w {
      SamePattern(timeline, Stamped(w));
    }
  }

  lemma TimelineParts(events: seq<Event>, obs: seq<Obs>)
    requires IdsAscend(events)
    ensures var t := Timeline(events, obs);
            && Kinded(t) && Ordered(t, Before)
            && Filter(t, IsEvent) == StampEvents(events, 0, 0) && Filter(t, IsObs) == StampObs(obs, 0, 0, 0)
  {
    TimelineKinded(events, obs);
    PartsOfEntries(events, obs);
    EventStampsOrdered(events, 0, 0);
    ObsStampsOrdered(obs, 0, 0, 0);
    SortKeepsOrderedPart(Entries(events, obs), Before, IsEvent);
    SortKeepsOrderedPart(Entries(events, obs), Before, IsObs);
    OrdersAreWeak();
    SortOrders(Entries(events, obs), Before);
  }

  // ---------------------------------------------------------------- when the stamps are in order

  predicate ChainFrom(x: Entry, s: seq<Entry>)
    decreases |s|
  {
    s == [] || (!Before(s[0], x) && ChainFrom(s[0], s[1..]))
  }

  lemma {:induction false} ChainIsOrdered(x: Entry, s: seq<Entry>)
    ensures ChainFrom(x, s) <==> Ordered([x] + s, Before)
    decreases |s|
  {
    if s != [] {
      ChainIsOrdered(s[0], s[1..]);
      assert [s[0]] + s[1..] == s;
      if Ordered([x] + s, Before) {
        OrderedTail(x, s, Before);
        assert s[0] in s;
      }
      if ChainFrom(x, s) {
        forall y | y in s
          ensures !Before(y, x)
        {
          NotBeforeHead(s, y);
        }
        OrderedCons(x, s, Before);
      }
    }
  }

  /** A stream never has counted more rewinds than the clock. */
  predicate Behind(own: Clock, clock: Clock) {
    own.epoch < clock.epoch || (own.epoch == clock.epoch && own.prev <= clock.prev)
  }

  lemma NextStaysBehind(own: Clock, clock: Clock, tick: int)
    requires Behind(own, clock)
    ensures Behind(Next(own, tick), Next(clock, tick)) && Behind(own, Next(clock, tick))
  {
  }

  /** The entry that stands for the clock: the last one, in step with it. */
  predicate AtClock(x: Entry, clock: Clock) {
    x.epoch == clock.epoch && x.tick == clock.prev && (x.kind == 0 || x.kind == 1)
  }

  /** Numbers go on upwards after x. */
  predicate GoesOn(x: Entry, w: seq<Payload>, num: int) {
    && (x.kind == 0 ==> EventsOf(w) == [] || x.num <= EventsOf(w)[0].id)
    && (x.kind == 1 ==> x.num < num)
  }

  /** After an entry in step with the clock, the next one is in order exactly when it is in step too. */
  lemma NextInOrder(x: Entry, y: Entry, own: Clock, clock: Clock)
    requires AtClock(x, clock) && Behind(own, clock)
    requires y.epoch == Next(own, y.tick).epoch && (y.kind == 0 || y.kind == 1)
    requires x.kind == y.kind ==> x.num <= y.num
    requires !(x.kind == 1 && y.kind == 0 && x.tick == y.tick)
    ensures !Before(y, x) <==> y.epoch == Next(clock, y.tick).epoch
  {
  }

  lemma {:induction false} AlignedIsChain(
      x: Entry, w: seq<Payload>, events: Clock, obs: Clock, clock: Clock, num: int)
    requires AtClock(x, clock) && Behind(events, clock) && Behind(obs, clock)
    requires IdsAscend(EventsOf(w)) && GoesOn(x, w, num)
    requires EventsFirst([x] + Weave(w, events, obs, num))
    ensures ChainFrom(x, Weave(w, events, obs, num)) <==> Aligned(w, events, obs, clock)
    decreases |w|
  {
    if w != [] {
      var t := TickOf(w[0], events);
      var s := Weave(w, events, obs, num);
      var y := s[0];
      EventsFirstTail(x, s);
      NextStaysBehind(events, clock, t);
      NextStaysBehind(obs, clock, t);
      GoesOnTail(w);
      if w[0].Ev? {
        NextInOrder(x, y, events, clock);
        if y.epoch == Next(clock, t).epoch {
          AlignedIsChain(y, w[1..], Next(events, t), obs, Next(clock, t), num);
        }
      } else {
        NextInOrder(x, y, obs, clock);
        if y.epoch == Next(clock, t).epoch {
          AlignedIsChain(y, w[1..], events, Next(obs, t), Next(clock, t), num + 1);
        }
      }
    }
  }

  lemma EventsFirstTail(x: Entry, s: seq<Entry>)
    requires s != [] && EventsFirst([x] + s)
    ensures EventsFirst([s[0]] + s[1..]) && !(x.kind == 1 && s[0].kind == 0 && x.tick == s[0].tick)
  {
    var all := [x] + s;
    assert all[0] == x && all[1] == s[0];
    forall i | 0 <= i < |s| - 1
      ensures !(s[i].kind == 1 && s[i + 1].kind == 0 && s[i].tick == s[i + 1].tick)
    {
      assert all[i + 1] == s[i] && all[i + 2] == s[i + 1];
    }
    assert [s[0]] + s[1..] == s;
  }

  lemma GoesOnTail(w: seq<Payload>)
    requires w != [] && IdsAscend(EventsOf(w))
    ensures IdsAscend(EventsOf(w[1..]))
    ensures w[0].Ev? ==> EventsOf(w)[0] == w[0].event
    ensures w[0].Ev? ==> EventsOf(w[1..]) == [] || w[0].event.id <= EventsOf(w[1..])[0].id
    ensures !w[0].Ev? ==> EventsOf(w) == EventsOf(w[1..])
  {
    if w[0].Ev? {
      var all, rest := EventsOf(w), EventsOf(w[1..]);
      assert forall i :: 0 <= i < |rest| ==> all[i + 1] == rest[i];
    }
  }

  /** For any order of stimuli and observations whose event ids ascend and where, at a tie, the event is
    first, the merge of the two streams is that order if and only if every rewind of the clock shows in
    both streams. */
  lemma MergeIsTrueOrder(w: seq<Payload>)
    requires IdsAscend(EventsOf(w)) && EventsFirst(Stamped(w))
    ensures Merge(EventsOf(w), ObsOf(w)) == w <==> RewindsShow(w)
  {
    MergeIsStamped(w);
    if w != [] {
      var t := TickOf(w[0], ZERO);
      var first := Next(ZERO, t);
      var s := Stamped(w);
      assert s == [s[0]] + s[1..];
      GoesOnTail(w);
      ChainIsOrdered(s[0], s[1..]);
      if w[0].Ev? {
        ZeroIsBehind(t);
        AlignedIsChain(s[0], w[1..], first, ZERO, first, 0);
      } else {
        ZeroIsBehind(t);
        AlignedIsChain(s[0], w[1..], ZERO, first, first, 1);
      }
    }
  }

  lemma ZeroIsBehind(tick: int)
    ensures Behind(ZERO, Next(ZERO, tick)) && Behind(Next(ZERO, tick), Next(ZERO, tick))
  {
  }

  // ---------------------------------------------------------------- a silent stream

  /** An event stream that stays silent after a reset until its tick has passed the old one: the rewind
    does not show in it, and its stimulus is taken for one before the reset. */
  lemma SilentEventsMisplaced(before: Event, after: Event, o: Obs)
    requires before.tick == Some(10) && after.tick == Some(20) && before.id <= after.id
    ensures var w := [Ev(before), Ob(o.(tick := 100)), Ob(o.(tick := 5)), Ev(after)];
            !RewindsShow(w) && Merge(EventsOf(w), ObsOf(w)) != w
  {
    var w := [Ev(before), Ob(o.(tick := 100)), Ob(o.(tick := 5)), Ev(after)];
    var w1, w2, w3 := w[1..], w[2..], w[3..];
    assert w[1..][1..] == w2 && w2[1..] == w3 && w3[1..] == [];
    assert w3[0] == Ev(after) && w2[0].Ob? && w1[0].Ob?;
    assert EventsOf(w3) == [after] + EventsOf([]);
    assert EventsOf(w2) == EventsOf(w3);
    assert EventsOf(w1) == EventsOf(w2);
    assert EventsOf(w) == [before] + EventsOf(w1);
    assert Aligned(w, ZERO, ZERO, ZERO) == Aligned(w1, Clock(0, 10), ZERO, Clock(0, 10));
    assert Aligned(w1, Clock(0, 10), ZERO, Clock(0, 10)) == Aligned(w2, Clock(0, 10), Clock(0, 100), Clock(0, 100));
    assert Aligned(w2, Clock(0, 10), Clock(0, 100), Clock(0, 100)) == Aligned(w3, Clock(0, 10), Clock(1, 5), Clock(1, 5));
    assert !Aligned(w3, Clock(0, 10), Clock(1, 5), Clock(1, 5));
    SilentStamps(w, before, after, o);
    MergeIsTrueOrder(w);
  }

  lemma SilentStamps(w: seq<Payload>, before: Event, after: Event, o: Obs)
    requires before.tick == Some(10) && after.tick == Some(20)
    requires w == [Ev(before), Ob(o.(tick := 100)), Ob(o.(tick := 5)), Ev(after)]
    ensures EventsFirst(Stamped(w))
  {
    var w1, w2, w3 := w[1..], w[2..], w[3..];
    assert w1[1..] == w2 && w2[1..] == w3 && w3[1..] == [];
    var s := Stamped(w);
    assert s[1..] == Weave(w1, Clock(0, 10), ZERO, 0);
    assert s[1..][1..] == Weave(w2, Clock(0, 10), Clock(0, 100), 1);
    assert s[1..][1..][1..] == Weave(w3, Clock(0, 10), Clock(1, 5), 2);
    assert s[0].tick == 10 && s[1].tick == 100 && s[2].tick == 5 && s[3].tick == 20;
  }
}
