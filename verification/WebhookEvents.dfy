/**
 Last-writer-wins processing of billing webhooks: `processWebhookEvent` of
 `pkg/billing/revenuecat/provider.go` and the subscription handlers of `pkg/billing/stripe/webhook.go`,
 for one user.  The tier is a field of the event, "expired" is judged at one fixed time, and an event is
 handled atomically.
 */
module WebhookEvents {
  import opened Ledger
  import opened Calendar
  import Cycle

  /** `purchased` is 0 when the payload names no purchase or start date. */
  datatype Event = Event(timestamp: int, tier: string, expiresAt: Option<int>, purchased: int)

  /** The two providers differ in one place: RevenueCat downgrades an expired entitlement. */
  datatype Provider = RevenueCat | Stripe

  datatype Setting = Setting(provider: Provider, userID: string, defaultTier: string, now: int)

  function EffectiveTier(c: Setting, e: Event): string {
    if c.provider == RevenueCat && e.expiresAt.Some? && e.expiresAt.value < c.now then c.defaultTier else e.tier
  }

  function StartDate(c: Setting, existing: Option<Entitlement>, e: Event): int {
    if existing.Some? && existing.value.start != 0 then existing.value.start
    else if EffectiveTier(c, e) == c.defaultTier then 0
    else if e.purchased != 0 then Cycle.StartOfDay(e.purchased)
    else Cycle.StartOfDay(c.now)
  }

  function Process(c: Setting, existing: Option<Entitlement>, e: Event): Option<Entitlement> {
    if existing.Some? && e.timestamp <= existing.value.updatedAt then existing
    else Some(Entitlement(c.userID, EffectiveTier(c, e), StartDate(c, existing, e), e.expiresAt, e.timestamp))
  }

  function Deliver(c: Setting, existing: Option<Entitlement>, events: seq<Event>): Option<Entitlement> {
    if events == [] then existing
    else Process(c, Deliver(c, existing, events[..|events| - 1]), events[|events| - 1])
  }

  /** What the order of delivery must not influence. */
  datatype View = Nothing | View(tier: string, expiresAt: Option<int>, updatedAt: int)

  function ViewOf(ent: Option<Entitlement>): View {
    if ent.None? then Nothing else View(ent.value.tier, ent.value.expiresAt, ent.value.updatedAt)
  }

  function EventView(c: Setting, e: Event): View {
    View(EffectiveTier(c, e), e.expiresAt, e.timestamp)
  }

  /** The index of the first delivery of a newest event. */
  predicate FirstNewest(k: nat, events: seq<Event>) {
    && k < |events|
    && (forall j :: 0 <= j < k ==> events[j].timestamp < events[k].timestamp)
    && (forall j :: k <= j < |events| ==> events[j].timestamp <= events[k].timestamp)
  }

  /** Exactly what is stored: the newest of the delivered events if it is newer than what was there,
      otherwise what was there; among equally new events, the one delivered first. */
  lemma {:induction false} NewestWins(c: Setting, existing: Option<Entitlement>, events: seq<Event>) returns (k: nat)
    requires events != []
    ensures FirstNewest(k, events)
    ensures ViewOf(Deliver(c, existing, events))
            == if existing.Some? && events[k].timestamp <= existing.value.updatedAt
               then ViewOf(existing) else EventView(c, events[k])
  {
    hide EffectiveTier, StartDate;
    var before, last := events[..|events| - 1], events[|events| - 1];
    if before == [] {
      k := 0;
      assert Deliver(c, existing, before) == existing;
    } else {
      k := NewestWins(c, existing, before);
      assert forall j :: 0 <= j < |before| ==> events[j] == before[j];
      if last.timestamp > before[k].timestamp {
        k := |events| - 1;
      }
    }
  }

  /** What the newest event leaves behind: its tier, unless RevenueCat reports an expiry before now, which
      leaves the default tier; its expiry; its time. */
  lemma DeliveredContents(c: Setting, existing: Option<Entitlement>, events: seq<Event>) returns (k: nat)
    requires events != []
    ensures FirstNewest(k, events)
    ensures existing.None? || events[k].timestamp > existing.value.updatedAt ==>
              var ent := Deliver(c, existing, events); var e := events[k];
              && ent.Some? && ent.value.expiresAt == e.expiresAt && ent.value.updatedAt == e.timestamp
              && (c.provider == Stripe || e.expiresAt.None? || e.expiresAt.value >= c.now ==> ent.value.tier == e.tier)
              && (c.provider == RevenueCat && e.expiresAt.Some? && e.expiresAt.value < c.now ==>
                    ent.value.tier == c.defaultTier)
    ensures existing.Some? && events[k].timestamp <= existing.value.updatedAt ==>
              ViewOf(Deliver(c, existing, events)) == ViewOf(existing)
  {
    k := NewestWins(c, existing, events);
    hide Deliver;
  }

  /** The first start date: none while the tier is the default one; then midnight of the day of purchase, or of
      today if the event names none. */
  lemma FirstStart(c: Setting, existing: Option<Entitlement>, e: Event)
    requires existing.None? || (e.timestamp > existing.value.updatedAt && existing.value.start == 0)
    ensures var ent := Process(c, existing, e);
            && ent.Some? && ent.value.userID == c.userID
            && ent.value.start == if ent.value.tier == c.defaultTier then 0
                                  else (if e.purchased != 0 then DayOf(e.purchased) else DayOf(c.now)) * TICKS_PER_DAY
  {
    Cycle.StartOfDayIs(e.purchased);
    Cycle.StartOfDayIs(c.now);
  }

  predicate DistinctTimestamps(s: set<Event>) {
    forall d, e :: d in s && e in s && d.timestamp == e.timestamp ==> d == e
  }

  function EventSet(events: seq<Event>): set<Event> {
    set e | e in events
  }

  lemma Members(xs: seq<Event>)
    ensures xs == [] <==> EventSet(xs) == {}
    ensures forall i :: 0 <= i < |xs| ==> xs[i] in EventSet(xs)
    ensures forall e :: e in EventSet(xs) ==> exists i :: 0 <= i < |xs| && xs[i] == e
  {
    if xs != [] {
      assert xs[0] in EventSet(xs);
    }
  }

  /** Confluence: any two deliveries of the same events, in any order and with any repetition, leave the
      same tier, expiry and update time, if no two of the events share a timestamp. */
  lemma Confluence(c: Setting, existing: Option<Entitlement>, xs: seq<Event>, ys: seq<Event>)
    requires EventSet(xs) == EventSet(ys) && DistinctTimestamps(EventSet(xs))
    ensures ViewOf(Deliver(c, existing, xs)) == ViewOf(Deliver(c, existing, ys))
  {
    Members(xs);
    Members(ys);
    if xs != [] {
      var j := NewestWins(c, existing, xs);
      var k := NewestWins(c, existing, ys);
      hide Deliver, EventView, EventSet;
      assert xs[j] in EventSet(ys) && ys[k] in EventSet(xs);
    }
  }

  /** The newest events of a set say the same. */
  predicate NewestAgree(c: Setting, s: set<Event>) {
    forall d, e :: d in s && e in s && d.timestamp == e.timestamp && (forall f :: f in s ==> f.timestamp <= d.timestamp)
                   ==> EventView(c, d) == EventView(c, e)
  }

  ghost predicate OrderIrrelevant(c: Setting, existing: Option<Entitlement>, s: set<Event>) {
    forall xs, ys :: EventSet(xs) == s && EventSet(ys) == s
                     ==> ViewOf(Deliver(c, existing, xs)) == ViewOf(Deliver(c, existing, ys))
  }

  /** The stored entitlement is at least as new as every event. */
  predicate AllStale(existing: Option<Entitlement>, s: set<Event>) {
    existing.Some? && forall e :: e in s ==> e.timestamp <= existing.value.updatedAt
  }

  /** Exactly when the order of delivery does not matter: ties between older events are harmless, a tie
      between newest events that differ is not, unless what is stored is newer than all of them. */
  lemma ConfluentIff(c: Setting, existing: Option<Entitlement>, s: set<Event>)
    ensures OrderIrrelevant(c, existing, s) <==> NewestAgree(c, s) || AllStale(existing, s)
  {
    if NewestAgree(c, s) || AllStale(existing, s) {
      forall xs, ys | EventSet(xs) == s && EventSet(ys) == s
        ensures ViewOf(Deliver(c, existing, xs)) == ViewOf(Deliver(c, existing, ys))
      {
        AgreeingDeliveries(c, existing, s, xs, ys);
      }
    } else {
      var d, e :| d in s && e in s && d.timestamp == e.timestamp && (forall f :: f in s ==> f.timestamp <= d.timestamp)
                  && EventView(c, d) != EventView(c, e);
      var rest := Listing(s);
      DeliveredFirst(c, existing, s, d, rest);
      DeliveredFirst(c, existing, s, e, rest);
      assert ViewOf(Deliver(c, existing, [d] + rest)) != ViewOf(Deliver(c, existing, [e] + rest));
    }
  }

  lemma DeliveredFirst(c: Setting, existing: Option<Entitlement>, s: set<Event>, d: Event, rest: seq<Event>)
    requires d in s && EventSet(rest) == s && forall f :: f in s ==> f.timestamp <= d.timestamp
    requires !AllStale(existing, s)
    ensures EventSet([d] + rest) == s && ViewOf(Deliver(c, existing, [d] + rest)) == EventView(c, d)
  {
    var k := NewestWins(c, existing, [d] + rest);
    Members(rest);
    hide Deliver, EventView;
    assert ([d] + rest)[0] == d && forall i :: 0 < i <= |rest| ==> ([d] + rest)[i] == rest[i - 1];
    assert forall i :: 0 <= i < |rest| ==> rest[i].timestamp <= d.timestamp;
  }

  lemma AgreeingDeliveries(c: Setting, existing: Option<Entitlement>, s: set<Event>, xs: seq<Event>, ys: seq<Event>)
    requires (NewestAgree(c, s) || AllStale(existing, s)) && EventSet(xs) == s && EventSet(ys) == s
    ensures ViewOf(Deliver(c, existing, xs)) == ViewOf(Deliver(c, existing, ys))
  {
    Members(xs);
    Members(ys);
    if xs != [] {
      var j := NewestWins(c, existing, xs);
      var k := NewestWins(c, existing, ys);
      hide Deliver, EventView, EventSet;
      assert xs[j] in s && ys[k] in s;
      assert forall f :: f in s ==> f.timestamp <= xs[j].timestamp && f.timestamp <= ys[k].timestamp;
    }
  }

  lemma {:induction false} Listing(s: set<Event>) returns (xs: seq<Event>)
    ensures EventSet(xs) == s
    decreases |s|
  {
    if s == {} {
      xs := [];
    } else {
      var e :| e in s;
      var rest := Listing(s - {e});
      xs := [e] + rest;
      assert EventSet(xs) == {e} + EventSet(rest);
    }
  }

  /** The start date is sticky: once set, no later event moves it. */
  lemma {:induction false} StartIsSticky(c: Setting, existing: Option<Entitlement>, events: seq<Event>)
    requires existing.Some? && existing.value.start != 0
    ensures var ent := Deliver(c, existing, events); ent.Some? && ent.value.start == existing.value.start
  {
    if events != [] {
      hide EffectiveTier;
      StartIsSticky(c, existing, events[..|events| - 1]);
    }
  }
}
