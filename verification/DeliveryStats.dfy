/** Delivery counters: the bounded per-node table, the confirmation dedup and the history.

  Each is a bounded form of a log that only grows, and is proved to be a function of it: the
  table of the touches, the dedup of the confirmations that arrived, the history of the samples.
*/
module DeliveryStats {
  import opened NodePrefix
  import opened Wrappers

  const MAX_TRACKED_NODES := 256
  const MAX_HISTORY_SAMPLES := 480
  const RECENT_CONFIRMED_CAP := 256

  // ---- Per-node counters ----

  datatype NodeEvent = Send(attempt: nat) | SentResult(accepted: bool) | Delivered(latencyMs: nat) | GaveUp

  /** Events in order, the latest outermost. */
  datatype Events = NoEvents | And(before: Events, event: NodeEvent)

  datatype NodeCounters = NodeCounters(
    sends: nat, firstSends: nat, accepted: nat, failedNoRoute: nat, confirmed: nat, gaveUp: nat,
    latencyCount: nat, latencySum: nat, latencyMin: nat, latencyMax: nat)

  const ZERO := NodeCounters(0, 0, 0, 0, 0, 0, 0, 0, 0, 0)

  function RecordLatency(c: NodeCounters, ms: nat): NodeCounters {
    c.(latencyMin := if c.latencyCount == 0 || ms < c.latencyMin then ms else c.latencyMin,
       latencyMax := if ms > c.latencyMax then ms else c.latencyMax,
       latencyCount := c.latencyCount + 1,
       latencySum := c.latencySum + ms)
  }

  function Count(c: NodeCounters, e: NodeEvent): NodeCounters {
    match e
    case Send(attempt) => c.(sends := c.sends + 1, firstSends := c.firstSends + if attempt <= 1 then 1 else 0)
    case SentResult(accepted) =>
      if accepted then c.(accepted := c.accepted + 1) else c.(failedNoRoute := c.failedNoRoute + 1)
    case Delivered(ms) => RecordLatency(c.(confirmed := c.confirmed + 1), ms)
    case GaveUp => c.(gaveUp := c.gaveUp + 1)
  }

  function CountAll(events: Events): NodeCounters {
    match events
    case NoEvents => ZERO
    case And(before, e) => Count(CountAll(before), e)
  }

  datatype Kind = AnySend | FirstSend | Retransmission | Accepted | Refused | AnyDelivery | Abandoned

  predicate IsOf(k: Kind, e: NodeEvent) {
    match k
    case AnySend => e.Send?
    case FirstSend => e.Send? && e.attempt <= 1
    case Retransmission => e.Send? && e.attempt > 1
    case Accepted => e.SentResult? && e.accepted
    case Refused => e.SentResult? && !e.accepted
    case AnyDelivery => e.Delivered?
    case Abandoned => e.GaveUp?
  }

  function HowMany(events: Events, k: Kind): nat {
    match events
    case NoEvents => 0
    case And(before, e) => HowMany(before, k) + if IsOf(k, e) then 1 else 0
  }

  predicate Measured(events: Events, ms: nat) {
    events.And? && (events.event == Delivered(ms) || Measured(events.before, ms))
  }

  function TotalLatency(events: Events): nat {
    match events
    case NoEvents => 0
    case And(before, e) => TotalLatency(before) + if e.Delivered? then e.latencyMs else 0
  }

  /** What each counter means. */
  lemma {:induction false} CountersMean(events: Events)
    ensures CountAll(events).sends == HowMany(events, AnySend)
    ensures CountAll(events).firstSends == HowMany(events, FirstSend)
    ensures CountAll(events).accepted == HowMany(events, Accepted)
    ensures CountAll(events).failedNoRoute == HowMany(events, Refused)
    ensures CountAll(events).gaveUp == HowMany(events, Abandoned)
  {
    if events.And? { CountersMean(events.before); }
  }

  lemma {:induction false} DeliveriesMean(events: Events)
    ensures CountAll(events).confirmed == CountAll(events).latencyCount == HowMany(events, AnyDelivery)
    ensures CountAll(events).latencySum == TotalLatency(events)
  {
    if events.And? { DeliveriesMean(events.before); }
  }

  /** The extremes are measured latencies that bound them all. */
  lemma {:induction false} ExtremesAreMeasured(events: Events)
    ensures forall ms: nat | Measured(events, ms) :: CountAll(events).latencyMin <= ms <= CountAll(events).latencyMax
    ensures CountAll(events).latencyCount > 0 ==> Measured(events, CountAll(events).latencyMin)
    ensures CountAll(events).latencyCount > 0 ==> Measured(events, CountAll(events).latencyMax)
    ensures CountAll(events).latencyCount == 0 ==> CountAll(events).latencyMax == 0
    ensures CountAll(events).latencyCount == 0 ==> forall ms: nat :: !Measured(events, ms)
  {
    if events.And? { ExtremesAreMeasured(events.before); }
  }

  lemma Widen(low: nat, low': nat, sum: nat, high: nat, high': nat, n: nat, ms: nat)
    requires low * n <= sum <= high * n && high <= high' && (n > 0 ==> low' <= low) && low' <= ms <= high'
    ensures low' * (n + 1) <= sum + ms <= high' * (n + 1)
  {
    assert n > 0 ==> low' * n <= low * n;
    assert high * n <= high' * n;
  }

  /** The average latency lies between the extremes. */
  lemma {:induction false} AverageIsBetweenExtremes(events: Events)
    ensures var c := CountAll(events); c.latencyMin * c.latencyCount <= c.latencySum <= c.latencyMax * c.latencyCount
  {
    if events.And? {
      var b, c := CountAll(events.before), CountAll(events);
      AverageIsBetweenExtremes(events.before);
      if events.event.Delivered? {
        var ms := events.event.latencyMs;
        Widen(b.latencyMin, c.latencyMin, b.latencySum, b.latencyMax, c.latencyMax, b.latencyCount, ms);
      }
    }
  }

  // ---- The touch log ----

  /** Every node event so far with its time, the latest outermost, and which node made room. */
  datatype Log = Start | Touch(before: Log, prefix: Prefix, event: NodeEvent, at: nat, evicted: Option<Prefix>)

  /** The nodes ever touched. */
  function Seen(log: Log): set<Prefix> {
    match log
    case Start => {}
    case Touch(before, q, _, _, _) => Seen(before) + {q}
  }

  /** The nodes still tracked. */
  function Tracked(log: Log): set<Prefix> {
    match log
    case Start => {}
    case Touch(before, q, _, _, evicted) => (Tracked(before) - Evicted(evicted)) + {q}
  }

  function Evicted(p: Option<Prefix>): set<Prefix> {
    if p.Some? then {p.value} else {}
  }

  function Clock(log: Log): nat {
    if log.Start? then 0 else log.at
  }

  function LastTouch(log: Log, p: Prefix): nat
    requires p in Seen(log)
  {
    if log.prefix == p then log.at else LastTouch(log.before, p)
  }

  predicate IsStalest(log: Log, p: Prefix)
    requires p in Tracked(log) && Tracked(log) <= Seen(log)
  {
    forall q | q in Tracked(log) :: LastTouch(log, p) <= LastTouch(log, q)
  }

  /** The clock does not go back, and exactly a new node that finds 256 others makes a stalest of
      them give way. */
  predicate LeastRecentlyUsed(log: Log) {
    log.Touch? ==>
      && LeastRecentlyUsed(log.before) && Clock(log.before) <= log.at && Tracked(log.before) <= Seen(log.before)
      && (log.evicted.Some? <==> log.prefix !in Tracked(log.before) && |Tracked(log.before)| >= MAX_TRACKED_NODES)
      && (log.evicted.Some? ==> log.evicted.value in Tracked(log.before) && IsStalest(log.before, log.evicted.value))
  }

  type LegalLog = log: Log | LeastRecentlyUsed(log) witness Start

  lemma {:induction false} TouchesArePast(log: Log)
    requires LeastRecentlyUsed(log)
    ensures Tracked(log) <= Seen(log)
    ensures forall p | p in Seen(log) :: LastTouch(log, p) <= Clock(log)
  {
    if log.Touch? { TouchesArePast(log.before); }
  }

  lemma {:induction false} TrackedSize(log: Log)
    requires LeastRecentlyUsed(log)
    ensures |Tracked(log)| <= 256
    ensures |Tracked(log)| < 256 ==> Tracked(log) == Seen(log)
  {
    if log.Touch? {
      TrackedSize(log.before);
      var before, rest := Tracked(log.before), Tracked(log.before) - Evicted(log.evicted);
      assert |rest| == if log.evicted.Some? then |before| - 1 else |before|;
      if log.prefix in before {
        assert Tracked(log) == before;
      } else {
        assert |Tracked(log)| == |rest| + 1;
      }
    }
  }

  lemma {:induction false} TrackedAreLatest(log: Log, p: Prefix, q: Prefix)
    requires LeastRecentlyUsed(log) && Tracked(log) <= Seen(log) && p in Tracked(log) && q in Seen(log) - Tracked(log)
    ensures LastTouch(log, q) <= LastTouch(log, p)
  {
    TouchesArePast(log.before);
    if log.prefix != p && log.evicted != Some(q) { TrackedAreLatest(log.before, p, q); }
  }

  // ---- With a clock that tells all touches apart ----

  predicate Increasing(log: Log) {
    log.Touch? ==> Increasing(log.before) && (log.before.Touch? ==> log.before.at < log.at)
  }

  /** The nodes touched after the last touch of `p`. */
  function TouchedSince(log: Log, p: Prefix): set<Prefix> {
    if log.Start? || log.prefix == p then {} else TouchedSince(log.before, p) + {log.prefix}
  }

  /** `p` is among the most recently touched nodes. */
  predicate Recent(log: Log, p: Prefix) {
    p in Seen(log) && |TouchedSince(log, p)| < 256
  }

  lemma {:induction false} SinceIsLater(log: Log, p: Prefix)
    requires LeastRecentlyUsed(log) && Increasing(log) && p in Seen(log)
    ensures forall q :: q in TouchedSince(log, p) <==> q in Seen(log) && LastTouch(log, p) < LastTouch(log, q)
  {
    TouchesArePast(log.before);
    if log.prefix != p { SinceIsLater(log.before, p); }
  }

  lemma {:induction false} TouchesDiffer(log: Log, p: Prefix, q: Prefix)
    requires LeastRecentlyUsed(log) && Increasing(log) && p in Seen(log) && q in Seen(log) && p != q
    ensures LastTouch(log, p) != LastTouch(log, q)
  {
    TouchesArePast(log.before);
    if log.prefix != p && log.prefix != q { TouchesDiffer(log.before, p, q); }
  }

  lemma SubsetSize<T>(a: set<T>, b: set<T>)
    requires a <= b
    ensures |a| <= |b|
  {
    assert b == a + (b - a);
  }

  /** The tracked nodes are then exactly the 256 most recently touched ones. */
  lemma TrackedAreRecent(log: Log, p: Prefix)
    requires LeastRecentlyUsed(log) && Increasing(log)
    ensures p in Tracked(log) <==> Recent(log, p)
  {
    TouchesArePast(log);
    TrackedSize(log);
    if p in Seen(log) {
      var since, tracked := TouchedSince(log, p), Tracked(log);
      SinceIsLater(log, p);
      if p in tracked {
        forall q | q in since ensures q in tracked - {p} {
          if q !in tracked { TrackedAreLatest(log, p, q); }
        }
        SubsetSize(since, tracked - {p});
      } else {
        forall q | q in tracked ensures q in since {
          TrackedAreLatest(log, q, p);
          TouchesDiffer(log, p, q);
        }
        SubsetSize(tracked, since);
      }
    }
  }

  /** The events of `p` since the touch that last found it untracked, and so admitted it. */
  function SinceAdmission(log: Log, p: Prefix): Events {
    match log
    case Start => NoEvents
    case Touch(before, q, e, _, _) =>
      if q != p then SinceAdmission(before, p)
      else And(if p in Tracked(before) then SinceAdmission(before, p) else NoEvents, e)
  }

  // ---- The per-node table ----

  datatype NodeEntry = NodeEntry(counters: NodeCounters, lastUpdate: nat)

  /** A node's record: the count of its events since it was last admitted, and its last touch. */
  function RecordOf(log: Log, p: Prefix): NodeEntry
    requires p in Seen(log)
  {
    NodeEntry(CountAll(SinceAdmission(log, p)), LastTouch(log, p))
  }

  /** The table holds exactly the tracked nodes, each with its record. */
  ghost predicate TableOf(log: LegalLog, nodes: map<Prefix, NodeEntry>) {
    && nodes.Keys == Tracked(log) <= Seen(log)
    && (forall p | p in nodes :: nodes[p] == RecordOf(log, p))
  }

  predicate Stalest(nodes: map<Prefix, NodeEntry>, p: Prefix)
    requires p in nodes
  {
    forall q | q in nodes :: nodes[p].lastUpdate <= nodes[q].lastUpdate
  }

  lemma {:induction false} HasStalest(nodes: map<Prefix, NodeEntry>)
    requires |nodes| > 0
    ensures exists p :: p in nodes && Stalest(nodes, p)
    decreases |nodes|
  {
    var p :| p in nodes;
    var rest := nodes - {p};
    assert nodes.Keys == rest.Keys + {p};
    if |rest| == 0 {
      assert Stalest(nodes, p);
    } else {
      HasStalest(rest);
      var q :| q in rest && Stalest(rest, q);
      assert Stalest(nodes, if nodes[p].lastUpdate <= nodes[q].lastUpdate then p else q);
    }
  }

  /** What was evicted for a touch: nothing, or a stalest node for a new one that found no room. */
  ghost predicate MadeRoom(nodes: map<Prefix, NodeEntry>, q: Prefix, evicted: Option<Prefix>) {
    && (evicted.Some? <==> q !in nodes && |nodes| >= MAX_TRACKED_NODES)
    && (evicted.Some? ==> evicted.value in nodes && Stalest(nodes, evicted.value))
  }

  lemma TouchIsLegal(log: LegalLog, nodes: map<Prefix, NodeEntry>, q: Prefix, e: NodeEvent, now: nat,
                     evicted: Option<Prefix>)
    requires TableOf(log, nodes) && Clock(log) <= now && MadeRoom(nodes, q, evicted)
    ensures LeastRecentlyUsed(Touch(log, q, e, now, evicted))
  {
    assert |nodes| == |nodes.Keys|;
  }

  /** Touching a table that made room gives the next log's table. */
  lemma TableAfterTouch(next: LegalLog, nodes: map<Prefix, NodeEntry>, table: map<Prefix, NodeEntry>)
    requires next.Touch? && TableOf(next.before, nodes)
    requires table.Keys == nodes.Keys - Evicted(next.evicted) + {next.prefix}
    requires forall p | p in table && p != next.prefix :: table[p] == nodes[p]
    requires var c := if next.prefix in nodes then nodes[next.prefix].counters else ZERO;
             table[next.prefix] == NodeEntry(Count(c, next.event), next.at)
    ensures TableOf(next, table)
  {
    forall p | p in table ensures table[p] == RecordOf(next, p) {
      RecordAfterTouch(next.before, p, next);
    }
  }

  lemma RecordAfterTouch(log: Log, p: Prefix, next: Log)
    requires next.Touch? && next.before == log && Tracked(log) <= Seen(log) && p in Seen(next)
    ensures p != next.prefix ==> RecordOf(next, p) == RecordOf(log, p)
    ensures p == next.prefix ==>
      var c := if p in Tracked(log) then RecordOf(log, p).counters else ZERO;
      RecordOf(next, p) == NodeEntry(Count(c, next.event), next.at)
  {
    assert CountAll(NoEvents) == ZERO;
  }

  /** The table has at most 256 nodes, all there were if there were fewer, none outside it was
      touched later than one inside, and every node's counters are consistent.  If no two touches
      fall on the same instant, it is exactly the 256 most recently touched nodes. */
  lemma TableIsRecent(log: LegalLog, nodes: map<Prefix, NodeEntry>)
    requires TableOf(log, nodes)
    ensures |nodes| <= 256 && (|nodes| < 256 ==> nodes.Keys == Seen(log))
    ensures forall p, q | p in nodes && q in Seen(log) && q !in nodes :: LastTouch(log, q) <= nodes[p].lastUpdate
    ensures Increasing(log) ==> forall p :: p in nodes <==> Recent(log, p)
    ensures forall p | p in nodes ::
              var c := nodes[p].counters;
              c.firstSends <= c.sends && c.latencyMin * c.latencyCount <= c.latencySum <= c.latencyMax * c.latencyCount
  {
    TouchesArePast(log);
    TrackedSize(log);
    assert |nodes| == |nodes.Keys|;
    forall p, q | p in nodes && q in Seen(log) && q !in nodes ensures LastTouch(log, q) <= nodes[p].lastUpdate {
      TrackedAreLatest(log, p, q);
    }
    if Increasing(log) {
      forall p ensures p in nodes <==> Recent(log, p) {
        TrackedAreRecent(log, p);
      }
    }
    forall p | p in nodes
      ensures var c := nodes[p].counters;
              c.firstSends <= c.sends && c.latencyMin * c.latencyCount <= c.latencySum <= c.latencyMax * c.latencyCount
    {
      CountersMean(SinceAdmission(log, p));
      SendsAreFirstOrRetransmitted(SinceAdmission(log, p));
      AverageIsBetweenExtremes(SinceAdmission(log, p));
    }
  }

  // ---- Bounded windows ----

  function LastOf<T>(s: seq<T>, n: nat): seq<T> {
    if |s| <= n then s else s[|s| - n..]
  }

  /** Confirmations as they came in, the latest outermost. */
  datatype Arrivals = NoArrivals | Arrived(before: Arrivals, crc: nat)

  /** Those that count: the ones not among the last 256 that counted. */
  function Counted(a: Arrivals): seq<nat> {
    match a
    case NoArrivals => []
    case Arrived(before, crc) =>
      if crc in LastOf(Counted(before), RECENT_CONFIRMED_CAP) then Counted(before) else Counted(before) + [crc]
  }

  predicate Came(a: Arrivals, crc: nat) {
    a.Arrived? && (a.crc == crc || Came(a.before, crc))
  }

  lemma NotAmongTheLast(s: seq<nat>, n: nat, x: nat)
    requires x !in LastOf(s, n)
    ensures forall i | 0 <= i < |s| && s[i] == x :: |s| - i > n
  {
    var l := LastOf(s, n);
    var skipped := |s| - |l|;
    assert forall i | skipped <= i < |s| :: s[i] == l[i - skipped];
  }

  /** A CRC counts twice only with at least 256 others counted in between. */
  lemma {:induction false} CountedIsSpread(a: Arrivals)
    ensures forall i, j | 0 <= i < j < |Counted(a)| && Counted(a)[i] == Counted(a)[j] :: j - i > 256
  {
    if a.Arrived? {
      var s := Counted(a.before);
      CountedIsSpread(a.before);
      if a.crc !in LastOf(s, RECENT_CONFIRMED_CAP) {
        NotAmongTheLast(s, RECENT_CONFIRMED_CAP, a.crc);
      }
    }
  }

  /** A full window that moves on by one new CRC loses its oldest for good. */
  lemma WindowMovesOn(a: Arrivals, crc: nat)
    requires crc !in LastOf(Counted(a), 256)
    ensures var grown := LastOf(Counted(a), 256) + [crc];
            var next := LastOf(Counted(Arrived(a, crc)), 256);
            if |grown| <= 256 then next == grown
            else next == grown[1..] && grown[0] !in next
  {
    var s := Counted(a);
    var grown := LastOf(s, 256) + [crc];
    CountedIsSpread(Arrived(a, crc));
    if |grown| > 256 {
      var first, all := |s| - 256, s + [crc];
      var next := LastOf(all, 256);
      assert grown == all[first..] && Counted(Arrived(a, crc)) == all;
      forall i | 0 <= i < 256 ensures next[i] == grown[i + 1] != grown[0] {
        assert next[i] == all[first + i + 1] != all[first] == grown[0];
      }
    }
  }

  lemma SeenMovesOn(seen: set<nat>, queue: seq<nat>, crc: nat)
    requires forall c :: c in seen <==> c in queue
    ensures forall c :: c in seen + {crc} <==> c in queue + [crc]
    ensures queue != [] && queue[0] !in (queue + [crc])[1..] ==>
              forall c :: c in (seen + {crc}) - {queue[0]} <==> c in (queue + [crc])[1..]
  {
    var grown := queue + [crc];
    assert grown == [grown[0]] + grown[1..];
    assert forall c :: c in grown <==> c == grown[0] || c in grown[1..];
  }

  /** Every CRC that came in counts at least once, and nothing else counts. */
  lemma {:induction false} EveryCrcCounts(a: Arrivals)
    ensures forall crc :: crc in Counted(a) <==> Came(a, crc)
  {
    if a.Arrived? { EveryCrcCounts(a.before); }
  }

  // ---- The global counters ----

  const U64_MAX := 0xFFFF_FFFF_FFFF_FFFF

  type u64 = n: nat | n <= U64_MAX

  datatype Totals = Totals(
    sends: nat, retransmits: nat, accepted: nat, failedNoRoute: nat, confirmed: nat, latencyCount: nat, latencySum: nat)

  /** The global counters as functions of everything counted. */
  function TotalsOf(events: Events, arrivals: Arrivals): Totals {
    Totals(HowMany(events, AnySend), HowMany(events, Retransmission),
           HowMany(events, Accepted), HowMany(events, Refused),
           |Counted(arrivals)|, HowMany(events, AnyDelivery), TotalLatency(events))
  }

  /** The extremes bound all measured latencies and are among them; while there is none, they are
      the values every first one replaces. */
  ghost predicate ExtremesOf(events: Events, min: nat, max: nat) {
    && (forall ms: nat | Measured(events, ms) :: min <= ms <= max)
    && (if HowMany(events, AnyDelivery) == 0 then min == U64_MAX && max == 0
        else Measured(events, min) && Measured(events, max))
  }

  lemma {:induction false} NothingMeasured(events: Events)
    requires HowMany(events, AnyDelivery) == 0
    ensures forall ms: nat :: !Measured(events, ms)
  {
    if events.And? { NothingMeasured(events.before); }
  }

  lemma TotalsAfter(events: Events, arrivals: Arrivals, e: NodeEvent)
    ensures var t := TotalsOf(events, arrivals);
            TotalsOf(And(events, e), arrivals) ==
            match e
            case Send(attempt) => t.(sends := t.sends + 1, retransmits := t.retransmits + if attempt > 1 then 1 else 0)
            case SentResult(ok) =>
              if ok then t.(accepted := t.accepted + 1) else t.(failedNoRoute := t.failedNoRoute + 1)
            case Delivered(ms) => t.(latencyCount := t.latencyCount + 1, latencySum := t.latencySum + ms)
            case GaveUp => t
  {
  }

  lemma ExtremesAfter(events: Events, min: nat, max: nat, ms: u64)
    requires ExtremesOf(events, min, max)
    ensures ExtremesOf(And(events, Delivered(ms)), if ms < min then ms else min, if ms > max then ms else max)
  {
    assert HowMany(And(events, Delivered(ms)), AnyDelivery) == HowMany(events, AnyDelivery) + 1;
    if HowMany(events, AnyDelivery) == 0 { NothingMeasured(events); }
  }

  lemma ExtremesStay(events: Events, min: nat, max: nat, e: NodeEvent)
    requires ExtremesOf(events, min, max) && !e.Delivered?
    ensures ExtremesOf(And(events, e), min, max)
  {
    assert HowMany(And(events, e), AnyDelivery) == HowMany(events, AnyDelivery);
  }

  /** Retransmissions are sends, and first sends are the others. */
  lemma {:induction false} SendsAreFirstOrRetransmitted(events: Events)
    ensures HowMany(events, AnySend) == HowMany(events, FirstSend) + HowMany(events, Retransmission)
  {
    if events.And? { SendsAreFirstOrRetransmitted(events.before); }
  }

  predicate NoMore(a: Totals, b: Totals) {
    && a.sends <= b.sends && a.retransmits <= b.retransmits && a.accepted <= b.accepted
    && a.failedNoRoute <= b.failedNoRoute && a.confirmed <= b.confirmed
    && a.latencyCount <= b.latencyCount && a.latencySum <= b.latencySum
  }

  datatype DeliverySample = DeliverySample(ts: nat, totals: Totals)

  /** Samples taken by one process only ever grow, and never exceed what is counted now. */
  predicate Growing(own: seq<DeliverySample>, now: Totals) {
    && (forall i, j | 0 <= i < j < |own| :: NoMore(own[i].totals, own[j].totals))
    && (forall i | 0 <= i < |own| :: NoMore(own[i].totals, now))
  }

  class DeliveryStats {
    var totals: Totals
    var latencyMin: nat
    var latencyMax: nat
    var nodes: map<Prefix, NodeEntry>
    var history: seq<DeliverySample>
    var recentQueue: seq<nat>
    var recentSeen: set<nat>

    ghost var events: Events
    ghost var log: LegalLog
    ghost var arrivals: Arrivals
    /** What was last loaded, and the samples taken since. */
    ghost var loaded: seq<DeliverySample>
    ghost var own: seq<DeliverySample>

    ghost predicate TotalsValid()
      reads this`totals, this`latencyMin, this`latencyMax, this`events, this`arrivals
    {
      totals == TotalsOf(events, arrivals) && ExtremesOf(events, latencyMin, latencyMax)
    }

    ghost predicate DedupValid()
      reads this`recentQueue, this`recentSeen, this`arrivals
    {
      && recentQueue == LastOf(Counted(arrivals), RECENT_CONFIRMED_CAP)
      && (forall crc :: crc in recentSeen <==> crc in recentQueue)
    }

    ghost predicate HistoryValid()
      reads this`history, this`loaded, this`own, this`totals
    {
      history == LastOf(loaded + own, MAX_HISTORY_SAMPLES) && Growing(own, totals)
    }

    ghost predicate Valid()
      reads this
    {
      TotalsValid() && TableOf(log, nodes) && DedupValid() && HistoryValid()
    }

    constructor()
      ensures Valid() && events == NoEvents && log == Start && arrivals == NoArrivals && loaded == own == []
    {
      totals := Totals(0, 0, 0, 0, 0, 0, 0);
      latencyMin, latencyMax := U64_MAX, 0;
      nodes, history, recentQueue, recentSeen := map[], [], [], {};
      events, log, arrivals, loaded, own := NoEvents, Start, NoArrivals, [], [];
    }

    /** Count one node event in a table, making room first if the node is new and the table full. */
    static method CountIn(table: map<Prefix, NodeEntry>, prefix: Prefix, e: NodeEvent, now: nat)
      returns (next: map<Prefix, NodeEntry>, ghost evicted: Option<Prefix>)
      ensures MadeRoom(table, prefix, evicted)
      ensures next.Keys == table.Keys - Evicted(evicted) + {prefix}
      ensures forall p | p in next && p != prefix :: next[p] == table[p]
      ensures var c := if prefix in table then table[prefix].counters else ZERO;
              next[prefix] == NodeEntry(Count(c, e), now)
    {
      next, evicted := table, None;
      if prefix !in next && |next| >= MAX_TRACKED_NODES {
        HasStalest(next);
        var stalest :| stalest in next && Stalest(next, stalest);
        next := next - {stalest};
        evicted := Some(stalest);
      }
      var counters := if prefix in next then next[prefix].counters else ZERO;
      next := next[prefix := NodeEntry(Count(counters, e), now)];
    }

    method WithNode(prefix: Prefix, e: NodeEvent, now: nat)
      requires TableOf(log, nodes) && Clock(log) <= now
      modifies this`nodes, this`log
      ensures TableOf(log, nodes) && log.Touch? && log == Touch(old(log), prefix, e, now, log.evicted)
    {
      ghost var evicted;
      ghost var was := nodes;
      nodes, evicted := CountIn(nodes, prefix, e, now);
      TouchIsLegal(log, was, prefix, e, now, evicted);
      log := Touch(log, prefix, e, now, evicted);
      TableAfterTouch(log, was, nodes);
    }

    method CountSend(attempt: nat)
      requires TotalsValid() && HistoryValid()
      modifies this`totals, this`events
      ensures TotalsValid() && HistoryValid() && events == And(old(events), Send(attempt))
    {
      TotalsAfter(events, arrivals, Send(attempt));
      ExtremesStay(events, latencyMin, latencyMax, Send(attempt));
      totals := totals.(sends := totals.sends + 1);
      if attempt > 1 { totals := totals.(retransmits := totals.retransmits + 1); }
      events := And(events, Send(attempt));
    }

    /** A send counts globally, as a retransmission if it is not a first attempt, and for its node. */
    method OnSend(prefix: Prefix, attempt: nat, now: nat)
      requires Valid() && Clock(log) <= now
      modifies this`totals, this`nodes, this`events, this`log
      ensures Valid() && events == And(old(events), Send(attempt))
      ensures log == Touch(old(log), prefix, Send(attempt), now, if log.Touch? then log.evicted else None)
    {
      CountSend(attempt);
      assert log == old(log) && nodes == old(nodes) && DedupValid();
      WithNode(prefix, Send(attempt), now);
      assert TotalsValid() && DedupValid() && HistoryValid();
    }

    method OnSentResult(accepted: bool)
      requires Valid()
      modifies this`totals, this`events
      ensures Valid() && events == And(old(events), SentResult(accepted))
    {
      if accepted {
        totals := totals.(accepted := totals.accepted + 1);
      } else {
        totals := totals.(failedNoRoute := totals.failedNoRoute + 1);
      }
      TotalsAfter(events, arrivals, SentResult(accepted));
      ExtremesStay(events, latencyMin, latencyMax, SentResult(accepted));
      events := And(events, SentResult(accepted));
    }

    method RecordLatency(ms: u64)
      requires Valid()
      modifies this`totals, this`latencyMin, this`latencyMax, this`events
      ensures Valid() && events == And(old(events), Delivered(ms))
    {
      totals := totals.(latencyCount := totals.latencyCount + 1, latencySum := totals.latencySum + ms);
      TotalsAfter(events, arrivals, Delivered(ms));
      ExtremesAfter(events, latencyMin, latencyMax, ms);
      latencyMin := if ms < latencyMin then ms else latencyMin;
      latencyMax := if ms > latencyMax then ms else latencyMax;
      events := And(events, Delivered(ms));
    }

    /** Count an end-to-end confirmation unless its CRC is among the last 256 counted. */
    method OnConfirmed(crc: nat)
      requires Valid()
      modifies this`totals, this`recentQueue, this`recentSeen, this`arrivals
      ensures Valid() && arrivals == Arrived(old(arrivals), crc)
    {
      ghost var before := arrivals;
      arrivals := Arrived(before, crc);
      if crc in recentSeen { return; }
      WindowMovesOn(before, crc);
      SeenMovesOn(recentSeen, recentQueue, crc);
      recentSeen := recentSeen + {crc};
      recentQueue := recentQueue + [crc];
      if |recentQueue| > RECENT_CONFIRMED_CAP {
        var oldest := recentQueue[0];
        recentQueue := recentQueue[1..];
        recentSeen := recentSeen - {oldest};
      }
      totals := totals.(confirmed := totals.confirmed + 1);
    }

    /** Append a sample of the counters, dropping the oldest once the buffer is full. */
    method Sample(ts: nat) returns (s: DeliverySample)
      requires HistoryValid()
      modifies this`history, this`own
      ensures HistoryValid() && s == DeliverySample(ts, totals) && own == old(own) + [s]
      ensures history == (if |old(history)| < 480 then old(history) else old(history)[1..]) + [s]
    {
      s := DeliverySample(ts, totals);
      ghost var all := loaded + own;
      if |history| >= MAX_HISTORY_SAMPLES { history := history[1..]; }
      history := history + [s];
      own := own + [s];
      assert loaded + own == all + [s];
    }

    /** Replace the history by the latest of the persisted samples. */
    method LoadHistory(samples: seq<DeliverySample>)
      modifies this`history, this`loaded, this`own
      ensures HistoryValid() && loaded == samples && own == []
      ensures |history| == if |samples| < 480 then |samples| else 480
      ensures history == samples[|samples| - |history|..]
    {
      var skip := if |samples| > MAX_HISTORY_SAMPLES then |samples| - MAX_HISTORY_SAMPLES else 0;
      history := samples[skip..];
      loaded, own := samples, [];
      assert loaded + own == samples;
    }
  }
}
