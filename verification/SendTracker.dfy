/** Delivery tracking of outbound replies.

  The tracker proper is a queue of sends the device has not answered yet and a table of accepted
  sends by their acknowledgement CRC.  It is specified by a ledger: every send ever recorded, in
  order, each with what became of it.  The queue and the table are exactly the ledger's open
  entries, so no send is ever lost or in two places.
*/
module SendTracker {
  import opened NodePrefix
  import opened Wrappers

  /** Milliseconds throughout. `maxAttempts` counts transmissions, the first included. */
  datatype RetryConfig = RetryConfig(maxAttempts: nat, minTimeout: nat, maxTimeout: nat)

  /** The point of the window nearest to what the device suggests. */
  function AckWait(cfg: RetryConfig, hint: nat): (wait: nat)
    requires cfg.minTimeout <= cfg.maxTimeout
    ensures cfg.minTimeout <= wait <= cfg.maxTimeout
    ensures hint <= wait ==> wait == hint || wait == cfg.minTimeout
    ensures wait <= hint ==> wait == hint || wait == cfg.maxTimeout
  {
    if hint < cfg.minTimeout then cfg.minTimeout
    else if hint > cfg.maxTimeout then cfg.maxTimeout
    else hint
  }

  datatype PendingSend = PendingSend(
    prefix: Prefix, text: string, txtType: nat, attempt: nat, sentAt: nat, deadline: nat)

  datatype SentOutcome = Accepted(prefix: Prefix) | Failed(rec: PendingSend) | Spurious

  // ---- The ledger ----

  datatype Fate =
    | AwaitingSent
    | AwaitingAck(crc: nat, acceptedAt: nat, deadline: nat)
    | Confirmed
    | Refused
    | HandedBack
    | GivenUp
    | Superseded

  /** `message` is shared by a first send and its retransmissions. */
  datatype Entry = Entry(message: nat, send: PendingSend, fate: Fate)

  type Ledger = seq<Entry>

  datatype Event =
    | Recorded(message: nat, send: PendingSend)
    | Sent(crc: nat, hint: nat, now: nat)
    | Confirm(crc: nat)
    | Collect(now: nat)

  function WaitingFrom(l: Ledger, i: nat): (k: nat)
    requires i <= |l|
    ensures i <= k <= |l| && (k < |l| ==> l[k].fate.AwaitingSent?)
    ensures forall j | i <= j < k :: !l[j].fate.AwaitingSent?
    decreases |l| - i
  {
    if i == |l| || l[i].fate.AwaitingSent? then i else WaitingFrom(l, i + 1)
  }

  /** The oldest send without an answer. */
  function FirstWaiting(l: Ledger): (k: nat)
    ensures k <= |l| && (k < |l| ==> l[k].fate.AwaitingSent?)
    ensures forall i | 0 <= i < k :: !l[i].fate.AwaitingSent?
  {
    WaitingFrom(l, 0)
  }

  predicate Open(f: Fate) {
    f.AwaitingSent? || f.AwaitingAck?
  }

  predicate IsAck(e: Entry, crc: nat) {
    e.fate.AwaitingAck? && e.fate.crc == crc
  }

  predicate IsDue(e: Entry, now: nat) {
    e.fate.AwaitingAck? && e.fate.deadline <= now
  }

  function DueFate(cfg: RetryConfig, send: PendingSend): Fate {
    if send.attempt < cfg.maxAttempts then HandedBack else GivenUp
  }

  function NextFate(cfg: RetryConfig, l: Ledger, e: Event, i: nat): Fate
    requires cfg.minTimeout <= cfg.maxTimeout && i < |l|
  {
    match e
    case Recorded(_, _) => l[i].fate
    case Sent(crc, hint, now) =>
      var k := FirstWaiting(l);
      if i == k then if crc == 0 then Refused else AwaitingAck(crc, now, now + AckWait(cfg, hint))
      else if k < |l| && crc != 0 && IsAck(l[i], crc) then Superseded
      else l[i].fate
    case Confirm(crc) => if IsAck(l[i], crc) then Confirmed else l[i].fate
    case Collect(now) => if IsDue(l[i], now) then DueFate(cfg, l[i].send) else l[i].fate
  }

  function Step(cfg: RetryConfig, l: Ledger, e: Event): (r: Ledger)
    requires cfg.minTimeout <= cfg.maxTimeout
    ensures |r| == if e.Recorded? then |l| + 1 else |l|
    ensures forall i | 0 <= i < |l| :: r[i] == l[i].(fate := NextFate(cfg, l, e, i))
    ensures e.Recorded? ==> r == l + [Entry(e.message, e.send, AwaitingSent)]
  {
    if e.Recorded? then l + [Entry(e.message, e.send, AwaitingSent)]
    else seq(|l|, i requires 0 <= i < |l| => l[i].(fate := NextFate(cfg, l, e, i)))
  }

  function Run(cfg: RetryConfig, l: Ledger, events: seq<Event>): (r: Ledger)
    requires cfg.minTimeout <= cfg.maxTimeout
    ensures |r| >= |l|
    decreases events
  {
    if events == [] then l else Run(cfg, Step(cfg, l, events[0]), events[1..])
  }

  // ---- What every reachable ledger satisfies ----

  /** The unanswered sends are the ledger's tail. */
  predicate InOrder(l: Ledger) {
    forall i, j | 0 <= i < j < |l| && l[i].fate.AwaitingSent? :: l[j].fate.AwaitingSent?
  }

  ghost predicate DistinctCrcs(l: Ledger) {
    forall i, j, crc | 0 <= i < j < |l| && IsAck(l[i], crc) :: !IsAck(l[j], crc)
  }

  predicate InWindow(cfg: RetryConfig, f: Fate) {
    f.AwaitingAck? ==> f.acceptedAt + cfg.minTimeout <= f.deadline <= f.acceptedAt + cfg.maxTimeout
  }

  ghost predicate Sound(cfg: RetryConfig, l: Ledger) {
    InOrder(l) && DistinctCrcs(l) && forall i | 0 <= i < |l| :: InWindow(cfg, l[i].fate)
  }

  lemma FrontIs(l: Ledger, k: nat)
    requires k <= |l| && (k < |l| ==> l[k].fate.AwaitingSent?)
    requires forall i | 0 <= i < k :: !l[i].fate.AwaitingSent?
    ensures FirstWaiting(l) == k
  {
    if FirstWaiting(l) < k {
      assert false;
    } else if k < FirstWaiting(l) {
      assert false;
    }
  }

  lemma NextWaits(cfg: RetryConfig, l: Ledger, e: Event, i: nat)
    requires cfg.minTimeout <= cfg.maxTimeout && i < |l|
    ensures NextFate(cfg, l, e, i).AwaitingSent? <==> l[i].fate.AwaitingSent? && !(e.Sent? && i == FirstWaiting(l))
  {
  }

  lemma StepKeepsOrder(cfg: RetryConfig, l: Ledger, e: Event)
    requires cfg.minTimeout <= cfg.maxTimeout && InOrder(l)
    ensures InOrder(Step(cfg, l, e))
    ensures FirstWaiting(Step(cfg, l, e)) == FirstWaiting(l) + if e.Sent? && FirstWaiting(l) < |l| then 1 else 0
  {
    var r := Step(cfg, l, e);
    var k := FirstWaiting(l);
    var next := if e.Sent? && k < |l| then k + 1 else k;
    forall i | 0 <= i < |r| ensures r[i].fate.AwaitingSent? <==> next <= i {
      if i < |l| {
        assert l[i].fate.AwaitingSent? <==> k <= i;
        NextWaits(cfg, l, e, i);
      }
    }
    FrontIs(r, next);
  }

  lemma StepKeepsSound(cfg: RetryConfig, l: Ledger, e: Event)
    requires cfg.minTimeout <= cfg.maxTimeout && Sound(cfg, l)
    ensures Sound(cfg, Step(cfg, l, e))
  {
    StepKeepsOrder(cfg, l, e);
    var r := Step(cfg, l, e);
    forall i | 0 <= i < |r| ensures InWindow(cfg, r[i].fate) {
      if i < |l| { assert InWindow(cfg, l[i].fate); }
    }
    assert DistinctCrcs(r);
  }

  lemma {:induction false} RunKeepsSound(cfg: RetryConfig, l: Ledger, events: seq<Event>)
    requires cfg.minTimeout <= cfg.maxTimeout && Sound(cfg, l)
    ensures Sound(cfg, Run(cfg, l, events))
    decreases events
  {
    if events != [] {
      StepKeepsSound(cfg, l, events[0]);
      RunKeepsSound(cfg, Step(cfg, l, events[0]), events[1..]);
    }
  }

  // ---- Correlation by order ----

  function Sends(events: seq<Event>): seq<PendingSend> {
    if events == [] then []
    else (if events[0].Recorded? then [events[0].send] else []) + Sends(events[1..])
  }

  /** Answers that had a send to belong to. */
  function Answers(cfg: RetryConfig, l: Ledger, events: seq<Event>): nat
    requires cfg.minTimeout <= cfg.maxTimeout
    decreases events
  {
    if events == [] then 0
    else
      (if events[0].Sent? && FirstWaiting(l) < |l| then 1 else 0)
      + Answers(cfg, Step(cfg, l, events[0]), events[1..])
  }

  lemma {:induction false} EveryAnswerAdvances(cfg: RetryConfig, l: Ledger, events: seq<Event>)
    requires cfg.minTimeout <= cfg.maxTimeout && InOrder(l)
    ensures FirstWaiting(Run(cfg, l, events)) == FirstWaiting(l) + Answers(cfg, l, events)
    decreases events
  {
    if events != [] {
      StepKeepsOrder(cfg, l, events[0]);
      EveryAnswerAdvances(cfg, Step(cfg, l, events[0]), events[1..]);
    }
  }

  function SendsOf(l: Ledger): (s: seq<PendingSend>)
    ensures |s| == |l| && forall i | 0 <= i < |l| :: s[i] == l[i].send
  {
    seq(|l|, i requires 0 <= i < |l| => l[i].send)
  }

  lemma StepAppendsSend(cfg: RetryConfig, l: Ledger, e: Event)
    requires cfg.minTimeout <= cfg.maxTimeout
    ensures SendsOf(Step(cfg, l, e)) == SendsOf(l) + if e.Recorded? then [e.send] else []
  {
  }

  lemma {:induction false} RunAppendsSends(cfg: RetryConfig, l: Ledger, events: seq<Event>)
    requires cfg.minTimeout <= cfg.maxTimeout
    ensures SendsOf(Run(cfg, l, events)) == SendsOf(l) + Sends(events)
    decreases events
  {
    if events == [] {
      assert SendsOf(l) + [] == SendsOf(l);
    } else {
      var next, rest := Step(cfg, l, events[0]), events[1..];
      var sent := if events[0].Recorded? then [events[0].send] else [];
      calc {
        SendsOf(Run(cfg, l, events));
        { assert Run(cfg, l, events) == Run(cfg, next, rest); }
        SendsOf(Run(cfg, next, rest));
        { RunAppendsSends(cfg, next, rest); }
        SendsOf(next) + Sends(rest);
        { StepAppendsSend(cfg, l, events[0]); }
        (SendsOf(l) + sent) + Sends(rest);
        SendsOf(l) + (sent + Sends(rest));
        { assert Sends(events) == sent + Sends(rest); }
        SendsOf(l) + Sends(events);
      }
    }
  }

  lemma EmptyInFront<T>(a: seq<T>, b: seq<T>)
    requires |a| == 0
    ensures a + b == b
  {
  }

  lemma RunFromStart(cfg: RetryConfig, events: seq<Event>)
    requires cfg.minTimeout <= cfg.maxTimeout
    ensures SendsOf(Run(cfg, [], events)) == Sends(events)
  {
    RunAppendsSends(cfg, [], events);
    EmptyInFront(SendsOf([]), Sends(events));
  }

  /** The k-th answer that is not spurious belongs to the k-th recorded send: after any run from
      the start, the answered sends are the first as many as there were answers. */
  lemma AnswersAreFifo(cfg: RetryConfig, events: seq<Event>)
    requires cfg.minTimeout <= cfg.maxTimeout
    ensures var r := Run(cfg, [], events);
            && |r| == |Sends(events)|
            && (forall i | 0 <= i < |r| :: r[i].send == Sends(events)[i])
            && (forall i | 0 <= i < |r| :: r[i].fate.AwaitingSent? <==> Answers(cfg, [], events) <= i)
  {
    EveryAnswerAdvances(cfg, [], events);
    RunFromStart(cfg, events);
    RunKeepsSound(cfg, [], events);
  }

  // ---- Deadlines ----

  lemma {:induction false} ClosedStaysClosed(cfg: RetryConfig, l: Ledger, events: seq<Event>, i: nat)
    requires cfg.minTimeout <= cfg.maxTimeout && i < |l| && !Open(l[i].fate)
    ensures Run(cfg, l, events)[i] == l[i]
    decreases events
  {
    if events != [] { ClosedStaysClosed(cfg, Step(cfg, l, events[0]), events[1..], i); }
  }

  /** The device accepts another send under the CRC of entry `i`, while that one is in flight. */
  predicate CollidesNow(l: Ledger, e: Event, i: nat)
    requires i < |l|
  {
    e.Sent? && e.crc != 0 && IsAck(l[i], e.crc) && FirstWaiting(l) < |l|
  }

  predicate Collides(cfg: RetryConfig, l: Ledger, events: seq<Event>, i: nat, at: nat)
    requires cfg.minTimeout <= cfg.maxTimeout && i < |l|
  {
    at < |events| && CollidesNow(Run(cfg, l, events[..at]), events[at], i)
  }

  lemma CollidesLater(cfg: RetryConfig, l: Ledger, events: seq<Event>, i: nat, at: nat)
    requires cfg.minTimeout <= cfg.maxTimeout && i < |l| && events != []
    ensures Collides(cfg, l, events, i, at + 1) <==> Collides(cfg, Step(cfg, l, events[0]), events[1..], i, at)
  {
    if at + 1 < |events| { assert events[..at + 1][1..] == events[1..][..at]; }
  }

  lemma CollidesFirst(cfg: RetryConfig, l: Ledger, events: seq<Event>, i: nat)
    requires cfg.minTimeout <= cfg.maxTimeout && i < |l| && events != [] && !l[i].fate.Superseded?
    ensures Collides(cfg, l, events, i, 0) <==> Step(cfg, l, events[0])[i].fate.Superseded?
  {
    assert events[..0] == [];
  }

  /** A send is superseded exactly if, while it is in flight, the device accepts another under its
      CRC. */
  lemma {:induction false} SupersededExactly(cfg: RetryConfig, l: Ledger, events: seq<Event>, i: nat)
    requires cfg.minTimeout <= cfg.maxTimeout && i < |l| && !l[i].fate.Superseded?
    ensures Run(cfg, l, events)[i].fate.Superseded? <==> exists at: nat :: Collides(cfg, l, events, i, at)
    decreases events
  {
    if events != [] {
      var next := Step(cfg, l, events[0]);
      CollidesFirst(cfg, l, events, i);
      if next[i].fate.Superseded? {
        ClosedStaysClosed(cfg, next, events[1..], i);
      } else {
        SupersededExactly(cfg, next, events[1..], i);
        if at: nat :| Collides(cfg, next, events[1..], i, at) {
          CollidesLater(cfg, l, events, i, at);
        }
        if at: nat :| Collides(cfg, l, events, i, at) {
          CollidesLater(cfg, l, events, i, at - 1);
        }
      }
    }
  }

  lemma {:induction false} AcceptedIsClosed(cfg: RetryConfig, l: Ledger, events: seq<Event>, i: nat, at: nat)
    requires cfg.minTimeout <= cfg.maxTimeout && Sound(cfg, l)
    requires i < |l| && l[i].fate.AwaitingAck?
    requires at < |events| && events[at].Collect? && events[at].now >= l[i].fate.acceptedAt + cfg.maxTimeout
    ensures var f := Run(cfg, l, events)[i].fate; f.Confirmed? || f.HandedBack? || f.GivenUp? || f.Superseded?
    decreases events
  {
    var next := Step(cfg, l, events[0]);
    StepKeepsSound(cfg, l, events[0]);
    assert InWindow(cfg, l[i].fate);
    if Open(next[i].fate) {
      AcceptedIsClosed(cfg, next, events[1..], i, at - 1);
    } else {
      ClosedStaysClosed(cfg, next, events[1..], i);
    }
  }

  /** An accepted send is settled once a collection came at least `maxTimeout` later, and it is
      confirmed, handed back or given up exactly if no other send took its CRC in flight. */
  lemma AcceptedIsSettled(cfg: RetryConfig, l: Ledger, events: seq<Event>, i: nat, at: nat)
    requires cfg.minTimeout <= cfg.maxTimeout && Sound(cfg, l)
    requires i < |l| && l[i].fate.AwaitingAck?
    requires at < |events| && events[at].Collect? && events[at].now >= l[i].fate.acceptedAt + cfg.maxTimeout
    ensures var f := Run(cfg, l, events)[i].fate;
            && !Open(f) && (f.Superseded? <==> exists k: nat :: Collides(cfg, l, events, i, k))
            && (f.Confirmed? || f.HandedBack? || f.GivenUp? <==> !exists k: nat :: Collides(cfg, l, events, i, k))
  {
    AcceptedIsClosed(cfg, l, events, i, at);
    SupersededExactly(cfg, l, events, i);
  }

  /** Two sends accepted under one CRC: whatever comes after, the first is never confirmed and
      never handed back. */
  lemma CollisionLosesTheFirst(cfg: RetryConfig, a: PendingSend, b: PendingSend, crc: nat, hint: nat, now: nat,
                               later: seq<Event>)
    requires cfg.minTimeout <= cfg.maxTimeout && crc != 0
    ensures var l := Run(cfg, [], [Recorded(0, a), Recorded(1, b), Sent(crc, hint, now), Sent(crc, hint, now)]);
            |l| == 2 && Run(cfg, l, later)[0] == Entry(0, a, Superseded) && l[1].fate.AwaitingAck?
  {
    var answer := Sent(crc, hint, now);
    var l1 := Step(cfg, [], Recorded(0, a));
    var l2 := Step(cfg, l1, Recorded(1, b));
    var l3 := Step(cfg, l2, answer);
    var l4 := Step(cfg, l3, answer);
    FrontIs(l2, 0);
    FrontIs(l3, 1);
    RunCons(cfg, l3, answer, []);
    RunCons(cfg, l2, answer, [answer]);
    RunCons(cfg, l1, Recorded(1, b), [answer, answer]);
    RunCons(cfg, [], Recorded(0, a), [Recorded(1, b), answer, answer]);
    ClosedStaysClosed(cfg, l4, later, 0);
  }

  lemma RunCons(cfg: RetryConfig, l: Ledger, e: Event, events: seq<Event>)
    requires cfg.minTimeout <= cfg.maxTimeout
    ensures Run(cfg, l, [e] + events) == Run(cfg, Step(cfg, l, e), events)
  {
    assert ([e] + events)[1..] == events;
  }

  // ---- Retransmission ----

  predicate IsLatest(l: Ledger, p: nat)
    requires p < |l|
  {
    forall j | p < j < |l| :: l[j].message != l[p].message
  }

  /** The transport records a new message with attempt 1, and a send it was handed back once, as
      the same message with the next attempt. */
  predicate Starts(l: Ledger, e: Event)
    requires e.Recorded?
  {
    e.send.attempt == 1 && forall i | 0 <= i < |l| :: l[i].message != e.message
  }

  predicate Retries(l: Ledger, e: Event, p: nat)
    requires e.Recorded?
  {
    && p < |l| && l[p].fate.HandedBack? && IsLatest(l, p)
    && l[p].message == e.message && e.send.attempt == l[p].send.attempt + 1
  }

  predicate CallerAllows(l: Ledger, e: Event) {
    e.Recorded? ==> Starts(l, e) || exists p :: 0 <= p < |l| && Retries(l, e, p)
  }

  predicate CallerFollows(cfg: RetryConfig, l: Ledger, events: seq<Event>)
    requires cfg.minTimeout <= cfg.maxTimeout
    decreases events
  {
    events == [] || (CallerAllows(l, events[0]) && CallerFollows(cfg, Step(cfg, l, events[0]), events[1..]))
  }

  /** How often a message has been transmitted. */
  function Transmissions(l: Ledger, message: nat): nat {
    if l == [] then 0
    else Transmissions(l[..|l| - 1], message) + if l[|l| - 1].message == message then 1 else 0
  }

  /** Attempts number the transmissions of a message. */
  predicate Counts(l: Ledger) {
    forall i | 0 <= i < |l| :: l[i].send.attempt == Transmissions(l[..i + 1], l[i].message)
  }

  /** No attempt is above the cap, and only sends below it are handed back. */
  predicate WithinCap(cfg: RetryConfig, e: Entry) {
    1 <= e.send.attempt <= cfg.maxAttempts && (e.fate.HandedBack? ==> e.send.attempt < cfg.maxAttempts)
  }

  predicate Capped(cfg: RetryConfig, l: Ledger) {
    forall i | 0 <= i < |l| :: WithinCap(cfg, l[i])
  }

  lemma {:induction false} TransmissionsIgnoreFates(a: Ledger, b: Ledger, message: nat)
    requires |a| == |b| && forall i | 0 <= i < |a| :: a[i].message == b[i].message
    ensures Transmissions(a, message) == Transmissions(b, message)
  {
    if a != [] { TransmissionsIgnoreFates(a[..|a| - 1], b[..|b| - 1], message); }
  }

  lemma {:induction false} TransmissionsUpToLatest(l: Ledger, p: nat)
    requires p < |l| && IsLatest(l, p)
    ensures Transmissions(l, l[p].message) == Transmissions(l[..p + 1], l[p].message)
  {
    if p < |l| - 1 {
      var m := l[..|l| - 1];
      TransmissionsUpToLatest(m, p);
      assert m[..p + 1] == l[..p + 1];
    } else {
      assert l[..p + 1] == l;
    }
  }

  lemma {:induction false} NoTransmissions(l: Ledger, message: nat)
    requires forall i | 0 <= i < |l| :: l[i].message != message
    ensures Transmissions(l, message) == 0
  {
    if l != [] { NoTransmissions(l[..|l| - 1], message); }
  }

  lemma NextAttempt(l: Ledger, e: Event)
    requires e.Recorded? && CallerAllows(l, e) && Counts(l)
    ensures e.send.attempt == Transmissions(l, e.message) + 1
  {
    if Starts(l, e) {
      NoTransmissions(l, e.message);
    } else {
      var p :| 0 <= p < |l| && Retries(l, e, p);
      TransmissionsUpToLatest(l, p);
    }
  }

  lemma StepKeepsCounts(cfg: RetryConfig, l: Ledger, e: Event)
    requires cfg.minTimeout <= cfg.maxTimeout && Counts(l) && CallerAllows(l, e)
    ensures Counts(Step(cfg, l, e))
  {
    var r := Step(cfg, l, e);
    forall i | 0 <= i < |r| ensures r[i].send.attempt == Transmissions(r[..i + 1], r[i].message) {
      if i < |l| {
        TransmissionsIgnoreFates(l[..i + 1], r[..i + 1], l[i].message);
      } else {
        assert r[..i + 1] == r && r[..i] == l;
        NextAttempt(l, e);
      }
    }
  }

  lemma StepKeepsCap(cfg: RetryConfig, l: Ledger, e: Event)
    requires cfg.minTimeout <= cfg.maxTimeout && cfg.maxAttempts >= 1 && Capped(cfg, l) && CallerAllows(l, e)
    ensures Capped(cfg, Step(cfg, l, e))
  {
    var r := Step(cfg, l, e);
    forall i | 0 <= i < |r| ensures WithinCap(cfg, r[i]) {
      if i < |l| {
        assert WithinCap(cfg, l[i]);
      } else if !Starts(l, e) {
        var p :| 0 <= p < |l| && Retries(l, e, p);
        assert WithinCap(cfg, l[p]);
      }
    }
  }

  lemma {:induction false} RunKeepsCounts(cfg: RetryConfig, l: Ledger, events: seq<Event>)
    requires cfg.minTimeout <= cfg.maxTimeout && cfg.maxAttempts >= 1
    requires Counts(l) && Capped(cfg, l) && CallerFollows(cfg, l, events)
    ensures Counts(Run(cfg, l, events)) && Capped(cfg, Run(cfg, l, events))
    decreases events
  {
    if events != [] {
      StepKeepsCounts(cfg, l, events[0]);
      StepKeepsCap(cfg, l, events[0]);
      RunKeepsCounts(cfg, Step(cfg, l, events[0]), events[1..]);
    }
  }

  lemma {:induction false} CapBoundsTransmissions(cfg: RetryConfig, l: Ledger, message: nat)
    requires Counts(l) && Capped(cfg, l)
    ensures Transmissions(l, message) <= cfg.maxAttempts
  {
    if l != [] {
      var n := |l| - 1;
      if l[n].message == message {
        assert l[..n + 1] == l && WithinCap(cfg, l[n]);
      } else {
        var m := l[..n];
        forall i | 0 <= i < n ensures m[i].send.attempt == Transmissions(m[..i + 1], m[i].message) {
          assert m[..i + 1] == l[..i + 1];
        }
        CapBoundsTransmissions(cfg, m, message);
      }
    }
  }

  /** Over any run of a transport that re-records what it is handed back, no message is
      transmitted more than `maxAttempts` times. */
  lemma RetransmissionIsBounded(cfg: RetryConfig, events: seq<Event>, message: nat)
    requires cfg.minTimeout <= cfg.maxTimeout && cfg.maxAttempts >= 1 && CallerFollows(cfg, [], events)
    ensures Transmissions(Run(cfg, [], events), message) <= cfg.maxAttempts
  {
    RunKeepsCounts(cfg, [], events);
    CapBoundsTransmissions(cfg, Run(cfg, [], events), message);
  }

  // ---- The retry process runs down ----

  /** Transmissions the messages among the first `n` entries may still make. */
  function Remaining(cfg: RetryConfig, l: Ledger, n: nat): int
    requires n <= |l|
  {
    if n == 0 then 0
    else Remaining(cfg, l, n - 1) + if IsLatest(l, n - 1) then cfg.maxAttempts - l[n - 1].send.attempt else 0
  }

  lemma {:induction false} RemainingIgnoresFates(cfg: RetryConfig, a: Ledger, b: Ledger, n: nat)
    requires |a| == |b| && n <= |a|
    requires forall i | 0 <= i < |a| :: a[i].message == b[i].message && a[i].send == b[i].send
    ensures Remaining(cfg, a, n) == Remaining(cfg, b, n)
  {
    if n > 0 {
      RemainingIgnoresFates(cfg, a, b, n - 1);
      assert IsLatest(a, n - 1) <==> IsLatest(b, n - 1);
    }
  }

  lemma LatestAfterAppending(l: Ledger, e: Entry, i: nat)
    requires i < |l|
    ensures IsLatest(l + [e], i) <==> IsLatest(l, i) && l[i].message != e.message
  {
    var r := l + [e];
    assert forall j | 0 <= j < |l| :: r[j] == l[j];
    assert r[|l|] == e;
  }

  lemma {:induction false} RemainingOfNewMessage(cfg: RetryConfig, l: Ledger, e: Entry, n: nat)
    requires n <= |l| && forall i | 0 <= i < |l| :: l[i].message != e.message
    ensures Remaining(cfg, l + [e], n) == Remaining(cfg, l, n)
  {
    if n > 0 {
      RemainingOfNewMessage(cfg, l, e, n - 1);
      LatestAfterAppending(l, e, n - 1);
    }
  }

  lemma {:induction false} RemainingOfRetry(cfg: RetryConfig, l: Ledger, e: Entry, p: nat, n: nat)
    requires n <= |l| && p < |l| && IsLatest(l, p) && l[p].message == e.message
    ensures Remaining(cfg, l + [e], n)
         == Remaining(cfg, l, n) - if p < n then cfg.maxAttempts - l[p].send.attempt else 0
  {
    if n > 0 {
      RemainingOfRetry(cfg, l, e, p, n - 1);
      LatestAfterAppending(l, e, n - 1);
      if l[n - 1].message == e.message {
        assert IsLatest(l, n - 1) <==> n - 1 == p;
      }
    }
  }

  /** A new message adds `maxAttempts - 1` to what remains, every retransmission takes one away,
      and nothing else changes it: without new messages the retry process runs down. */
  lemma RetryingRunsDown(cfg: RetryConfig, l: Ledger, e: Event)
    requires cfg.minTimeout <= cfg.maxTimeout && CallerAllows(l, e)
    ensures var r := Step(cfg, l, e);
            Remaining(cfg, r, |r|) == Remaining(cfg, l, |l|)
              + if !e.Recorded? then 0 else if Starts(l, e) then cfg.maxAttempts - 1 else -1
  {
    var r := Step(cfg, l, e);
    if !e.Recorded? {
      RemainingIgnoresFates(cfg, l, r, |l|);
    } else {
      var x := Entry(e.message, e.send, AwaitingSent);
      assert IsLatest(r, |l|);
      if Starts(l, e) {
        RemainingOfNewMessage(cfg, l, x, |l|);
      } else {
        var p :| 0 <= p < |l| && Retries(l, e, p);
        RemainingOfRetry(cfg, l, x, p, |l|);
      }
    }
  }

  lemma {:induction false} RemainingIsNatural(cfg: RetryConfig, l: Ledger, n: nat)
    requires n <= |l| && Capped(cfg, l)
    ensures Remaining(cfg, l, n) >= 0
  {
    if n > 0 {
      RemainingIsNatural(cfg, l, n - 1);
      assert WithinCap(cfg, l[n - 1]);
    }
  }

  // ---- The tracker represents the ledger ----

  /** An accepted send as the table holds it. */
  function InTable(e: Entry): PendingSend
    requires e.fate.AwaitingAck?
  {
    e.send.(deadline := e.fate.deadline)
  }

  predicate Queued(l: Ledger, sent: seq<PendingSend>) {
    var k := FirstWaiting(l);
    |sent| == |l| - k && forall i | 0 <= i < |sent| :: sent[i] == l[k + i].send
  }

  predicate HasAck(l: Ledger, crc: nat) {
    exists i :: 0 <= i < |l| && IsAck(l[i], crc)
  }

  ghost predicate Tabled(l: Ledger, ack: map<nat, PendingSend>) {
    && (forall i, crc | 0 <= i < |l| && IsAck(l[i], crc) :: crc in ack && ack[crc] == InTable(l[i]))
    && (forall crc | crc in ack :: HasAck(l, crc))
  }

  /** The queue and the table hold exactly the ledger's open entries, each once. */
  ghost predicate Represents(cfg: RetryConfig, l: Ledger, sent: seq<PendingSend>, ack: map<nat, PendingSend>) {
    cfg.minTimeout <= cfg.maxTimeout && Sound(cfg, l) && Queued(l, sent) && Tabled(l, ack)
  }

  function WithFate(l: Ledger, i: nat, f: Fate): (r: Ledger)
    requires i < |l|
    ensures |r| == |l|
  {
    l[i := l[i].(fate := f)]
  }

  lemma ClosingKeepsFront(l: Ledger, i: nat, f: Fate)
    requires i < |l| && !l[i].fate.AwaitingSent? && !f.AwaitingSent?
    ensures FirstWaiting(WithFate(l, i, f)) == FirstWaiting(l)
  {
    FrontIs(WithFate(l, i, f), FirstWaiting(l));
  }

  /** Closing an accepted entry takes its CRC from the table and touches nothing else. */
  lemma CloseOne(cfg: RetryConfig, l: Ledger, sent: seq<PendingSend>, ack: map<nat, PendingSend>, i: nat, f: Fate)
    requires Represents(cfg, l, sent, ack) && i < |l| && l[i].fate.AwaitingAck? && !Open(f)
    ensures Represents(cfg, WithFate(l, i, f), sent, ack - {l[i].fate.crc})
    ensures !HasAck(WithFate(l, i, f), l[i].fate.crc)
  {
    var r := WithFate(l, i, f);
    var rest := ack - {l[i].fate.crc};
    ClosingKeepsFront(l, i, f);
    forall crc | crc in rest ensures HasAck(r, crc) {
      var j :| 0 <= j < |l| && IsAck(l[j], crc);
      assert IsAck(r[j], crc);
    }
    assert Tabled(r, rest);
  }

  lemma AnsweringKeepsSound(cfg: RetryConfig, l: Ledger, f: Fate)
    requires Sound(cfg, l) && FirstWaiting(l) < |l|
    requires f.Refused? || (f.AwaitingAck? && InWindow(cfg, f) && !HasAck(l, f.crc))
    ensures Sound(cfg, WithFate(l, FirstWaiting(l), f))
    ensures FirstWaiting(WithFate(l, FirstWaiting(l), f)) == FirstWaiting(l) + 1
  {
    var k := FirstWaiting(l);
    var r := WithFate(l, k, f);
    FrontIs(r, k + 1);
    forall i | 0 <= i < |l| && i != k ensures !f.AwaitingAck? || !IsAck(r[i], f.crc) {
      assert r[i] == l[i];
    }
    forall i | 0 <= i < |l| ensures InWindow(cfg, r[i].fate) {
      assert InWindow(cfg, l[i].fate);
    }
  }

  /** Answering the oldest unanswered entry takes it off the queue; an accepted one enters the
      table under its CRC, which must not be there. */
  lemma AnswerFront(cfg: RetryConfig, l: Ledger, sent: seq<PendingSend>, ack: map<nat, PendingSend>, f: Fate)
    requires Represents(cfg, l, sent, ack) && sent != []
    requires f.Refused? || (f.AwaitingAck? && InWindow(cfg, f) && !HasAck(l, f.crc))
    ensures var k := FirstWaiting(l);
            var table := if f.Refused? then ack else ack[f.crc := l[k].send.(deadline := f.deadline)];
            Represents(cfg, WithFate(l, k, f), sent[1..], table)
  {
    var k := FirstWaiting(l);
    var r := WithFate(l, k, f);
    var table := if f.Refused? then ack else ack[f.crc := l[k].send.(deadline := f.deadline)];
    AnsweringKeepsSound(cfg, l, f);
    forall i, crc | 0 <= i < |r| && IsAck(r[i], crc) ensures crc in table && table[crc] == InTable(r[i]) {
      if i != k { assert IsAck(l[i], crc); }
    }
    forall crc | crc in table ensures HasAck(r, crc) {
      if f.AwaitingAck? && crc == f.crc {
        assert IsAck(r[k], crc);
      } else {
        var j :| 0 <= j < |l| && IsAck(l[j], crc);
        assert IsAck(r[j], crc);
      }
    }
  }

  /** An acceptance is the entry that held its CRC, if any, superseded and then the oldest
      unanswered one answered. */
  lemma AcceptanceIsTwoMoves(cfg: RetryConfig, l: Ledger, e: Event, i: nat)
    requires cfg.minTimeout <= cfg.maxTimeout && DistinctCrcs(l) && FirstWaiting(l) < |l|
    requires e.Sent? && e.crc != 0 && i < |l| && IsAck(l[i], e.crc)
    ensures var f := AwaitingAck(e.crc, e.now, e.now + AckWait(cfg, e.hint));
            Step(cfg, l, e) == WithFate(WithFate(l, i, Superseded), FirstWaiting(l), f)
  {
  }

  lemma FreshAcceptanceIsOneMove(cfg: RetryConfig, l: Ledger, e: Event)
    requires cfg.minTimeout <= cfg.maxTimeout && FirstWaiting(l) < |l|
    requires e.Sent? && e.crc != 0 && !HasAck(l, e.crc)
    ensures var f := AwaitingAck(e.crc, e.now, e.now + AckWait(cfg, e.hint));
            Step(cfg, l, e) == WithFate(l, FirstWaiting(l), f)
  {
    var f := AwaitingAck(e.crc, e.now, e.now + AckWait(cfg, e.hint));
    forall i | 0 <= i < |l| ensures Step(cfg, l, e)[i] == WithFate(l, FirstWaiting(l), f)[i] {
      assert !IsAck(l[i], e.crc);
    }
  }

  lemma AcceptReusedCrc(cfg: RetryConfig, l: Ledger, sent: seq<PendingSend>, ack: map<nat, PendingSend>,
                        e: Event, i: nat)
    requires Represents(cfg, l, sent, ack) && sent != [] && e.Sent? && e.crc != 0 && i < |l| && IsAck(l[i], e.crc)
    ensures var rec := sent[0].(deadline := e.now + AckWait(cfg, e.hint));
            Represents(cfg, Step(cfg, l, e), sent[1..], ack[e.crc := rec])
  {
    var f := AwaitingAck(e.crc, e.now, e.now + AckWait(cfg, e.hint));
    AcceptanceIsTwoMoves(cfg, l, e, i);
    CloseOne(cfg, l, sent, ack, i, Superseded);
    ClosingKeepsFront(l, i, Superseded);
    AnswerFront(cfg, WithFate(l, i, Superseded), sent, ack - {e.crc}, f);
    var rec := sent[0].(deadline := f.deadline);
    assert (ack - {e.crc})[e.crc := rec] == ack[e.crc := rec];
  }

  lemma AcceptFront(cfg: RetryConfig, l: Ledger, sent: seq<PendingSend>, ack: map<nat, PendingSend>, e: Event)
    requires Represents(cfg, l, sent, ack) && sent != [] && e.Sent? && e.crc != 0
    ensures var rec := sent[0].(deadline := e.now + AckWait(cfg, e.hint));
            Represents(cfg, Step(cfg, l, e), sent[1..], ack[e.crc := rec])
  {
    if HasAck(l, e.crc) {
      var i :| 0 <= i < |l| && IsAck(l[i], e.crc);
      AcceptReusedCrc(cfg, l, sent, ack, e, i);
    } else {
      AnswerFront(cfg, l, sent, ack, AwaitingAck(e.crc, e.now, e.now + AckWait(cfg, e.hint)));
      FreshAcceptanceIsOneMove(cfg, l, e);
    }
  }

  /** An event about a CRC in flight closes that one entry. */
  lemma ConfirmClosesOne(cfg: RetryConfig, l: Ledger, i: nat)
    requires cfg.minTimeout <= cfg.maxTimeout && DistinctCrcs(l) && i < |l| && l[i].fate.AwaitingAck?
    ensures Step(cfg, l, Confirm(l[i].fate.crc)) == WithFate(l, i, Confirmed)
  {
  }

  predicate IsOverdue(rec: PendingSend, now: nat) {
    rec.deadline <= now
  }

  function Overdue(ack: map<nat, PendingSend>, now: nat): set<nat> {
    set crc | crc in ack && IsOverdue(ack[crc], now)
  }

  function NotOverdue(ack: map<nat, PendingSend>, now: nat): map<nat, PendingSend> {
    map crc | crc in ack && !IsOverdue(ack[crc], now) :: ack[crc]
  }

  lemma CollectKeepsFront(cfg: RetryConfig, l: Ledger, now: nat)
    requires cfg.minTimeout <= cfg.maxTimeout
    ensures FirstWaiting(Step(cfg, l, Collect(now))) == FirstWaiting(l)
  {
    FrontIs(Step(cfg, l, Collect(now)), FirstWaiting(l));
  }

  lemma CollectKeepsTable(cfg: RetryConfig, l: Ledger, ack: map<nat, PendingSend>, now: nat)
    requires cfg.minTimeout <= cfg.maxTimeout && Tabled(l, ack)
    ensures Tabled(Step(cfg, l, Collect(now)), NotOverdue(ack, now))
  {
    var r, rest := Step(cfg, l, Collect(now)), NotOverdue(ack, now);
    forall i, crc | 0 <= i < |r| && IsAck(r[i], crc) ensures crc in rest && rest[crc] == InTable(r[i]) {
      assert IsAck(l[i], crc);
    }
    forall crc | crc in rest ensures HasAck(r, crc) {
      var i :| 0 <= i < |l| && IsAck(l[i], crc);
      assert ack[crc] == InTable(l[i]);
      assert IsAck(r[i], crc);
    }
  }

  /** Collecting closes exactly the entries whose table deadline has passed. */
  lemma CollectKeeps(cfg: RetryConfig, l: Ledger, sent: seq<PendingSend>, ack: map<nat, PendingSend>, now: nat)
    requires Represents(cfg, l, sent, ack)
    ensures Represents(cfg, Step(cfg, l, Collect(now)), sent, NotOverdue(ack, now))
  {
    StepKeepsSound(cfg, l, Collect(now));
    CollectKeepsFront(cfg, l, now);
    CollectKeepsTable(cfg, l, ack, now);
  }

  /** `list` holds the table's records under `crcs`, one each. */
  predicate ListOf(ack: map<nat, PendingSend>, crcs: seq<nat>, list: seq<PendingSend>) {
    && |crcs| == |list|
    && (forall j | 0 <= j < |crcs| :: crcs[j] in ack && list[j] == ack[crcs[j]])
    && (forall j, k | 0 <= j < k < |crcs| :: crcs[j] != crcs[k])
  }

  /** `crcs` are those of `done` that have attempts left, or those that have none. */
  ghost predicate Sorted(ack: map<nat, PendingSend>, done: set<nat>, cap: nat, again: bool, crcs: seq<nat>) {
    done <= ack.Keys && forall crc :: crc in crcs <==> crc in done && (ack[crc].attempt < cap <==> again)
  }

  /** One more record goes to the list it belongs to. */
  lemma OneMore(ack: map<nat, PendingSend>, done: set<nat>, cap: nat, again: bool, crcs: seq<nat>,
                list: seq<PendingSend>, crc: nat)
    requires ListOf(ack, crcs, list) && Sorted(ack, done, cap, again, crcs) && crc in ack && crc !in done
    ensures var fits := ack[crc].attempt < cap <==> again;
            && ListOf(ack, if fits then crcs + [crc] else crcs, if fits then list + [ack[crc]] else list)
            && Sorted(ack, done + {crc}, cap, again, if fits then crcs + [crc] else crcs)
  {
  }

  class Tracker {
    const cfg: RetryConfig
    var awaitingSent: seq<PendingSend>
    var awaitingAck: map<nat, PendingSend>
    ghost var ledger: Ledger

    ghost predicate Valid()
      reads this
    {
      Represents(cfg, ledger, awaitingSent, awaitingAck)
    }

    constructor(cfg: RetryConfig)
      requires cfg.minTimeout <= cfg.maxTimeout
      ensures Valid() && this.cfg == cfg && ledger == []
    {
      this.cfg := cfg;
      awaitingSent, awaitingAck, ledger := [], map[], [];
    }

    method Record(prefix: Prefix, text: string, txtType: nat, attempt: nat, now: nat, ghost message: nat)
      requires Valid()
      modifies this
      ensures Valid()
      ensures ledger == Step(cfg, old(ledger), Recorded(message, PendingSend(prefix, text, txtType, attempt, now, now)))
    {
      var send := PendingSend(prefix, text, txtType, attempt, now, now);
      ghost var was := ledger;
      StepKeepsSound(cfg, was, Recorded(message, send));
      StepKeepsOrder(cfg, was, Recorded(message, send));
      awaitingSent := awaitingSent + [send];
      ledger := Step(cfg, was, Recorded(message, send));
      forall crc | crc in awaitingAck ensures HasAck(ledger, crc) {
        var i :| 0 <= i < |was| && IsAck(was[i], crc);
        assert IsAck(ledger[i], crc);
      }
    }

    /** Correlate the device's answer with the oldest send it has not answered. */
    method OnSent(crc: nat, hint: nat, now: nat) returns (r: SentOutcome)
      requires Valid()
      modifies this
      ensures Valid() && ledger == Step(cfg, old(ledger), Sent(crc, hint, now))
      ensures var k := FirstWaiting(old(ledger));
              r == if k == |old(ledger)| then Spurious
                   else if crc == 0 then Failed(old(ledger)[k].send)
                   else Accepted(old(ledger)[k].send.prefix)
      ensures r.Failed? ==> ledger[FirstWaiting(old(ledger))].fate.Refused?
      ensures r.Accepted? ==>
        var f := ledger[FirstWaiting(old(ledger))].fate;
        && f.AwaitingAck? && f.crc == crc && f.acceptedAt == now
        && now + cfg.minTimeout <= f.deadline <= now + cfg.maxTimeout
        && (now + hint <= f.deadline ==> f.deadline == now + hint || f.deadline == now + cfg.minTimeout)
        && (f.deadline <= now + hint ==> f.deadline == now + hint || f.deadline == now + cfg.maxTimeout)
    {
      ghost var was := ledger;
      ghost var k := FirstWaiting(was);
      if awaitingSent == [] {
        assert Step(cfg, was, Sent(crc, hint, now)) == was;
        return Spurious;
      }
      var rec := awaitingSent[0];
      if crc == 0 {
        AnswerFront(cfg, was, awaitingSent, awaitingAck, Refused);
        awaitingSent := awaitingSent[1..];
        ledger := WithFate(was, k, Refused);
        assert ledger == Step(cfg, was, Sent(crc, hint, now));
        return Failed(rec);
      }
      rec := rec.(deadline := now + AckWait(cfg, hint));
      AcceptFront(cfg, was, awaitingSent, awaitingAck, Sent(crc, hint, now));
      awaitingSent := awaitingSent[1..];
      awaitingAck := awaitingAck[crc := rec];
      ledger := Step(cfg, was, Sent(crc, hint, now));
      r := Accepted(rec.prefix);
    }

    method OnConfirmed(crc: nat) returns (r: Option<PendingSend>)
      requires Valid()
      modifies this
      ensures Valid() && ledger == Step(cfg, old(ledger), Confirm(crc))
      ensures r.Some? <==> HasAck(old(ledger), crc)
      ensures forall i | 0 <= i < |old(ledger)| && IsAck(old(ledger)[i], crc) ::
                r == Some(InTable(old(ledger)[i])) && ledger[i].fate.Confirmed?
      ensures crc !in awaitingAck && !HasAck(ledger, crc)
    {
      ghost var was := ledger;
      if crc !in awaitingAck {
        assert Step(cfg, was, Confirm(crc)) == was;
        return None;
      }
      ghost var i :| 0 <= i < |was| && IsAck(was[i], crc);
      ConfirmClosesOne(cfg, was, i);
      CloseOne(cfg, was, awaitingSent, awaitingAck, i, Confirmed);
      r := Some(awaitingAck[crc]);
      awaitingAck := awaitingAck - {crc};
      ledger := WithFate(was, i, Confirmed);
    }

    /** Take out every send whose deadline has passed: those with attempts left to retry, the
        others to give up, each exactly once. */
    method CollectDue(now: nat)
      returns (toRetry: seq<PendingSend>, gaveUp: seq<PendingSend>, ghost retried: seq<nat>, ghost abandoned: seq<nat>)
      requires Valid()
      modifies this
      ensures Valid() && ledger == Step(cfg, old(ledger), Collect(now))
      ensures ListOf(old(awaitingAck), retried, toRetry) && ListOf(old(awaitingAck), abandoned, gaveUp)
      ensures forall crc :: crc in retried <==>
                && crc in old(awaitingAck) && old(awaitingAck)[crc].deadline <= now
                && old(awaitingAck)[crc].attempt < cfg.maxAttempts
      ensures forall crc :: crc in abandoned <==>
                && crc in old(awaitingAck) && old(awaitingAck)[crc].deadline <= now
                && old(awaitingAck)[crc].attempt >= cfg.maxAttempts
      ensures forall crc :: crc in awaitingAck <==> crc in old(awaitingAck) && old(awaitingAck)[crc].deadline > now
      ensures forall i | 0 <= i < |ledger| && old(ledger)[i].fate.AwaitingAck? ::
                ledger[i].fate == if old(ledger)[i].fate.deadline > now then old(ledger)[i].fate
                                  else if ledger[i].send.attempt < cfg.maxAttempts then HandedBack else GivenUp
    {
      ghost var was := awaitingAck;
      var rest;
      rest, toRetry, gaveUp, retried, abandoned := TakeDue(awaitingAck, cfg.maxAttempts, now);
      awaitingAck := rest;
      CollectKeeps(cfg, ledger, awaitingSent, was, now);
      ledger := Step(cfg, ledger, Collect(now));
    }

    /** Remove the overdue records from the table one by one. */
    static method TakeDue(table: map<nat, PendingSend>, cap: nat, now: nat)
      returns (rest: map<nat, PendingSend>, toRetry: seq<PendingSend>, gaveUp: seq<PendingSend>,
               ghost retried: seq<nat>, ghost abandoned: seq<nat>)
      ensures rest == NotOverdue(table, now)
      ensures ListOf(table, retried, toRetry) && ListOf(table, abandoned, gaveUp)
      ensures Sorted(table, Overdue(table, now), cap, true, retried)
      ensures Sorted(table, Overdue(table, now), cap, false, abandoned)
    {
      var due := Overdue(table, now);
      rest, toRetry, gaveUp, retried, abandoned := table, [], [], [], [];
      ghost var done: set<nat> := {};
      while due != {}
        invariant done + due == Overdue(table, now) && done !! due && rest == table - done
        invariant ListOf(table, retried, toRetry) && Sorted(table, done, cap, true, retried)
        invariant ListOf(table, abandoned, gaveUp) && Sorted(table, done, cap, false, abandoned)
        decreases due
      {
        var crc :| crc in due;
        due := due - {crc};
        var rec := rest[crc];
        OneMore(table, done, cap, true, retried, toRetry, crc);
        OneMore(table, done, cap, false, abandoned, gaveUp, crc);
        done := done + {crc};
        rest := rest - {crc};
        if rec.attempt < cap {
          toRetry, retried := toRetry + [rec], retried + [crc];
        } else {
          gaveUp, abandoned := gaveUp + [rec], abandoned + [crc];
        }
      }
    }
  }
}
