/** Mesh sessions: the two directions of the session map, the workflow timer and the dedup of
  inbound messages by timestamp.

  What is kept per node is bounded; it is specified by the node's whole past since its session
  was created, the turns of its workflow and the messages accepted from it.
*/
module Session {
  import opened NodePrefix
  import opened Wrappers

  type SessionId = nat

  /** Seconds throughout. */
  const TIMESTAMP_DEDUP_SECS := 120
  const RECENT_MSG_CAP := 16
  const PENDING_PROTECT_TTL_SECS := 86_400

  /** A duration never goes below zero. */
  function Elapsed(now: nat, since: nat): nat {
    if since <= now then now - since else 0
  }

  // ---- Dedup by timestamp ----

  datatype Message = Message(timestamp: nat, text: string, at: nat)

  predicate SameIdentity(a: Message, b: Message) {
    a.timestamp == b.timestamp && a.text == b.text
  }

  predicate Expired(m: Message, now: nat) {
    Elapsed(now, m.at) >= TIMESTAMP_DEDUP_SECS
  }

  /** The specification: a message repeats if its identity is among the last 16 accepted ones
      and younger than the window. */
  predicate Repeats(accepted: seq<Message>, m: Message) {
    exists i :: 0 <= i < |accepted| && |accepted| - i <= RECENT_MSG_CAP && StillBlocks(accepted[i], m)
  }

  predicate StillBlocks(a: Message, m: Message) {
    SameIdentity(a, m) && !Expired(a, m.at)
  }

  /** Written out: the same timestamp and text, among the last 16 accepted, less than 120 seconds ago. */
  lemma RepeatsMeans(accepted: seq<Message>, m: Message)
    requires InTimeOrder(accepted, m.at)
    ensures Repeats(accepted, m) <==>
            exists i :: 0 <= i < |accepted| && |accepted| - i <= 16
                        && accepted[i].timestamp == m.timestamp && accepted[i].text == m.text
                        && m.at - accepted[i].at < 120
  {
    if i :| 0 <= i < |accepted| && |accepted| - i <= RECENT_MSG_CAP && StillBlocks(accepted[i], m) {
      assert accepted[i].timestamp == m.timestamp;
    }
    if i :| 0 <= i < |accepted| && |accepted| - i <= 16 && accepted[i].timestamp == m.timestamp
            && accepted[i].text == m.text && m.at - accepted[i].at < 120 {
      assert StillBlocks(accepted[i], m);
    }
  }

  predicate InTimeOrder(s: seq<Message>, clock: nat) {
    && (forall i, j | 0 <= i < j < |s| :: s[i].at <= s[j].at)
    && (forall i | 0 <= i < |s| :: s[i].at <= clock)
  }

  /** Inside the window an identity is accepted again only after 16 others. */
  predicate Spread(s: seq<Message>) {
    forall i, j | 0 <= i < j < |s| && SameIdentity(s[i], s[j]) :: j - i > RECENT_MSG_CAP || Expired(s[i], s[j].at)
  }

  predicate DuplicateFree(s: seq<Message>) {
    forall i, j | 0 <= i < j < |s| :: !SameIdentity(s[i], s[j])
  }

  /** The ring is the tail of the accepted messages; what is missing of the last 16 has expired. */
  predicate RingOf(accepted: seq<Message>, clock: nat, ring: seq<Message>) {
    && |ring| <= RECENT_MSG_CAP && |ring| <= |accepted|
    && (forall i | 0 <= i < |ring| :: ring[i] == accepted[|accepted| - |ring| + i])
    && (forall i | 0 <= i < |accepted| - |ring| && |accepted| - i <= RECENT_MSG_CAP :: Expired(accepted[i], clock))
    && DuplicateFree(ring)
  }

  lemma AcceptingKeepsSpread(accepted: seq<Message>, m: Message)
    requires Spread(accepted) && !Repeats(accepted, m)
    requires InTimeOrder(accepted, m.at)
    ensures Spread(accepted + [m]) && InTimeOrder(accepted + [m], m.at)
  {
  }

  /** With everything left in the window, searching the ring decides the specification. */
  lemma RingDecides(accepted: seq<Message>, ring: seq<Message>, m: Message)
    requires RingOf(accepted, m.at, ring)
    requires forall i | 0 <= i < |ring| :: !Expired(ring[i], m.at)
    ensures Repeats(accepted, m) <==> exists i :: 0 <= i < |ring| && SameIdentity(ring[i], m)
  {
    var skipped := |accepted| - |ring|;
    if i :| 0 <= i < |ring| && SameIdentity(ring[i], m) {
      assert accepted[skipped + i] == ring[i];
    }
    if i :| 0 <= i < |accepted| && |accepted| - i <= RECENT_MSG_CAP && StillBlocks(accepted[i], m) {
      assert ring[i - skipped] == accepted[i];
    }
  }

  lemma RingAfterEviction(accepted: seq<Message>, clock: nat, ring: seq<Message>)
    requires RingOf(accepted, clock, ring) && ring != [] && Expired(ring[0], clock)
    ensures RingOf(accepted, clock, ring[1..])
  {
  }

  lemma RingLater(accepted: seq<Message>, clock: nat, now: nat, ring: seq<Message>)
    requires RingOf(accepted, clock, ring) && clock <= now && InTimeOrder(accepted, clock)
    ensures RingOf(accepted, now, ring) && InTimeOrder(accepted, now)
  {
  }

  lemma RingAfterAccepting(accepted: seq<Message>, ring: seq<Message>, m: Message)
    requires RingOf(accepted, m.at, ring)
    requires forall i | 0 <= i < |ring| :: !SameIdentity(ring[i], m)
    ensures var grown := ring + [m];
            RingOf(accepted + [m], m.at, if |grown| > RECENT_MSG_CAP then grown[1..] else grown)
  {
    var all, grown := accepted + [m], ring + [m];
    var next := if |grown| > RECENT_MSG_CAP then grown[1..] else grown;
    assert DuplicateFree(grown);
    forall i | 0 <= i < |next| ensures next[i] == all[|all| - |next| + i] {
      var k := i + |grown| - |next|;
      assert next[i] == grown[k];
      assert k < |ring| ==> grown[k] == ring[k] == accepted[|accepted| - |ring| + k];
    }
    forall i | 0 <= i < |all| - |next| && |all| - i <= RECENT_MSG_CAP ensures Expired(all[i], m.at) {
      assert all[i] == accepted[i];
    }
  }

  // ---- The workflow timer ----

  /** A host response to the node: a prompt or anything else. */
  datatype Turn = Turn(prompt: Option<string>, at: nat)

  /** Where the run of equal responses that reaches up to `i` starts. */
  function RunStart(turns: seq<Turn>, i: nat): (k: nat)
    requires i < |turns|
    ensures k <= i && (forall j | k <= j <= i :: turns[j].prompt == turns[i].prompt)
    ensures k > 0 ==> turns[k - 1].prompt != turns[i].prompt
  {
    if i > 0 && turns[i - 1].prompt == turns[i].prompt then RunStart(turns, i - 1) else i
  }

  function CurrentPrompt(turns: seq<Turn>): Option<string> {
    if turns == [] then None else turns[|turns| - 1].prompt
  }

  /** Since when the current stage lasts: the time of the first of the identical prompts that
      make it up. */
  function StageSince(turns: seq<Turn>): Option<nat> {
    if CurrentPrompt(turns) == None then None else Some(turns[RunStart(turns, |turns| - 1)].at)
  }

  lemma NextStage(turns: seq<Turn>, t: Turn)
    ensures StageSince(turns + [t])
         == if t.prompt == None then None
            else if CurrentPrompt(turns) == t.prompt then StageSince(turns)
            else Some(t.at)
  {
    var next := turns + [t];
    if t.prompt != None && CurrentPrompt(turns) == t.prompt {
      var a, b := RunStart(turns, |turns| - 1), RunStart(next, |turns|);
      assert forall i | 0 <= i < |turns| :: next[i] == turns[i];
      assert a == b;
    }
  }

  // ---- The state ----

  datatype SessionEntry = SessionEntry(
    sessionId: SessionId, awaitingReply: bool, awaitingReplySince: Option<nat>, lastPromptText: Option<string>,
    recentMsgs: seq<Message>)

  /** What happened on a session since it was created. */
  datatype Past = Past(accepted: seq<Message>, turns: seq<Turn>)

  ghost predicate EntryOf(past: Past, clock: nat, e: SessionEntry) {
    && InTimeOrder(past.accepted, clock) && Spread(past.accepted)
    && RingOf(past.accepted, clock, e.recentMsgs)
    && e.lastPromptText == CurrentPrompt(past.turns)
    && e.awaitingReplySince == StageSince(past.turns)
    && (e.awaitingReply <==> CurrentPrompt(past.turns) != None)
  }

  ghost predicate Inverse(byPrefix: map<Prefix, SessionEntry>, bySession: map<SessionId, Prefix>) {
    forall p, s :: (p in byPrefix && byPrefix[p].sessionId == s) <==> (s in bySession && bySession[s] == p)
  }

  function Fresh(id: SessionId): SessionEntry {
    SessionEntry(id, false, None, None, [])
  }

  lemma FreshIsEmpty(id: SessionId, clock: nat) returns (x: Past)
    ensures |x.accepted| == |x.turns| == 0 && EntryOf(x, clock, Fresh(id))
  {
    x := Past([], []);
  }

  /** Registering a node keeps the maps inverse exactly when the id is not in use already. */
  lemma RegisteringKeepsInverse(byPrefix: map<Prefix, SessionEntry>, bySession: map<SessionId, Prefix>,
                                p: Prefix, id: SessionId)
    requires Inverse(byPrefix, bySession) && p !in byPrefix
    ensures Inverse(byPrefix[p := Fresh(id)], bySession[id := p]) <==> id !in bySession
  {
    if id in bySession {
      var q := bySession[id];
      var nodes, ids := byPrefix[p := Fresh(id)], bySession[id := p];
      assert q in byPrefix && byPrefix[q].sessionId == id;
      assert nodes[q].sessionId == id && ids[id] == p != q;
    }
  }

  ghost predicate EntriesOf(byPrefix: map<Prefix, SessionEntry>, past: map<Prefix, Past>, clock: nat) {
    past.Keys == byPrefix.Keys && forall p | p in byPrefix :: EntryOf(past[p], clock, byPrefix[p])
  }

  lemma SettingEntry(byPrefix: map<Prefix, SessionEntry>, past: map<Prefix, Past>, clock: nat, p: Prefix,
                     e: SessionEntry, x: Past)
    requires EntriesOf(byPrefix, past, clock) && EntryOf(x, clock, e)
    ensures EntriesOf(byPrefix[p := e], past[p := x], clock)
  {
  }

  lemma EntriesLater(byPrefix: map<Prefix, SessionEntry>, past: map<Prefix, Past>, clock: nat, now: nat)
    requires EntriesOf(byPrefix, past, clock) && clock <= now
    ensures EntriesOf(byPrefix, past, now)
  {
    forall p | p in byPrefix ensures EntryOf(past[p], now, byPrefix[p]) {
      RingLater(past[p].accepted, clock, now, byPrefix[p].recentMsgs);
    }
  }

  lemma UpdatingKeepsInverse(byPrefix: map<Prefix, SessionEntry>, bySession: map<SessionId, Prefix>, p: Prefix,
                             e: SessionEntry)
    requires Inverse(byPrefix, bySession) && p in byPrefix && e.sessionId == byPrefix[p].sessionId
    ensures Inverse(byPrefix[p := e], bySession)
  {
  }

  lemma RemovingKeepsInverse(byPrefix: map<Prefix, SessionEntry>, bySession: map<SessionId, Prefix>, p: Prefix)
    requires Inverse(byPrefix, bySession) && p in byPrefix
    ensures Inverse(byPrefix - {p}, bySession - {byPrefix[p].sessionId})
  {
  }

  /** The entry after a host response. */
  function Respond(e: SessionEntry, prompt: Option<string>, now: nat): SessionEntry {
    if prompt == None then e.(awaitingReply := false, awaitingReplySince := None, lastPromptText := None)
    else if e.lastPromptText == prompt then e.(awaitingReply := true)
    else e.(awaitingReply := true, awaitingReplySince := Some(now), lastPromptText := prompt)
  }

  lemma RespondKeepsEntry(past: Past, clock: nat, e: SessionEntry, prompt: Option<string>, now: nat)
    requires EntryOf(past, clock, e)
    ensures EntryOf(past.(turns := past.turns + [Turn(prompt, now)]), clock, Respond(e, prompt, now))
  {
    NextStage(past.turns, Turn(prompt, now));
  }

  lemma AcceptingKeepsEntry(past: Past, e: SessionEntry, ring: seq<Message>, m: Message)
    requires EntryOf(past, m.at, e) && RingOf(past.accepted, m.at, ring)
    requires !Repeats(past.accepted, m) && forall i | 0 <= i < |ring| :: !SameIdentity(ring[i], m)
    ensures var grown := ring + [m];
            EntryOf(past.(accepted := past.accepted + [m]), m.at,
                    e.(recentMsgs := if |grown| > RECENT_MSG_CAP then grown[1..] else grown))
  {
    RingAfterAccepting(past.accepted, ring, m);
    AcceptingKeepsSpread(past.accepted, m);
  }

  /** The tables of a session state: entries that match their past, and maps that are inverse. */
  ghost predicate Consistent(byPrefix: map<Prefix, SessionEntry>, bySession: map<SessionId, Prefix>,
                             past: map<Prefix, Past>, clock: nat) {
    EntriesOf(byPrefix, past, clock) && Inverse(byPrefix, bySession)
  }

  lemma SettingKeepsConsistent(byPrefix: map<Prefix, SessionEntry>, bySession: map<SessionId, Prefix>,
                               past: map<Prefix, Past>, clock: nat, p: Prefix, e: SessionEntry, x: Past)
    requires Consistent(byPrefix, bySession, past, clock) && p in byPrefix
    requires EntryOf(x, clock, e) && e.sessionId == byPrefix[p].sessionId
    ensures Consistent(byPrefix[p := e], bySession, past[p := x], clock)
  {
    SettingEntry(byPrefix, past, clock, p, e, x);
    UpdatingKeepsInverse(byPrefix, bySession, p, e);
  }

  lemma RespondingKeepsConsistent(byPrefix: map<Prefix, SessionEntry>, bySession: map<SessionId, Prefix>,
                                  past: map<Prefix, Past>, clock: nat, p: Prefix, prompt: Option<string>, now: nat)
    requires Consistent(byPrefix, bySession, past, clock) && p in byPrefix
    ensures Consistent(byPrefix[p := Respond(byPrefix[p], prompt, now)], bySession,
                       past[p := past[p].(turns := past[p].turns + [Turn(prompt, now)])], clock)
  {
    RespondKeepsEntry(past[p], clock, byPrefix[p], prompt, now);
    var x := past[p].(turns := past[p].turns + [Turn(prompt, now)]);
    SettingKeepsConsistent(byPrefix, bySession, past, clock, p, Respond(byPrefix[p], prompt, now), x);
  }

  lemma RemovingKeepsConsistent(byPrefix: map<Prefix, SessionEntry>, bySession: map<SessionId, Prefix>,
                                past: map<Prefix, Past>, clock: nat, p: Prefix)
    requires Consistent(byPrefix, bySession, past, clock) && p in byPrefix
    ensures Consistent(byPrefix - {p}, bySession - {byPrefix[p].sessionId}, past - {p}, clock)
  {
    RemovingKeepsInverse(byPrefix, bySession, p);
  }

  class SessionState {
    var byPrefix: map<Prefix, SessionEntry>
    var bySession: map<SessionId, Prefix>
    var pendingProtect: map<Prefix, nat>

    ghost var past: map<Prefix, Past>
    ghost var clock: nat

    ghost predicate EntriesValid()
      reads this
    {
      EntriesOf(byPrefix, past, clock)
    }

    ghost predicate Valid()
      reads this
    {
      Consistent(byPrefix, bySession, past, clock)
    }

    constructor()
      ensures Valid() && byPrefix == map[]
    {
      byPrefix, bySession, pendingProtect := map[], map[], map[];
      past, clock := map[], 0;
    }

    /** The node's session, registered under `newId` if it has none. */
    method GetOrInsert(prefix: Prefix, newId: SessionId) returns (id: SessionId, isNew: bool)
      requires Valid()
      modifies this`byPrefix, this`bySession, this`past
      ensures EntriesValid()
      ensures Inverse(byPrefix, bySession) <==> prefix in old(byPrefix) || newId !in old(bySession)
      ensures isNew <==> prefix !in old(byPrefix)
      ensures prefix in byPrefix && byPrefix[prefix].sessionId == id
      ensures byPrefix == if isNew then old(byPrefix)[prefix := Fresh(newId)] else old(byPrefix)
      ensures bySession == if isNew then old(bySession)[newId := prefix] else old(bySession)
      ensures past == if isNew then old(past)[prefix := past[prefix]] else old(past)
      ensures isNew ==> |past[prefix].accepted| == |past[prefix].turns| == 0
    {
      if prefix in byPrefix {
        return byPrefix[prefix].sessionId, false;
      }
      RegisteringKeepsInverse(byPrefix, bySession, prefix, newId);
      var entry := Fresh(newId);
      ghost var x := FreshIsEmpty(newId, clock);
      SettingEntry(byPrefix, past, clock, prefix, entry, x);
      byPrefix := byPrefix[prefix := entry];
      past := past[prefix := x];
      bySession := bySession[newId := prefix];
      id, isNew := newId, true;
    }

    method RemoveByPrefix(prefix: Prefix) returns (id: Option<SessionId>)
      requires Valid()
      modifies this`byPrefix, this`bySession, this`pendingProtect, this`past
      ensures Valid()
      ensures id == if prefix in old(byPrefix) then Some(old(byPrefix)[prefix].sessionId) else None
      ensures byPrefix == if id.Some? then old(byPrefix) - {prefix} else old(byPrefix)
      ensures past == if id.Some? then old(past) - {prefix} else old(past)
      ensures bySession == if id.Some? then old(bySession) - {id.value} else old(bySession)
      ensures pendingProtect == old(pendingProtect) - {prefix}
    {
      pendingProtect := pendingProtect - {prefix};
      if prefix in byPrefix {
        var entry := byPrefix[prefix];
        RemovingKeepsConsistent(byPrefix, bySession, past, clock, prefix);
        byPrefix := byPrefix - {prefix};
        bySession := bySession - {entry.sessionId};
        past := past - {prefix};
        id := Some(entry.sessionId);
      } else {
        id := None;
      }
    }

    /** Note a host response; the stamp moves only with a prompt that differs from the last. */
    method UpdateAwaitingReply(prefix: Prefix, prompt: Option<string>, now: nat)
      requires Valid()
      modifies this`byPrefix, this`past
      ensures Valid()
      ensures past == if prefix !in old(byPrefix) then old(past)
                      else
                        var was := old(past)[prefix];
                        old(past)[prefix := was.(turns := was.turns + [Turn(prompt, now)])]
      ensures byPrefix == if prefix !in old(byPrefix) then old(byPrefix)
                          else old(byPrefix)[prefix := Respond(old(byPrefix)[prefix], prompt, now)]
    {
      if prefix !in byPrefix { return; }
      RespondingKeepsConsistent(byPrefix, bySession, past, clock, prefix, prompt, now);
      var entry := UpdateEntry(byPrefix[prefix], prompt, now);
      byPrefix := byPrefix[prefix := entry];
      past := past[prefix := past[prefix].(turns := past[prefix].turns + [Turn(prompt, now)])];
    }

    static method UpdateEntry(was: SessionEntry, prompt: Option<string>, now: nat) returns (entry: SessionEntry)
      ensures entry == Respond(was, prompt, now)
    {
      entry := was;
      if prompt.Some? {
        entry := entry.(awaitingReply := true);
        if entry.lastPromptText != prompt {
          entry := entry.(awaitingReplySince := Some(now), lastPromptText := prompt);
        }
      } else {
        entry := entry.(awaitingReply := false, awaitingReplySince := None, lastPromptText := None);
      }
    }

    /** Whether the node's current workflow stage has lasted the timeout. */
    method AwaitingReplyExpired(prefix: Prefix, timeout: nat, now: nat) returns (expired: bool)
      requires Valid()
      ensures expired <==>
        && prefix in past && CurrentPrompt(past[prefix].turns) != None
        && (timeout == 0 || now - StageSince(past[prefix].turns).value >= timeout)
    {
      expired := prefix in byPrefix && byPrefix[prefix].awaitingReplySince.Some?
        && Elapsed(now, byPrefix[prefix].awaitingReplySince.value) >= timeout;
    }

    /** Whether to drop an inbound message as a retransmission; if not, it is remembered. */
    method DedupByTimestampAt(prefix: Prefix, timestamp: nat, text: string, now: nat) returns (drop: bool)
      requires Valid() && clock <= now
      modifies this`byPrefix, this`past, this`clock
      ensures Valid() && clock == now
      ensures timestamp == 0 || prefix !in old(byPrefix) ==> !drop && past == old(past) && byPrefix == old(byPrefix)
      ensures prefix in old(byPrefix) ==> prefix in byPrefix && byPrefix == old(byPrefix)[prefix := byPrefix[prefix]]
      ensures timestamp != 0 && prefix in old(byPrefix) ==>
        var m := Message(timestamp, text, now);
        var was := old(past)[prefix];
        && (drop <==> Repeats(was.accepted, m))
        && (drop <==> exists i :: 0 <= i < |was.accepted| && |was.accepted| - i <= 16
                                  && was.accepted[i].timestamp == timestamp && was.accepted[i].text == text
                                  && now - was.accepted[i].at < 120)
        && past == old(past)[prefix := if drop then was else was.(accepted := was.accepted + [m])]
    {
      EntriesLater(byPrefix, past, clock, now);
      clock := now;
      if timestamp == 0 || prefix !in byPrefix { return false; }
      var entry;
      ghost var x;
      drop, entry, x := SearchRing(past[prefix], byPrefix[prefix], Message(timestamp, text, now));
      SettingKeepsConsistent(byPrefix, bySession, past, now, prefix, entry, x);
      byPrefix := byPrefix[prefix := entry];
      past := past[prefix := x];
    }

    /** The node's part of the dedup: evict, search, and remember what is new. */
    static method SearchRing(ghost was: Past, entry: SessionEntry, m: Message)
      returns (drop: bool, e: SessionEntry, ghost x: Past)
      requires EntryOf(was, m.at, entry)
      ensures drop <==> Repeats(was.accepted, m)
      ensures drop <==> exists i :: 0 <= i < |was.accepted| && |was.accepted| - i <= 16
                                    && was.accepted[i].timestamp == m.timestamp && was.accepted[i].text == m.text
                                    && m.at - was.accepted[i].at < 120
      ensures x == if drop then was else was.(accepted := was.accepted + [m])
      ensures EntryOf(x, m.at, e) && e.sessionId == entry.sessionId
    {
      var ring := EvictExpired(was.accepted, entry.recentMsgs, m.at);
      RingDecides(was.accepted, ring, m);
      RepeatsMeans(was.accepted, m);
      drop := exists i :: 0 <= i < |ring| && SameIdentity(ring[i], m);
      x := was;
      if !drop {
        AcceptingKeepsEntry(was, entry, ring, m);
        ring := ring + [m];
        if |ring| > RECENT_MSG_CAP { ring := ring[1..]; }
        x := x.(accepted := x.accepted + [m]);
      }
      e := entry.(recentMsgs := ring);
    }

    /** Pop identities off the front while they are older than the window. */
    static method EvictExpired(ghost accepted: seq<Message>, recent: seq<Message>,
                               now: nat) returns (ring: seq<Message>)
      requires RingOf(accepted, now, recent) && InTimeOrder(accepted, now)
      ensures RingOf(accepted, now, ring)
      ensures forall i | 0 <= i < |ring| :: !Expired(ring[i], now)
    {
      ring := recent;
      while ring != [] && Expired(ring[0], now)
        invariant RingOf(accepted, now, ring)
        decreases |ring|
      {
        RingAfterEviction(accepted, now, ring);
        ring := ring[1..];
      }
    }

    /** Mark a sender as pending, sweeping the marks older than a day. */
    method MarkPendingProtectAt(prefix: Prefix, now: nat)
      modifies this`pendingProtect
      ensures forall p :: p in pendingProtect <==>
        p == prefix || (p in old(pendingProtect) && now - old(pendingProtect)[p] < 86_400)
      ensures forall p | p in pendingProtect :: pendingProtect[p] == if p == prefix then now else old(pendingProtect)[p]
    {
      pendingProtect :=
        map p | p in pendingProtect && Elapsed(now, pendingProtect[p]) < PENDING_PROTECT_TTL_SECS :: pendingProtect[p];
      pendingProtect := pendingProtect[prefix := now];
    }
  }
}
