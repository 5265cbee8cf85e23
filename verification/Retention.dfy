/** Which automatic backups survive pruning.

  Backups are listed, sorted newest first, and walked once: the first backup of each new
  calendar date is kept while fewer than `keepDaily` dates have been seen, and the first of
  each new ISO week while fewer than `keepWeekly` weeks have been seen.  Pruning runs after
  every backup, on whatever the previous pruning left behind, so what matters is that this
  incremental use agrees with pruning the whole history at once.
*/
module Retention {
  import opened TextOrder

  /** `createdAt` is the RFC 3339 text of the file's modification time. */
  datatype Backup = Backup(createdAt: string, filename: string)

  /** `week` is the calendar: the ISO 8601 week key of a date text, "" if it is not a date. */
  datatype Policy = Policy(keepDaily: nat, keepWeekly: nat, week: string -> string)

  /** The date and week keys the walk has inserted so far. */
  datatype Seen = Seen(days: set<string>, weeks: set<string>)

  const NOTHING_SEEN := Seen({}, {})

  function DateKey(b: Backup): string {
    if |b.createdAt| >= 10 then b.createdAt[..10] else ""
  }

  function WeekKey(p: Policy, b: Backup): string {
    if DateKey(b) == "" then "" else p.week(DateKey(b))
  }

  predicate IsNew(key: string, budget: nat, seen: set<string>) {
    key != "" && |seen| < budget && key !in seen
  }

  function Note(key: string, budget: nat, seen: set<string>): set<string> {
    if IsNew(key, budget, seen) then seen + {key} else seen
  }

  function Next(p: Policy, b: Backup, seen: Seen): Seen {
    Seen(Note(DateKey(b), p.keepDaily, seen.days), Note(WeekKey(p, b), p.keepWeekly, seen.weeks))
  }

  predicate Keeps(p: Policy, b: Backup, seen: Seen) {
    IsNew(DateKey(b), p.keepDaily, seen.days) || IsNew(WeekKey(p, b), p.keepWeekly, seen.weeks)
  }

  /** The backups of `s` (newest first) that a walk starting from `seen` keeps, in order. */
  function Kept(p: Policy, s: seq<Backup>, seen: Seen): seq<Backup> {
    if s == [] then []
    else (if Keeps(p, s[0], seen) then [s[0]] else []) + Kept(p, s[1..], Next(p, s[0], seen))
  }

  function SeenAfter(p: Policy, s: seq<Backup>, seen: Seen): Seen {
    if s == [] then seen else SeenAfter(p, s[1..], Next(p, s[0], seen))
  }

  function Names(s: seq<Backup>): set<string> {
    set b | b in s :: b.filename
  }

  /** What is left of a listing when only the members of `survivors` remain. */
  function Restrict(s: seq<Backup>, survivors: set<Backup>): seq<Backup> {
    if s == [] then []
    else (if s[0] in survivors then [s[0]] else []) + Restrict(s[1..], survivors)
  }

  // ---- Newest first ----

  predicate NewestFirst(s: seq<Backup>) {
    forall i, j | 0 <= i < j < |s| :: Le(s[j].createdAt, s[i].createdAt)
  }

  /** The stable descending sort: a backup goes in front of the ones that are not newer. */
  function Insert(b: Backup, s: seq<Backup>): seq<Backup> {
    if s == [] || Le(s[0].createdAt, b.createdAt) then [b] + s
    else [s[0]] + Insert(b, s[1..])
  }

  function Sorted(s: seq<Backup>): seq<Backup> {
    if s == [] then [] else Insert(s[0], Sorted(s[1..]))
  }

  lemma {:induction false} InsertKeepsOrder(b: Backup, s: seq<Backup>)
    requires NewestFirst(s)
    ensures NewestFirst(Insert(b, s)) && multiset(Insert(b, s)) == multiset(s) + multiset{b}
  {
    if s == [] {
    } else if Le(s[0].createdAt, b.createdAt) {
      forall j | 0 <= j < |s| ensures Le(s[j].createdAt, b.createdAt) {
        if j > 0 { LeTransitive(s[j].createdAt, s[0].createdAt, b.createdAt); }
      }
    } else {
      LeTotal(b.createdAt, s[0].createdAt);
      InsertKeepsOrder(b, s[1..]);
      var t := Insert(b, s[1..]);
      assert s == [s[0]] + s[1..];
      forall j | 0 <= j < |t| ensures Le(t[j].createdAt, s[0].createdAt) {
        assert t[j] in multiset(t);
        assert t[j] == b || t[j] in s[1..];
      }
    }
  }

  /** The sort returns the listing's own backups, newest first. */
  lemma {:induction false} SortSorts(s: seq<Backup>)
    ensures NewestFirst(Sorted(s)) && multiset(Sorted(s)) == multiset(s)
  {
    if s != [] {
      SortSorts(s[1..]);
      InsertKeepsOrder(s[0], Sorted(s[1..]));
      assert s == [s[0]] + s[1..];
    }
  }

  /** The backups of one time, in the order of the listing. */
  function OfTime(s: seq<Backup>, time: string): seq<Backup> {
    if s == [] then [] else (if s[0].createdAt == time then [s[0]] else []) + OfTime(s[1..], time)
  }

  lemma {:induction false} InsertIsStable(b: Backup, s: seq<Backup>, time: string)
    ensures OfTime(Insert(b, s), time) == (if b.createdAt == time then [b] else []) + OfTime(s, time)
  {
    if s == [] || Le(s[0].createdAt, b.createdAt) {
      assert ([b] + s)[1..] == s;
    } else {
      LeTotal(b.createdAt, b.createdAt);
      InsertIsStable(b, s[1..], time);
      var rest := Insert(b, s[1..]);
      assert ([s[0]] + rest)[1..] == rest;
    }
  }

  /** Backups of one time stay in the order in which they were listed. */
  lemma {:induction false} SortIsStable(s: seq<Backup>, time: string)
    ensures OfTime(Sorted(s), time) == OfTime(s, time)
  {
    if s != [] {
      SortIsStable(s[1..], time);
      InsertIsStable(s[0], Sorted(s[1..]), time);
    }
  }

  predicate DistinctTimes(s: seq<Backup>) {
    forall x, y | x in s && y in s && x.createdAt == y.createdAt :: x == y
  }

  lemma NewestIsFirst(s: seq<Backup>, t: seq<Backup>)
    requires NewestFirst(s) && NewestFirst(t) && multiset(s) == multiset(t) && DistinctTimes(s) && s != []
    ensures t != [] && s[0] == t[0]
  {
    assert s[0] in multiset(t);
    var i :| 0 <= i < |t| && t[i] == s[0];
    assert t[0] in multiset(s);
    var j :| 0 <= j < |s| && s[j] == t[0];
    if i > 0 && j > 0 { LeAntisymmetric(s[0].createdAt, t[0].createdAt); }
  }

  lemma TailOf(s: seq<Backup>)
    requires s != []
    ensures s == [s[0]] + s[1..] && multiset(s[1..]) == multiset(s) - multiset{s[0]}
    ensures forall x | x in s[1..] :: x in s
  {
    assert s == [s[0]] + s[1..];
  }

  lemma {:induction false} OrderIsUnique(s: seq<Backup>, t: seq<Backup>)
    requires NewestFirst(s) && NewestFirst(t) && multiset(s) == multiset(t) && DistinctTimes(s)
    ensures s == t
  {
    if s == [] {
      assert |multiset(t)| == 0;
    } else {
      NewestIsFirst(s, t);
      TailOf(s);
      TailOf(t);
      OrderIsUnique(s[1..], t[1..]);
    }
  }

  /** The order in which the directory happens to list backups of distinct times is immaterial. */
  lemma ListingOrderIsImmaterial(s: seq<Backup>, t: seq<Backup>)
    requires multiset(s) == multiset(t) && DistinctTimes(s)
    ensures Sorted(s) == Sorted(t)
  {
    SortSorts(s);
    SortSorts(t);
    forall x | x in Sorted(s) ensures x in s {
      assert x in multiset(Sorted(s));
    }
    OrderIsUnique(Sorted(s), Sorted(t));
  }

  // ---- What exactly is kept ----

  function Dates(s: seq<Backup>): set<string> {
    set b | b in s && DateKey(b) != "" :: DateKey(b)
  }

  function Weeks(p: Policy, s: seq<Backup>): set<string> {
    set b | b in s && WeekKey(p, b) != "" :: WeekKey(p, b)
  }

  /** What a budgeted set holds once every key of `all` has been offered to it. */
  predicate Budgeted(seen: set<string>, all: set<string>, budget: nat) {
    seen <= all && (if |all| <= budget then seen == all else |seen| == budget)
  }

  lemma SubsetSize<T>(a: set<T>, b: set<T>)
    requires a <= b
    ensures |a| <= |b| && (|a| == |b| ==> a == b)
  {
    assert b == a + (b - a);
  }

  lemma NoteKeepsBudget(key: string, budget: nat, seen: set<string>, all: set<string>)
    requires Budgeted(seen, all, budget)
    ensures Budgeted(Note(key, budget, seen), if key == "" then all else all + {key}, budget)
    ensures IsNew(key, budget, seen) <==> key != "" && key !in all && |all| < budget
  {
    SubsetSize(seen, all);
    if key in all {
      assert all + {key} == all;
    } else {
      assert |all + {key}| == |all| + 1;
    }
  }

  lemma {:induction false} SeenAppend(p: Policy, s: seq<Backup>, b: Backup, seen: Seen)
    ensures SeenAfter(p, s + [b], seen) == Next(p, b, SeenAfter(p, s, seen))
    ensures Kept(p, s + [b], seen)
         == Kept(p, s, seen) + (if Keeps(p, b, SeenAfter(p, s, seen)) then [b] else [])
  {
    if s == [] {
      assert s + [b] == [b] && [b][1..] == [];
    } else {
      assert (s + [b])[1..] == s[1..] + [b] && (s + [b])[0] == s[0];
      SeenAppend(p, s[1..], b, Next(p, s[0], seen));
    }
  }

  lemma KeysAppend(p: Policy, s: seq<Backup>, b: Backup)
    ensures Dates(s + [b]) == if DateKey(b) == "" then Dates(s) else Dates(s) + {DateKey(b)}
    ensures Weeks(p, s + [b]) == if WeekKey(p, b) == "" then Weeks(p, s) else Weeks(p, s) + {WeekKey(p, b)}
  {
    assert forall x :: x in s + [b] <==> x in s || x == b;
    assert forall d :: d in Dates(s + [b]) <==> d in Dates(s) || (DateKey(b) == d && d != "");
    assert forall w :: w in Weeks(p, s + [b]) <==> w in Weeks(p, s) || (WeekKey(p, b) == w && w != "");
  }

  lemma {:induction false} SeenIsBudgeted(p: Policy, s: seq<Backup>)
    ensures Budgeted(SeenAfter(p, s, NOTHING_SEEN).days, Dates(s), p.keepDaily)
    ensures Budgeted(SeenAfter(p, s, NOTHING_SEEN).weeks, Weeks(p, s), p.keepWeekly)
  {
    if s != [] {
      var t, b := s[..|s| - 1], s[|s| - 1];
      assert s == t + [b];
      SeenIsBudgeted(p, t);
      SeenAppend(p, t, b, NOTHING_SEEN);
      KeysAppend(p, t, b);
      NoteKeepsBudget(DateKey(b), p.keepDaily, SeenAfter(p, t, NOTHING_SEEN).days, Dates(t));
      NoteKeepsBudget(WeekKey(p, b), p.keepWeekly, SeenAfter(p, t, NOTHING_SEEN).weeks, Weeks(p, t));
    }
  }

  /** The promise for one position of the sorted list, with no walk in it: the newest backup of
      its date with fewer than `keepDaily` distinct dates before it, or the same for weeks. */
  predicate Earns(p: Policy, s: seq<Backup>, i: nat)
    requires i < |s|
  {
    || (DateKey(s[i]) != "" && DateKey(s[i]) !in Dates(s[..i]) && |Dates(s[..i])| < p.keepDaily)
    || (WeekKey(p, s[i]) != "" && WeekKey(p, s[i]) !in Weeks(p, s[..i]) && |Weeks(p, s[..i])| < p.keepWeekly)
  }

  lemma EarnsLast(p: Policy, s: seq<Backup>, b: Backup)
    ensures Keeps(p, b, SeenAfter(p, s, NOTHING_SEEN)) <==> Earns(p, s + [b], |s|)
    ensures forall i: nat | i < |s| :: Earns(p, s + [b], i) <==> Earns(p, s, i)
  {
    SeenIsBudgeted(p, s);
    NoteKeepsBudget(DateKey(b), p.keepDaily, SeenAfter(p, s, NOTHING_SEEN).days, Dates(s));
    NoteKeepsBudget(WeekKey(p, b), p.keepWeekly, SeenAfter(p, s, NOTHING_SEEN).weeks, Weeks(p, s));
    assert (s + [b])[..|s|] == s;
    forall i: nat | i < |s| ensures Earns(p, s + [b], i) <==> Earns(p, s, i) {
      assert (s + [b])[..i] == s[..i];
    }
  }

  predicate EarnedBy(p: Policy, s: seq<Backup>, b: Backup) {
    exists i: nat :: i < |s| && s[i] == b && Earns(p, s, i)
  }

  /** A backup is kept exactly when some position of it earns its place. */
  lemma {:induction false} KeptExactly(p: Policy, s: seq<Backup>, b: Backup)
    ensures b in Kept(p, s, NOTHING_SEEN) <==> EarnedBy(p, s, b)
  {
    if s != [] {
      var t, last := s[..|s| - 1], s[|s| - 1];
      assert s == t + [last];
      KeptExactly(p, t, b);
      SeenAppend(p, t, last, NOTHING_SEEN);
      EarnsLast(p, t, last);
      if EarnedBy(p, t, b) {
        var i: nat :| i < |t| && t[i] == b && Earns(p, t, i);
        assert s[i] == b && Earns(p, s, i);
      }
      if EarnedBy(p, s, b) {
        var i: nat :| i < |s| && s[i] == b && Earns(p, s, i);
        if i < |t| { assert t[i] == b && Earns(p, t, i); }
      }
    }
  }

  /** At most `keepDaily + keepWeekly` backups survive. */
  lemma {:induction false} KeptIsBounded(p: Policy, s: seq<Backup>, seen: Seen)
    requires |seen.days| <= p.keepDaily && |seen.weeks| <= p.keepWeekly
    ensures |Kept(p, s, seen)| + |seen.days| + |seen.weeks| <= p.keepDaily + p.keepWeekly
  {
    if s != [] { KeptIsBounded(p, s[1..], Next(p, s[0], seen)); }
  }

  lemma {:induction false} FirstOfDate(s: seq<Backup>, d: string) returns (i: nat)
    requires d in Dates(s)
    ensures i < |s| && DateKey(s[i]) == d && d !in Dates(s[..i])
  {
    if d in Dates(s[..|s| - 1]) {
      i := FirstOfDate(s[..|s| - 1], d);
      assert s[..|s| - 1][..i] == s[..i];
    } else {
      i := |s| - 1;
      var b :| b in s && DateKey(b) == d;
      assert s == s[..i] + [s[i]];
    }
  }

  /** The dates of `s` later than `d`. */
  function Later(s: seq<Backup>, d: string): set<string> {
    set e | e in Dates(s) && e != d && Le(d, e)
  }

  lemma EarlierInListIsLater(s: seq<Backup>, i: nat)
    requires NewestFirst(s) && i < |s| && DateKey(s[i]) != "" && DateKey(s[i]) !in Dates(s[..i])
    ensures Dates(s[..i]) <= Later(s, DateKey(s[i]))
  {
    forall e | e in Dates(s[..i]) ensures e in Later(s, DateKey(s[i])) {
      var b :| b in s[..i] && DateKey(b) == e;
      var j :| 0 <= j < i && s[..i][j] == b;
      assert s[j] == b;
      LePrefix(s[i].createdAt, b.createdAt, 10);
    }
  }

  /** Coverage by the calendar: of every date with fewer than `keepDaily` later dates in the
      listing, the newest backup is kept. */
  lemma NewestDatesAreCovered(p: Policy, s: seq<Backup>, d: string) returns (i: nat)
    requires NewestFirst(s) && d in Dates(s) && |Later(s, d)| < p.keepDaily
    ensures i < |s| && DateKey(s[i]) == d && s[i] in Kept(p, s, NOTHING_SEEN)
    ensures forall j | 0 <= j < i :: DateKey(s[j]) != d
  {
    i := FirstOfDate(s, d);
    EarlierInListIsLater(s, i);
    SubsetSize(Dates(s[..i]), Later(s, d));
    assert Earns(p, s, i);
    KeptExactly(p, s, s[i]);
    forall j | 0 <= j < i ensures DateKey(s[j]) != d {
      assert s[..i][j] == s[j];
    }
  }

  /** The calendar of `p` never gives a later date of the listing an earlier week. */
  predicate WeeksFollowDates(p: Policy, s: seq<Backup>) {
    forall x, y | x in s && y in s && WeekKey(p, x) != "" && WeekKey(p, y) != "" && Le(DateKey(x), DateKey(y))
      :: Le(WeekKey(p, x), WeekKey(p, y))
  }

  function LaterWeeks(p: Policy, s: seq<Backup>, w: string): set<string> {
    set e | e in Weeks(p, s) && e != w && Le(w, e)
  }

  lemma {:induction false} FirstOfWeek(p: Policy, s: seq<Backup>, w: string) returns (i: nat)
    requires w in Weeks(p, s)
    ensures i < |s| && WeekKey(p, s[i]) == w && w !in Weeks(p, s[..i])
  {
    if w in Weeks(p, s[..|s| - 1]) {
      i := FirstOfWeek(p, s[..|s| - 1], w);
      assert s[..|s| - 1][..i] == s[..i];
    } else {
      i := |s| - 1;
      var b :| b in s && WeekKey(p, b) == w;
      assert s == s[..i] + [s[i]];
    }
  }

  lemma EarlierIsNoEarlierWeek(p: Policy, s: seq<Backup>, j: nat, i: nat)
    requires NewestFirst(s) && WeeksFollowDates(p, s) && j < i < |s|
    requires WeekKey(p, s[j]) != "" && WeekKey(p, s[i]) != ""
    ensures Le(WeekKey(p, s[i]), WeekKey(p, s[j]))
  {
    LePrefix(s[i].createdAt, s[j].createdAt, 10);
    assert s[i] in s && s[j] in s;
  }

  lemma EarlierInListIsLaterWeek(p: Policy, s: seq<Backup>, i: nat)
    requires NewestFirst(s) && WeeksFollowDates(p, s)
    requires i < |s| && WeekKey(p, s[i]) != "" && WeekKey(p, s[i]) !in Weeks(p, s[..i])
    ensures Weeks(p, s[..i]) <= LaterWeeks(p, s, WeekKey(p, s[i]))
  {
    var w := WeekKey(p, s[i]);
    forall e | e in Weeks(p, s[..i]) ensures e in LaterWeeks(p, s, w) {
      var b :| b in s[..i] && WeekKey(p, b) == e;
      var j :| 0 <= j < i && s[..i][j] == b;
      assert s[j] == b && b in s;
      EarlierIsNoEarlierWeek(p, s, j, i);
    }
  }

  /** The same for weeks: of every ISO week with fewer than `keepWeekly` later weeks in the
      listing, the newest backup is kept. */
  lemma NewestWeeksAreCovered(p: Policy, s: seq<Backup>, w: string) returns (i: nat)
    requires NewestFirst(s) && WeeksFollowDates(p, s)
    requires w in Weeks(p, s) && |LaterWeeks(p, s, w)| < p.keepWeekly
    ensures i < |s| && WeekKey(p, s[i]) == w && s[i] in Kept(p, s, NOTHING_SEEN)
    ensures forall j | 0 <= j < i :: WeekKey(p, s[j]) != w
  {
    i := FirstOfWeek(p, s, w);
    EarlierInListIsLaterWeek(p, s, i);
    SubsetSize(Weeks(p, s[..i]), LaterWeeks(p, s, w));
    assert Earns(p, s, i);
    KeptExactly(p, s, s[i]);
    forall j | 0 <= j < i ensures WeekKey(p, s[j]) != w {
      assert s[..i][j] == s[j];
    }
  }

  /** What the first ten characters of the timestamps of `s` are. */
  function FirstTens(s: seq<Backup>): set<string> {
    set x | x in s && |x.createdAt| >= 10 :: x.createdAt[..10]
  }

  /** By days alone: of a list without repetition exactly those backups are kept that are the first
      with their first ten characters, fewer than `keepDaily` others of which come before. */
  lemma KeptByDays(p: Policy, s: seq<Backup>, i: nat)
    requires i < |s| && p.keepWeekly == 0 && forall j, k | 0 <= j < k < |s| :: s[j] != s[k]
    ensures s[i] in Kept(p, s, NOTHING_SEEN) <==>
            && |s[i].createdAt| >= 10 && |FirstTens(s[..i])| < p.keepDaily
            && forall j | 0 <= j < i && |s[j].createdAt| >= 10 :: s[j].createdAt[..10] != s[i].createdAt[..10]
  {
    KeptExactly(p, s, s[i]);
    DatesAreFirstTens(s[..i]);
    if EarnedBy(p, s, s[i]) {
      var k: nat :| k < |s| && s[k] == s[i] && Earns(p, s, k);
    }
    forall j | 0 <= j < i && |s[j].createdAt| >= 10 ensures s[j].createdAt[..10] in FirstTens(s[..i]) {
      assert s[..i][j] == s[j];
    }
    if |s[i].createdAt| >= 10 && s[i].createdAt[..10] in FirstTens(s[..i]) {
      var x :| x in s[..i] && |x.createdAt| >= 10 && x.createdAt[..10] == s[i].createdAt[..10];
      var j :| 0 <= j < i && s[..i][j] == x;
      assert s[j] == x;
    }
  }

  lemma DatesAreFirstTens(s: seq<Backup>)
    ensures Dates(s) == FirstTens(s)
  {
    forall x | x in s && |x.createdAt| >= 10 ensures DateKey(x) == x.createdAt[..10] != "" {
      assert |x.createdAt[..10]| == 10;
    }
    forall d ensures d in Dates(s) <==> d in FirstTens(s) {
      if d in Dates(s) {
        var x :| x in s && DateKey(x) != "" && DateKey(x) == d;
        assert |x.createdAt| >= 10;
      }
      if d in FirstTens(s) {
        var x :| x in s && |x.createdAt| >= 10 && x.createdAt[..10] == d;
        assert DateKey(x) == d;
      }
    }
  }

  /** The weeks that the calendar gives for the first ten characters of the timestamps. */
  function FirstTensWeeks(p: Policy, s: seq<Backup>): set<string> {
    set x | x in s && |x.createdAt| >= 10 && p.week(x.createdAt[..10]) != "" :: p.week(x.createdAt[..10])
  }

  /** By weeks alone, the same with the week of the first ten characters, if they are a date. */
  lemma KeptByWeeks(p: Policy, s: seq<Backup>, i: nat)
    requires i < |s| && p.keepDaily == 0 && forall j, k | 0 <= j < k < |s| :: s[j] != s[k]
    ensures s[i] in Kept(p, s, NOTHING_SEEN) <==>
            && |s[i].createdAt| >= 10 && p.week(s[i].createdAt[..10]) != ""
            && |FirstTensWeeks(p, s[..i])| < p.keepWeekly
            && p.week(s[i].createdAt[..10]) !in FirstTensWeeks(p, s[..i])
  {
    KeptExactly(p, s, s[i]);
    WeeksAreFirstTens(p, s[..i]);
    if EarnedBy(p, s, s[i]) {
      var k: nat :| k < |s| && s[k] == s[i] && Earns(p, s, k);
    }
    WeekIsOfFirstTen(p, s[i]);
  }

  lemma WeekIsOfFirstTen(p: Policy, x: Backup)
    ensures WeekKey(p, x) == if |x.createdAt| >= 10 then p.week(x.createdAt[..10]) else ""
  {
    if |x.createdAt| >= 10 { assert |x.createdAt[..10]| == 10; }
  }

  lemma WeeksAreFirstTens(p: Policy, s: seq<Backup>)
    ensures Weeks(p, s) == FirstTensWeeks(p, s)
  {
    forall x ensures WeekKey(p, x) == if |x.createdAt| >= 10 then p.week(x.createdAt[..10]) else "" {
      WeekIsOfFirstTen(p, x);
    }
    forall w ensures w in Weeks(p, s) <==> w in FirstTensWeeks(p, s) {
      if w in Weeks(p, s) {
        var x :| x in s && WeekKey(p, x) != "" && WeekKey(p, x) == w;
      }
      if w in FirstTensWeeks(p, s) {
        var x :| x in s && |x.createdAt| >= 10 && p.week(x.createdAt[..10]) != "" && p.week(x.createdAt[..10]) == w;
        assert WeekKey(p, x) == w;
      }
    }
  }

  // ---- Pruning what an earlier pruning left ----

  /** `b` stands for a walk that has seen at least what the walk of `a` has, or is full. */
  predicate Ahead(a: set<string>, b: set<string>, budget: nat) {
    a <= b || |b| >= budget
  }

  lemma AheadStays(key: string, budget: nat, a: set<string>, b: set<string>)
    requires Ahead(a, b, budget)
    ensures IsNew(key, budget, b) ==> IsNew(key, budget, a)
    ensures Ahead(Note(key, budget, a), Note(key, budget, b), budget)
  {
    if a <= b { SubsetSize(a, b); }
  }

  /** Newer backups can only push older ones out, never bring one back. */
  lemma {:induction false} KeptShrinks(p: Policy, s: seq<Backup>, a: Seen, b: Seen)
    requires Ahead(a.days, b.days, p.keepDaily) && Ahead(a.weeks, b.weeks, p.keepWeekly)
    ensures forall x | x in Kept(p, s, b) :: x in Kept(p, s, a)
  {
    if s != [] {
      AheadStays(DateKey(s[0]), p.keepDaily, a.days, b.days);
      AheadStays(WeekKey(p, s[0]), p.keepWeekly, a.weeks, b.weeks);
      KeptShrinks(p, s[1..], Next(p, s[0], a), Next(p, s[0], b));
    }
  }

  /** Dropping any backups that are not kept changes nothing about what is kept. */
  lemma {:induction false} DroppingTheRestIsHarmless(p: Policy, s: seq<Backup>, survivors: set<Backup>, seen: Seen)
    requires forall x | x in Kept(p, s, seen) :: x in survivors
    ensures Kept(p, Restrict(s, survivors), seen) == Kept(p, s, seen)
  {
    if s != [] {
      var rest := Kept(p, s[1..], Next(p, s[0], seen));
      assert forall x | x in rest :: x in Kept(p, s, seen);
      if Keeps(p, s[0], seen) { assert s[0] in Kept(p, s, seen); }
      DroppingTheRestIsHarmless(p, s[1..], survivors, Next(p, s[0], seen));
      if s[0] in survivors {
        var r := Restrict(s, survivors);
        assert r[0] == s[0] && r[1..] == Restrict(s[1..], survivors);
      } else {
        assert Next(p, s[0], seen) == seen;
        assert Restrict(s, survivors) == Restrict(s[1..], survivors);
      }
    }
  }

  lemma {:induction false} RestrictMembers(s: seq<Backup>, survivors: set<Backup>, x: Backup)
    ensures x in Restrict(s, survivors) <==> x in s && x in survivors
  {
    if s != [] { RestrictMembers(s[1..], survivors, x); }
  }

  lemma {:induction false} KeptMembers(p: Policy, s: seq<Backup>, seen: Seen)
    ensures forall x | x in Kept(p, s, seen) :: x in s
  {
    if s != [] { KeptMembers(p, s[1..], Next(p, s[0], seen)); }
  }

  /** One more backup `b` on top of an already pruned list, some of whose deletions may have
      failed, keeps exactly what pruning the full list would. */
  lemma PruningComposes(p: Policy, b: Backup, s: seq<Backup>, survivors: set<Backup>)
    requires forall x | x in Kept(p, s, NOTHING_SEEN) :: x in survivors
    ensures Kept(p, [b] + Restrict(s, survivors), NOTHING_SEEN) == Kept(p, [b] + s, NOTHING_SEEN)
  {
    var seen := Next(p, b, NOTHING_SEEN);
    assert ([b] + s)[1..] == s && ([b] + Restrict(s, survivors))[1..] == Restrict(s, survivors);
    KeptShrinks(p, s, NOTHING_SEEN, seen);
    DroppingTheRestIsHarmless(p, s, survivors, seen);
  }

  /** The directory after every backup of `history` (newest first) was taken and pruned in turn;
      `undeleted[k]` are the backups whose deletion failed in the pruning after `history[k]`. */
  function Directory(p: Policy, history: seq<Backup>, undeleted: seq<set<Backup>>): seq<Backup>
    requires |undeleted| == |history|
  {
    if history == [] then []
    else
      var listed := [history[0]] + Directory(p, history[1..], undeleted[1..]);
      Restrict(listed, (set x | x in Kept(p, listed, NOTHING_SEEN)) + undeleted[0])
  }

  lemma {:induction false} RestrictTwice(s: seq<Backup>, a: set<Backup>, b: set<Backup>)
    ensures Restrict(Restrict(s, a), b) == Restrict(s, a * b)
  {
    if s != [] {
      RestrictTwice(s[1..], a, b);
      if s[0] in a {
        var r := Restrict(s, a);
        assert r[0] == s[0] && r[1..] == Restrict(s[1..], a);
      } else {
        assert Restrict(s, a) == Restrict(s[1..], a);
      }
    }
  }

  lemma {:induction false} RestrictAgree(s: seq<Backup>, a: set<Backup>, b: set<Backup>)
    requires forall x | x in s :: x in a <==> x in b
    ensures Restrict(s, a) == Restrict(s, b)
  {
    if s != [] { RestrictAgree(s[1..], a, b); }
  }

  lemma {:induction false} DirectoryIsARestriction(p: Policy, history: seq<Backup>, undeleted: seq<set<Backup>>)
      returns (survivors: set<Backup>)
    requires |undeleted| == |history|
    requires forall i, j | 0 <= i < j < |history| :: history[i] != history[j]
    ensures Directory(p, history, undeleted) == Restrict(history, survivors)
    ensures forall x | x in Kept(p, history, NOTHING_SEEN) :: x in survivors
  {
    survivors := {};
    if history != [] {
      var b, older := history[0], history[1..];
      var s := DirectoryIsARestriction(p, older, undeleted[1..]);
      var listed := [b] + Directory(p, older, undeleted[1..]);
      assert history == [b] + older;
      PruningComposes(p, b, older, s);
      var kept := Kept(p, history, NOTHING_SEEN);
      assert Kept(p, listed, NOTHING_SEEN) == kept;
      var left := (set x | x in kept) + undeleted[0];
      assert b !in older;
      RestrictAgree(older, s, s + {b});
      assert listed == Restrict(history, s + {b});
      RestrictTwice(history, s + {b}, left);
      survivors := (s + {b}) * left;
      forall x | x in kept ensures x in survivors {
        KeptShrinks(p, older, NOTHING_SEEN, Next(p, b, NOTHING_SEEN));
        assert x == b || x in Kept(p, older, Next(p, b, NOTHING_SEEN));
      }
    }
  }

  /** Over any history of backups and any pattern of failed deletions, the next pruning keeps
      exactly what it would have kept had nothing ever been deleted. */
  lemma IncrementalPruningAgrees(p: Policy, b: Backup, history: seq<Backup>, undeleted: seq<set<Backup>>)
    requires |undeleted| == |history|
    requires forall i, j | 0 <= i < j < |history| :: history[i] != history[j]
    ensures Kept(p, [b] + Directory(p, history, undeleted), NOTHING_SEEN) == Kept(p, [b] + history, NOTHING_SEEN)
    ensures Kept(p, Directory(p, history, undeleted), NOTHING_SEEN) == Kept(p, history, NOTHING_SEEN)
  {
    var survivors := DirectoryIsARestriction(p, history, undeleted);
    PruningComposes(p, b, history, survivors);
    DroppingTheRestIsHarmless(p, history, survivors, NOTHING_SEEN);
  }

  // ---- The pruning itself ----

  /** The backup directory, as the order in which it lists its backups. */
  class BackupDirectory {
    var entries: seq<Backup>

    /** The names of the files that could not be deleted in the latest pruning. */
    ghost var failed: set<string>

    constructor(entries: seq<Backup>)
      ensures this.entries == entries && failed == {}
    {
      this.entries := entries;
      this.failed := {};
    }

    /** Delete by file name; any deletion can fail, which leaves the directory as it was. */
    method Delete(filename: string) returns (ok: bool)
      modifies this
      ensures entries == if ok then Restrict(old(entries), set b | b in old(entries) && b.filename != filename)
                                else old(entries)
      ensures failed == if ok then old(failed) else old(failed) + {filename}
    {
      ok := *;
      if !ok { failed := failed + {filename}; }
      if ok {
        ghost var was := entries;
        var left: seq<Backup> := [];
        var i := |entries|;
        assert was[i..] == [];
        while i > 0
          invariant 0 <= i <= |was| && entries == was
          invariant left == Restrict(was[i..], set b | b in was && b.filename != filename)
        {
          i := i - 1;
          assert was[i..][1..] == was[i + 1..] && was[i..][0] == was[i];
          if entries[i].filename != filename { left := [entries[i]] + left; }
        }
        assert was[0..] == was;
        entries := left;
      }
    }

    /** Keep what the walk keeps and delete everything else.  What is left is the old listing
        restricted to some survivors.  Every backup the walk keeps is one of them, and any other has
        the name of a kept one or could not be deleted. */
    method Prune(p: Policy) returns (ghost survivors: set<Backup>)
      modifies this
      ensures entries == Restrict(old(entries), survivors)
      ensures forall x | x in Kept(p, Sorted(old(entries)), NOTHING_SEEN) :: x in survivors
      ensures forall x | x in entries ::
                x.filename in failed || x.filename in Names(Kept(p, Sorted(old(entries)), NOTHING_SEEN))
      ensures failed == {} && DistinctNames(entries) ==> |entries| <= p.keepDaily + p.keepWeekly
    {
      failed := {};
      var backups := entries;
      backups := SortNewestFirst(backups);
      var keep := ChooseKept(p, backups);
      ghost var kept := Kept(p, backups, NOTHING_SEEN);
      SortedMembers(entries);
      KeptMembers(p, backups, NOTHING_SEEN);
      survivors := DeleteOthers(backups, keep);
      KeptIsBounded(p, backups, NOTHING_SEEN);
      if failed == {} && DistinctNames(entries) { FewNamesFewEntries(entries, kept); }
    }

    /** Delete every listed backup whose name is not to be kept. */
    method DeleteOthers(backups: seq<Backup>, keep: set<string>) returns (ghost survivors: set<Backup>)
      requires forall x | x in entries :: x in backups
      modifies this
      ensures entries == Restrict(old(entries), survivors)
      ensures forall x | x in old(entries) && x.filename in keep :: x in survivors
      ensures forall x | x in entries :: x.filename in failed || x.filename in keep
    {
      ghost var was := entries;
      survivors := set x | x in was;
      RestrictAll(was, survivors);
      assert backups[0..] == backups;
      for i := 0 to |backups|
        invariant entries == Restrict(was, survivors)
        invariant forall x | x in was && x.filename in keep :: x in survivors
        invariant forall x | x in entries :: x.filename in failed || x.filename in keep || x in backups[i..]
      {
        assert backups[i..] == [backups[i]] + backups[i + 1..];
        if backups[i].filename !in keep {
          ghost var before := entries;
          var gone := backups[i].filename;
          var ok := Delete(gone);
          if ok { survivors := DeletionStep(was, survivors, before, gone, keep); }
        }
      }
    }
  }

  lemma DeletionStep(was: seq<Backup>, survivors: set<Backup>, before: seq<Backup>, gone: string, keep: set<string>)
      returns (next: set<Backup>)
    requires before == Restrict(was, survivors) && gone !in keep
    requires forall x | x in was && x.filename in keep :: x in survivors
    ensures var after := Restrict(before, set b | b in before && b.filename != gone);
            after == Restrict(was, next) && forall x | x in after :: x in before && x.filename != gone
    ensures forall x | x in was && x.filename in keep :: x in next
  {
    var others := set b | b in before && b.filename != gone;
    next := survivors * others;
    RestrictTwice(was, survivors, others);
    forall x | x in was && x.filename in keep ensures x in next {
      RestrictMembers(was, survivors, x);
    }
    forall x | x in Restrict(before, others) ensures x in before && x.filename != gone {
      RestrictMembers(before, others, x);
    }
  }

  /** File names in a directory are distinct. */
  predicate DistinctNames(s: seq<Backup>) {
    forall i, j | 0 <= i < j < |s| :: s[i].filename != s[j].filename
  }

  lemma {:induction false} FewNamesFewEntries(s: seq<Backup>, kept: seq<Backup>)
    requires DistinctNames(s) && forall x | x in s :: x.filename in Names(kept)
    ensures |s| <= |kept|
  {
    if s != [] {
      var b :| b in kept && b.filename == s[0].filename;
      var k :| 0 <= k < |kept| && kept[k] == b;
      var others := kept[..k] + kept[k + 1..];
      assert kept == kept[..k] + [b] + kept[k + 1..];
      forall x | x in s[1..] ensures x.filename in Names(others) {
        var y :| y in kept && y.filename == x.filename;
        assert y in others;
      }
      FewNamesFewEntries(s[1..], others);
    }
  }

  lemma {:induction false} RestrictAll(s: seq<Backup>, all: set<Backup>)
    requires forall x | x in s :: x in all
    ensures Restrict(s, all) == s
  {
    if s != [] { RestrictAll(s[1..], all); }
  }

  method SortNewestFirst(s: seq<Backup>) returns (r: seq<Backup>)
    ensures r == Sorted(s) && NewestFirst(r) && multiset(r) == multiset(s)
  {
    r := [];
    var i := |s|;
    assert s[i..] == [];
    while i > 0
      invariant 0 <= i <= |s| && r == Sorted(s[i..])
    {
      i := i - 1;
      assert s[i..][1..] == s[i + 1..] && s[i..][0] == s[i];
      r := Insert(s[i], r);
    }
    assert s[0..] == s;
    SortSorts(s);
  }

  lemma NamesAppend(s: seq<Backup>, b: Backup)
    ensures Names(s + [b]) == Names(s) + {b.filename} && s + [] == s
  {
    assert forall x :: x in s + [b] <==> x in s || x == b;
  }

  lemma ChooseStep(p: Policy, s: seq<Backup>, i: nat)
    requires i < |s|
    ensures var seen := SeenAfter(p, s[..i], NOTHING_SEEN);
            && SeenAfter(p, s[..i + 1], NOTHING_SEEN) == Next(p, s[i], seen)
            && Names(Kept(p, s[..i + 1], NOTHING_SEEN))
            == Names(Kept(p, s[..i], NOTHING_SEEN)) + if Keeps(p, s[i], seen) then {s[i].filename} else {}
  {
    SeenAppend(p, s[..i], s[i], NOTHING_SEEN);
    assert s[..i + 1] == s[..i] + [s[i]];
    NamesAppend(Kept(p, s[..i], NOTHING_SEEN), s[i]);
  }

  /** The selection loop: two growing sets of keys, and the file names to keep. */
  method ChooseKept(p: Policy, backups: seq<Backup>) returns (keep: set<string>)
    ensures keep == Names(Kept(p, backups, NOTHING_SEEN))
  {
    var dailySeen: set<string>, weeklySeen: set<string> := {}, {};
    keep := {};
    for i := 0 to |backups|
      invariant Seen(dailySeen, weeklySeen) == SeenAfter(p, backups[..i], NOTHING_SEEN)
      invariant keep == Names(Kept(p, backups[..i], NOTHING_SEEN))
    {
      var dateKey, weekKey := DateKey(backups[i]), WeekKey(p, backups[i]);
      var newDay := dateKey != "" && |dailySeen| < p.keepDaily && dateKey !in dailySeen;
      if newDay { dailySeen := dailySeen + {dateKey}; }
      var newWeek := weekKey != "" && |weeklySeen| < p.keepWeekly && weekKey !in weeklySeen;
      if newWeek { weeklySeen := weeklySeen + {weekKey}; }
      ChooseStep(p, backups, i);
      if newDay || newWeek { keep := keep + {backups[i].filename}; }
    }
    assert backups[..|backups|] == backups;
  }

  // ---- A run of the backup task ----

  lemma {:induction false} RestrictCounts(s: seq<Backup>, survivors: set<Backup>, x: Backup)
    ensures multiset(Restrict(s, survivors))[x] == if x in survivors then multiset(s)[x] else 0
  {
    if s != [] {
      RestrictCounts(s[1..], survivors, x);
      TailOf(s);
    }
  }

  lemma {:induction false} RestrictKeepsOrder(s: seq<Backup>, survivors: set<Backup>)
    requires NewestFirst(s)
    ensures NewestFirst(Restrict(s, survivors))
  {
    if s != [] {
      var rest := Restrict(s[1..], survivors);
      RestrictKeepsOrder(s[1..], survivors);
      forall j | 0 <= j < |rest| ensures Le(rest[j].createdAt, s[0].createdAt) {
        RestrictMembers(s[1..], survivors, rest[j]);
      }
    }
  }

  lemma SortedMembers(s: seq<Backup>)
    ensures forall x :: x in Sorted(s) <==> x in s
  {
    SortSorts(s);
    forall x ensures x in Sorted(s) <==> x in s {
      assert x in multiset(Sorted(s)) <==> x in multiset(s);
    }
  }

  /** Sorting what is left of a listing is what is left of it sorted. */
  lemma SortedRestriction(s: seq<Backup>, survivors: set<Backup>)
    requires DistinctTimes(s)
    ensures Sorted(Restrict(s, survivors)) == Restrict(Sorted(s), survivors)
  {
    var a, b := Sorted(Restrict(s, survivors)), Restrict(Sorted(s), survivors);
    SortSorts(s);
    SortSorts(Restrict(s, survivors));
    RestrictKeepsOrder(Sorted(s), survivors);
    forall x ensures multiset(a)[x] == multiset(b)[x] {
      RestrictCounts(s, survivors, x);
      RestrictCounts(Sorted(s), survivors, x);
    }
    forall x | x in a ensures x in s {
      SortedMembers(Restrict(s, survivors));
      RestrictMembers(s, survivors, x);
    }
    OrderIsUnique(a, b);
  }

  /** `b` is newer than everything in the list. */
  predicate IsNewest(b: Backup, s: seq<Backup>) {
    forall x | x in s :: Le(x.createdAt, b.createdAt) && x.createdAt != b.createdAt
  }

  lemma NewestGoesInFront(b: Backup, t: seq<Backup>)
    requires IsNewest(b, t) && NewestFirst(t)
    ensures NewestFirst([b] + t) && multiset([b] + t) == multiset(t) + multiset{b}
  {
    forall j | 0 <= j < |t| ensures Le(t[j].createdAt, b.createdAt) {
      assert t[j] in t;
    }
  }

  lemma ListedTimesDiffer(b: Backup, s: seq<Backup>, listing: seq<Backup>)
    requires IsNewest(b, s) && DistinctTimes(s) && multiset(listing) == multiset(s) + multiset{b}
    ensures DistinctTimes(listing)
  {
    forall x | x in listing ensures x == b || x in s {
      assert x in multiset(listing);
      assert x in multiset(s) || x == b;
    }
  }

  lemma NewestSortsFirst(b: Backup, s: seq<Backup>, listing: seq<Backup>)
    requires IsNewest(b, s) && DistinctTimes(s) && multiset(listing) == multiset(s) + multiset{b}
    ensures Sorted(listing) == [b] + Sorted(s) && DistinctTimes(listing)
  {
    SortSorts(s);
    SortSorts(listing);
    SortedMembers(s);
    SortedMembers(listing);
    NewestGoesInFront(b, Sorted(s));
    ListedTimesDiffer(b, s, listing);
    OrderIsUnique(Sorted(listing), [b] + Sorted(s));
  }

  /** The directory holds what some prunings of `history` (newest first) left, and all it keeps. */
  predicate LeftOf(p: Policy, history: seq<Backup>, entries: seq<Backup>, survivors: set<Backup>) {
    && Sorted(entries) == Restrict(history, survivors)
    && forall x | x in Kept(p, history, NOTHING_SEEN) :: x in survivors
  }

  /** One round of the backup loop: a new backup turns up somewhere in the listing, which is pruned. */
  lemma RoundKeeps(p: Policy, b: Backup, history: seq<Backup>, entries: seq<Backup>, survivors: set<Backup>,
                   listing: seq<Backup>, left: set<Backup>) returns (next: set<Backup>)
    requires LeftOf(p, history, entries, survivors)
    requires IsNewest(b, history) && DistinctTimes(history) && multiset(listing) == multiset(entries) + multiset{b}
    requires forall x | x in Kept(p, Sorted(listing), NOTHING_SEEN) :: x in left
    ensures LeftOf(p, [b] + history, Restrict(listing, left), next)
    ensures Kept(p, Sorted(listing), NOTHING_SEEN) == Kept(p, [b] + history, NOTHING_SEEN)
  {
    SortedMembers(entries);
    forall x | x in entries ensures x in history {
      RestrictMembers(history, survivors, x);
    }
    NewestSortsFirst(b, entries, listing);
    SortedRestriction(listing, left);
    assert b !in history;
    RestrictAgree(history, survivors, survivors + {b});
    var full := [b] + history;
    assert full[1..] == history;
    assert Sorted(listing) == Restrict(full, survivors + {b});
    RestrictTwice(full, survivors + {b}, left);
    next := (survivors + {b}) * left;
    PruningComposes(p, b, history, survivors);
    forall x | x in Kept(p, full, NOTHING_SEEN) ensures x in next {
      KeptShrinks(p, history, NOTHING_SEEN, Next(p, b, NOTHING_SEEN));
      assert x == b || x in Kept(p, history, Next(p, b, NOTHING_SEEN));
    }
  }

  /** The history after the first `n` arrivals, newest first. */
  function HistoryAfter(start: seq<Backup>, arrivals: seq<Backup>, n: nat): seq<Backup>
    requires n <= |arrivals|
  {
    if n == 0 then start else [arrivals[n - 1]] + HistoryAfter(start, arrivals, n - 1)
  }

  predicate InTimeOrder(arrivals: seq<Backup>) {
    forall i, j | 0 <= i < j < |arrivals| ::
      Le(arrivals[i].createdAt, arrivals[j].createdAt) && arrivals[i].createdAt != arrivals[j].createdAt
  }

  lemma {:induction false} ArrivalIsNewest(start: seq<Backup>, arrivals: seq<Backup>, n: nat, m: nat)
    requires n <= m < |arrivals| && InTimeOrder(arrivals)
    requires forall i | 0 <= i < |arrivals| :: IsNewest(arrivals[i], start)
    requires DistinctTimes(start)
    ensures IsNewest(arrivals[m], HistoryAfter(start, arrivals, n)) && DistinctTimes(HistoryAfter(start, arrivals, n))
  {
    if n > 0 {
      ArrivalIsNewest(start, arrivals, n - 1, m);
      ArrivalIsNewest(start, arrivals, n - 1, n - 1);
    }
  }

  /** Everything left has the name of a backup that the history keeps, or could not be deleted in
      the latest pruning; with none of that there are no more than the budgets allow. */
  ghost predicate OnlyKeptOrFailed(p: Policy, history: seq<Backup>, dir: BackupDirectory)
    reads dir
  {
    && (forall x | x in dir.entries :: x.filename in dir.failed || x.filename in Names(Kept(p, history, NOTHING_SEEN)))
    && (dir.failed == {} && DistinctNames(dir.entries) ==> |dir.entries| <= p.keepDaily + p.keepWeekly)
  }

  /** The backup task over any run: each backup turns up anywhere in the listing and the directory
      is pruned, with any deletions failing.  At the end the directory still has everything that
      pruning the whole history at once would keep, and would itself be pruned to just that. */
  method RunBackupTask(dir: BackupDirectory, p: Policy, arrivals: seq<Backup>)
    requires DistinctTimes(dir.entries) && InTimeOrder(arrivals)
    requires forall i | 0 <= i < |arrivals| :: IsNewest(arrivals[i], dir.entries)
    modifies dir
    ensures var kept := Kept(p, HistoryAfter(Sorted(old(dir.entries)), arrivals, |arrivals|), NOTHING_SEEN);
            && Kept(p, Sorted(dir.entries), NOTHING_SEEN) == kept
            && (forall x | x in kept :: x in dir.entries)
            && (arrivals != [] ==> forall x | x in dir.entries :: x.filename in dir.failed || x.filename in Names(kept))
            && (arrivals != [] && dir.failed == {} && DistinctNames(dir.entries) ==>
                  |dir.entries| <= p.keepDaily + p.keepWeekly)
  {
    ghost var start := Sorted(dir.entries);
    ghost var survivors := set x | x in dir.entries;
    SortSorts(dir.entries);
    SortedMembers(dir.entries);
    RestrictAll(start, survivors);
    KeptMembers(p, start, NOTHING_SEEN);
    for i := 0 to |arrivals|
      invariant LeftOf(p, HistoryAfter(start, arrivals, i), dir.entries, survivors)
      invariant i > 0 ==> OnlyKeptOrFailed(p, HistoryAfter(start, arrivals, i), dir)
    {
      ghost var history, before := HistoryAfter(start, arrivals, i), dir.entries;
      ArrivalIsNewest(start, arrivals, i, i);
      var listing: seq<Backup> := *;
      if multiset(listing) != multiset(dir.entries) + multiset{arrivals[i]} {
        listing := dir.entries + [arrivals[i]];
      }
      dir.entries := listing;
      ghost var left := dir.Prune(p);
      survivors := RoundKeeps(p, arrivals[i], history, before, survivors, listing, left);
    }
    ghost var history := HistoryAfter(start, arrivals, |arrivals|);
    DroppingTheRestIsHarmless(p, history, survivors, NOTHING_SEEN);
    KeptMembers(p, Sorted(dir.entries), NOTHING_SEEN);
    SortedMembers(dir.entries);
  }
}
