/** The names of pre-restore safety snapshots, and which of them pruning deletes. */
module SnapshotNames {
  import Affixes
  import opened Wrappers
  import opened Decimal
  import Sequences
  import TextOrder

  const SNAPSHOT_PREFIX := "pre-restore-safety-"
  const SNAPSHOT_SUFFIX := ".db"
  const SAFETY_SNAPSHOTS_KEPT := 3
  const U64_LIMIT: nat := 0x1_0000_0000_0000_0000

  function SnapshotName(stamp: nat): string {
    SNAPSHOT_PREFIX + Digits(stamp) + SNAPSHOT_SUFFIX
  }

  /** The stamp of `pre-restore-safety-<digits>.db`; None for every other name. */
  function SnapshotStamp(name: string): Option<nat> {
    match Affixes.StripPrefix(name, SNAPSHOT_PREFIX)
    case None => None
    case Some(rest) =>
      match Affixes.StripSuffix(rest, SNAPSHOT_SUFFIX)
      case None => None
      case Some(digits) =>
        if digits == "" || !AllDigits(digits) || Value(digits) >= U64_LIMIT then None
        else Some(Value(digits))
  }

  /** The names this module writes are the names it reads, and different stamps differ. */
  lemma StampOfSnapshotName(stamp: nat)
    ensures SnapshotStamp(SnapshotName(stamp)) == if stamp < U64_LIMIT then Some(stamp) else None
  {
    ValueOfDigits(stamp);
    var rest := Digits(stamp) + SNAPSHOT_SUFFIX;
    assert SnapshotName(stamp) == SNAPSHOT_PREFIX + rest;
    Affixes.StripsBack(SNAPSHOT_PREFIX, rest);
    Affixes.StripsBack(SNAPSHOT_SUFFIX, Digits(stamp));
  }

  predicate Spells(name: string, digits: string, stamp: nat) {
    && name == "pre-restore-safety-" + digits + ".db"
    && digits != "" && AllDigits(digits) && Value(digits) == stamp < 0x1_0000_0000_0000_0000
  }

  /** A name is recognised exactly if it is the prefix, digits whose value fits 64 bits, and the
      suffix; leading zeros are taken. */
  lemma RecognisedExactly(name: string, stamp: nat)
    ensures SnapshotStamp(name) == Some(stamp) <==> exists digits :: Spells(name, digits, stamp)
  {
    if SnapshotStamp(name) == Some(stamp) {
      var rest := Affixes.StripPrefix(name, SNAPSHOT_PREFIX).value;
      var digits := Affixes.StripSuffix(rest, SNAPSHOT_SUFFIX).value;
      assert Spells(name, digits, stamp);
    }
    if digits :| Spells(name, digits, stamp) {
      assert name == SNAPSHOT_PREFIX + (digits + SNAPSHOT_SUFFIX);
      Affixes.StripsBack(SNAPSHOT_PREFIX, digits + SNAPSHOT_SUFFIX);
      Affixes.StripsBack(SNAPSHOT_SUFFIX, digits);
    }
  }

  lemma SnapshotNamesDiffer(m: nat, n: nat)
    requires SnapshotName(m) == SnapshotName(n)
    ensures m == n
  {
    var l := |SnapshotName(m)|;
    assert SnapshotName(m)[|SNAPSHOT_PREFIX|..l - 3] == Digits(m);
    assert SnapshotName(n)[|SNAPSHOT_PREFIX|..l - 3] == Digits(n);
    DigitsAreInjective(m, n);
  }

  /** A snapshot's name ends in `b`, unlike a `-wal` or a `.partial` beside it. */
  lemma SnapshotsEndInB(name: string, stamp: nat)
    ensures SnapshotStamp(name).Some? ==> |name| > 19 && name[|name| - 1] == 'b' && name[1] == 'r' && name[2] == 'e'
    ensures |SnapshotName(stamp)| > 22 && SnapshotName(stamp)[|SnapshotName(stamp)| - 1] == 'b'
    ensures SnapshotName(stamp)[1] == 'r'
  {
  }

  function Stamp(name: string): nat {
    match SnapshotStamp(name) case Some(n) => n case None => 0
  }

  /** Snapshots compare by stamp, then by name. */
  predicate Newer(a: string, b: string) {
    Stamp(a) > Stamp(b) || (Stamp(a) == Stamp(b) && a != b && TextOrder.Le(b, a))
  }

  lemma NewerIsAStrictOrder(a: string, b: string, c: string)
    ensures !Newer(a, a)
    ensures a != b ==> Newer(a, b) || Newer(b, a)
    ensures Newer(a, b) ==> !Newer(b, a)
    ensures Newer(a, b) && Newer(b, c) ==> Newer(a, c)
  {
    TextOrder.LeTotal(a, b);
    if TextOrder.Le(a, b) && TextOrder.Le(b, a) { TextOrder.LeAntisymmetric(a, b); }
    if TextOrder.Le(c, b) && TextOrder.Le(b, a) { TextOrder.LeTransitive(c, b, a); }
    if TextOrder.Le(b, c) && TextOrder.Le(c, b) { TextOrder.LeAntisymmetric(b, c); }
  }

  /** The later stamp is newer and, of equal stamps, the name that is greater where they differ. */
  lemma NewerWrittenOut(a: string, b: string, n: nat)
    requires n < |a| && n < |b| && a[..n] == b[..n] && a[n] != b[n]
    ensures Newer(a, b) <==> Stamp(a) > Stamp(b) || (Stamp(a) == Stamp(b) && a[n] > b[n])
  {
    TextOrder.FirstDifferenceDecides(b, a, n);
  }

  function Insert(x: string, s: seq<string>): seq<string> {
    if s == [] || Newer(x, s[0]) then [x] + s else [s[0]] + Insert(x, s[1..])
  }

  /** The snapshot names among `names`, newest first. */
  function NewestFirst(names: seq<string>): seq<string> {
    if names == [] then []
    else
      var rest := NewestFirst(names[1..]);
      if SnapshotStamp(names[0]).Some? then Insert(names[0], rest) else rest
  }

  function SnapshotsToPrune(names: seq<string>, keep: nat): seq<string> {
    var snaps := NewestFirst(names);
    if |snaps| <= keep then [] else snaps[keep..]
  }

  predicate Descending(s: seq<string>) {
    forall i, j | 0 <= i < j < |s| :: Newer(s[i], s[j])
  }

  lemma {:induction false} InsertDescends(x: string, s: seq<string>)
    requires Descending(s) && x !in s
    ensures Descending(Insert(x, s))
    ensures forall y :: y in Insert(x, s) <==> y == x || y in s
  {
    if s != [] {
      if Newer(x, s[0]) {
        forall j | 0 <= j < |s| ensures Newer(x, s[j]) {
          if j > 0 { NewerIsAStrictOrder(x, s[0], s[j]); }
        }
      } else {
        NewerIsAStrictOrder(x, s[0], s[0]);
        assert s == [s[0]] + s[1..];
        InsertDescends(x, s[1..]);
        var t := Insert(x, s[1..]);
        forall j | 0 <= j < |t| ensures Newer(s[0], t[j]) {
          assert t[j] == x || t[j] in s[1..];
        }
      }
    }
  }

  lemma {:induction false} SortedSnapshots(names: seq<string>)
    requires Sequences.Distinct(names)
    ensures Descending(NewestFirst(names))
    ensures forall y :: y in NewestFirst(names) <==> y in names && SnapshotStamp(y).Some?
  {
    if names != [] {
      assert names == [names[0]] + names[1..];
      SortedSnapshots(names[1..]);
      if SnapshotStamp(names[0]).Some? { InsertDescends(names[0], NewestFirst(names[1..])); }
    }
  }

  /** The snapshots of `names` that are newer than `name`. */
  function NewerOnes(names: set<string>, name: string): set<string> {
    set y | y in names && SnapshotStamp(y).Some? && Newer(y, name)
  }

  lemma FewerNewerOnes(a: set<string>, b: set<string>, name: string)
    requires a <= b
    ensures |NewerOnes(a, name)| <= |NewerOnes(b, name)|
  {
    assert NewerOnes(b, name) == NewerOnes(a, name) + (NewerOnes(b, name) - NewerOnes(a, name));
  }

  function Elements(names: seq<string>): set<string> {
    set y | y in names
  }

  lemma DescendingIsDistinct(s: seq<string>)
    requires Descending(s)
    ensures Sequences.Distinct(s)
  {
    forall i, j | 0 <= i < j < |s| ensures s[i] != s[j] {
      NewerIsAStrictOrder(s[i], s[i], s[i]);
    }
  }

  lemma DescendingCount(s: seq<string>, i: nat)
    requires Descending(s) && i <= |s|
    ensures |Elements(s[..i])| == i
  {
    DescendingIsDistinct(s);
    Sequences.DistinctCount(s[..i], Elements(s[..i]));
  }

  lemma NewerOnesAreInFront(names: seq<string>, i: nat)
    requires Sequences.Distinct(names) && i < |NewestFirst(names)|
    ensures NewerOnes(Elements(names), NewestFirst(names)[i]) == Elements(NewestFirst(names)[..i])
  {
    SortedSnapshots(names);
    var s := NewestFirst(names);
    forall y ensures y in NewerOnes(Elements(names), s[i]) <==> y in Elements(s[..i]) {
      if y in s {
        var j :| 0 <= j < |s| && s[j] == y;
        NewerIsAStrictOrder(y, s[i], s[i]);
        if j < i { assert s[..i][j] == y; }
      }
      if y in s[..i] {
        var j :| 0 <= j < i && s[..i][j] == y;
        assert s[j] == y;
      }
    }
  }

  /** Exactly the snapshots with at least `keep` newer ones are pruned: nothing that is not a
      snapshot, and never one of the `keep` newest, whatever order the directory lists. */
  lemma PrunedExactly(names: seq<string>, keep: nat, name: string)
    requires Sequences.Distinct(names)
    ensures name in SnapshotsToPrune(names, keep) <==>
            name in names && SnapshotStamp(name).Some? && |NewerOnes(Elements(names), name)| >= keep
  {
    SortedSnapshots(names);
    var s := NewestFirst(names);
    if name in s {
      var i :| 0 <= i < |s| && s[i] == name;
      NewerOnesAreInFront(names, i);
      DescendingCount(s, i);
      NewerIsAStrictOrder(name, name, name);
      if i >= keep { assert s[keep..][i - keep] == name; }
    }
  }

  /** No snapshot is pruned while one with an earlier stamp stays. */
  lemma EarlierStampsGoFirst(names: seq<string>, keep: nat, a: string, b: string)
    requires Sequences.Distinct(names) && a in names && b in names
    requires exists m, n: nat :: SnapshotStamp(a) == Some(m) && SnapshotStamp(b) == Some(n) && m < n
    ensures b in SnapshotsToPrune(names, keep) ==> a in SnapshotsToPrune(names, keep)
  {
    PrunedExactly(names, keep, a);
    PrunedExactly(names, keep, b);
    var newerThanA, newerThanB := NewerOnes(Elements(names), a), NewerOnes(Elements(names), b);
    assert newerThanA == newerThanB + (newerThanA - newerThanB) by {
      forall y | y in newerThanB ensures y in newerThanA {
        NewerIsAStrictOrder(y, b, a);
      }
    }
  }

  /** So at most `keep` snapshots are left. */
  lemma PruningLeavesTheNewest(names: seq<string>, keep: nat)
    requires Sequences.Distinct(names)
    ensures var left := set y | y in names && SnapshotStamp(y).Some? && y !in SnapshotsToPrune(names, keep);
            |left| == if |NewestFirst(names)| <= keep then |NewestFirst(names)| else keep
  {
    SortedSnapshots(names);
    var s := NewestFirst(names);
    var n := if |s| <= keep then |s| else keep;
    DescendingCount(s, n);
    var left := set y | y in names && SnapshotStamp(y).Some? && y !in SnapshotsToPrune(names, keep);
    forall y ensures y in left <==> y in Elements(s[..n]) {
      if y in s {
        var i :| 0 <= i < |s| && s[i] == y;
        NewerOnesAreInFront(names, i);
        DescendingCount(s, i);
        PrunedExactly(names, keep, y);
        NewerIsAStrictOrder(y, y, y);
        if i < n { assert s[..n][i] == y; }
      }
    }
    assert left == Elements(s[..n]);
  }
}
