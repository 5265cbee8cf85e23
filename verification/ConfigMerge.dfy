/** Merging a restored config file with this machine's own.

  A config document is a tree of tables.  The merge starts from the backup's document and, for
  every machine-specific key, copies the running config's value over it, or removes the key
  where the running config does not set it.
*/
module ConfigMerge {
  import opened Wrappers

  /** Anything that is not a table (a value, an array, an array of tables) is a leaf.  Inline
      tables and headed tables are the same to every operation here. */
  datatype Item = Leaf(value: string) | Table(entries: Doc)

  type Doc = map<string, Item>

  type KeyPath = seq<string>

  datatype MergeError = CurrentNotToml | RestoredNotToml | NotATable(key: string)

  /** The TOML library: its parser (None for a text it rejects) and its printer. */
  datatype Toml = Toml(parse: string -> Option<Doc>, print_: Doc -> string)

  const MACHINE_SPECIFIC_KEYS: seq<KeyPath> := [
    ["bbs", "data_dir"],
    ["database"],
    ["logging", "file"],
    ["backup"],
    ["security"],
    ["plugins", "cli"],
    ["plugins", "web"],
    ["plugins", "process"],
    ["plugins", "mesh", "connection_type"],
    ["plugins", "mesh", "addr"],
    ["plugins", "mesh", "serial_port"],
    ["plugins", "mesh", "baud_rate"],
    ["plugins", "mesh", "radio"],
    ["plugins", "mesh", "enabled"],
    ["plugins", "mesh", "app_target_version"],
    ["plugins", "mesh", "advert_scope"],
    ["plugins", "mesh", "protected_contact_cap"],
    ["plugins", "meshtastic", "connection_type"],
    ["plugins", "meshtastic", "addr"],
    ["plugins", "meshtastic", "serial_port"],
    ["plugins", "meshtastic", "baud_rate"],
    ["plugins", "meshtastic", "radio"],
    ["plugins", "meshtastic", "enabled"],
    ["plugins", "meshtastic", "protected_contact_cap"],
    ["plugins", "meshtastic", "short_name"],
    ["plugins", "meshtastic", "long_name"]]

  function Get(t: Doc, path: KeyPath): Option<Item>
    decreases path
  {
    if path == [] || path[0] !in t then None
    else if |path| == 1 then Some(t[path[0]])
    else if t[path[0]].Table? then Get(t[path[0]].entries, path[1..])
    else None
  }

  /** Insert at a path, creating the missing tables on the way. */
  function Set(t: Doc, path: KeyPath, item: Item): Result<Doc, MergeError>
    decreases path
  {
    if path == [] then Ok(t)
    else if |path| == 1 then Ok(t[path[0] := item])
    else
      var sub := if path[0] in t then t[path[0]] else Table(map[]);
      if sub.Leaf? then Err(NotATable(path[0]))
      else match Set(sub.entries, path[1..], item)
        case Err(e) => Err(e)
        case Ok(inner) => Ok(t[path[0] := Table(inner)])
  }

  function Remove(t: Doc, path: KeyPath): Doc
    decreases path
  {
    if path == [] || path[0] !in t then t
    else if |path| == 1 then t - {path[0]}
    else if t[path[0]].Leaf? then t
    else t[path[0] := Table(Remove(t[path[0]].entries, path[1..]))]
  }

  /** The step for one machine-specific key. */
  function Carry(current: Doc, merged: Doc, key: KeyPath): Result<Doc, MergeError> {
    match Get(current, key)
    case Some(item) => Set(merged, key, item)
    case None => Ok(Remove(merged, key))
  }

  function Merge(current: Doc, restored: Doc, keys: seq<KeyPath>): Result<Doc, MergeError>
    decreases keys
  {
    if keys == [] then Ok(restored)
    else match Carry(current, restored, keys[0])
      case Err(e) => Err(e)
      case Ok(next) => Merge(current, next, keys[1..])
  }

  /** Neither path is, or lies under, the other. */
  predicate Independent(p: KeyPath, q: KeyPath) {
    p != [] && q != [] && (p[0] != q[0] || Independent(p[1..], q[1..]))
  }

  lemma {:induction false} IndependentIsSymmetric(p: KeyPath, q: KeyPath)
    ensures Independent(p, q) <==> Independent(q, p)
  {
    if p != [] && q != [] { IndependentIsSymmetric(p[1..], q[1..]); }
  }

  /** Independence says exactly that neither path is a prefix of the other. */
  lemma {:induction false} IndependentIsPrefixFree(p: KeyPath, q: KeyPath)
    ensures Independent(p, q) <==> !(p <= q) && !(q <= p)
  {
    if p != [] && q != [] {
      IndependentIsPrefixFree(p[1..], q[1..]);
      assert p == [p[0]] + p[1..] && q == [q[0]] + q[1..];
      assert p <= q <==> p[0] == q[0] && p[1..] <= q[1..];
      assert q <= p <==> p[0] == q[0] && q[1..] <= p[1..];
    }
  }

  predicate PrefixFree(keys: seq<KeyPath>) {
    && (forall i | 0 <= i < |keys| :: keys[i] != [])
    && forall i, j | 0 <= i < j < |keys| :: Independent(keys[i], keys[j])
  }

  // ---- Reading back ----

  /** Some table a path must go through is a leaf. */
  predicate Blocked(t: Doc, path: KeyPath)
    decreases path
  {
    |path| > 1 && path[0] in t && (t[path[0]].Leaf? || Blocked(t[path[0]].entries, path[1..]))
  }

  /** In other words: a strict prefix of the path reads as a leaf. */
  lemma {:induction false} BlockedIsALeafAbove(t: Doc, path: KeyPath)
    ensures Blocked(t, path) <==>
            exists n :: 0 < n < |path| && Get(t, path[..n]).Some? && Get(t, path[..n]).value.Leaf?
    decreases path
  {
    if |path| > 1 && path[0] in t {
      assert path[..1] == [path[0]];
      if t[path[0]].Table? {
        var inner, rest := t[path[0]].entries, path[1..];
        BlockedIsALeafAbove(inner, rest);
        assert forall n | 1 < n < |path| :: path[..n][1..] == rest[..n - 1] && path[..n][0] == path[0];
        if n :| 0 < n < |rest| && Get(inner, rest[..n]).Some? && Get(inner, rest[..n]).value.Leaf? {
          assert path[..n + 1][1..] == rest[..n];
        }
        if n :| 0 < n < |path| && Get(t, path[..n]).Some? && Get(t, path[..n]).value.Leaf? {
          assert n > 1;
          assert Get(t, path[..n]) == Get(inner, rest[..n - 1]);
        }
      } else {
        assert Get(t, path[..1]).value.Leaf?;
      }
    } else if |path| > 1 {
      forall n | 0 < n < |path| ensures Get(t, path[..n]).None? {
        assert path[..n][0] == path[0];
      }
    }
  }

  lemma {:induction false} SetFailsExactlyWhenBlocked(t: Doc, path: KeyPath, item: Item)
    ensures Set(t, path, item).Err? <==> Blocked(t, path)
    decreases path
  {
    if |path| > 1 {
      var sub := if path[0] in t then t[path[0]] else Table(map[]);
      if sub.Table? { SetFailsExactlyWhenBlocked(sub.entries, path[1..], item); }
    }
  }

  lemma {:induction false} CarryReads(current: Doc, t: Doc, key: KeyPath)
    requires key != [] && Carry(current, t, key).Ok?
    ensures Get(Carry(current, t, key).value, key) == Get(current, key)
  {
    match Get(current, key)
    case Some(item) => SetReads(t, key, item);
    case None => RemoveReads(t, key);
  }

  lemma {:induction false} SetReads(t: Doc, path: KeyPath, item: Item)
    requires path != [] && Set(t, path, item).Ok?
    ensures Get(Set(t, path, item).value, path) == Some(item)
    decreases path
  {
    if |path| > 1 {
      SetReads((if path[0] in t then t[path[0]] else Table(map[])).entries, path[1..], item);
    }
  }

  lemma {:induction false} RemoveReads(t: Doc, path: KeyPath)
    requires path != []
    ensures Get(Remove(t, path), path) == None
    decreases path
  {
    if |path| > 1 && path[0] in t && t[path[0]].Table? { RemoveReads(t[path[0]].entries, path[1..]); }
  }

  lemma {:induction false} SetFrame(t: Doc, path: KeyPath, item: Item, q: KeyPath)
    requires Independent(path, q) && Set(t, path, item).Ok?
    ensures Get(Set(t, path, item).value, q) == Get(t, q)
    ensures Blocked(Set(t, path, item).value, q) == Blocked(t, q)
    decreases path
  {
    if |path| > 1 && path[0] == q[0] {
      var sub := if path[0] in t then t[path[0]] else Table(map[]);
      SetFrame(sub.entries, path[1..], item, q[1..]);
      assert path[0] !in t ==> Get(sub.entries, q[1..]) == None;
    }
  }

  lemma {:induction false} RemoveFrame(t: Doc, path: KeyPath, q: KeyPath)
    requires Independent(path, q)
    ensures Get(Remove(t, path), q) == Get(t, q)
    ensures Blocked(Remove(t, path), q) == Blocked(t, q)
    decreases path
  {
    if |path| > 1 && path[0] == q[0] && path[0] in t && t[path[0]].Table? {
      RemoveFrame(t[path[0]].entries, path[1..], q[1..]);
    }
  }

  lemma CarryFrame(current: Doc, t: Doc, key: KeyPath, q: KeyPath)
    requires Independent(key, q) && Carry(current, t, key).Ok?
    ensures Get(Carry(current, t, key).value, q) == Get(t, q)
    ensures Blocked(Carry(current, t, key).value, q) == Blocked(t, q)
  {
    match Get(current, key)
    case Some(item) => SetFrame(t, key, item, q);
    case None => RemoveFrame(t, key, q);
  }

  /** What lies under a path is read through what is at it. */
  lemma {:induction false} GetUnder(t: Doc, p: KeyPath, q: KeyPath)
    requires p != [] && q != []
    ensures Get(t, p + q) == match Get(t, p)
                             case Some(Table(entries)) => Get(entries, q)
                             case _ => None
    decreases p
  {
    assert (p + q)[0] == p[0] && (p + q)[1..] == p[1..] + q;
    if |p| == 1 {
      assert (p + q)[1..] == q;
    } else if p[0] in t && t[p[0]].Table? {
      GetUnder(t[p[0]].entries, p[1..], q);
    }
  }

  lemma {:induction false} MergeFrame(current: Doc, t: Doc, keys: seq<KeyPath>, q: KeyPath)
    requires Merge(current, t, keys).Ok? && forall k | k in keys :: Independent(k, q)
    ensures Get(Merge(current, t, keys).value, q) == Get(t, q)
    decreases keys
  {
    if keys != [] {
      CarryFrame(current, t, keys[0], q);
      MergeFrame(current, Carry(current, t, keys[0]).value, keys[1..], q);
    }
  }

  /** When the merge succeeds, every machine-specific key, and everything under one, reads as
      in the current config, absence included ... */
  lemma {:induction false} MachineKeysComeFromCurrent(current: Doc, restored: Doc, keys: seq<KeyPath>,
                                                      key: KeyPath, under: KeyPath)
    requires PrefixFree(keys) && key in keys && Merge(current, restored, keys).Ok?
    ensures Get(Merge(current, restored, keys).value, key + under) == Get(current, key + under)
    decreases keys
  {
    var next, m := Carry(current, restored, keys[0]).value, Merge(current, restored, keys).value;
    if key == keys[0] {
      CarryReads(current, restored, key);
      forall k | k in keys[1..] ensures Independent(k, key) { IndependentIsSymmetric(k, key); }
      MergeFrame(current, next, keys[1..], key);
      assert key + [] == key;
      if under != [] {
        GetUnder(m, key, under);
        GetUnder(current, key, under);
      }
    } else {
      MachineKeysComeFromCurrent(current, next, keys[1..], key, under);
    }
  }

  /** ... and every path that is neither above nor under such a key reads as in the backup. */
  lemma EverythingElseComesFromTheBackup(current: Doc, restored: Doc, keys: seq<KeyPath>, path: KeyPath)
    requires Merge(current, restored, keys).Ok?
    requires forall k | k in keys :: !(k <= path) && !(path <= k)
    ensures Get(Merge(current, restored, keys).value, path) == Get(restored, path)
  {
    forall k | k in keys ensures Independent(k, path) { IndependentIsPrefixFree(k, path); }
    MergeFrame(current, restored, keys, path);
  }

  predicate IsTable(t: Doc, path: KeyPath) {
    Get(t, path).Some? && Get(t, path).value.Table?
  }

  lemma {:induction false} SetMakesTables(t: Doc, path: KeyPath, item: Item, n: nat)
    requires 0 < n < |path| && Set(t, path, item).Ok?
    ensures IsTable(Set(t, path, item).value, path[..n])
    decreases path
  {
    assert path[..n][0] == path[0];
    if n > 1 {
      SetMakesTables((if path[0] in t then t[path[0]] else Table(map[])).entries, path[1..], item, n - 1);
      assert path[..n][1..] == path[1..][..n - 1];
    }
  }

  lemma {:induction false} RemoveKeepsTables(t: Doc, path: KeyPath, n: nat)
    requires 0 < n < |path|
    ensures IsTable(Remove(t, path), path[..n]) == IsTable(t, path[..n])
    ensures !IsTable(t, path[..n]) ==> Get(Remove(t, path), path[..n]) == Get(t, path[..n])
    decreases path
  {
    assert path[..n][0] == path[0];
    if n > 1 {
      assert path[..n][1..] == path[1..][..n - 1];
      if path[0] in t && t[path[0]].Table? { RemoveKeepsTables(t[path[0]].entries, path[1..], n - 1); }
    }
  }

  /** Some key under `path` is set in `current`. */
  predicate SetBelow(current: Doc, keys: seq<KeyPath>, path: KeyPath) {
    exists k :: k in keys && path < k && Get(current, k).Some?
  }

  /** A path above a machine-specific key is a table in the result exactly when it was one in the
      backup or a key under it is set here: removing keys never removes the table around them,
      and setting one never needs more than the tables on its own path. */
  lemma {:induction false} PathsAboveKeys(current: Doc, restored: Doc, keys: seq<KeyPath>, path: KeyPath)
    requires PrefixFree(keys) && path != [] && Merge(current, restored, keys).Ok?
    requires forall k | k in keys :: path < k || Independent(k, path)
    ensures IsTable(Merge(current, restored, keys).value, path)
       <==> IsTable(restored, path) || SetBelow(current, keys, path)
    ensures Get(Merge(current, restored, keys).value, path).None?
       <==> Get(restored, path).None? && !SetBelow(current, keys, path)
    ensures !IsTable(Merge(current, restored, keys).value, path) ==>
              Get(Merge(current, restored, keys).value, path) == Get(restored, path)
    decreases keys
  {
    if keys != [] {
      var k, next := keys[0], Carry(current, restored, keys[0]).value;
      PathsAboveKeys(current, next, keys[1..], path);
      assert SetBelow(current, keys, path)
        <==> (path < k && Get(current, k).Some?) || SetBelow(current, keys[1..], path) by {
        assert forall x :: x in keys <==> x == k || x in keys[1..];
      }
      if path < k {
        assert k[..|path|] == path;
        match Get(current, k)
        case Some(item) => SetMakesTables(restored, k, item, |path|);
        case None => RemoveKeepsTables(restored, k, |path|);
      } else {
        CarryFrame(current, restored, k, path);
      }
    }
  }

  // ---- What a merge is ----

  /** The path is, or lies under, one of the keys ... */
  predicate IsAtOrUnder(keys: seq<KeyPath>, path: KeyPath) {
    exists k :: k in keys && k <= path
  }

  /** ... or lies strictly above one. */
  predicate IsAbove(keys: seq<KeyPath>, path: KeyPath) {
    exists k :: k in keys && path < k
  }

  /** A document that reads as the running one at the keys and under them, and as the backup
      elsewhere, with the tables in between that either of them needs. */
  ghost predicate IsMergeOf(m: Doc, current: Doc, restored: Doc, keys: seq<KeyPath>) {
    && (forall path | IsAtOrUnder(keys, path) :: Get(m, path) == Get(current, path))
    && (forall path | !IsAtOrUnder(keys, path) && !IsAbove(keys, path) :: Get(m, path) == Get(restored, path))
    && (forall path | path != [] && IsAbove(keys, path) ::
          && (IsTable(m, path) <==> IsTable(restored, path) || SetBelow(current, keys, path))
          && (!IsTable(m, path) ==> Get(m, path) == Get(restored, path)))
  }

  lemma MergeIsMerge(current: Doc, restored: Doc, keys: seq<KeyPath>)
    requires PrefixFree(keys) && Merge(current, restored, keys).Ok?
    ensures IsMergeOf(Merge(current, restored, keys).value, current, restored, keys)
  {
    var m := Merge(current, restored, keys).value;
    forall path | IsAtOrUnder(keys, path) ensures Get(m, path) == Get(current, path) {
      var k :| k in keys && k <= path;
      MachineKeysComeFromCurrent(current, restored, keys, k, path[|k|..]);
      assert k + path[|k|..] == path;
    }
    forall path | !IsAtOrUnder(keys, path) && !IsAbove(keys, path) ensures Get(m, path) == Get(restored, path) {
      forall k | k in keys ensures !(k <= path) && !(path <= k) {
        assert path == k ==> k <= path;
      }
      EverythingElseComesFromTheBackup(current, restored, keys, path);
    }
    forall path | path != [] && IsAbove(keys, path)
      ensures IsTable(m, path) <==> IsTable(restored, path) || SetBelow(current, keys, path)
      ensures !IsTable(m, path) ==> Get(m, path) == Get(restored, path)
    {
      AboveOneIsUnderNone(keys, path);
      PathsAboveKeys(current, restored, keys, path);
    }
  }

  lemma AboveOneIsUnderNone(keys: seq<KeyPath>, path: KeyPath)
    requires PrefixFree(keys) && IsAbove(keys, path)
    ensures forall k | k in keys :: path < k || Independent(k, path)
  {
    var above :| above in keys && path < above;
    forall k | k in keys && !(path < k) ensures Independent(k, path) {
      if k <= path { KeysDiffer(keys, k, above); }
      IndependentIsPrefixFree(k, path);
    }
  }

  lemma KeysDiffer(keys: seq<KeyPath>, k: KeyPath, l: KeyPath)
    requires PrefixFree(keys) && k in keys && l in keys && k <= l
    ensures k == l
  {
    IndependentIsPrefixFree(k, l);
    IndependentIsPrefixFree(l, k);
  }

  // ---- Failure ----

  /** Some machine key set here has a non-table above it in the backup. */
  predicate Conflicts(current: Doc, restored: Doc, keys: seq<KeyPath>) {
    exists k :: k in keys && Get(current, k).Some? && Blocked(restored, k)
  }

  /** Two parsed documents fail to merge exactly when some machine-specific key is set in the
      current one while a strict prefix of it is a non-table in the backup. */
  lemma {:induction false} MergeFailsExactlyOnConflict(current: Doc, restored: Doc, keys: seq<KeyPath>)
    requires PrefixFree(keys)
    ensures Merge(current, restored, keys).Err? <==> Conflicts(current, restored, keys)
    decreases keys
  {
    if keys != [] {
      var k := keys[0];
      if Get(current, k).Some? { SetFailsExactlyWhenBlocked(restored, k, Get(current, k).value); }
      if Carry(current, restored, k).Ok? {
        var next := Carry(current, restored, k).value;
        MergeFailsExactlyOnConflict(current, next, keys[1..]);
        forall q | q in keys[1..] ensures Blocked(next, q) == Blocked(restored, q) {
          CarryFrame(current, restored, k, q);
        }
        assert forall x :: x in keys <==> x == k || x in keys[1..];
      }
    }
  }

  // ---- Algebra ----

  lemma {:induction false} SetSame(t: Doc, path: KeyPath)
    requires Get(t, path).Some?
    ensures Set(t, path, Get(t, path).value) == Ok(t)
    decreases path
  {
    if |path| == 1 {
      assert t[path[0] := t[path[0]]] == t;
    } else {
      SetSame(t[path[0]].entries, path[1..]);
      assert t[path[0] := t[path[0]]] == t;
    }
  }

  lemma {:induction false} RemoveAbsent(t: Doc, path: KeyPath)
    requires Get(t, path).None?
    ensures Remove(t, path) == t
    decreases path
  {
    if |path| > 1 && path[0] in t && t[path[0]].Table? {
      RemoveAbsent(t[path[0]].entries, path[1..]);
      assert t[path[0] := t[path[0]]] == t;
    }
  }

  lemma {:induction false} MergeSettled(current: Doc, t: Doc, keys: seq<KeyPath>)
    requires forall k | k in keys :: Get(t, k) == Get(current, k)
    ensures Merge(current, t, keys) == Ok(t)
    decreases keys
  {
    if keys != [] {
      match Get(current, keys[0]) {
        case Some(_) => SetSame(t, keys[0]);
        case None => RemoveAbsent(t, keys[0]);
      }
      MergeSettled(current, t, keys[1..]);
    }
  }

  /** Restoring a machine's own config, or restoring the same backup a second time, changes nothing. */
  lemma MergeIsIdempotent(current: Doc, restored: Doc, keys: seq<KeyPath>)
    requires PrefixFree(keys)
    ensures Merge(current, current, keys) == Ok(current)
    ensures Merge(current, restored, keys).Ok? ==>
              Merge(current, Merge(current, restored, keys).value, keys) == Merge(current, restored, keys)
  {
    MergeSettled(current, current, keys);
    if Merge(current, restored, keys).Ok? {
      var m := Merge(current, restored, keys).value;
      forall k | k in keys ensures Get(m, k) == Get(current, k) {
        MachineKeysComeFromCurrent(current, restored, keys, k, []);
        assert k + [] == k;
      }
      MergeSettled(current, m, keys);
    }
  }

  /** Which error is reported may depend on the order of the keys; nothing else does. */
  predicate SameOutcome(a: Result<Doc, MergeError>, b: Result<Doc, MergeError>) {
    (a.Err? && b.Err?) || a == b
  }

  lemma Overwrite(t: Doc, k: string, a: Item, b: Item)
    ensures t[k := a][k := b] == t[k := b]
  {
  }

  lemma InsertsCommute(t: Doc, k: string, a: Item, l: string, b: Item)
    requires k != l
    ensures t[k := a][l := b] == t[l := b][k := a]
  {
  }

  lemma {:induction false} SetSetCommute(t: Doc, p: KeyPath, x: Item, q: KeyPath, y: Item)
    requires Independent(p, q) && Set(t, p, x).Ok? && Set(t, q, y).Ok?
    ensures Set(Set(t, p, x).value, q, y) == Set(Set(t, q, y).value, p, x)
    decreases p
  {
    if p[0] == q[0] {
      var sub := if p[0] in t then t[p[0]] else Table(map[]);
      SetSetCommute(sub.entries, p[1..], x, q[1..], y);
      SetFrame(sub.entries, p[1..], x, q[1..]);
      SetFailsExactlyWhenBlocked(sub.entries, q[1..], y);
      SetFailsExactlyWhenBlocked(Set(sub.entries, p[1..], x).value, q[1..], y);
      var a, b := Set(sub.entries, p[1..], x).value, Set(sub.entries, q[1..], y).value;
      var ab := Set(a, q[1..], y).value;
      Overwrite(t, p[0], Table(a), Table(ab));
      Overwrite(t, p[0], Table(b), Table(ab));
    } else {
      var under := if p[0] in t then t[p[0]] else Table(map[]);
      var i := if |p| == 1 then x else Table(Set(under.entries, p[1..], x).value);
      var underQ := if q[0] in t then t[q[0]] else Table(map[]);
      var j := if |q| == 1 then y else Table(Set(underQ.entries, q[1..], y).value);
      InsertsCommute(t, p[0], i, q[0], j);
    }
  }

  lemma {:induction false} SetRemoveCommute(t: Doc, p: KeyPath, x: Item, q: KeyPath)
    requires Independent(p, q) && Set(t, p, x).Ok?
    ensures Set(Remove(t, q), p, x) == Ok(Remove(Set(t, p, x).value, q))
    decreases p
  {
    if p[0] == q[0] {
      if p[0] in t {
        if t[p[0]].Table? {
          var sub := t[p[0]].entries;
          SetRemoveCommute(sub, p[1..], x, q[1..]);
          var a, b := Table(Set(sub, p[1..], x).value), Table(Remove(sub, q[1..]));
          var ab := Table(Remove(a.entries, q[1..]));
          Overwrite(t, p[0], a, ab);
          Overwrite(t, p[0], b, ab);
        }
      } else {
        var sub: Doc := map[];
        SetRemoveCommute(sub, p[1..], x, q[1..]);
        var inner := Table(Set(sub, p[1..], x).value);
        assert t[p[0] := inner][p[0] := inner] == t[p[0] := inner];
      }
    } else {
      var under := if p[0] in t then t[p[0]] else Table(map[]);
      var i := if |p| == 1 then x else Table(Set(under.entries, p[1..], x).value);
      assert Set(t, p, x).value == t[p[0] := i];
      if q[0] in t {
        if |q| == 1 {
          assert (t - {q[0]})[p[0] := i] == t[p[0] := i] - {q[0]};
        } else if t[q[0]].Table? {
          var j := Table(Remove(t[q[0]].entries, q[1..]));
          InsertsCommute(t, q[0], j, p[0], i);
        }
      }
    }
  }

  lemma {:induction false} RemoveRemoveCommute(t: Doc, p: KeyPath, q: KeyPath)
    requires Independent(p, q)
    ensures Remove(Remove(t, p), q) == Remove(Remove(t, q), p)
    decreases p
  {
    if p[0] == q[0] {
      if p[0] in t && t[p[0]].Table? {
        RemoveRemoveCommute(t[p[0]].entries, p[1..], q[1..]);
      }
    } else {
      RemoveElsewhere(t, p, q);
    }
  }

  lemma RemoveElsewhere(t: Doc, p: KeyPath, q: KeyPath)
    requires p != [] && q != [] && p[0] != q[0]
    ensures Remove(Remove(t, p), q) == Remove(Remove(t, q), p)
  {
    if p[0] in t && q[0] in t {
      if |p| == 1 && |q| == 1 {
        assert t - {p[0]} - {q[0]} == t - {q[0]} - {p[0]};
      } else if |p| == 1 && t[q[0]].Table? {
        var j := Table(Remove(t[q[0]].entries, q[1..]));
        assert (t - {p[0]})[q[0] := j] == t[q[0] := j] - {p[0]};
      } else if |q| == 1 && t[p[0]].Table? {
        var i := Table(Remove(t[p[0]].entries, p[1..]));
        assert (t - {q[0]})[p[0] := i] == t[p[0] := i] - {q[0]};
      } else if t[p[0]].Table? && t[q[0]].Table? {
        InsertsCommute(t, p[0], Table(Remove(t[p[0]].entries, p[1..])), q[0], Table(Remove(t[q[0]].entries, q[1..])));
      }
    }
  }

  /** Two independent keys can be carried in either order. */
  lemma CarriesCommute(current: Doc, t: Doc, p: KeyPath, q: KeyPath, rest: seq<KeyPath>)
    requires Independent(p, q)
    ensures SameOutcome(Merge(current, t, [p, q] + rest), Merge(current, t, [q, p] + rest))
  {
    IndependentIsSymmetric(p, q);
    assert ([p, q] + rest)[1..] == [q] + rest && ([q] + rest)[1..] == rest;
    assert ([q, p] + rest)[1..] == [p] + rest && ([p] + rest)[1..] == rest;
    var a, b := Carry(current, t, p), Carry(current, t, q);
    if a.Ok? && Get(current, q).Some? {
      CarryFrame(current, t, p, q);
      SetFailsExactlyWhenBlocked(t, q, Get(current, q).value);
      SetFailsExactlyWhenBlocked(a.value, q, Get(current, q).value);
    }
    if b.Ok? && Get(current, p).Some? {
      CarryFrame(current, t, q, p);
      SetFailsExactlyWhenBlocked(t, p, Get(current, p).value);
      SetFailsExactlyWhenBlocked(b.value, p, Get(current, p).value);
    }
    if a.Ok? && b.Ok? {
      match (Get(current, p), Get(current, q)) {
        case (Some(x), Some(y)) => SetSetCommute(t, p, x, q, y);
        case (Some(x), None) => SetRemoveCommute(t, p, x, q);
        case (None, Some(y)) => SetRemoveCommute(t, q, y, p);
        case (None, None) => RemoveRemoveCommute(t, p, q);
      }
    }
  }

  lemma {:induction false} MoveToFront(current: Doc, t: Doc, before: seq<KeyPath>, k: KeyPath, after: seq<KeyPath>)
    requires forall x | x in before :: Independent(x, k)
    ensures SameOutcome(Merge(current, t, before + [k] + after), Merge(current, t, [k] + before + after))
    decreases before
  {
    if before == [] {
      assert before + [k] + after == [k] + before + after;
    } else {
      var x, rest := before[0], before[1..];
      assert (before + [k] + after)[1..] == rest + [k] + after;
      if Carry(current, t, x).Ok? {
        MoveToFront(current, Carry(current, t, x).value, rest, k, after);
      }
      assert ([x] + ([k] + rest + after))[1..] == [k] + rest + after;
      assert SameOutcome(Merge(current, t, before + [k] + after), Merge(current, t, [x] + ([k] + rest + after)));
      CarriesCommute(current, t, x, k, rest + after);
      assert [x] + ([k] + rest + after) == [x, k] + (rest + after);
      assert [k] + before + after == [k, x] + (rest + after);
    }
  }

  lemma SplitOut<T>(s: seq<T>, x: T) returns (before: seq<T>, after: seq<T>)
    requires x in multiset(s)
    ensures s == before + [x] + after && multiset(before + after) == multiset(s) - multiset{x}
  {
    var i :| 0 <= i < |s| && s[i] == x;
    before, after := s[..i], s[i + 1..];
    assert s == before + [x] + after;
  }

  lemma MergeCons(current: Doc, t: Doc, k: KeyPath, before: seq<KeyPath>, after: seq<KeyPath>)
    ensures Merge(current, t, [k] + before + after) == match Carry(current, t, k)
                                                       case Ok(next) => Merge(current, next, before + after)
                                                       case Err(e) => Err(e)
  {
    var all := [k] + before + after;
    assert all[0] == k && all[1..] == before + after;
  }

  lemma FirstIsApart(keys: seq<KeyPath>, x: KeyPath)
    requires PrefixFree(keys) && keys != [] && x in multiset(keys[1..])
    ensures Independent(x, keys[0])
  {
    var i :| 0 <= i < |keys[1..]| && keys[1..][i] == x;
    IndependentIsSymmetric(keys[0], keys[i + 1]);
  }

  lemma FirstOut<T>(s: seq<T>)
    requires s != []
    ensures multiset(s[1..]) == multiset(s) - multiset{s[0]}
  {
    assert s == [s[0]] + s[1..];
  }

  /** The order in which the keys are listed is immaterial. */
  lemma {:induction false} KeyOrderIsImmaterial(current: Doc, t: Doc, keys: seq<KeyPath>, other: seq<KeyPath>)
    requires PrefixFree(keys) && multiset(keys) == multiset(other)
    ensures SameOutcome(Merge(current, t, keys), Merge(current, t, other))
    decreases keys
  {
    if keys == [] {
      assert |multiset(other)| == 0;
    } else {
      var k, rest := keys[0], keys[1..];
      FirstOut(keys);
      assert k in keys;
      var before, after := SplitOut(other, k);
      forall x | x in before ensures Independent(x, k) {
        assert x in multiset(before + after);
        FirstIsApart(keys, x);
      }
      assert PrefixFree(rest);
      MoveToFront(current, t, before, k, after);
      MergeCons(current, t, k, before, after);
      if Carry(current, t, k).Ok? {
        KeyOrderIsImmaterial(current, Carry(current, t, k).value, rest, before + after);
      }
    }
  }

  // ---- The list of keys and the merge of two texts ----

  predicate DifferAt(p: KeyPath, q: KeyPath, n: nat) {
    n < |p| && n < |q| && p[n] != q[n]
  }

  lemma {:induction false} DifferentNameSeparates(p: KeyPath, q: KeyPath, n: nat)
    requires DifferAt(p, q, n)
    ensures Independent(p, q)
    decreases n
  {
    if n > 0 { DifferentNameSeparates(p[1..], q[1..], n - 1); }
  }

  /** Two of the machine-specific keys part at their first, second or third name. */
  predicate Part(i: nat, j: nat)
    requires i < |MACHINE_SPECIFIC_KEYS| && j < |MACHINE_SPECIFIC_KEYS|
  {
    var p, q := MACHINE_SPECIFIC_KEYS[i], MACHINE_SPECIFIC_KEYS[j];
    DifferAt(p, q, 0) || DifferAt(p, q, 1) || DifferAt(p, q, 2)
  }

  lemma KeysPart0()
    ensures forall i, j | 0 <= i < 4 && i < j < 26 :: Part(i, j)
  {
  }

  lemma KeysPart1()
    ensures forall i, j | 4 <= i < 8 && i < j < 26 :: Part(i, j)
  {
  }

  lemma KeysPart2()
    ensures forall i, j | 8 <= i < 12 && i < j < 26 :: Part(i, j)
  {
  }

  lemma KeysPart3()
    ensures forall i, j | 12 <= i < 17 && i < j < 26 :: Part(i, j)
  {
  }

  lemma KeysPart4()
    ensures forall i, j | 17 <= i < 26 && i < j < 26 :: Part(i, j)
  {
  }

  /** No machine-specific key is, or lies under, another. */
  lemma MachineKeysArePrefixFree()
    ensures PrefixFree(MACHINE_SPECIFIC_KEYS)
  {
    var keys := MACHINE_SPECIFIC_KEYS;
    forall i, j | 0 <= i < j < |keys| ensures Independent(keys[i], keys[j]) {
      KeysPart0(); KeysPart1(); KeysPart2(); KeysPart3(); KeysPart4();
      assert Part(i, j);
      var n :| 0 <= n <= 2 && DifferAt(keys[i], keys[j], n);
      DifferentNameSeparates(keys[i], keys[j], n);
    }
  }

  lemma {:induction false} MergeAppend(current: Doc, t: Doc, keys: seq<KeyPath>, k: KeyPath)
    ensures Merge(current, t, keys + [k]) == match Merge(current, t, keys)
                                             case Ok(m) => Carry(current, m, k)
                                             case Err(e) => Err(e)
    decreases keys
  {
    if keys == [] {
      assert keys + [k] == [k];
    } else {
      assert (keys + [k])[1..] == keys[1..] + [k];
      if Carry(current, t, keys[0]).Ok? { MergeAppend(current, Carry(current, t, keys[0]).value, keys[1..], k); }
    }
  }

  lemma {:induction false} MergeErrStays(current: Doc, t: Doc, keys: seq<KeyPath>, n: nat)
    requires n <= |keys| && Merge(current, t, keys[..n]).Err?
    ensures Merge(current, t, keys) == Merge(current, t, keys[..n])
    decreases keys
  {
    assert n > 0 && keys[..n][0] == keys[0] && keys[..n][1..] == keys[1..][..n - 1];
    if Carry(current, t, keys[0]).Ok? { MergeErrStays(current, Carry(current, t, keys[0]).value, keys[1..], n - 1); }
  }

  function MergedText(toml: Toml, current: string, restored: string): Result<string, MergeError> {
    if toml.parse(current).None? then Err(CurrentNotToml)
    else if toml.parse(restored).None? then Err(RestoredNotToml)
    else match Merge(toml.parse(current).value, toml.parse(restored).value, MACHINE_SPECIFIC_KEYS)
      case Ok(m) => Ok(toml.print_(m))
      case Err(e) => Err(e)
  }

  /** The text prints a merge of what the two texts parse to, with the running config's values at
      the machine-specific keys. */
  ghost predicate PrintsMerge(toml: Toml, current: string, restored: string, text: string) {
    && toml.parse(current).Some? && toml.parse(restored).Some?
    && exists m ::
         && text == toml.print_(m)
         && IsMergeOf(m, toml.parse(current).value, toml.parse(restored).value, MACHINE_SPECIFIC_KEYS)
  }

  /** A backup of the very config that is running merges, into that config. */
  lemma SameTextMerges(toml: Toml, text: string)
    requires toml.parse(text).Some?
    ensures MergedText(toml, text, text) == Ok(toml.print_(toml.parse(text).value))
  {
    var doc := toml.parse(text).value;
    MachineKeysArePrefixFree();
    MergeIsIdempotent(doc, doc, MACHINE_SPECIFIC_KEYS);
  }

  /** The loop over the keys, mutating the document parsed from the backup. */
  method MergeDocuments(current: Doc, restored: Doc, keys: seq<KeyPath>) returns (r: Result<Doc, MergeError>)
    ensures r == Merge(current, restored, keys)
  {
    var merged := restored;
    for i := 0 to |keys|
      invariant Merge(current, restored, keys[..i]) == Ok(merged)
    {
      MergeAppend(current, restored, keys[..i], keys[i]);
      assert keys[..i + 1] == keys[..i] + [keys[i]];
      var step := Carry(current, merged, keys[i]);
      match step
      case Err(e) =>
        MergeErrStays(current, restored, keys, i + 1);
        return Err(e);
      case Ok(next) =>
        merged := next;
    }
    assert keys[..|keys|] == keys;
    r := Ok(merged);
  }

  /** Merging two documents fails exactly on a conflict, and otherwise gives a merge of them. */
  method MergeParsed(current: Doc, restored: Doc, keys: seq<KeyPath>) returns (r: Result<Doc, MergeError>)
    requires PrefixFree(keys)
    ensures r == Merge(current, restored, keys)
    ensures r.Ok? <==> !Conflicts(current, restored, keys)
    ensures r.Ok? ==> IsMergeOf(r.value, current, restored, keys)
    ensures r.Err? ==> Blames(keys, r.error)
  {
    MergeFailsExactlyOnConflict(current, restored, keys);
    MergeErrs(current, restored, keys);
    r := MergeDocuments(current, restored, keys);
    if r.Ok? { MergeIsMerge(current, restored, keys); }
  }

  lemma {:induction false} SetErrs(t: Doc, path: KeyPath, item: Item)
    ensures Set(t, path, item).Err? ==>
              Set(t, path, item).error.NotATable? && IsBefore(path, Set(t, path, item).error.key)
    decreases path
  {
    if |path| > 1 {
      var sub := if path[0] in t then t[path[0]] else Table(map[]);
      if sub.Leaf? {
        assert IsBefore(path, path[0]);
      } else {
        SetErrs(sub.entries, path[1..], item);
        if Set(t, path, item).Err? {
          var key := Set(t, path, item).error.key;
          var n: nat :| n + 1 < |path[1..]| && path[1..][n] == key;
          assert path[n + 1] == key;
        }
      }
    }
  }

  /** The name is one of the path's tables. */
  predicate IsBefore(path: KeyPath, name: string) {
    exists n: nat :: n + 1 < |path| && path[n] == name
  }

  /** The error names a table on the way to one of the keys. */
  predicate Blames(keys: seq<KeyPath>, e: MergeError) {
    e.NotATable? && exists k :: k in keys && IsBefore(k, e.key)
  }

  lemma {:induction false} MergeErrs(current: Doc, restored: Doc, keys: seq<KeyPath>)
    ensures Merge(current, restored, keys).Err? ==> Blames(keys, Merge(current, restored, keys).error)
    decreases keys
  {
    if keys != [] {
      if Get(current, keys[0]).Some? { SetErrs(restored, keys[0], Get(current, keys[0]).value); }
      if Carry(current, restored, keys[0]).Ok? {
        MergeErrs(current, Carry(current, restored, keys[0]).value, keys[1..]);
      }
    }
  }

  /** The merge of two texts succeeds exactly when both parse and no machine key conflicts, and
      then prints a merge of them. */
  method MergeForRestore(toml: Toml, current: string, restored: string) returns (r: Result<string, MergeError>)
    ensures r == MergedText(toml, current, restored)
    ensures r.Ok? <==>
      && toml.parse(current).Some? && toml.parse(restored).Some?
      && !Conflicts(toml.parse(current).value, toml.parse(restored).value, MACHINE_SPECIFIC_KEYS)
    ensures r.Ok? ==> PrintsMerge(toml, current, restored, r.value)
    ensures r.Err? && r.error.NotATable? ==> Blames(MACHINE_SPECIFIC_KEYS, r.error)
    ensures r == Err(CurrentNotToml) <==> toml.parse(current).None?
    ensures r == Err(RestoredNotToml) <==> toml.parse(current).Some? && toml.parse(restored).None?
  {
    var cur, res := toml.parse(current), toml.parse(restored);
    if cur.None? { return Err(CurrentNotToml); }
    if res.None? { return Err(RestoredNotToml); }
    MachineKeysArePrefixFree();
    var merged := MergeParsed(cur.value, res.value, MACHINE_SPECIFIC_KEYS);
    match merged
    case Ok(m) => r := Ok(toml.print_(m));
    case Err(e) => r := Err(e);
  }
}
