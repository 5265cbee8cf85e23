/** Concurrent edits of `config.toml` by several processes.

  Every editor does the same thing: take the lock on `<canonical config path>.lock`, read the
  file, edit it in memory, write the result to the one temp file `<config>.tmp`, flush it, rename
  it over the config and release the lock.  The processes interleave at every one of these steps,
  any step can fail, and a process can die at any point.
*/
module ConfigLock {
  import opened Wrappers

  type Pid = nat

  type Text = string

  /** The closure run under the lock: None if it refuses (not TOML, a section that is no table). */
  type Edit = Text -> Option<Text>

  // ---- Which lock an edit takes ----

  type DirId = nat

  /** An entry of a directory, however the directory is spelled. */
  datatype Entry = Entry(dir: DirId, name: string)

  /** What a caller passes: some spelling of a directory, and a name in it. */
  datatype Spelling = Spelling(dir: string, name: string)

  /** The file system as an edit finds it: the directory each spelling leads to, the entry that
      following links from an entry ends at, and the entries that are files. */
  datatype FileTree = FileTree(dirs: string -> Option<DirId>, follow: Entry -> Entry, files: set<Entry>)

  /** Following links ends at a file, never at another link to one. */
  ghost predicate WellFormed(tree: FileTree) {
    forall e | e in tree.files :: tree.follow(e) == e
  }

  function Named(tree: FileTree, path: Spelling): Option<Entry> {
    match tree.dirs(path.dir) case Some(d) => Some(Entry(d, path.name)) case None => None
  }

  /** The file that the path resolves to, links followed; None if there is none yet. */
  function Canonical(tree: FileTree, path: Spelling): Option<Entry> {
    match Named(tree, path)
    case Some(e) => if tree.follow(e) in tree.files then Some(tree.follow(e)) else None
    case None => None
  }

  /** A lock file as the system knows it. */
  type LockId = Entry

  /** The sidecar of the canonical path or, if there is none yet, of the path as spelled.  None
      if there is no such directory: then the lock cannot be opened and the edit fails. */
  function LockOf(tree: FileTree, path: Spelling): Option<LockId> {
    match (Canonical(tree, path), Named(tree, path))
    case (Some(c), _) => Some(Entry(c.dir, c.name + ".lock"))
    case (None, Some(e)) => Some(Entry(e.dir, e.name + ".lock"))
    case (None, None) => None
  }

  /** Two spellings share a lock exactly when they resolve to the same file or, with no file yet,
      name the same entry.  One that resolves and one that does not never share one. */
  lemma LocksCoincide(tree: FileTree, p: Spelling, q: Spelling)
    requires WellFormed(tree) && LockOf(tree, p).Some? && LockOf(tree, q).Some?
    ensures LockOf(tree, p) == LockOf(tree, q) <==>
            if Canonical(tree, p).Some? || Canonical(tree, q).Some? then Canonical(tree, p) == Canonical(tree, q)
            else Named(tree, p) == Named(tree, q)
  {
    SuffixTellsNames(Home(tree, p).name, Home(tree, q).name);
  }

  function Home(tree: FileTree, path: Spelling): Entry
    requires LockOf(tree, path).Some?
  {
    if Canonical(tree, path).Some? then Canonical(tree, path).value else Named(tree, path).value
  }

  lemma SuffixTellsNames(a: string, b: string)
    ensures a + ".lock" == b + ".lock" <==> a == b
  {
    assert (a + ".lock")[..|a + ".lock"| - 5] == a && (b + ".lock")[..|b + ".lock"| - 5] == b;
  }

  /** An edit that has written the path's own entry leaves the next edit the same lock exactly if
      the path did not resolve before, as at the first write ever, or resolved to that entry.  Only
      writing over a link to a file changes the lock. */
  lemma WritingKeepsLock(before: FileTree, after: FileTree, path: Spelling)
    requires Named(before, path).Some? && Named(after, path) == Named(before, path)
    requires WellFormed(after) && Named(after, path).value in after.files
    ensures LockOf(after, path) == LockOf(before, path) <==>
            Canonical(before, path).None? || Canonical(before, path) == Named(before, path)
  {
    SuffixTellsNames(Home(before, path).name, Named(before, path).value.name);
  }

  /** The lock files each process may come to take: it derives the lock anew at every edit. */
  type Locks = map<Pid, set<LockId>>

  /** What the processes derive from their spellings in the file trees their edits find. */
  ghost function DerivedLocks(spellings: map<Pid, Spelling>, trees: seq<FileTree>): Locks {
    map p | p in spellings :: set t | t in trees && LockOf(t, spellings[p]).Some? :: LockOf(t, spellings[p]).value
  }

  /** No two processes ever take different locks. */
  predicate OneLock(locks: Locks) {
    forall p, q, l, m | p in locks && q in locks && p != q && l in locks[p] && m in locks[q] :: l == m
  }

  /** Editors whose paths all resolve to one file or, while it does not exist, name its entry, take
      one lock from before the first write on, whatever their spellings and links. */
  lemma OneFileOneLock(spellings: map<Pid, Spelling>, trees: seq<FileTree>, file: Entry)
    requires forall p, t | p in spellings && t in trees ::
               if Canonical(t, spellings[p]).Some? then Canonical(t, spellings[p]) == Some(file)
               else Named(t, spellings[p]) == Some(file)
    ensures OneLock(DerivedLocks(spellings, trees))
  {
    forall p, t | p in spellings && t in trees
      ensures LockOf(t, spellings[p]) == Some(Entry(file.dir, file.name + ".lock"))
    {
    }
  }

  // ---- The protocol ----

  /** How far a process is.  From `Locked` to `Finished` it holds its lock. */
  datatype Phase =
    | Idle
    | Locked(edit: Edit)
    | Loaded(edit: Edit, doc: Text)
    | Edited(edit: Edit, doc: Text, out: Text)
    | Writing(edit: Edit, doc: Text, out: Text, written: nat)
    | Synced(edit: Edit, doc: Text, out: Text)
    | Finished
    | Dead

  predicate Holding(ph: Phase) {
    !ph.Idle? && !ph.Dead?
  }

  /** The config, the shared temp file, who holds which lock file, and the edits renamed into
      place so far, in that order. */
  datatype World = World(
    config: Text,
    tmp: Option<Text>,
    phases: map<Pid, Phase>,
    held: map<LockId, Pid>,
    committed: seq<Edit>)

  datatype Action =
    | Acquire(p: Pid, edit: Edit, lock: LockId)
    | Read(p: Pid)
    | RunEdit(p: Pid)
    | OpenTmp(p: Pid)
    | Write(p: Pid, upTo: nat)
    | Sync(p: Pid)
    | Rename(p: Pid)
    | Fail(p: Pid, removed: bool)
    | Release(p: Pid)
    | Crash(p: Pid)

  /** `locks` gives the lock files each process may derive. */
  predicate Enabled(locks: Locks, w: World, a: Action) {
    && a.p in locks && a.p in w.phases
    && var ph := w.phases[a.p];
       match a
       case Acquire(p, _, lock) => ph.Idle? && lock in locks[p] && lock !in w.held
       case Read(_) => ph.Locked?
       case RunEdit(_) => ph.Loaded?
       case OpenTmp(_) => ph.Edited?
       case Write(_, n) => ph.Writing? && ph.written <= n <= |ph.out|
       case Sync(_) => ph.Writing? && ph.written == |ph.out|
       case Rename(_) => ph.Synced? && w.tmp.Some?
       case Fail(_, _) => Holding(ph)
       case Release(_) => ph.Finished?
       case Crash(_) => !ph.Dead?
  }

  function Without(held: map<LockId, Pid>, p: Pid): map<LockId, Pid> {
    map l | l in held && held[l] != p :: held[l]
  }

  function Step(locks: Locks, w: World, a: Action): World
    requires Enabled(locks, w, a)
  {
    var ph := w.phases[a.p];
    match a
    case Acquire(p, edit, lock) => w.(phases := w.phases[p := Locked(edit)], held := w.held[lock := p])
    case Read(p) => w.(phases := w.phases[p := Loaded(ph.edit, w.config)])
    case RunEdit(p) =>
      (match ph.edit(ph.doc)
       case Some(out) => w.(phases := w.phases[p := Edited(ph.edit, ph.doc, out)])
       case None => w.(phases := w.phases[p := Finished]))
    case OpenTmp(p) =>
      // created, or truncated if a dead process left one behind
      w.(phases := w.phases[p := Writing(ph.edit, ph.doc, ph.out, 0)], tmp := Some(""))
    case Write(p, n) => w.(phases := w.phases[p := ph.(written := n)], tmp := Some(ph.out[..n]))
    case Sync(p) => w.(phases := w.phases[p := Synced(ph.edit, ph.doc, ph.out)])
    case Rename(p) =>
      World(w.tmp.value, None, w.phases[p := Finished], w.held, w.committed + [ph.edit])
    case Fail(p, removed) =>
      // an I/O error: the temp file is removed if it was this process's and that works
      w.(phases := w.phases[p := Finished],
         tmp := if removed && (ph.Writing? || ph.Synced?) then None else w.tmp)
    case Release(p) => w.(phases := w.phases[p := Idle], held := Without(w.held, p))
    case Crash(p) =>
      // the system drops the lock, the temp file stays as it is
      w.(phases := w.phases[p := Dead], held := Without(w.held, p))
  }

  predicate Legal(locks: Locks, w: World, run: seq<Action>)
    decreases run
  {
    run == [] || (Enabled(locks, w, run[0]) && Legal(locks, Step(locks, w, run[0]), run[1..]))
  }

  function Execute(locks: Locks, w: World, run: seq<Action>): World
    requires Legal(locks, w, run)
    decreases run
  {
    if run == [] then w else Execute(locks, Step(locks, w, run[0]), run[1..])
  }

  /** Nobody has started yet; a torn temp file may be left from an earlier life. */
  function Start(locks: Locks, config: Text, leftover: Option<Text>): World {
    World(config, leftover, map p | p in locks :: Idle, map[], [])
  }

  /** The edits applied one after the other, each to what the previous one left. */
  function Replay(initial: Text, edits: seq<Edit>): Text {
    if edits == [] then initial
    else
      var before := Replay(initial, edits[..|edits| - 1]);
      match edits[|edits| - 1](before)
      case Some(after) => after
      case None => before
  }

  predicate Intact(initial: Text, w: World) {
    w.config == Replay(initial, w.committed)
  }

  predicate Exclusive(w: World) {
    forall p, q | p in w.phases && q in w.phases && Holding(w.phases[p]) && Holding(w.phases[q]) :: p == q
  }

  /** What a process believes about the files at each point of its turn. */
  predicate Consistent(w: World, ph: Phase) {
    match ph
    case Loaded(_, doc) => doc == w.config
    case Edited(edit, doc, out) => doc == w.config && edit(doc) == Some(out)
    case Writing(edit, doc, out, n) =>
      doc == w.config && edit(doc) == Some(out) && n <= |out| && w.tmp == Some(out[..n])
    case Synced(edit, doc, out) => doc == w.config && edit(doc) == Some(out) && w.tmp == Some(out)
    case _ => true
  }

  /** A process inside the critical section holds a lock it may take, and nobody else holds any. */
  ghost predicate Owned(locks: Locks, w: World) {
    && w.phases.Keys == locks.Keys
    && (forall l | l in w.held :: w.held[l] in locks && l in locks[w.held[l]] && Holding(w.phases[w.held[l]]))
    && (forall p | p in locks && Holding(w.phases[p]) :: exists l :: l in w.held && w.held[l] == p)
  }

  ghost predicate Inv(locks: Locks, initial: Text, w: World) {
    && Owned(locks, w)
    && Exclusive(w)
    && (forall p | p in locks :: Consistent(w, w.phases[p]))
    && Intact(initial, w)
  }

  /** A step concerns its own process, and changes who holds what only where it enters or leaves
      the critical section. */
  lemma StepFrame(locks: Locks, w: World, a: Action)
    requires Enabled(locks, w, a)
    ensures var w' := Step(locks, w, a);
            && w'.phases.Keys == w.phases.Keys
            && (forall q | q in w.phases && q != a.p :: w'.phases[q] == w.phases[q])
            && (a.Acquire? ==> Holding(w'.phases[a.p]) && w'.held == w.held[a.lock := a.p])
            && (a.Release? || a.Crash? ==> !Holding(w'.phases[a.p]) && w'.held == Without(w.held, a.p))
            && (!a.Acquire? && !a.Release? && !a.Crash? ==>
                  Holding(w.phases[a.p]) && Holding(w'.phases[a.p]) && w'.held == w.held)
  {
  }

  lemma LocksStayOwned(locks: Locks, w: World, a: Action)
    requires Enabled(locks, w, a) && Owned(locks, w)
    ensures Owned(locks, Step(locks, w, a))
  {
    var w' := Step(locks, w, a);
    StepFrame(locks, w, a);
    forall p | p in locks && Holding(w'.phases[p]) ensures exists l :: l in w'.held && w'.held[l] == p {
      if a.Acquire? && a.p == p {
        assert a.lock in w'.held;
      } else {
        var l :| l in w.held && w.held[l] == p;
        assert l in w'.held && w'.held[l] == p;
      }
    }
  }

  lemma OwnersAreExclusive(locks: Locks, w: World)
    requires OneLock(locks) && Owned(locks, w)
    ensures Exclusive(w)
  {
    forall p, q | p in w.phases && q in w.phases && Holding(w.phases[p]) && Holding(w.phases[q]) ensures p == q {
      var l :| l in w.held && w.held[l] == p;
      var m :| m in w.held && w.held[m] == q;
    }
  }

  lemma ActorStaysConsistent(locks: Locks, w: World, a: Action)
    requires Enabled(locks, w, a) && Consistent(w, w.phases[a.p])
    ensures Consistent(Step(locks, w, a), Step(locks, w, a).phases[a.p])
  {
    if a.Sync? { assert w.phases[a.p].out[..|w.phases[a.p].out|] == w.phases[a.p].out; }
  }

  lemma StepStaysIntact(locks: Locks, initial: Text, w: World, a: Action)
    requires Enabled(locks, w, a) && Consistent(w, w.phases[a.p]) && Intact(initial, w)
    ensures Intact(initial, Step(locks, w, a))
  {
    var w' := Step(locks, w, a);
    if a.Rename? { assert w'.committed[..|w'.committed| - 1] == w.committed; }
  }

  lemma StepKeepsInv(locks: Locks, initial: Text, w: World, a: Action)
    requires OneLock(locks) && Inv(locks, initial, w) && Enabled(locks, w, a)
    ensures Inv(locks, initial, Step(locks, w, a))
  {
    var w' := Step(locks, w, a);
    StepFrame(locks, w, a);
    LocksStayOwned(locks, w, a);
    OwnersAreExclusive(locks, w');
    ActorStaysConsistent(locks, w, a);
    StepStaysIntact(locks, initial, w, a);
    forall q | q in locks && q != a.p ensures Consistent(w', w'.phases[q]) {
      assert Consistent(w, w.phases[q]);
      assert Holding(w.phases[q]) ==> !Holding(w.phases[a.p]) && w'.config == w.config && w'.tmp == w.tmp;
    }
  }

  /** Over every interleaving, with failures and deaths anywhere: at most one process is inside
      the critical section, and the config is the initial one with the committed edits applied in
      commit order, so no update is lost and no torn temp file reaches the config's name. */
  lemma {:induction false} NoUpdateIsLost(locks: Locks, initial: Text, w: World, run: seq<Action>)
    requires OneLock(locks) && Inv(locks, initial, w) && Legal(locks, w, run)
    ensures Inv(locks, initial, Execute(locks, w, run))
    decreases run
  {
    if run != [] {
      StepKeepsInv(locks, initial, w, run[0]);
      NoUpdateIsLost(locks, initial, Step(locks, w, run[0]), run[1..]);
    }
  }

  lemma StartIsInvariant(locks: Locks, initial: Text, leftover: Option<Text>)
    ensures Inv(locks, initial, Start(locks, initial, leftover))
  {
  }

  /** A config reader that never takes the lock also sees only whole versions: the config after a
      step is the one before it, or the complete output of one edit of it. */
  lemma EveryStepIsAtomic(locks: Locks, initial: Text, w: World, a: Action)
    requires OneLock(locks) && Inv(locks, initial, w) && Enabled(locks, w, a)
    ensures var w' := Step(locks, w, a);
            || (w'.config == w.config && w'.committed == w.committed)
            || (a.Rename? && w'.committed == w.committed + [w.phases[a.p].edit]
                && w.phases[a.p].edit(w.config) == Some(w'.config))
  {
    assert Consistent(w, w.phases[a.p]);
  }

  // ---- Two spellings of one path ----

  function Append(c: char): Edit {
    (t: Text) => Some(t + [c])
  }

  /** Both processes read and edit ... */
  function BothEdit(p: Pid, q: Pid, l: LockId, m: LockId): seq<Action> {
    [Acquire(p, Append('p'), l), Acquire(q, Append('q'), m), Read(p), Read(q), RunEdit(p), RunEdit(q)]
  }

  /** ... and each commits in turn, the second discarding the first one's update. */
  function Commit(p: Pid, length: nat): seq<Action> {
    [OpenTmp(p)] + ([Write(p, length)] + ([Sync(p)] + [Rename(p)]))
  }

  lemma {:induction false} ExecuteConcat(locks: Locks, w: World, a: seq<Action>, b: seq<Action>)
    requires Legal(locks, w, a) && Legal(locks, Execute(locks, w, a), b)
    ensures Legal(locks, w, a + b) && Execute(locks, w, a + b) == Execute(locks, Execute(locks, w, a), b)
    decreases a
  {
    if a == [] {
      assert a + b == b;
    } else {
      assert (a + b)[0] == a[0] && (a + b)[1..] == a[1..] + b;
      ExecuteConcat(locks, Step(locks, w, a[0]), a[1..], b);
    }
  }

  lemma ExecuteCons(locks: Locks, w: World, a: Action, rest: seq<Action>)
    requires Enabled(locks, w, a) && Legal(locks, Step(locks, w, a), rest)
    ensures Legal(locks, w, [a] + rest) && Execute(locks, w, [a] + rest) == Execute(locks, Step(locks, w, a), rest)
  {
    assert ([a] + rest)[1..] == rest;
  }

  lemma CommitCommits(locks: Locks, w: World, p: Pid)
    requires p in locks && p in w.phases && w.phases[p].Edited?
    ensures var run := Commit(p, |w.phases[p].out|);
            && Legal(locks, w, run)
            && Execute(locks, w, run)
            == World(w.phases[p].out, None, w.phases[p := Finished], w.held, w.committed + [w.phases[p].edit])
  {
    var out := w.phases[p].out;
    var w1 := Step(locks, w, OpenTmp(p));
    var w2 := Step(locks, w1, Write(p, |out|));
    assert out[..|out|] == out;
    var w3 := Step(locks, w2, Sync(p));
    var w4 := Step(locks, w3, Rename(p));
    assert w4.phases == w.phases[p := Finished];
    ExecuteCons(locks, w3, Rename(p), []);
    ExecuteCons(locks, w2, Sync(p), [Rename(p)]);
    ExecuteCons(locks, w1, Write(p, |out|), [Sync(p), Rename(p)]);
    ExecuteCons(locks, w, OpenTmp(p), [Write(p, |out|), Sync(p), Rename(p)]);
  }

  lemma BothCanEdit(locks: Locks, w: World, p: Pid, q: Pid, l: LockId, m: LockId)
    requires p in locks && q in locks && p != q && l in locks[p] && m in locks[q] && l != m
    requires p in w.phases && q in w.phases && w.phases[p].Idle? && w.phases[q].Idle? && w.held == map[]
    ensures Legal(locks, w, BothEdit(p, q, l, m))
    ensures var e := Execute(locks, w, BothEdit(p, q, l, m));
            && e.config == w.config && e.committed == w.committed
            && p in e.phases && e.phases[p] == Edited(Append('p'), w.config, w.config + "p")
            && q in e.phases && e.phases[q] == Edited(Append('q'), w.config, w.config + "q")
  {
    var w1 := Step(locks, w, Acquire(p, Append('p'), l));
    var w2 := Step(locks, w1, Acquire(q, Append('q'), m));
    var w3 := Step(locks, w2, Read(p));
    var w4 := Step(locks, w3, Read(q));
    var w5 := Step(locks, w4, RunEdit(p));
    var w6 := Step(locks, w5, RunEdit(q));
    var rest := [Read(p), Read(q), RunEdit(p), RunEdit(q)];
    ExecuteCons(locks, w5, RunEdit(q), []);
    ExecuteCons(locks, w4, RunEdit(p), [RunEdit(q)]);
    ExecuteCons(locks, w3, Read(q), [RunEdit(p), RunEdit(q)]);
    ExecuteCons(locks, w2, Read(p), [Read(q), RunEdit(p), RunEdit(q)]);
    ExecuteCons(locks, w1, Acquire(q, Append('q'), m), rest);
    ExecuteCons(locks, w, Acquire(p, Append('p'), l), [Acquire(q, Append('q'), m)] + rest);
    assert BothEdit(p, q, l, m) == [Acquire(p, Append('p'), l)] + ([Acquire(q, Append('q'), m)] + rest);
  }

  /** Two edited processes commit one after the other: the config is what the second wrote. */
  lemma SecondCommitWins(locks: Locks, w: World, p: Pid, q: Pid, n: nat)
    requires p != q && p in locks && p in w.phases && w.phases[p].Edited? && |w.phases[p].out| == n
    requires q in locks && q in w.phases && w.phases[q].Edited? && |w.phases[q].out| == n
    ensures Legal(locks, w, Commit(p, n) + Commit(q, n))
    ensures var end := Execute(locks, w, Commit(p, n) + Commit(q, n));
            end.config == w.phases[q].out && end.committed == w.committed + [w.phases[p].edit] + [w.phases[q].edit]
  {
    CommitCommits(locks, w, p);
    CommitCommits(locks, Execute(locks, w, Commit(p, n)), q);
    ExecuteConcat(locks, w, Commit(p, n), Commit(q, n));
  }

  lemma ReplayBoth(initial: Text)
    ensures Replay(initial, [Append('p'), Append('q')]) == initial + "p" + "q"
  {
    var edits := [Append('p'), Append('q')];
    assert edits[..1] == [Append('p')] && [Append('p')][..0] == [];
    assert Replay(initial, [Append('p')]) == initial + "p";
  }

  lemma DifferentLocksLoseAnUpdate(locks: Locks, initial: Text, leftover: Option<Text>, p: Pid, q: Pid,
                                   l: LockId, m: LockId)
      returns (run: seq<Action>)
    requires p in locks && q in locks && p != q && l in locks[p] && m in locks[q] && l != m
    ensures Legal(locks, Start(locks, initial, leftover), run)
    ensures var end := Execute(locks, Start(locks, initial, leftover), run);
            end.config == initial + "q" && Replay(initial, end.committed) == initial + "p" + "q"
  {
    var w, n := Start(locks, initial, leftover), |initial| + 1;
    var both := BothEdit(p, q, l, m);
    BothCanEdit(locks, w, p, q, l, m);
    SecondCommitWins(locks, Execute(locks, w, both), p, q, n);
    ExecuteConcat(locks, w, both, Commit(p, n) + Commit(q, n));
    run := both + (Commit(p, n) + Commit(q, n));
    assert Execute(locks, w, run).committed == [Append('p'), Append('q')];
    ReplayBoth(initial);
  }

  /** The config is safe over every run exactly when no two editors ever take different locks. */
  lemma SafeExactlyWhenLocksCoincide(locks: Locks, initial: Text, leftover: Option<Text>)
    ensures OneLock(locks) <==>
            forall run | Legal(locks, Start(locks, initial, leftover), run) ::
              Intact(initial, Execute(locks, Start(locks, initial, leftover), run))
  {
    var w := Start(locks, initial, leftover);
    if OneLock(locks) {
      StartIsInvariant(locks, initial, leftover);
      forall run | Legal(locks, w, run) ensures Intact(initial, Execute(locks, w, run)) {
        NoUpdateIsLost(locks, initial, w, run);
      }
    } else {
      var p, q, l, m :| p in locks && q in locks && p != q && l in locks[p] && m in locks[q] && l != m;
      var run := DifferentLocksLoseAnUpdate(locks, initial, leftover, p, q, l, m);
      assert |initial + "q"| != |initial + "p" + "q"|;
      assert !Intact(initial, Execute(locks, w, run));
    }
  }

  /** In terms of the paths: the config is safe exactly if every spelling leads to the same lock in
      every state of the file system in which an edit can find it. */
  lemma SafeExactlyWhenSpellingsAgree(spellings: map<Pid, Spelling>, trees: seq<FileTree>, initial: Text,
                                      leftover: Option<Text>)
    ensures var locks := DerivedLocks(spellings, trees);
            (forall p, q, s, t | p in spellings && q in spellings && p != q && s in trees && t in trees ::
               LocksAgree(LockOf(s, spellings[p]), LockOf(t, spellings[q])))
            <==>
            forall run | Legal(locks, Start(locks, initial, leftover), run) ::
              Intact(initial, Execute(locks, Start(locks, initial, leftover), run))
  {
    var locks := DerivedLocks(spellings, trees);
    SafeExactlyWhenLocksCoincide(locks, initial, leftover);
    if OneLock(locks) {
      forall p, q, s, t | p in spellings && q in spellings && p != q && s in trees && t in trees
        ensures LocksAgree(LockOf(s, spellings[p]), LockOf(t, spellings[q]))
      {
        var l, m := LockOf(s, spellings[p]), LockOf(t, spellings[q]);
        if l.Some? && m.Some? {
          assert l.value in locks[p] && m.value in locks[q];
        }
      }
    }
  }

  /** The same lock, unless an edit cannot be made at all. */
  predicate LocksAgree(l: Option<LockId>, m: Option<LockId>) {
    l == m || l.None? || m.None?
  }
}
