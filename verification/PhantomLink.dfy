/**
 The lock section of `SnapshotRestore` (pkg/api/snapshot.go:529-587): any number of
 restores of one snapshot share a single phantom symlink. Each process runs its steps in
 order; the processes interleave in any way.
 */
module PhantomLink {
  import opened Options

  type Pid = nat

  /** The rootfs copy of one VM that one process is restoring. */
  datatype Rootfs = Rootfs(owner: Pid, vm: nat)

  /** Where a process stands. */
  datatype Pc =
    | Outside     // before or between lock sections
    | Opened      // the lock file is open; waiting for the lock
    | Ready       // about to remove the old link
    | Unlinked    // old link removed
    | Linked      // link created, about to load
    | Releasing   // past the load, or past its error
    | Aborting    // past a remove or symlink error
    | Done        // returned from SnapshotRestore, or dead

  /** `locked`: this process obtained the lock for its current section. */
  datatype Proc = Proc(pc: Pc, rootfs: Rootfs, locked: bool)

  datatype State = State(procs: map<Pid, Proc>, holder: Option<Pid>, link: Option<Rootfs>)

  /** The processes for which opening the lock file, and obtaining the lock, never fails. */
  datatype Config = Config(pids: set<Pid>, opens: set<Pid>, obtains: set<Pid>)

  datatype Action =
    | Open(p: Pid, vm: nat, ok: bool)  // os.OpenFile on the lock file; its error is not fatal
    | Lock(p: Pid, ok: bool)           // syscall.Flock: blocks while another holds it; its error is discarded
    | Remove(p: Pid, ok: bool)
    | Symlink(p: Pid, ok: bool)
    | Load(p: Pid, ok: bool)     // LoadSnapshot reads the link
    | Unlock(p: Pid)
    | Crash(p: Pid)              // the kernel drops the lock of a dead process

  function Init(cfg: Config): State {
    State(map p | p in cfg.pids :: Proc(Outside, Rootfs(p, 0), false), None, None)
  }

  predicate InSection(pr: Proc) {
    pr.pc == Ready || pr.pc == Unlinked || pr.pc == Linked || pr.pc == Releasing || pr.pc == Aborting
  }

  predicate Enabled(cfg: Config, s: State, a: Action) {
    && a.p in s.procs
    && var pc := s.procs[a.p].pc;
       match a
       case Open(p, _, ok) => pc == Outside && (ok || p !in cfg.opens)
       case Lock(p, ok) => pc == Opened && (if ok then s.holder == None else p !in cfg.obtains)
       case Remove(_, _) => pc == Ready
       case Symlink(_, ok) => pc == Unlinked && (ok ==> s.link == None)  // fails when the name exists
       case Load(_, _) => pc == Linked
       case Unlock(_) => pc == Releasing || pc == Aborting
       case Crash(_) => pc != Done
  }

  function Goto(s: State, p: Pid, pc: Pc): State
    requires p in s.procs
  {
    s.(procs := s.procs[p := s.procs[p].(pc := pc)])
  }

  function Freed(s: State, p: Pid): State {
    s.(holder := if s.holder == Some(p) then None else s.holder)
  }

  function Apply(cfg: Config, s: State, a: Action): State
    requires Enabled(cfg, s, a)
  {
    match a
    case Open(p, vm, ok) =>
      s.(procs := s.procs[p := Proc(if ok then Opened else Ready, Rootfs(p, vm), false)])
    case Lock(p, ok) =>
      var s' := s.(procs := s.procs[p := s.procs[p].(pc := Ready, locked := ok)]);
      if ok then s'.(holder := Some(p)) else s'
    case Remove(p, ok) => if ok then Goto(s, p, Unlinked).(link := None) else Goto(s, p, Aborting)
    case Symlink(p, ok) => if ok then Goto(s, p, Linked).(link := Some(s.procs[p].rootfs)) else Goto(s, p, Aborting)
    case Load(p, _) => Goto(s, p, Releasing)
    case Unlock(p) => Freed(Goto(s, p, if s.procs[p].pc == Releasing then Outside else Done), p)
    case Crash(p) => Freed(Goto(s, p, Done), p)
  }

  /** A load finds the link pointing at the loading VM's own rootfs. */
  predicate LoadsOwn(s: State, a: Action)
    requires a.p in s.procs
  {
    a.Load? ==> s.link == Some(s.procs[a.p].rootfs)
  }

  /** Along the actions, as far as they can run, every load finds its own rootfs. */
  predicate RunsSafely(cfg: Config, s: State, acts: seq<Action>)
    decreases |acts|
  {
    acts == [] || !Enabled(cfg, s, acts[0]) ||
      (LoadsOwn(s, acts[0]) && RunsSafely(cfg, Apply(cfg, s, acts[0]), acts[1..]))
  }

  /** Every interleaving is safe. */
  ghost predicate AlwaysSafe(cfg: Config) {
    forall acts :: RunsSafely(cfg, Init(cfg), acts)
  }

  /** Everybody surely takes the lock, or there is nobody to meet. */
  predicate Guarded(cfg: Config) {
    cfg.pids <= cfg.opens * cfg.obtains || forall p, q | p in cfg.pids && q in cfg.pids :: p == q
  }

  /** What one process may rely on. */
  predicate ProcInv(cfg: Config, s: State, p: Pid, pr: Proc) {
    && pr.rootfs.owner == p
    && (InSection(pr) && p in cfg.opens && p in cfg.obtains ==> pr.locked)
    && (InSection(pr) && pr.locked ==> s.holder == Some(p))
    && (pr.pc == Unlinked ==> s.link == None)
    && (pr.pc == Linked ==> s.link == Some(pr.rootfs))
  }

  /** What every step keeps. */
  ghost predicate Inv(cfg: Config, s: State) {
    && s.procs.Keys == cfg.pids
    && (forall p <- s.procs :: ProcInv(cfg, s, p, s.procs[p]))
    && (s.holder.Some? ==> s.holder.value in s.procs && InSection(s.procs[s.holder.value]))
  }

  /** In a guarded configuration the section excludes. */
  lemma Alone(cfg: Config, s: State, p: Pid, q: Pid)
    requires Guarded(cfg) && Inv(cfg, s) && p in s.procs && q in s.procs
    requires InSection(s.procs[p]) && InSection(s.procs[q])
    ensures p == q
  {
    assert ProcInv(cfg, s, p, s.procs[p]) && ProcInv(cfg, s, q, s.procs[q]);
  }

  lemma StepKeepsProcInv(cfg: Config, s: State, a: Action, q: Pid)
    requires Guarded(cfg) && Inv(cfg, s) && Enabled(cfg, s, a) && q in s.procs
    ensures var s' := Apply(cfg, s, a); q in s'.procs && ProcInv(cfg, s', q, s'.procs[q])
  {
    assert ProcInv(cfg, s, q, s.procs[q]) && ProcInv(cfg, s, a.p, s.procs[a.p]);
    if InSection(s.procs[a.p]) && InSection(s.procs[q]) {
      Alone(cfg, s, a.p, q);
    }
    hide Guarded, Inv;
  }

  lemma StepKeepsInv(cfg: Config, s: State, a: Action)
    requires Guarded(cfg) && Inv(cfg, s) && Enabled(cfg, s, a)
    ensures Inv(cfg, Apply(cfg, s, a)) && LoadsOwn(s, a)
  {
    var s' := Apply(cfg, s, a);
    assert s'.procs.Keys == s.procs.Keys;
    forall q | q in s'.procs ensures ProcInv(cfg, s', q, s'.procs[q]) {
      StepKeepsProcInv(cfg, s, a, q);
    }
    assert ProcInv(cfg, s, a.p, s.procs[a.p]);
    hide Guarded, ProcInv;
  }

  lemma {:induction false} GuardedRunsSafely(cfg: Config, s: State, acts: seq<Action>)
    requires Guarded(cfg) && Inv(cfg, s)
    ensures RunsSafely(cfg, s, acts)
    decreases |acts|
  {
    if acts != [] && Enabled(cfg, s, acts[0]) {
      StepKeepsInv(cfg, s, acts[0]);
      GuardedRunsSafely(cfg, Apply(cfg, s, acts[0]), acts[1..]);
    }
  }

  /** How a process that can fail to lock gets into its section without the lock. */
  function EnterUnlocked(cfg: Config, p: Pid): seq<Action> {
    if p !in cfg.opens then [Open(p, 0, false)] else [Open(p, 0, true), Lock(p, false)]
  }

  /** Locked, `q` makes its link; unlocked, `p` replaces it; `q` loads. */
  function Intruding(cfg: Config, p: Pid, q: Pid): seq<Action> {
    [Open(q, 0, true), Lock(q, true), Remove(q, true), Symlink(q, true)]
    + (EnterUnlocked(cfg, p) + [Remove(p, true), Symlink(p, true), Load(q, true)])
  }

  lemma RunStep(cfg: Config, s: State, a: Action, rest: seq<Action>)
    requires Enabled(cfg, s, a)
    ensures RunsSafely(cfg, s, [a] + rest) ==> RunsSafely(cfg, Apply(cfg, s, a), rest)
  {
    assert ([a] + rest)[1..] == rest;
  }

  /** Inside its section beside `q`, whose link is made, `p` redirects the link and `q` loads `p`'s rootfs. */
  lemma IntruderWins(cfg: Config, s: State, p: Pid, q: Pid)
    requires p != q && p in s.procs && q in s.procs
    requires s.procs[p].pc == Ready && s.procs[p].rootfs.owner == p
    requires s.procs[q].pc == Linked && s.procs[q].rootfs.owner == q
    ensures !RunsSafely(cfg, s, [Remove(p, true), Symlink(p, true), Load(q, true)])
  {
    var a4, a5, a6 := Remove(p, true), Symlink(p, true), Load(q, true);
    var s4 := Apply(cfg, s, a4);
    var s5 := Apply(cfg, s4, a5);
    assert !LoadsOwn(s5, a6);
    assert [a6][0] == a6 && !RunsSafely(cfg, s5, [a6]);
    RunStep(cfg, s4, a5, [a6]);
    RunStep(cfg, s, a4, [a5] + [a6]);
    assert [a4] + ([a5] + [a6]) == [a4, a5, a6];
  }

  lemma IntruderEnters(cfg: Config, s: State, p: Pid, q: Pid)
    requires p != q && p in s.procs && q in s.procs && p !in cfg.opens * cfg.obtains
    requires s.procs[p].pc == Outside && s.procs[q].pc == Linked && s.procs[q].rootfs.owner == q
    ensures !RunsSafely(cfg, s, EnterUnlocked(cfg, p) + [Remove(p, true), Symlink(p, true), Load(q, true)])
  {
    var tail := [Remove(p, true), Symlink(p, true), Load(q, true)];
    if p !in cfg.opens {
      var a := Open(p, 0, false);
      IntruderWins(cfg, Apply(cfg, s, a), p, q);
      RunStep(cfg, s, a, tail);
    } else {
      var a, b := Open(p, 0, true), Lock(p, false);
      var s1 := Apply(cfg, s, a);
      IntruderWins(cfg, Apply(cfg, s1, b), p, q);
      RunStep(cfg, s1, b, tail);
      RunStep(cfg, s, a, [b] + tail);
      assert [a, b] + tail == [a] + ([b] + tail);
    }
  }

  /** From the start, `q` can lock and make its link while the others are still outside. */
  lemma LinkMade(cfg: Config, q: Pid) returns (s1: State, s2: State, s3: State, s4: State)
    requires q in cfg.pids
    ensures var s := Init(cfg);
      && Enabled(cfg, s, Open(q, 0, true)) && s1 == Apply(cfg, s, Open(q, 0, true))
      && Enabled(cfg, s1, Lock(q, true)) && s2 == Apply(cfg, s1, Lock(q, true))
      && Enabled(cfg, s2, Remove(q, true)) && s3 == Apply(cfg, s2, Remove(q, true))
      && Enabled(cfg, s3, Symlink(q, true)) && s4 == Apply(cfg, s3, Symlink(q, true))
    ensures q in s4.procs && s4.procs[q].pc == Linked && s4.procs[q].rootfs.owner == q
    ensures forall p <- cfg.pids :: p != q ==> p in s4.procs && s4.procs[p].pc == Outside
  {
    s1 := Apply(cfg, Init(cfg), Open(q, 0, true));
    s2 := Apply(cfg, s1, Lock(q, true));
    s3 := Apply(cfg, s2, Remove(q, true));
    s4 := Apply(cfg, s3, Symlink(q, true));
  }

  lemma UnguardedRunsUnsafely(cfg: Config, p: Pid, q: Pid)
    requires p in cfg.pids && q in cfg.pids && p != q && p !in cfg.opens * cfg.obtains
    ensures !RunsSafely(cfg, Init(cfg), Intruding(cfg, p, q))
  {
    hide RunsSafely, EnterUnlocked, Apply, Enabled, Init;
    var a, b, c, d := Open(q, 0, true), Lock(q, true), Remove(q, true), Symlink(q, true);
    var tail := EnterUnlocked(cfg, p) + [Remove(p, true), Symlink(p, true), Load(q, true)];
    var s1, s2, s3, s4 := LinkMade(cfg, q);
    IntruderEnters(cfg, s4, p, q);
    RunStep(cfg, s3, d, tail);
    RunStep(cfg, s2, c, [d] + tail);
    RunStep(cfg, s1, b, [c] + ([d] + tail));
    RunStep(cfg, Init(cfg), a, [b] + ([c] + ([d] + tail)));
    assert [a, b, c, d] + tail == [a] + ([b] + ([c] + ([d] + tail)));
  }

  /**
   Every interleaving of the restores is safe exactly when no process can fail to open the lock
   file or to obtain the lock, or there is at most one process: both errors are ignored, so one
   process without the lock can redirect another's link before it loads.
   */
  lemma SafeExactlyWhenGuarded(cfg: Config)
    ensures AlwaysSafe(cfg) <==> Guarded(cfg)
  {
    if Guarded(cfg) {
      forall acts ensures RunsSafely(cfg, Init(cfg), acts) {
        GuardedRunsSafely(cfg, Init(cfg), acts);
      }
    } else {
      var p :| p in cfg.pids && p !in cfg.opens * cfg.obtains;
      var q :| q in cfg.pids && q != p;
      UnguardedRunsUnsafely(cfg, p, q);
    }
  }

  function RunTo(cfg: Config, s: State, acts: seq<Action>): State
    decreases |acts|
  {
    if acts == [] || !Enabled(cfg, s, acts[0]) then s
    else RunTo(cfg, Apply(cfg, s, acts[0]), acts[1..])
  }

  /** What holds of the lock in every run, locks or no locks. */
  ghost predicate LockInv(cfg: Config, s: State) {
    && s.procs.Keys == cfg.pids
    && (forall p <- s.procs :: InSection(s.procs[p]) && s.procs[p].locked <==> s.holder == Some(p))
    && (s.holder.Some? ==> s.holder.value in s.procs)
  }

  lemma {:induction false} RunKeepsLockInv(cfg: Config, s: State, acts: seq<Action>)
    requires LockInv(cfg, s)
    ensures LockInv(cfg, RunTo(cfg, s, acts))
    decreases |acts|
  {
    if acts != [] && Enabled(cfg, s, acts[0]) {
      RunKeepsLockInv(cfg, Apply(cfg, s, acts[0]), acts[1..]);
    }
  }

  /**
   In every reachable state: a process that has left its section (by success or by a remove,
   symlink or load error, or by dying) does not hold the lock, at most one locking process
   is inside, and somebody can move as long as anybody is on the way.
   */
  lemma LockReleasedOnEveryWayOut(cfg: Config, acts: seq<Action>)
    ensures var s := RunTo(cfg, Init(cfg), acts);
      && s.procs.Keys == cfg.pids
      && (forall p <- cfg.pids :: !InSection(s.procs[p]) ==> s.holder != Some(p))
      && (forall p, q | p in cfg.pids && q in cfg.pids && InSection(s.procs[p]) && InSection(s.procs[q])
            && s.procs[p].locked && s.procs[q].locked :: p == q)
      && ((exists p :: p in cfg.pids && s.procs[p].pc != Outside && s.procs[p].pc != Done) ==>
            exists a :: Enabled(cfg, s, a) && !a.Crash?)
  {
    RunKeepsLockInv(cfg, Init(cfg), acts);
    var s := RunTo(cfg, Init(cfg), acts);
    if p :| p in cfg.pids && s.procs[p].pc != Outside && s.procs[p].pc != Done {
      var r := if s.procs[p].pc == Opened && s.holder.Some? then s.holder.value else p;
      var pc := s.procs[r].pc;
      var a := if pc == Opened then Lock(r, true) else if pc == Ready then Remove(r, true)
        else if pc == Unlinked then Symlink(r, false) else if pc == Linked then Load(r, true) else Unlock(r);
      assert Enabled(cfg, s, a);
    }
  }
}
