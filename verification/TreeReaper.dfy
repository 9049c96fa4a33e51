/** The Linux helper that waits for, or kills, a whole process tree, after adapters/native/_tree_reaper.py:
    the system as a state machine over its steps, and the helper's loops over any run of it. */
module TreeReaper {
  import opened Descendants

  // ----- the system

  type Code = c: nat | c < 256

  type Signal = n: nat | 1 <= n <= 126 witness 1

  datatype End = Exited(code: Code) | Signaled(signal: Signal, dumped: bool)

  /** The code reported for a process: its own, or the negated number of the signal it died of. */
  predicate Tells(code: int, end: End) {
    match end
    case Exited(own) => code == own
    case Signaled(signal, _) => code + signal == 0
  }

  /** The status in which the kernel packs an end. */
  function WaitStatus(end: End): nat {
    match end
    case Exited(code) => code * 256
    case Signaled(signal, dumped) => if dumped then signal + 128 else signal
  }

  /** `os.waitstatus_to_exitcode`. */
  function ExitCode(status: nat): int {
    if status % 128 == 0 then status / 256 % 256 else -(status % 128)
  }

  /** What is unpacked from the status tells the end. */
  lemma ExitCodeTells(end: End)
    ensures Tells(ExitCode(WaitStatus(end)), end)
  {
  }

  datatype Status = Running | Zombie(end: End)

  datatype Process = Process(parent: Pid, status: Status, subreaper: bool)

  /** The process table, how often each pid was handed out, the tree (the pids whose last process is the
      started program or was forked below it, alive or gone) and how the last process of each pid that
      ended did. */
  datatype System = System(procs: map<Pid, Process>, births: map<Pid, nat>, tree: set<Pid>, ends: map<Pid, End>)

  /** What the processes other than the helper can do. A forked child hangs under its parent, or, made
      with CLONE_PARENT, beside it. An exit names the process that adopts the orphans, `steps` up. */
  datatype Event =
    | Fork(parent: Pid, child: Pid, sibling: bool)
    | SetSubreaper(pid: Pid, on: bool)
    | Exit(pid: Pid, end: End, adopter: Pid, steps: nat)
    | Reap(pid: Pid)

  predicate IsRunning(s: System, pid: Pid) {
    pid in s.procs && s.procs[pid].status.Running?
  }

  /** The nearest ancestor that is a subreaper, `steps` parent steps up: it adopts a process's orphans. */
  predicate IsNearestReaper(s: System, pid: Pid, adopter: Pid, steps: nat)
    decreases steps
  {
    && steps >= 1
    && pid in s.procs
    && IsRunning(s, s.procs[pid].parent)
    && if steps == 1
       then adopter == s.procs[pid].parent && s.procs[adopter].subreaper
       else !s.procs[s.procs[pid].parent].subreaper && IsNearestReaper(s, s.procs[pid].parent, adopter, steps - 1)
  }

  /** The pid can be handed out: nobody bears it and nobody hangs under it. */
  predicate IsFree(s: System, pid: Pid) {
    pid !in s.procs && forall p :: p in s.procs ==> s.procs[p].parent != pid
  }

  predicate Enabled(me: Pid, s: System, e: Event) {
    match e
    case Fork(parent, child, sibling) =>
      parent != me && IsRunning(s, parent) && IsFree(s, child) && (sibling ==> s.procs[parent].parent in s.procs)
    case SetSubreaper(pid, _) => pid != me && IsRunning(s, pid)
    case Exit(pid, _, adopter, steps) =>
      pid != me && IsRunning(s, pid) && adopter != pid && IsNearestReaper(s, pid, adopter, steps)
    case Reap(pid) => pid in s.procs && s.procs[pid].status.Zombie? && s.procs[pid].parent != me
  }

  function Orphaned(pid: Pid, adopter: Pid, p: Process): Process {
    if p.parent == pid then p.(parent := adopter) else p
  }

  /** The pid is handed out once more. */
  function Born(births: map<Pid, nat>, pid: Pid): map<Pid, nat> {
    births[pid := if pid in births then births[pid] + 1 else 1]
  }

  function Apply(s: System, e: Event): System {
    match e
    case Fork(parent, child, sibling) =>
      if parent !in s.procs then s else
      var above := if sibling then s.procs[parent].parent else parent;
      s.(procs := s.procs[child := Process(above, Running, false)],
         births := Born(s.births, child),
         tree := if parent in s.tree then s.tree + {child} else s.tree - {child})
    case SetSubreaper(pid, on) =>
      if pid !in s.procs then s else s.(procs := s.procs[pid := s.procs[pid].(subreaper := on)])
    case Exit(pid, end, adopter, _) =>
      s.(procs := map p | p in s.procs ::
           if p == pid then s.procs[p].(status := Zombie(end)) else Orphaned(pid, adopter, s.procs[p]),
         ends := s.ends[pid := end])
    case Reap(pid) => s.(procs := s.procs - {pid})
  }

  // ----- what every step keeps

  function Parents(s: System): map<Pid, Pid> {
    map p | p in s.procs :: s.procs[p].parent
  }

  ghost predicate Alive(me: Pid, s: System) {
    && IsRunning(s, me) && s.procs[me].subreaper
    && me !in s.tree
    && s.procs.Keys <= s.births.Keys && s.tree <= s.births.Keys
    && (forall p :: p in s.procs ==> s.procs[p].parent in s.births)
    && (forall p :: p in s.births ==> s.births[p] >= 1)
    && (forall p :: p in s.procs && s.procs[p].status.Zombie? ==> p in s.ends && s.ends[p] == s.procs[p].status.end)
  }

  ghost predicate HangsTogether(me: Pid, s: System) {
    && (forall p :: p in s.procs ==> (p in s.tree <==> s.procs[p].parent in s.tree + {me}))
    && (forall p :: p in s.procs && p in s.tree ==> IsRunning(s, s.procs[p].parent))
  }

  /** The helper lives and adopts orphans. The tree hangs together under it: a process is of the tree
      exactly when its parent is, or is the helper; that parent is running; and every process of the tree
      comes to the helper by parent steps. */
  ghost predicate Inv(me: Pid, s: System) {
    && Alive(me, s)
    && HangsTogether(me, s)
    && (forall p :: p in s.tree && p in s.procs ==> IsDescendant(Parents(s), p, me))
  }

  /** From the tree, the nearest subreaper is in the tree or the helper; from outside, it is outside. */
  lemma {:induction false} AdopterIsOfTheSameSide(me: Pid, s: System, pid: Pid, adopter: Pid, steps: nat)
    requires Alive(me, s) && HangsTogether(me, s)
    requires pid != me && IsNearestReaper(s, pid, adopter, steps)
    ensures pid in s.tree <==> adopter in s.tree + {me}
    ensures IsRunning(s, adopter)
    decreases steps
  {
    var q := s.procs[pid].parent;
    if steps > 1 {
      AdopterIsOfTheSameSide(me, s, q, adopter, steps - 1);
    }
  }

  /** Climbing to the helper passes the adopter, or stops at the helper. */
  lemma {:induction false} AdopterIsOnTheWay(me: Pid, s: System, pid: Pid, n: nat, adopter: Pid, steps: nat)
    requires Alive(me, s)
    requires pid != me && Reaches(Parents(s), pid, me, n) && IsNearestReaper(s, pid, adopter, steps)
    ensures steps <= n && Reaches(Parents(s), adopter, me, n - steps)
    decreases steps
  {
    if steps > 1 {
      AdopterIsOnTheWay(me, s, s.procs[pid].parent, n - 1, adopter, steps - 1);
    }
  }

  /** After an exit, whoever climbed to the helper still does: over the adopter, if it was orphaned. */
  lemma {:induction false} ClimbAfterExit(me: Pid, s: System, e: Event, p: Pid, n: nat)
    requires Inv(me, s) && e.Exit? && Enabled(me, s, e)
    requires p in s.procs && Reaches(Parents(s), p, me, n)
    ensures exists m: nat :: Reaches(Parents(Apply(s, e)), p, me, m)
    decreases n
  {
    var s' := Apply(s, e);
    if n == 0 {
      assert Reaches(Parents(s'), p, me, 0);
    } else {
      var up := s.procs[p].parent;
      var up', n' := up, n - 1;
      if p != e.pid && up == e.pid {
        AdopterIsOnTheWay(me, s, e.pid, n - 1, e.adopter, e.steps);
        up', n' := e.adopter, n - 1 - e.steps;
      }
      if n' == 0 {
        assert Reaches(Parents(s'), up', me, 0);
      } else {
        ClimbAfterExit(me, s, e, up', n');
      }
      var m: nat :| Reaches(Parents(s'), up', me, m);
      assert Reaches(Parents(s'), p, me, m + 1);
    }
  }

  /** Where every process of the climb keeps its parent, the climb is kept. */
  lemma {:induction false} ClimbKept(me: Pid, s: System, s': System, p: Pid, n: nat)
    requires HangsTogether(me, s)
    requires p == me || p in s.tree
    requires forall q :: q in s.tree && q in s.procs && (q == p || IsRunning(s, q)) ==>
      q in s'.procs && s'.procs[q].parent == s.procs[q].parent
    requires Reaches(Parents(s), p, me, n)
    ensures exists m: nat :: Reaches(Parents(s'), p, me, m)
    decreases n
  {
    if p == me {
      assert Reaches(Parents(s'), p, me, 0);
    } else {
      ClimbKept(me, s, s', s.procs[p].parent, n - 1);
      var m: nat :| Reaches(Parents(s'), s.procs[p].parent, me, m);
      assert Reaches(Parents(s'), p, me, m + 1);
    }
  }

  lemma {:induction false} NotItsOwnParent(me: Pid, s: System, p: Pid, n: nat)
    requires p != me && p in s.procs && Reaches(Parents(s), p, me, n)
    ensures s.procs[p].parent != p
    decreases n
  {
    if s.procs[p].parent == p {
      NotItsOwnParent(me, s, p, n - 1);
    }
  }

  lemma ExitKeepsAlive(me: Pid, s: System, e: Event)
    requires Alive(me, s) && e.Exit? && Enabled(me, s, e) && e.adopter in s.procs
    ensures Alive(me, Apply(s, e))
  {
  }

  lemma TreeIsNotTheHelper(me: Pid, s: System, p: Pid)
    requires Alive(me, s) && p in s.tree
    ensures p != me
  {
  }

  lemma ExitKeepsTogether(me: Pid, s: System, e: Event)
    requires Inv(me, s) && e.Exit? && Enabled(me, s, e)
    ensures Alive(me, Apply(s, e)) && HangsTogether(me, Apply(s, e))
  {
    var s' := Apply(s, e);
    AdopterIsOfTheSameSide(me, s, e.pid, e.adopter, e.steps);
    ExitKeepsAlive(me, s, e);
    hide Alive;
    assert IsRunning(s', e.adopter);
    forall p | p in s'.procs
      ensures p in s'.tree <==> s'.procs[p].parent in s'.tree + {me}
      ensures p in s'.tree ==> IsRunning(s', s'.procs[p].parent)
    {
      if p in s.tree {
        var n: nat :| n >= 1 && Reaches(Parents(s), p, me, n);
        TreeIsNotTheHelper(me, s, p);
        NotItsOwnParent(me, s, p, n);
      }
    }
  }

  lemma ExitKeeps(me: Pid, s: System, e: Event)
    requires Inv(me, s) && e.Exit? && Enabled(me, s, e)
    ensures Inv(me, Apply(s, e))
  {
    ExitKeepsTogether(me, s, e);
    var s' := Apply(s, e);
    forall p | p in s'.tree && p in s'.procs
      ensures IsDescendant(Parents(s'), p, me)
    {
      var n: nat :| n >= 1 && Reaches(Parents(s), p, me, n);
      ClimbAfterExit(me, s, e, p, n);
      var m: nat :| Reaches(Parents(s'), p, me, m);
      assert m >= 1;
    }
  }

  /** A step that takes no parent away from the tree keeps every climb. */
  lemma ClimbsKept(me: Pid, s: System, s': System)
    requires Inv(me, s) && Alive(me, s') && HangsTogether(me, s')
    requires forall q :: q in s.tree && q in s.procs && (q in s'.procs || IsRunning(s, q)) ==>
      q in s'.procs && s'.procs[q].parent == s.procs[q].parent
    requires forall q :: q in s'.tree && q in s'.procs && q !in s.procs ==>
      s'.procs[q].parent == me || (s'.procs[q].parent in s.tree && s'.procs[q].parent in s.procs)
    requires forall q :: q in s.procs ==> (q in s.tree <==> q in s'.tree)
    ensures Inv(me, s')
  {
    forall p | p in s'.tree && p in s'.procs
      ensures IsDescendant(Parents(s'), p, me)
    {
      var from := if p in s.procs then p else s'.procs[p].parent;
      assert from == me || (from in s.tree && from in s.procs);
      assert from in s'.procs;
      if from == me {
        assert Reaches(Parents(s'), me, me, 0);
        assert Reaches(Parents(s'), p, me, 1);
      } else {
        var n: nat :| n >= 1 && Reaches(Parents(s), from, me, n);
        ClimbKept(me, s, s', from, n);
        var m: nat :| Reaches(Parents(s'), from, me, m);
        assert m >= 1;
        if p != from {
          assert Reaches(Parents(s'), p, me, m + 1);
        }
      }
    }
  }

  lemma ForkKeepsAlive(me: Pid, s: System, e: Event)
    requires Alive(me, s) && e.Fork? && Enabled(me, s, e)
    ensures Alive(me, Apply(s, e))
  {
  }

  lemma ForkKeepsTogether(me: Pid, s: System, e: Event)
    requires Alive(me, s) && HangsTogether(me, s) && e.Fork? && Enabled(me, s, e)
    ensures HangsTogether(me, Apply(s, e))
  {
  }

  lemma ForkedHangsBelow(me: Pid, s: System, e: Event)
    requires Inv(me, s) && e.Fork? && Enabled(me, s, e)
    ensures var s' := Apply(s, e);
      e.child in s'.tree ==>
        s'.procs[e.child].parent == me || (s'.procs[e.child].parent in s.tree && s'.procs[e.child].parent in s.procs)
  {
  }

  lemma ForkKeeps(me: Pid, s: System, e: Event)
    requires Inv(me, s) && e.Fork? && Enabled(me, s, e)
    ensures Inv(me, Apply(s, e))
  {
    ForkKeepsAlive(me, s, e);
    ForkKeepsTogether(me, s, e);
    ForkedHangsBelow(me, s, e);
    hide Alive, HangsTogether, IsDescendant;
    ClimbsKept(me, s, Apply(s, e));
  }

  lemma SetSubreaperKeepsTogether(me: Pid, s: System, e: Event)
    requires Alive(me, s) && HangsTogether(me, s) && e.SetSubreaper? && Enabled(me, s, e)
    ensures Alive(me, Apply(s, e)) && HangsTogether(me, Apply(s, e))
  {
  }

  lemma SetSubreaperKeeps(me: Pid, s: System, e: Event)
    requires Inv(me, s) && e.SetSubreaper? && Enabled(me, s, e)
    ensures Inv(me, Apply(s, e))
  {
    SetSubreaperKeepsTogether(me, s, e);
    hide Alive, HangsTogether, IsDescendant;
    ClimbsKept(me, s, Apply(s, e));
  }

  lemma ReapKeeps(me: Pid, s: System, e: Event)
    requires Inv(me, s) && e.Reap? && Enabled(me, s, e)
    ensures Inv(me, Apply(s, e))
  {
    ClimbsKept(me, s, Apply(s, e));
  }

  /** Every step of the other processes keeps the invariant. */
  lemma StepKeeps(me: Pid, s: System, e: Event)
    requires Inv(me, s) && Enabled(me, s, e)
    ensures Inv(me, Apply(s, e))
  {
    match e {
      case Exit(_, _, _, _) => ExitKeeps(me, s, e);
      case Fork(_, _, _) => ForkKeeps(me, s, e);
      case SetSubreaper(_, _) => SetSubreaperKeeps(me, s, e);
      case Reap(_) => ReapKeeps(me, s, e);
    }
  }

  /** The helper's own reaping, of one of its exited children. */
  function HelperReaps(s: System, pid: Pid): System {
    s.(procs := s.procs - {pid})
  }

  predicate IsExitedChild(me: Pid, s: System, pid: Pid) {
    pid in s.procs && s.procs[pid].parent == me && s.procs[pid].status.Zombie?
  }

  lemma HelperReapKeeps(me: Pid, s: System, pid: Pid)
    requires Inv(me, s) && IsExitedChild(me, s, pid)
    ensures Inv(me, HelperReaps(s, pid))
  {
    ClimbsKept(me, s, HelperReaps(s, pid));
  }

  predicate HasChild(me: Pid, s: System) {
    exists p :: p in s.procs && s.procs[p].parent == me
  }

  // ----- what follows

  /** A climb to the helper ends with one of the helper's children. */
  lemma {:induction false} ClimbEndsAtAChild(me: Pid, s: System, p: Pid, n: nat)
    requires n >= 1 && Reaches(Parents(s), p, me, n)
    ensures HasChild(me, s)
    decreases n
  {
    if n > 1 {
      ClimbEndsAtAChild(me, s, s.procs[p].parent, n - 1);
    } else {
      assert Reaches(Parents(s), s.procs[p].parent, me, 0);
    }
  }

  /** No child left means no descendant at all: nothing of the tree is in the process table. */
  lemma NoChildNoTree(me: Pid, s: System)
    requires Inv(me, s) && !HasChild(me, s)
    ensures forall p :: p in s.tree ==> p !in s.procs
  {
    forall p | p in s.tree
      ensures p !in s.procs
    {
      if p in s.procs {
        var n: nat :| n >= 1 && Reaches(Parents(s), p, me, n);
        ClimbEndsAtAChild(me, s, p, n);
      }
    }
  }

  /** Once nothing of the tree runs and every exited child is reaped, the helper has no child: a process's
      parent is running, so what has exited hangs under the helper itself. */
  lemma NoneRunningNoChild(me: Pid, s: System)
    requires Inv(me, s) && forall p :: !IsExitedChild(me, s, p)
    ensures HasChild(me, s) <==> exists p :: p in s.tree && IsRunning(s, p)
  {
    if c :| c in s.procs && s.procs[c].parent == me {
      assert !IsExitedChild(me, s, c);
      assert c in s.tree && IsRunning(s, c);
    }
    if !HasChild(me, s) {
      NoChildNoTree(me, s);
    }
  }

  lemma {:induction false} DescendantIsOfTheTree(me: Pid, s: System, p: Pid, n: nat)
    requires HangsTogether(me, s) && n >= 1 && Reaches(Parents(s), p, me, n)
    ensures p in s.tree
    decreases n
  {
    if n > 1 {
      DescendantIsOfTheTree(me, s, s.procs[p].parent, n - 1);
    } else {
      assert Reaches(Parents(s), s.procs[p].parent, me, 0);
    }
  }

  /** The helper's descendants in the process table are exactly the processes of the tree. */
  lemma TreeIsDescendants(me: Pid, s: System)
    requires Inv(me, s)
    ensures forall p :: p in s.procs ==> (p in s.tree <==> IsDescendant(Parents(s), p, me))
  {
    forall p | p in s.procs && IsDescendant(Parents(s), p, me)
      ensures p in s.tree
    {
      var n: nat :| n >= 1 && Reaches(Parents(s), p, me, n);
      DescendantIsOfTheTree(me, s, p, n);
    }
  }

  lemma {:induction false} LeastClimb(me: Pid, s: System, pid: Pid, n: nat) returns (least: nat)
    requires Reaches(Parents(s), pid, me, n)
    ensures Reaches(Parents(s), pid, me, least)
    ensures forall m: nat :: m < least ==> !Reaches(Parents(s), pid, me, m)
    decreases n
  {
    least := n;
    if m: nat :| m < n && Reaches(Parents(s), pid, me, m) {
      least := LeastClimb(me, s, pid, m);
    }
  }

  lemma {:induction false} NearestReaper(me: Pid, s: System, pid: Pid, n: nat) returns (adopter: Pid, steps: nat)
    requires Inv(me, s) && pid in s.tree && pid in s.procs
    requires n >= 1 && Reaches(Parents(s), pid, me, n)
    ensures IsNearestReaper(s, pid, adopter, steps)
    decreases n
  {
    var up := s.procs[pid].parent;
    if s.procs[up].subreaper {
      return up, 1;
    }
    adopter, steps := NearestReaper(me, s, up, n - 1);
    steps := steps + 1;
  }

  /** An orphan never escapes: every running process of the tree has a nearest subreaper above it, itself
      of the tree or the helper, so its exit is one of the model's steps. */
  lemma OrphansAreAdopted(me: Pid, s: System, pid: Pid, end: End)
    requires Inv(me, s) && pid in s.tree && IsRunning(s, pid)
    ensures exists adopter, steps ::
      Enabled(me, s, Exit(pid, end, adopter, steps)) && adopter in s.tree + {me}
  {
    var n: nat :| n >= 1 && Reaches(Parents(s), pid, me, n);
    var least := LeastClimb(me, s, pid, n);
    var adopter, steps := NearestReaper(me, s, pid, least);
    AdopterIsOnTheWay(me, s, pid, least, adopter, steps);
    AdopterIsOfTheSameSide(me, s, pid, adopter, steps);
    assert Enabled(me, s, Exit(pid, end, adopter, steps));
  }

  // ----- runs

  datatype Move = Others(event: Event) | OwnReap(pid: Pid)

  /** A move that cannot happen does not. */
  function Moved(me: Pid, s: System, move: Move): System {
    match move
    case Others(e) => if Enabled(me, s, e) then Apply(s, e) else s
    case OwnReap(pid) => if IsExitedChild(me, s, pid) then HelperReaps(s, pid) else s
  }

  function AfterRun(me: Pid, s: System, moves: seq<Move>): System {
    if moves == [] then s else Moved(me, AfterRun(me, s, moves[..|moves| - 1]), moves[|moves| - 1])
  }

  lemma RunLast(me: Pid, s: System, moves: seq<Move>, move: Move)
    ensures AfterRun(me, s, moves + [move]) == Moved(me, AfterRun(me, s, moves), move)
  {
    hide Moved;
    assert (moves + [move])[..|moves|] == moves;
  }

  lemma NothingRun(me: Pid, s: System)
    ensures AfterRun(me, s, []) == s
  {
  }

  lemma {:induction false} RunParts(me: Pid, s: System, first: seq<Move>, second: seq<Move>)
    ensures AfterRun(me, s, first + second) == AfterRun(me, AfterRun(me, s, first), second)
  {
    hide Moved;
    if second == [] {
      assert first + second == first;
    } else {
      var n := |second| - 1;
      RunParts(me, s, first, second[..n]);
      assert (first + second)[..|first| + n] == first + second[..n];
    }
  }

  /** What the other processes do in a run. */
  function OthersIn(moves: seq<Move>): seq<Event> {
    if moves == [] then [] else
    var last := moves[|moves| - 1];
    OthersIn(moves[..|moves| - 1]) + if last.Others? then [last.event] else []
  }

  lemma {:induction false} OthersInParts(first: seq<Move>, second: seq<Move>)
    ensures OthersIn(first + second) == OthersIn(first) + OthersIn(second)
  {
    if second == [] {
      assert first + second == first;
    } else {
      var n := |second| - 1;
      OthersInParts(first, second[..n]);
      var all := first + second;
      assert all[..|all| - 1] == first + second[..n] && all[|all| - 1] == second[n];
      var tail := if second[n].Others? then [second[n].event] else [];
      assert (OthersIn(first) + OthersIn(second[..n])) + tail == OthersIn(first) + (OthersIn(second[..n]) + tail);
    }
  }

  /** The system can come from `s` to `s'` with the other processes trying the script, all of it and no more,
      and the helper reaping now and then. */
  ghost predicate Leads(me: Pid, s: System, script: seq<Event>, s': System) {
    exists moves :: AfterRun(me, s, moves) == s' && OthersIn(moves) == script
  }

  lemma LeadsNowhere(me: Pid, s: System)
    ensures Leads(me, s, [], s)
  {
    assert AfterRun(me, s, []) == s && OthersIn([]) == [];
  }

  lemma LeadsOnward(me: Pid, s: System, first: seq<Event>, s': System, second: seq<Event>, s'': System)
    requires Leads(me, s, first, s') && Leads(me, s', second, s'')
    ensures Leads(me, s, first + second, s'')
  {
    hide AfterRun, OthersIn;
    var a :| AfterRun(me, s, a) == s' && OthersIn(a) == first;
    var b :| AfterRun(me, s', b) == s'' && OthersIn(b) == second;
    RunParts(me, s, a, b);
    OthersInParts(a, b);
  }

  lemma MoveLeads(me: Pid, s: System, move: Move)
    ensures Leads(me, s, if move.Others? then [move.event] else [], Moved(me, s, move))
  {
    hide Moved;
    var moves := [move];
    assert moves[..0] == [];
    assert AfterRun(me, s, moves) == Moved(me, s, move);
    assert OthersIn(moves) == if move.Others? then [move.event] else [];
  }

  /** After any run, the invariant holds; so the moment the kernel reports no child, no process of the
      tree is left, however it was forked, orphaned or reaped on the way. */
  lemma {:induction false} EveryRunKeeps(me: Pid, s: System, moves: seq<Move>)
    requires Inv(me, s)
    ensures var s' := AfterRun(me, s, moves);
      Inv(me, s') && (HasChild(me, s') || forall p :: p in s'.tree ==> p !in s'.procs)
  {
    if moves != [] {
      EveryRunKeeps(me, s, moves[..|moves| - 1]);
      var before := AfterRun(me, s, moves[..|moves| - 1]);
      match moves[|moves| - 1] {
        case Others(e) =>
          if Enabled(me, before, e) {
            StepKeeps(me, before, e);
          }
        case OwnReap(pid) =>
          if IsExitedChild(me, before, pid) {
            HelperReapKeeps(me, before, pid);
          }
      }
    }
    var s' := AfterRun(me, s, moves);
    if !HasChild(me, s') {
      NoChildNoTree(me, s');
    }
  }

  // ----- what a run leaves alone

  /** Pids are handed out more and more often; and while a pid is not handed out again, its process neither
      joins nor leaves the tree and does not start to run again. */
  ghost predicate Succeeds(s: System, s': System) {
    && (forall p :: p in s.births ==> p in s'.births && s.births[p] <= s'.births[p])
    && (forall p :: p in s.births && s'.births[p] == s.births[p] ==>
          (p in s.tree <==> p in s'.tree) && (IsRunning(s', p) ==> IsRunning(s, p)))
  }

  lemma SucceedsOnward(s: System, s': System, s'': System)
    requires Succeeds(s, s') && Succeeds(s', s'')
    ensures Succeeds(s, s'')
  {
  }

  lemma StepSucceeds(me: Pid, s: System, e: Event)
    requires Inv(me, s) && Enabled(me, s, e)
    ensures Succeeds(s, Apply(s, e))
  {
  }

  lemma HelperReapSucceeds(me: Pid, s: System, pid: Pid)
    requires IsExitedChild(me, s, pid)
    ensures Succeeds(s, HelperReaps(s, pid))
  {
  }

  /** From one moment to the other, no pid was handed out that had been before. */
  ghost predicate NoneReused(s: System, s': System) {
    forall p :: p in s'.births ==> s'.births[p] == if p in s.births then s.births[p] else 1
  }

  lemma NoneReusedBetween(me: Pid, s: System, s': System, s'': System)
    requires Alive(me, s') && Succeeds(s, s') && Succeeds(s', s'') && NoneReused(s, s'')
    ensures NoneReused(s, s') && NoneReused(s', s'')
  {
    assert forall p :: p in s'.births ==> 1 <= s'.births[p] <= s''.births[p];
  }

  /** Nothing that runs in the tree was forked since. */
  ghost predicate NoneJoined(s: System, s': System) {
    forall p :: p in s'.tree && IsRunning(s', p) ==>
      p in s.births && p in s'.births && s'.births[p] == s.births[p]
  }

  /** Everything of the tree that ran runs no more. */
  ghost predicate HaveStopped(s: System, s': System) {
    forall p :: p in s.tree && IsRunning(s, p) ==> !IsRunning(s', p)
  }

  /** Where everything of the tree that ran has stopped and nothing was forked into it, nothing of it runs. */
  lemma AllStopped(s: System, s': System)
    requires Succeeds(s, s') && NoneJoined(s, s') && HaveStopped(s, s')
    ensures forall p :: p in s'.tree ==> !IsRunning(s', p)
  {
  }

  /** The started program, `birth` being how often its pid had been handed out then, is still the helper's
      child, or it is gone and `code` is what it exited with; unless its pid was handed out again. */
  ghost predicate Tracked(me: Pid, s: System, child: Pid, birth: nat, code: int) {
    && child in s.births && s.births[child] >= birth
    && (s.births[child] == birth ==>
          if child in s.procs then s.procs[child].parent == me
          else child in s.ends && Tells(code, s.ends[child]))
  }

  lemma StepKeepsTrack(me: Pid, s: System, e: Event, child: Pid, birth: nat, code: int)
    requires Inv(me, s) && Enabled(me, s, e) && Tracked(me, s, child, birth, code)
    ensures Tracked(me, Apply(s, e), child, birth, code)
  {
  }

  lemma SucceedsItself(s: System)
    ensures Succeeds(s, s) && NoneReused(s, s)
  {
  }

  lemma InvIsAlive(me: Pid, s: System)
    requires Inv(me, s)
    ensures Alive(me, s) && s.tree <= s.births.Keys
  {
  }

  /** The helper's reaping keeps the invariant and tells the started program's end. */
  lemma ReapTells(me: Pid, s: System, pid: Pid, child: Pid, birth: nat, code: int)
    requires Inv(me, s) && IsExitedChild(me, s, pid) && Tracked(me, s, child, birth, code)
    ensures var s' := HelperReaps(s, pid);
      var end := s.procs[pid].status.end;
      && Inv(me, s')
      && pid in s'.ends && s'.ends[pid] == end
      && Tracked(me, s', child, birth, if pid == child then ExitCode(WaitStatus(end)) else code)
      && |s'.procs| < |s.procs|
  {
    HelperReapKeeps(me, s, pid);
    ExitCodeTells(s.procs[pid].status.end);
    assert s.procs == (s.procs - {pid})[pid := s.procs[pid]];
  }

  lemma ChildIsGone(me: Pid, s: System, child: Pid)
    requires !HasChild(me, s)
    ensures child in s.procs ==> s.procs[child].parent != me
  {
  }

  /** The system after the helper forked the program. */
  function Started(me: Pid, s: System, child: Pid): System {
    s.(procs := s.procs[child := Process(me, Running, false)], births := Born(s.births, child), tree := {child})
  }

  // ----- pids handed out again

  /** The helper, process 1, has started process 2. */
  const BEGUN: System :=
    System(map[1 := Process(0, Running, true), 2 := Process(1, Running, false)],
           map[0 := 1, 1 := 1, 2 := 1], {2}, map[])

  /** Process 2 forks process 3 and exits with 0. */
  const FIRST_END: System :=
    System(map[1 := Process(0, Running, true), 2 := Process(1, Zombie(Exited(0)), false),
               3 := Process(1, Running, false)],
           map[0 := 1, 1 := 1, 2 := 1, 3 := 1], {2, 3}, map[2 := Exited(0)])

  /** Its pid goes to a child of process 3, which is orphaned and exits with 7. */
  const SECOND_END: System :=
    System(map[1 := Process(0, Running, true), 2 := Process(1, Zombie(Exited(7)), false),
               3 := Process(1, Zombie(Exited(0)), false)],
           map[0 := 1, 1 := 1, 2 := 2, 3 := 1], {2, 3}, map[2 := Exited(7), 3 := Exited(0)])

  lemma BegunIsReady()
    ensures Inv(1, BEGUN)
  {
    assert Reaches(Parents(BEGUN), 1, 1, 0);
    assert Reaches(Parents(BEGUN), 2, 1, 1);
  }

  lemma FirstEndComes()
    ensures Moved(1, Moved(1, BEGUN, Others(Fork(2, 3, false))), Others(Exit(2, Exited(0), 1, 1))) == FIRST_END
  {
    var s := Moved(1, BEGUN, Others(Fork(2, 3, false)));
    assert s == System(BEGUN.procs[3 := Process(2, Running, false)],
                       map[0 := 1, 1 := 1, 2 := 1, 3 := 1], {2, 3}, map[]);
    assert IsNearestReaper(s, 2, 1, 1);
    assert Apply(s, Exit(2, Exited(0), 1, 1)).procs == FIRST_END.procs;
  }

  /** The orphan, before it exits. */
  const ORPHANED: System :=
    System(map[1 := Process(0, Running, true), 2 := Process(1, Running, false),
               3 := Process(1, Zombie(Exited(0)), false)],
           map[0 := 1, 1 := 1, 2 := 2, 3 := 1], {2, 3}, map[2 := Exited(0), 3 := Exited(0)])

  lemma OrphanComes()
    ensures var s := Moved(1, Moved(1, FIRST_END, OwnReap(2)), Others(Fork(3, 2, false)));
      Moved(1, s, Others(Exit(3, Exited(0), 1, 1))) == ORPHANED
  {
    var reaped := Moved(1, FIRST_END, OwnReap(2));
    assert reaped.procs == map[1 := Process(0, Running, true), 3 := Process(1, Running, false)];
    var forked := Moved(1, reaped, Others(Fork(3, 2, false)));
    assert forked.procs == reaped.procs[2 := Process(3, Running, false)];
    assert forked.births == ORPHANED.births;
    assert IsNearestReaper(forked, 3, 1, 1);
    assert Apply(forked, Exit(3, Exited(0), 1, 1)).procs == ORPHANED.procs;
  }

  lemma SecondEndComes()
    ensures Moved(1, ORPHANED, Others(Exit(2, Exited(7), 1, 1))) == SECOND_END
  {
    assert IsNearestReaper(ORPHANED, 2, 1, 1);
    assert Apply(ORPHANED, Exit(2, Exited(7), 1, 1)).procs == SECOND_END.procs;
  }

  /** Handed out again, the program's pid brings another end to the wait: the helper first reaps the program,
      with 0, and then a process of the same pid, with 7, which is what the wait returns. */
  lemma ReusedPidBringsAnotherEnd()
    ensures Inv(1, BEGUN)
    ensures exists first, second ::
      && AfterRun(1, BEGUN, first) == FIRST_END && IsExitedChild(1, FIRST_END, 2)
      && AfterRun(1, FIRST_END, second) == SECOND_END && IsExitedChild(1, SECOND_END, 2)
    ensures FIRST_END.procs[2].status.end != SECOND_END.procs[2].status.end
  {
    BegunIsReady();
    FirstEndComes();
    OrphanComes();
    SecondEndComes();
    hide Moved, AfterRun, Inv;
    NothingRun(1, BEGUN);
    NothingRun(1, FIRST_END);
    var fork, exit := Others(Fork(2, 3, false)), Others(Exit(2, Exited(0), 1, 1));
    RunLast(1, BEGUN, [], fork);
    RunLast(1, BEGUN, [] + [fork], exit);
    var reap, again := OwnReap(2), Others(Fork(3, 2, false));
    var orphan, end := Others(Exit(3, Exited(0), 1, 1)), Others(Exit(2, Exited(7), 1, 1));
    RunLast(1, FIRST_END, [], reap);
    RunLast(1, FIRST_END, [] + [reap], again);
    RunLast(1, FIRST_END, [] + [reap] + [again], orphan);
    RunLast(1, FIRST_END, [] + [reap] + [again] + [orphan], end);
  }

  /** Process 2 of the tree has the child 3; process 9 is outside. */
  const BUSY: System :=
    System(map[1 := Process(0, Running, true), 2 := Process(1, Running, false), 3 := Process(2, Running, false),
               9 := Process(0, Running, false)],
           map[0 := 1, 1 := 1, 2 := 1, 3 := 1, 9 := 1], {2, 3}, map[])

  /** Process 3 is gone, and process 9 has a child of its pid. */
  const STRAYED: System :=
    System(map[1 := Process(0, Running, true), 2 := Process(1, Running, false), 3 := Process(9, Running, false),
               9 := Process(0, Running, false)],
           map[0 := 1, 1 := 1, 2 := 1, 3 := 2, 9 := 1], {2}, map[3 := Exited(0)])

  lemma BusyIsAlive()
    ensures Alive(1, BUSY)
  {
    assert BUSY.procs.Keys == {1, 2, 3, 9};
  }

  lemma BusyHangsTogether()
    ensures HangsTogether(1, BUSY)
  {
  }

  lemma BusyClimbs()
    ensures Reaches(Parents(BUSY), 2, 1, 1) && Reaches(Parents(BUSY), 3, 1, 2)
  {
    assert Reaches(Parents(BUSY), 1, 1, 0);
    assert Reaches(Parents(BUSY), 2, 1, 1);
  }

  lemma BusyIsReady()
    ensures Inv(1, BUSY) && IsDescendant(Parents(BUSY), 3, 1)
  {
    BusyIsAlive();
    BusyHangsTogether();
    BusyClimbs();
    hide Alive, HangsTogether, Reaches, Parents;
    assert BUSY.tree == {2, 3};
  }

  /** Process 3 has exited, and is gone. */
  const BEREFT: System :=
    System(map[1 := Process(0, Running, true), 2 := Process(1, Running, false), 9 := Process(0, Running, false)],
           map[0 := 1, 1 := 1, 2 := 1, 3 := 1, 9 := 1], {2, 3}, map[3 := Exited(0)])

  lemma ChildIsReaped()
    ensures Moved(1, Moved(1, BUSY, Others(Exit(3, Exited(0), 1, 2))), Others(Reap(3))) == BEREFT
  {
    var e := Exit(3, Exited(0), 1, 2);
    assert IsNearestReaper(BUSY, 2, 1, 1);
    assert Enabled(1, BUSY, e);
    var exited := Apply(BUSY, e);
    assert exited.procs[3] == Process(2, Zombie(Exited(0)), false);
    assert exited.procs - {3} == BEREFT.procs;
  }

  lemma PidIsReused()
    ensures Moved(1, BEREFT, Others(Fork(9, 3, false))) == STRAYED
  {
    assert Apply(BEREFT, Fork(9, 3, false)).procs == STRAYED.procs;
  }

  /** Handed out again after it was read, a pid is a target although its process is outside the tree. */
  lemma ReusedPidStrays()
    ensures Inv(1, BUSY) && IsDescendant(Parents(BUSY), 3, 1)
    ensures var s := Moved(1, Moved(1, BUSY, Others(Exit(3, Exited(0), 1, 2))), Others(Reap(3)));
      Moved(1, s, Others(Fork(9, 3, false))) == STRAYED
    ensures IsRunning(STRAYED, 3) && 3 !in STRAYED.tree
  {
    BusyIsReady();
    ChildIsReaped();
    PidIsReused();
  }

  // ----- the helper

  datatype Wait = Child(pid: Pid, status: nat) | NoChild | StillWaiting

  /** A moment of a reading of the process table: something happens, or one process's parent is read. */
  datatype ScanStep = Happens(event: Event) | ReadStat(pid: Pid)

  /** One round of the kill loop: the reading of the table, and what happens before each reaping. */
  datatype Round = Round(scan: seq<ScanStep>, reaps: seq<seq<Event>>)

  /** What a round's reading showed, and the system when it began. */
  datatype Reading = Reading(from: System, parents: map<Pid, Pid>)

  /** What is reported to the caller. */
  datatype RunStatus = CouldNotStart | Finished(code: int) | TreeKilled

  /** Nothing happens while the table is read. */
  predicate IsStill(scan: seq<ScanStep>) {
    forall i :: 0 <= i < |scan| ==> scan[i].ReadStat?
  }

  /** Every process is read. */
  predicate ReadsAll(s: System, scan: seq<ScanStep>) {
    forall p :: p in s.procs ==> ReadStat(p) in scan
  }

  /** The system after the first `n` moments of a reading. */
  function SystemAt(me: Pid, s: System, scan: seq<ScanStep>, n: nat): System
    requires n <= |scan|
  {
    if n == 0 then s else
    var before := SystemAt(me, s, scan, n - 1);
    match scan[n - 1]
    case Happens(e) => Moved(me, before, Others(e))
    case ReadStat(_) => before
  }

  /** At moment `i` the process is there and its parent is read. */
  predicate IsReadAt(me: Pid, s: System, scan: seq<ScanStep>, p: Pid, i: nat) {
    i < |scan| && scan[i] == ReadStat(p) && p in SystemAt(me, s, scan, i).procs
  }

  /** Of the first `n` moments of the reading, `i` is the last one in which the process is read, with that parent. */
  predicate IsLastRead(me: Pid, s: System, scan: seq<ScanStep>, n: nat, p: Pid, parent: Pid, i: nat) {
    && i < n && IsReadAt(me, s, scan, p, i) && SystemAt(me, s, scan, i).procs[p].parent == parent
    && forall j :: i < j < n ==> !IsReadAt(me, s, scan, p, j)
  }

  /** What the first `n` moments of a reading begun in `s` show: whoever is read, with the parent it had then. */
  ghost predicate IsReading(me: Pid, s: System, scan: seq<ScanStep>, n: nat, parents: map<Pid, Pid>) {
    && (forall p, i :: 0 <= i < n && IsReadAt(me, s, scan, p, i) ==> p in parents)
    && (forall p :: p in parents ==> exists i :: IsLastRead(me, s, scan, n, p, parents[p], i))
  }

  lemma NothingIsRead(me: Pid, s: System, scan: seq<ScanStep>)
    ensures IsReading(me, s, scan, 0, map[])
  {
  }

  lemma LastReadStays(me: Pid, s: System, scan: seq<ScanStep>, n: nat, p: Pid, parent: Pid, i: nat)
    requires n < |scan| && IsLastRead(me, s, scan, n, p, parent, i) && !IsReadAt(me, s, scan, p, n)
    ensures IsLastRead(me, s, scan, n + 1, p, parent, i)
  {
  }

  lemma NoneReadMore(me: Pid, s: System, scan: seq<ScanStep>, n: nat, parents: map<Pid, Pid>)
    requires n < |scan| && IsReading(me, s, scan, n, parents)
    requires forall p :: !IsReadAt(me, s, scan, p, n)
    ensures IsReading(me, s, scan, n + 1, parents)
  {
    hide IsReadAt, IsLastRead;
    var m := n + 1;
    forall p | p in parents
      ensures exists i :: IsLastRead(me, s, scan, m, p, parents[p], i)
    {
      var i :| IsLastRead(me, s, scan, n, p, parents[p], i);
      LastReadStays(me, s, scan, n, p, parents[p], i);
    }
  }

  lemma OneReadMore(me: Pid, s: System, scan: seq<ScanStep>, n: nat, parents: map<Pid, Pid>, pid: Pid, parent: Pid)
    requires n < |scan| && IsReading(me, s, scan, n, parents) && scan[n] == ReadStat(pid)
    requires IsLastRead(me, s, scan, n + 1, pid, parent, n)
    ensures IsReading(me, s, scan, n + 1, parents[pid := parent])
  {
    var m, parents' := n + 1, parents[pid := parent];
    forall p | p in parents'
      ensures exists i :: IsLastRead(me, s, scan, m, p, parents'[p], i)
    {
      if p != pid {
        assert !IsReadAt(me, s, scan, p, n);
        var i :| IsLastRead(me, s, scan, n, p, parents[p], i);
        LastReadStays(me, s, scan, n, p, parents[p], i);
      }
    }
  }

  /** The process is there during the whole reading, under the same parent. */
  ghost predicate IsSteady(me: Pid, s: System, scan: seq<ScanStep>, p: Pid) {
    && p in s.procs
    && forall i :: 0 <= i <= |scan| ==>
         p in SystemAt(me, s, scan, i).procs && SystemAt(me, s, scan, i).procs[p].parent == s.procs[p].parent
  }

  /** Processes of the tree that are steady and read, with all that is between them and the helper. */
  ghost predicate AreSteady(me: Pid, s: System, scan: seq<ScanStep>, steady: set<Pid>) {
    forall p :: p in steady ==>
      && p in s.tree && IsSteady(me, s, scan, p) && ReadStat(p) in scan
      && s.procs[p].parent in steady + {me}
  }

  lemma SteadyIsRead(me: Pid, s: System, scan: seq<ScanStep>, parents: map<Pid, Pid>, p: Pid)
    requires IsReading(me, s, scan, |scan|, parents) && IsSteady(me, s, scan, p) && ReadStat(p) in scan
    ensures p in parents && parents[p] == s.procs[p].parent
  {
    var i :| 0 <= i < |scan| && scan[i] == ReadStat(p);
    assert IsReadAt(me, s, scan, p, i);
    var j :| IsLastRead(me, s, scan, |scan|, p, parents[p], j);
  }

  lemma {:induction false} SteadyClimbs(me: Pid, s: System, scan: seq<ScanStep>, parents: map<Pid, Pid>,
                                        steady: set<Pid>, p: Pid, n: nat)
    requires IsReading(me, s, scan, |scan|, parents) && AreSteady(me, s, scan, steady)
    requires p in steady + {me} && Reaches(Parents(s), p, me, n)
    ensures p == me || IsDescendant(parents, p, me)
    decreases n
  {
    hide IsReading, IsSteady, IsDescendant;
    if p != me {
      SteadyIsRead(me, s, scan, parents, p);
      SteadyClimbs(me, s, scan, parents, steady, s.procs[p].parent, n - 1);
      ChildIsDescendant(parents, p, me);
    }
  }

  /** Whoever is steady is signalled. */
  ghost predicate SteadyAreIn(me: Pid, s: System, scan: seq<ScanStep>, signalled: set<Pid>) {
    forall steady :: AreSteady(me, s, scan, steady) ==> steady <= signalled
  }

  /** However much changes while the table is read, what is steady in the tree is found below the helper. */
  lemma SteadyAreFound(me: Pid, s: System, scan: seq<ScanStep>, parents: map<Pid, Pid>, signalled: set<Pid>)
    requires Inv(me, s) && IsReading(me, s, scan, |scan|, parents)
    requires forall p :: IsDescendant(parents, p, me) ==> p in signalled
    ensures SteadyAreIn(me, s, scan, signalled)
  {
    hide IsReading;
    forall steady, p | AreSteady(me, s, scan, steady) && p in steady
      ensures p in signalled
    {
      assert IsSteady(me, s, scan, p);
      TreeIsNotTheHelper(me, s, p);
      var n: nat :| n >= 1 && Reaches(Parents(s), p, me, n);
      hide AreSteady;
      SteadyClimbs(me, s, scan, parents, steady, p, n);
    }
  }

  lemma MoreAreIn(me: Pid, s: System, scan: seq<ScanStep>, some: set<Pid>, more: set<Pid>)
    requires SteadyAreIn(me, s, scan, some) && some <= more
    ensures SteadyAreIn(me, s, scan, more)
  {
  }

  lemma {:induction false} StillStays(me: Pid, s: System, scan: seq<ScanStep>, n: nat)
    requires n <= |scan| && IsStill(scan)
    ensures SystemAt(me, s, scan, n) == s
  {
    if n > 0 {
      StillStays(me, s, scan, n - 1);
    }
  }

  /** In a still system all that is read is steady. */
  lemma StillIsSteady(me: Pid, s: System, scan: seq<ScanStep>, signalled: set<Pid>)
    requires Inv(me, s) && IsStill(scan) && ReadsAll(s, scan) && SteadyAreIn(me, s, scan, signalled)
    ensures forall p :: p in s.tree && p in s.procs ==> p in signalled
  {
    forall n | 0 <= n <= |scan|
      ensures SystemAt(me, s, scan, n) == s
    {
      StillStays(me, s, scan, n);
    }
    var steady := set p | p in s.procs && p in s.tree;
    assert AreSteady(me, s, scan, steady);
  }

  /** Whoever is read with a parent in the tree, or the helper, is in the tree. */
  ghost predicate LinksTheTree(me: Pid, s: System, parents: map<Pid, Pid>) {
    forall p :: p in parents ==>
      && p in s.births
      && parents[p] in s.births
      && (parents[p] in s.tree + {me} ==> p in s.tree)
  }

  lemma NothingIsLinked(me: Pid, s: System)
    ensures LinksTheTree(me, s, map[])
  {
  }

  /** What was read stays right while no pid is handed out again. */
  lemma LinksStay(me: Pid, s: System, s': System, parents: map<Pid, Pid>)
    requires LinksTheTree(me, s, parents) && Succeeds(s, s') && NoneReused(s, s')
    ensures LinksTheTree(me, s', parents)
  {
  }

  /** So does what was found in it. */
  lemma TreeStays(s: System, s': System, targets: set<Pid>)
    requires Succeeds(s, s') && NoneReused(s, s') && targets <= s.tree <= s.births.Keys
    ensures targets <= s'.tree
  {
  }

  lemma ReadLinks(me: Pid, s: System, parents: map<Pid, Pid>, pid: Pid)
    requires Inv(me, s) && LinksTheTree(me, s, parents) && pid in s.procs
    ensures LinksTheTree(me, s, parents[pid := s.procs[pid].parent])
  {
  }

  lemma {:induction false} LinkedIsOfTheTree(me: Pid, s: System, parents: map<Pid, Pid>, pid: Pid, n: nat)
    requires LinksTheTree(me, s, parents) && n >= 1 && Reaches(parents, pid, me, n)
    ensures pid in s.tree
    decreases n
  {
    if n > 1 {
      LinkedIsOfTheTree(me, s, parents, parents[pid], n - 1);
    } else {
      assert Reaches(parents, parents[pid], me, 0);
    }
  }

  lemma TargetsAreOfTheTree(me: Pid, s: System, parents: map<Pid, Pid>, targets: set<Pid>)
    requires LinksTheTree(me, s, parents)
    requires forall pid :: pid in targets ==> IsDescendant(parents, pid, me)
    ensures targets <= s.tree
  {
    forall pid | pid in targets
      ensures pid in s.tree
    {
      var n: nat :| n >= 1 && Reaches(parents, pid, me, n);
      LinkedIsOfTheTree(me, s, parents, pid, n);
    }
  }

  /** The readings of some rounds, the first begun in `s`, each later one in a system that had come from the one
      before and in which the helper had a child left. */
  ghost predicate AreReadings(me: Pid, s: System, rounds: seq<Round>, readings: seq<Reading>) {
    && |readings| <= |rounds|
    && (readings != [] ==> readings[0].from == s)
    && (forall i :: 0 <= i < |readings| ==>
          && Inv(me, readings[i].from)
          && IsReading(me, readings[i].from, rounds[i].scan, |rounds[i].scan|, readings[i].parents))
    && (forall i :: 0 < i < |readings| ==>
          HasChild(me, readings[i].from) && Succeeds(readings[i - 1].from, readings[i].from))
  }

  lemma ReadingOneMore(me: Pid, s: System, rounds: seq<Round>, readings: seq<Reading>, last: Reading)
    requires AreReadings(me, s, rounds, readings) && |readings| < |rounds| && Inv(me, last.from)
    requires var scan := rounds[|readings|].scan; IsReading(me, last.from, scan, |scan|, last.parents)
    requires readings == [] ==> last.from == s
    requires readings != [] ==> HasChild(me, last.from) && Succeeds(readings[|readings| - 1].from, last.from)
    ensures AreReadings(me, s, rounds, readings + [last])
  {
    hide Inv, IsReading, HasChild, Succeeds;
  }

  /** What is steady in a reading is signalled, whichever of the readings it is. */
  ghost predicate AllSteadyAreIn(me: Pid, rounds: seq<Round>, readings: seq<Reading>, signalled: set<Pid>) {
    |readings| <= |rounds| &&
    forall i :: 0 <= i < |readings| ==> SteadyAreIn(me, readings[i].from, rounds[i].scan, signalled)
  }

  lemma OneMoreIsIn(me: Pid, rounds: seq<Round>, readings: seq<Reading>, last: Reading, some: set<Pid>, more: set<Pid>)
    requires AllSteadyAreIn(me, rounds, readings, some) && some <= more
    requires |readings| < |rounds| && SteadyAreIn(me, last.from, rounds[|readings|].scan, more)
    ensures AllSteadyAreIn(me, rounds, readings + [last], more)
  {
    hide SteadyAreIn;
    forall i | 0 <= i < |readings|
      ensures SteadyAreIn(me, readings[i].from, rounds[i].scan, more)
    {
      MoreAreIn(me, readings[i].from, rounds[i].scan, some, more);
    }
  }

  /** Some reading shows the process below the helper. */
  ghost predicate IsShown(me: Pid, readings: seq<Reading>, pid: Pid) {
    exists i :: 0 <= i < |readings| && IsDescendant(readings[i].parents, pid, me)
  }

  lemma NothingIsShown(me: Pid, rounds: seq<Round>, s: System, signalled: set<Pid>)
    ensures AreReadings(me, s, rounds, []) && AllSteadyAreIn(me, rounds, [], signalled)
    ensures forall pid :: !IsShown(me, [], pid)
  {
  }

  lemma ShownOneMore(me: Pid, readings: seq<Reading>, last: Reading)
    ensures forall pid ::
      IsShown(me, readings + [last], pid) <==> IsShown(me, readings, pid) || IsDescendant(last.parents, pid, me)
  {
    hide IsDescendant;
    var all := readings + [last];
    forall pid
      ensures IsShown(me, all, pid) <==> IsShown(me, readings, pid) || IsDescendant(last.parents, pid, me)
    {
      if IsShown(me, readings, pid) {
        var i :| 0 <= i < |readings| && IsDescendant(readings[i].parents, pid, me);
        assert all[i] == readings[i];
      }
      if IsDescendant(last.parents, pid, me) {
        assert all[|readings|] == last;
      }
    }
  }

  /** The helper and the system it runs in. What the other processes do in between is given to each
      method as a script, of which every event that can happen does. */
  class Helper {
    const me: Pid
    var system: System
    var signalled: set<Pid>

    /** `_become_subreaper`, in a helper that has no child yet. */
    constructor (pid: Pid, s: System)
      requires IsRunning(s, pid) && !HasChild(pid, s) && s.tree == {}
      requires s.procs.Keys <= s.births.Keys && forall p :: p in s.procs ==> s.procs[p].parent in s.births
      requires forall p :: p in s.births ==> s.births[p] >= 1
      requires forall p :: p in s.procs && s.procs[p].status.Zombie? ==>
        p in s.ends && s.ends[p] == s.procs[p].status.end
      ensures me == pid && signalled == {} && Inv(me, system)
    {
      me := pid;
      signalled := {};
      system := s.(procs := s.procs[pid := s.procs[pid].(subreaper := true)]);
    }

    /** `_start`: the one program the helper forks is where the tree begins. */
    method Start(child: Pid)
      requires Inv(me, system) && system.tree == {} && IsFree(system, child)
      modifies this`system
      ensures system == Started(me, old(system), child)
      ensures Inv(me, system) && Tracked(me, system, child, system.births[child], 0)
    {
      ghost var before := system;
      system := Started(me, system, child);
      ClimbsKept(me, before, system);
    }

    /** Something happens, if it can. */
    method Happen(e: Event, ghost child: Pid, ghost birth: nat, ghost code: int)
      requires Inv(me, system)
      modifies this`system
      ensures Inv(me, system) && Succeeds(old(system), system)
      ensures old(Tracked(me, system, child, birth, code)) ==> Tracked(me, system, child, birth, code)
      ensures system == if old(Enabled(me, system, e)) then Apply(old(system), e) else old(system)
    {
      if Enabled(me, system, e) {
        StepKeeps(me, system, e);
        StepSucceeds(me, system, e);
        if Tracked(me, system, child, birth, code) {
          StepKeepsTrack(me, system, e, child, birth, code);
        }
        system := Apply(system, e);
      }
    }

    /** `os.waitpid(-1, 0)`: reap an exited child, fail with ECHILD when there is no child at all, and
        otherwise wait for something to happen. */
    method WaitForChild(script: seq<Event>, ghost child: Pid, ghost birth: nat, ghost code: int)
      returns (r: Wait, rest: seq<Event>)
      requires Inv(me, system) && Tracked(me, system, child, birth, code)
      modifies this`system
      ensures Inv(me, system) && Succeeds(old(system), system)
      ensures |rest| <= |script| && rest == script[|script| - |rest|..]
      ensures Leads(me, old(system), script[..|script| - |rest|], system)
      ensures match r
        case Child(pid, status) =>
          && pid in system.ends && status == WaitStatus(system.ends[pid])
          && Tracked(me, system, child, birth, if pid == child then ExitCode(status) else code)
          && (|rest| < |script| || |system.procs| < |old(system.procs)|)
        case NoChild => !HasChild(me, system) && Tracked(me, system, child, birth, code)
        case StillWaiting => rest == [] && HasChild(me, system)
    {
      hide Inv, Succeeds, Tracked, Leads;
      SucceedsItself(system);
      LeadsNowhere(me, system);
      rest := script;
      while true
        invariant Inv(me, system) && Tracked(me, system, child, birth, code) && Succeeds(old(system), system)
        invariant |rest| <= |script| && rest == script[|script| - |rest|..]
        invariant Leads(me, old(system), script[..|script| - |rest|], system)
        invariant rest == script ==> system == old(system)
        decreases |rest|
      {
        if pid :| pid in system.procs && IsExitedChild(me, system, pid) {
          var status := WaitStatus(system.procs[pid].status.end);
          ReapTells(me, system, pid, child, birth, code);
          HelperReapSucceeds(me, system, pid);
          SucceedsOnward(old(system), system, HelperReaps(system, pid));
          MoveLeads(me, system, OwnReap(pid));
          LeadsOnward(me, old(system), script[..|script| - |rest|], system, [], HelperReaps(system, pid));
          assert script[..|script| - |rest|] + [] == script[..|script| - |rest|];
          system := HelperReaps(system, pid);
          return Child(pid, status), rest;
        }
        if !HasChild(me, system) {
          return NoChild, rest;
        }
        if rest == [] {
          return StillWaiting, rest;
        }
        ghost var before, done := system, script[..|script| - |rest|];
        Happen(rest[0], child, birth, code);
        SucceedsOnward(old(system), before, system);
        MoveLeads(me, before, Others(rest[0]));
        LeadsOnward(me, old(system), done, before, [rest[0]], system);
        rest := rest[1..];
        assert script[..|script| - |rest|] == done + [script[|done|]];
      }
    }

    /** `_wait_tree_linux`: it goes on while the other processes follow the script, doing nothing but reap, until
        either no child is left or the script is at its end. When it returns, no process of the tree is left, and
        the code it returns is the started program's own, whatever else was reaped before or after it, unless the
        program's pid was handed out again. */
    method WaitTree(child: Pid, script: seq<Event>) returns (done: bool, code: int)
      requires Inv(me, system) && child in system.births
      requires Tracked(me, system, child, system.births[child], 0) && child in system.procs
      modifies this`system
      ensures Inv(me, system) && Succeeds(old(system), system)
      ensures done ==> exists n :: 0 <= n <= |script| && Leads(me, old(system), script[..n], system)
      ensures !done ==> Leads(me, old(system), script, system)
      ensures child in system.births
      ensures done ==> forall p :: p in system.tree ==> p !in system.procs
      ensures done && system.births[child] == old(system.births[child]) ==>
        child in system.ends && Tells(code, system.ends[child])
      ensures !done ==> HasChild(me, system)
    {
      hide Inv, Leads;
      code := 0;
      ghost var birth := system.births[child];
      var rest := script;
      LeadsNowhere(me, system);
      while true
        invariant Inv(me, system) && Tracked(me, system, child, birth, code) && Succeeds(old(system), system)
        invariant |rest| <= |script| && rest == script[|script| - |rest|..]
        invariant Leads(me, old(system), script[..|script| - |rest|], system)
        decreases |rest|, |system.procs|
      {
        var r;
        ghost var before, all := system, rest;
        r, rest := WaitForChild(rest, child, birth, code);
        SucceedsOnward(old(system), before, system);
        LeadsOnward(me, old(system), script[..|script| - |all|], before, all[..|all| - |rest|], system);
        assert script[..|script| - |all|] + all[..|all| - |rest|] == script[..|script| - |rest|];
        match r {
          case NoChild =>
            NoChildNoTree(me, system);
            ChildIsGone(me, system, child);
            return true, code;
          case StillWaiting =>
            assert script[..|script|] == script;
            return false, code;
          case Child(pid, status) =>
            if pid == child {
              code := ExitCode(status);
            }
        }
      }
    }

    /** `_reap_ready`: with WNOHANG, a child that has not exited ends the reaping instead of waiting. Where
        every running process of the tree exits meanwhile and none is forked, it finds no child left. */
    method ReapReady(script: seq<seq<Event>>) returns (empty: bool)
      requires Inv(me, system)
      modifies this`system
      ensures Inv(me, system) && Succeeds(old(system), system)
      ensures empty <==> !HasChild(me, system)
      ensures forall p :: !IsExitedChild(me, system, p)
      ensures !empty <==> exists p :: p in system.tree && IsRunning(system, p)
      ensures empty ==> forall p :: p in system.tree ==> p !in system.procs
      ensures (NoneJoined(old(system), system) && HaveStopped(old(system), system)) ==> empty
    {
      hide Inv, Succeeds, NoneJoined;
      SucceedsItself(system);
      var rest := script;
      while true
        invariant Inv(me, system) && Succeeds(old(system), system)
        decreases |rest|, |system.procs|
      {
        if rest != [] {
          ghost var before := system;
          HappenAll(rest[0]);
          SucceedsOnward(old(system), before, system);
          rest := rest[1..];
        }
        if pid :| pid in system.procs && IsExitedChild(me, system, pid) {
          HelperReapKeeps(me, system, pid);
          HelperReapSucceeds(me, system, pid);
          SucceedsOnward(old(system), system, HelperReaps(system, pid));
          system := HelperReaps(system, pid);
        } else {
          empty := !HasChild(me, system);
          NoneRunningNoChild(me, system);
          if empty {
            NoChildNoTree(me, system);
          } else if NoneJoined(old(system), system) && HaveStopped(old(system), system) {
            AllStopped(old(system), system);
          }
          return;
        }
      }
    }

    method HappenAll(events: seq<Event>)
      requires Inv(me, system)
      modifies this`system
      ensures Inv(me, system) && Succeeds(old(system), system)
    {
      hide Inv, Succeeds;
      SucceedsItself(system);
      for i := 0 to |events|
        invariant Inv(me, system) && Succeeds(old(system), system)
      {
        ghost var before := system;
        Happen(events[i], me, 0, 0);
        SucceedsOnward(old(system), before, system);
      }
    }

    /** `_proc_parents`: read one process after the other while the system goes on. Every entry was true
        when it was read, and stays true as far as the tree goes while no pid is handed out again. */
    method ProcParents(scan: seq<ScanStep>) returns (parents: map<Pid, Pid>)
      requires Inv(me, system)
      modifies this`system
      ensures Inv(me, system) && Succeeds(old(system), system)
      ensures NoneReused(old(system), system) ==> LinksTheTree(me, system, parents)
      ensures system == SystemAt(me, old(system), scan, |scan|)
      ensures IsReading(me, old(system), scan, |scan|, parents)
    {
      hide Inv, LinksTheTree, IsReading, Succeeds, NoneReused;
      parents := map[];
      SucceedsItself(system);
      NothingIsLinked(me, system);
      NothingIsRead(me, system, scan);
      for i := 0 to |scan|
        invariant Inv(me, system) && Succeeds(old(system), system)
        invariant NoneReused(old(system), system) ==> LinksTheTree(me, system, parents)
        invariant system == SystemAt(me, old(system), scan, i)
        invariant IsReading(me, old(system), scan, i, parents)
      {
        ghost var before := system;
        match scan[i] {
          case Happens(e) =>
            Happen(e, me, 0, 0);
            SucceedsOnward(old(system), before, system);
            if NoneReused(old(system), system) {
              InvIsAlive(me, before);
              NoneReusedBetween(me, old(system), before, system);
              LinksStay(me, before, system, parents);
            }
            NoneReadMore(me, old(system), scan, i, parents);
          case ReadStat(pid) =>
            if pid in system.procs {
              if LinksTheTree(me, system, parents) {
                ReadLinks(me, system, parents, pid);
              }
              OneReadMore(me, old(system), scan, i, parents, pid, system.procs[pid].parent);
              parents := parents[pid := system.procs[pid].parent];
            } else {
              NoneReadMore(me, old(system), scan, i, parents);
            }
        }
      }
    }

    /** One round of the kill loop: every process that hangs below the helper in what was read is signalled,
        and nobody else: nobody outside the tree, while no pid is handed out again, and everything in it that
        is steady while it is read. A reading of a still system names the whole tree; and where everything
        signalled then stops and nothing is forked into the tree meanwhile, the round empties it. */
    method KillRound(round: Round) returns (emptied: bool, ghost parents: map<Pid, Pid>)
      requires Inv(me, system)
      modifies this
      ensures Inv(me, system) && Succeeds(old(system), system)
      ensures IsReading(me, old(system), round.scan, |round.scan|, parents)
      ensures forall pid :: pid in signalled <==> pid in old(signalled) || IsDescendant(parents, pid, me)
      ensures NoneReused(old(system), system) ==> signalled <= old(signalled) + system.tree
      ensures SteadyAreIn(me, old(system), round.scan, signalled)
      ensures IsStill(round.scan) && ReadsAll(old(system), round.scan) ==>
        forall p :: p in old(system.tree) && p in old(system.procs) ==> p in signalled
      ensures IsStill(round.scan) && ReadsAll(old(system), round.scan) ==>
        (NoneJoined(old(system), system) && (forall p :: p in signalled ==> !IsRunning(system, p)) ==> emptied)
      ensures forall p :: !IsExitedChild(me, system, p)
      ensures emptied <==> !HasChild(me, system)
      ensures !emptied <==> exists p :: p in system.tree && IsRunning(system, p)
      ensures emptied ==> forall p :: p in system.tree ==> p !in system.procs
    {
      hide Inv, Succeeds, NoneReused, NoneJoined, LinksTheTree, IsDescendant, IsReading, SteadyAreIn, IsStill, ReadsAll;
      var read := ProcParents(round.scan);
      parents := read;
      var targets := FindDescendants(me, read);
      ghost var middle := system;
      InvIsAlive(me, middle);
      if LinksTheTree(me, system, read) {
        TargetsAreOfTheTree(me, system, read, targets);
      }
      signalled := signalled + targets;
      SteadyAreFound(me, old(system), round.scan, read, signalled);
      if IsStill(round.scan) && ReadsAll(old(system), round.scan) {
        StillIsSteady(me, old(system), round.scan, signalled);
        StillStays(me, old(system), round.scan, |round.scan|);
      }
      emptied := ReapReady(round.reaps);
      SucceedsOnward(old(system), middle, system);
      if NoneReused(old(system), system) {
        NoneReusedBetween(me, old(system), middle, system);
        TreeStays(middle, system, targets);
      }
    }

    /** `_kill_tree_linux` (each round bounded by the deadline is one of `rounds`): it returns early only
        when nothing of the tree is left, and whatever the processes do while it reads the table, it never
        signals a process that is not of the tree, unless a pid is handed out again meanwhile; whatever a round's
        reading shows below the helper is signalled. It gives up only on a tree in which something still
        runs. */
    method KillTree(rounds: seq<Round>) returns (emptied: bool, ghost readings: seq<Reading>)
      requires Inv(me, system)
      modifies this
      ensures Inv(me, system) && Succeeds(old(system), system)
      ensures emptied ==> !HasChild(me, system) && forall p :: p in system.tree ==> p !in system.procs
      ensures !emptied && rounds != [] ==> HasChild(me, system) && forall p :: !IsExitedChild(me, system, p)
      ensures rounds != [] ==> (!emptied <==> exists p :: p in system.tree && IsRunning(system, p))
      ensures NoneReused(old(system), system) ==> signalled <= old(signalled) + system.tree
      ensures (rounds != [] ==> readings != []) && (!emptied ==> |readings| == |rounds|)
      ensures AreReadings(me, old(system), rounds, readings)
      ensures forall pid :: pid in signalled <==> pid in old(signalled) || IsShown(me, readings, pid)
      ensures AllSteadyAreIn(me, rounds, readings, signalled)
    {
      hide Inv, Succeeds, NoneReused, NoneJoined, HaveStopped, IsReading, IsStill, ReadsAll, AreReadings, SteadyAreIn,
        AllSteadyAreIn, IsDescendant, IsShown;
      SucceedsItself(system);
      emptied := false;
      readings := [];
      NothingIsShown(me, rounds, system, signalled);
      for i := 0 to |rounds|
        invariant Inv(me, system) && Succeeds(old(system), system)
        invariant NoneReused(old(system), system) ==> signalled <= old(signalled) + system.tree
        invariant i == 0 ==> system == old(system)
        invariant i > 0 ==> HasChild(me, system) && forall p :: !IsExitedChild(me, system, p)
        invariant i > 0 ==> exists p :: p in system.tree && IsRunning(system, p)
        invariant |readings| == i && AreReadings(me, old(system), rounds, readings)
        invariant i > 0 ==> Succeeds(readings[i - 1].from, system)
        invariant forall pid :: pid in signalled <==> pid in old(signalled) || IsShown(me, readings, pid)
        invariant AllSteadyAreIn(me, rounds, readings, signalled)
      {
        ghost var parents;
        ghost var before, signalledBefore := system, signalled;
        InvIsAlive(me, before);
        emptied, parents := KillRound(rounds[i]);
        SucceedsOnward(old(system), before, system);
        if NoneReused(old(system), system) {
          NoneReusedBetween(me, old(system), before, system);
          TreeStays(before, system, signalledBefore * before.tree);
        }
        ghost var reading := Reading(before, parents);
        OneMoreIsIn(me, rounds, readings, reading, signalledBefore, signalled);
        ShownOneMore(me, readings, reading);
        ReadingOneMore(me, old(system), rounds, readings, reading);
        readings := readings + [reading];
        if emptied {
          return;
        }
      }
    }

    /** `_run` on Linux, from the program's start to the status reported; the script ends where the caller's
        timeout arrives, with the system in the state `waited`. A code is reported only when the whole tree is
        gone, and it is the program's own unless its pid was handed out again; nobody is signalled then. A kill is
        reported only where something of the tree was left when the timeout arrived, and all that its readings
        show of it is signalled; it never reaches beyond the tree, unless a pid was handed out again. */
    method Run(child: Pid, startable: bool, script: seq<Event>, rounds: seq<Round>)
      returns (status: RunStatus, ghost waited: System, ghost readings: seq<Reading>)
      requires Inv(me, system) && system.tree == {} && IsFree(system, child) && signalled == {}
      modifies this
      ensures Inv(me, system)
      ensures status.CouldNotStart? <==> !startable
      ensures status.CouldNotStart? ==> system == old(system) && signalled == {}
      ensures var started := Started(me, old(system), child);
        match status
        case CouldNotStart => true
        case Finished(code) =>
          && (exists n :: 0 <= n <= |script| && Leads(me, started, script[..n], system))
          && (forall p :: p in system.tree ==> p !in system.procs)
          && child in system.births
          && (system.births[child] == started.births[child] ==>
                child in system.ends && Tells(code, system.ends[child]))
          && signalled == {}
        case TreeKilled =>
          && Leads(me, started, script, waited) && Inv(me, waited) && HasChild(me, waited)
          && Succeeds(waited, system)
          && (NoneReused(started, system) ==> signalled <= system.tree)
      ensures status.TreeKilled? ==>
        && AreReadings(me, waited, rounds, readings)
        && (forall pid :: pid in signalled <==> IsShown(me, readings, pid))
        && AllSteadyAreIn(me, rounds, readings, signalled)
      ensures status.TreeKilled? && rounds != [] ==>
        && readings != []
        && (HasChild(me, system) ==> |readings| == |rounds|)
        && (forall p :: !IsExitedChild(me, system, p))
        && (HasChild(me, system) <==> exists p :: p in system.tree && IsRunning(system, p))
        && (HasChild(me, system) <==> exists p :: p in system.tree && p in system.procs)
        && (IsStill(rounds[0].scan) && ReadsAll(waited, rounds[0].scan) ==>
              forall p :: p in waited.tree && p in waited.procs ==> p in signalled)
    {
      hide Inv, Succeeds, NoneReused, Tracked, Leads, IsShown, SteadyAreIn, IsReading, IsStill, ReadsAll;
      waited, readings := system, [];
      if !startable {
        return CouldNotStart, waited, readings;
      }
      Start(child);
      ghost var started := system;
      var done, code := WaitTree(child, script);
      waited := system;
      if done {
        return Finished(code), waited, readings;
      }
      InvIsAlive(me, waited);
      var emptied;
      emptied, readings := KillTree(rounds);
      if NoneReused(started, system) {
        NoneReusedBetween(me, started, waited, system);
      }
      if rounds != [] && IsStill(rounds[0].scan) && ReadsAll(waited, rounds[0].scan) {
        StillIsSteady(me, waited, rounds[0].scan, signalled);
      }
      return TreeKilled, waited, readings;
    }
  }
}
