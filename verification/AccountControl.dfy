/** Creating a local account with shadow-utils commands that can fail, hang or run out of time, after
    adapters/native/posix_account_control.py. */
module AccountControl {
  import opened Texts

  const GRACE: real := 5.0

  datatype Command = UserAdd | ChPasswd | Lock

  /** How a command that was started ended: exit 0, another exit, or killed when its limit passed. */
  datatype Ending = Succeeded | Failed | Killed

  /** What the system does with a started command: how long it is until it runs, how long it runs, how it
      ends, and whether it took effect although it did not succeed. */
  datatype Fate = Fate(idle: real, took: real, ending: Ending, effect: bool)

  /** A command that was started, the limit it was given and its fate. */
  datatype Attempt = Attempt(command: Command, limit: real, fate: Fate)

  predicate IsFate(f: Fate) {
    f.idle >= 0.0 && f.took >= 0.0
  }

  predicate Did(a: Attempt, c: Command) {
    a.command == c && a.fate.ending == Succeeded
  }

  /** The time before each of the last `n` commands in which nothing ran. */
  function IdleOfLast(attempts: seq<Attempt>, n: nat): real {
    if attempts == [] || n == 0 then 0.0
    else attempts[|attempts| - 1].fate.idle + IdleOfLast(attempts[..|attempts| - 1], n - 1)
  }

  predicate KeepLimits(attempts: seq<Attempt>) {
    forall i :: 0 <= i < |attempts| ==> attempts[i].fate.took <= attempts[i].limit
  }

  /** Why a step raised. A timeout carries the limit of the whole verb. */
  datatype Cause = CommandFailed(command: Command) | TimedOut(command: Command, started: bool, limit: real)

  /** A piece of the error text. */
  datatype Part = WasCreated | PasswordWasSet | PasswordMayNotBeSet | LockedWithinGrace | NotLocked(why: Cause)

  datatype Result =
    | Created(enabled: bool)
    | InvalidInput
    | NoSuchUser
    | Raised(cause: Cause, timeout: Option<real>, text: seq<Part>)

  // ----- what the attempts mean

  function Time(attempts: seq<Attempt>): real {
    if attempts == [] then 0.0
    else
      var last := attempts[|attempts| - 1].fate;
      Time(attempts[..|attempts| - 1]) + last.idle + last.took
  }

  /** The failure of a step: none, its command's, or a timeout, before the start or during the run. */
  function FailureOf(c: Command, attempts: seq<Attempt>, limit: real): Option<Cause> {
    if attempts == [] then Some(TimedOut(c, false, limit))
    else
      match attempts[|attempts| - 1].fate.ending
      case Succeeded => None
      case Failed => Some(CommandFailed(c))
      case Killed => Some(TimedOut(c, true, limit))
  }

  function Description(password: bool, passwordSet: bool, lock: bool, lockFailure: Option<Cause>): seq<Part> {
    [WasCreated]
    + (if password then [if passwordSet then PasswordWasSet else PasswordMayNotBeSet] else [])
    + (if lock then [match lockFailure case None => LockedWithinGrace case Some(why) => NotLocked(why)] else [])
  }

  predicate DidIn(attempts: seq<Attempt>, c: Command) {
    exists i :: 0 <= i < |attempts| && Did(attempts[i], c)
  }

  /** The last command started was the lock, under its own five seconds. */
  predicate EndsWithGraceLock(attempts: seq<Attempt>) {
    |attempts| > 0 && attempts[|attempts| - 1].command == Lock && attempts[|attempts| - 1].limit == 5.0
  }

  /** Those after useradd. */
  function LaterPlan(password: bool, disabled: bool): seq<Command> {
    (if password then [ChPasswd] else []) + (if disabled then [Lock] else [])
  }

  /** The commands a call is to run. */
  function Plan(password: bool, disabled: bool): seq<Command> {
    [UserAdd] + LaterPlan(password, disabled)
  }

  /** The plan was followed until a step failed, which is the cause: it was the last started, or it was not
      started because no time was left. */
  ghost predicate FailedAt(plan: seq<Command>, attempts: seq<Attempt>, timeout: real, cause: Cause) {
    var n := |attempts|;
    && n <= |plan|
    && (forall i :: 0 <= i < n ==> attempts[i].command == plan[i])
    && (forall i :: 0 <= i < n - 1 ==> Did(attempts[i], plan[i]))
    && if n > 0 && !Did(attempts[n - 1], plan[n - 1])
       then cause == if attempts[n - 1].fate.ending == Killed then TimedOut(plan[n - 1], true, timeout)
                     else CommandFailed(plan[n - 1])
       else n < |plan| && cause == TimedOut(plan[n], false, timeout)
  }

  /** A call that raised started the plan up to the step that failed, then one lock within the grace, if a
      lock was asked for and the account was created, and nothing else. */
  ghost predicate StartedAsPlanned(password: bool, disabled: bool, timeout: real, cause: Cause,
                                   attempts: seq<Attempt>) {
    var planned := |attempts| - if disabled && DidIn(attempts, UserAdd) then 1 else 0;
    && planned >= 0
    && FailedAt(Plan(password, disabled), attempts[..planned], timeout, cause)
    && (disabled && DidIn(attempts, UserAdd) ==> EndsWithGraceLock(attempts))
  }

  /** Every planned command ran, in order, and succeeded. */
  ghost predicate AllDone(password: bool, disabled: bool, attempts: seq<Attempt>) {
    var plan := Plan(password, disabled);
    |attempts| == |plan| && forall i :: 0 <= i < |plan| ==> Did(attempts[i], plan[i])
  }

  /** What a result says about the commands that were started. */
  ghost predicate Reports(r: Result, password: bool, disabled: bool, timeout: real, attempts: seq<Attempt>) {
    match r
    case InvalidInput => false
    case Created(enabled) => enabled == !disabled && AllDone(password, disabled, attempts)
    case NoSuchUser => AllDone(password, disabled, attempts)
    case Raised(cause, limit, text) =>
      // A timeout stays a timeout, with the verb's limit; another failure is none.
      && limit == (if cause.TimedOut? then Some(timeout) else None)
      && (cause.TimedOut? ==> cause.limit == timeout)
      && StartedAsPlanned(password, disabled, timeout, cause, attempts)
      && if !DidIn(attempts, UserAdd) then text == [] && !DidIn(attempts, ChPasswd) && !DidIn(attempts, Lock)
         else
           && WasCreated in text
           // The text says the password was set exactly when chpasswd succeeded.
           && (PasswordWasSet in text <==> DidIn(attempts, ChPasswd))
           && (PasswordMayNotBeSet in text <==> password && !DidIn(attempts, ChPasswd))
           // The text says locked exactly when the lock within the grace, the last command, succeeded.
           && (LockedWithinGrace in text <==> disabled && Did(attempts[|attempts| - 1], Lock))
           && ((exists why :: NotLocked(why) in text) <==> disabled && !Did(attempts[|attempts| - 1], Lock))
           // It says why it was not.
           && (forall why :: NotLocked(why) in text ==>
                 why == if attempts[|attempts| - 1].fate.ending == Killed then TimedOut(Lock, true, GRACE)
                        else CommandFailed(Lock))
  }

  function AtLeastZero(t: real): real {
    if t > 0.0 then t else 0.0
  }

  function GraceOf(r: Result, disabled: bool): real {
    if r.Raised? && r.text != [] && disabled then GRACE else 0.0
  }

  /** Where every command kept its limit, the time is within the bound but for what was idle before the last
      `n` commands: what was idle earlier is taken off the limits given later. */
  ghost predicate InTime(now: real, bound: real, attempts: seq<Attempt>, n: nat) {
    KeepLimits(attempts) ==> now <= bound + IdleOfLast(attempts, n)
  }

  lemma DidInParts(a: seq<Attempt>, b: seq<Attempt>, c: Command)
    ensures DidIn(a + b, c) <==> DidIn(a, c) || DidIn(b, c)
  {
    assert forall i :: 0 <= i < |a| ==> (a + b)[i] == a[i];
    assert forall i :: 0 <= i < |b| ==> (a + b)[|a| + i] == b[i];
    assert forall i :: |a| <= i < |a + b| ==> (a + b)[i] == b[i - |a|];
  }

  lemma NoAttempts()
    ensures Time([]) == 0.0
  {
  }

  lemma StartsInTime(now: real, bound: real)
    requires now <= bound
    ensures InTime(now, bound, [], 1)
  {
  }

  /** A command given the rest of a deadline within the bound keeps the time, whatever came before. */
  lemma StepInTime(now: real, bound: real, attempts: seq<Attempt>, more: seq<Attempt>)
    requires InTime(now, bound, attempts, 1)
    requires |more| <= 1 && (more != [] ==> now + more[0].limit <= bound)
    ensures InTime(now + Time(more), bound, attempts + more, 1)
  {
    var all := attempts + more;
    if more == [] {
      assert all == attempts;
    } else {
      assert all[|attempts|] == more[0] && more[..0] == [];
    }
  }

  /** So does the lock within the grace, the grace later; only the last planned command and the lock itself can
      have been kept waiting. */
  lemma GraceInTime(now: real, bound: real, attempts: seq<Attempt>, more: seq<Attempt>)
    requires InTime(now, bound, attempts, 1)
    requires |more| == 1 && more[0].limit == GRACE
    ensures InTime(now + Time(more), bound + GRACE, attempts + more, 2)
  {
    var all := attempts + more;
    assert all[..|attempts|] == attempts && all[|attempts|] == more[0] && more[..0] == [];
    if KeepLimits(all) {
      assert forall i :: 0 <= i < |attempts| ==> attempts[i] == all[i];
    }
  }

  lemma UserAddFailedReports(password: bool, disabled: bool, timeout: real, useradd: seq<Attempt>)
    requires |useradd| <= 1 && (useradd != [] ==> useradd[0].command == UserAdd)
    requires FailureOf(UserAdd, useradd, timeout).Some?
    ensures var cause := FailureOf(UserAdd, useradd, timeout).value;
      Reports(Raised(cause, if cause.TimedOut? then Some(timeout) else None, []), password, disabled, timeout, useradd)
  {
  }

  lemma AllDoneReports(password: bool, disabled: bool, timeout: real, useradd: seq<Attempt>, chpasswd: seq<Attempt>,
                       lock: seq<Attempt>)
    requires |useradd| == 1 && Did(useradd[0], UserAdd)
    requires if password then |chpasswd| == 1 && Did(chpasswd[0], ChPasswd) else chpasswd == []
    requires if disabled then |lock| == 1 && Did(lock[0], Lock) else lock == []
    ensures Reports(Created(!disabled), password, disabled, timeout, useradd + chpasswd + lock)
    ensures Reports(NoSuchUser, password, disabled, timeout, useradd + chpasswd + lock)
  {
  }

  lemma LogInParts(log: seq<Attempt>, a: seq<Attempt>, b: seq<Attempt>, c: seq<Attempt>, d: seq<Attempt>)
    ensures log + a + b + c + d == log + (a + b + c + d)
    ensures d == [] ==> a + b + c + d == a + b + c
  {
  }

  /** A later step failing after useradd succeeded is the plan failing there. */
  lemma FailedLater(password: bool, disabled: bool, timeout: real, cause: Cause, useradd: seq<Attempt>,
                    later: seq<Attempt>)
    requires |useradd| == 1 && Did(useradd[0], UserAdd)
    requires FailedAt(LaterPlan(password, disabled), later, timeout, cause)
    ensures FailedAt(Plan(password, disabled), useradd + later, timeout, cause)
  {
    var plan, all := LaterPlan(password, disabled), useradd + later;
    hide LaterPlan;
    assert forall i :: 1 <= i < |all| ==> all[i] == later[i - 1] && Plan(password, disabled)[i] == plan[i - 1];
  }

  lemma DidInAll(a: seq<Attempt>, b: seq<Attempt>, c: seq<Attempt>, command: Command)
    ensures DidIn(a + b + c, command) <==> DidIn(a, command) || DidIn(b, command) || DidIn(c, command)
  {
    hide DidIn;
    DidInParts(a, b, command);
    DidInParts(a + b, c, command);
  }

  /** What the text says, by what it was made of. */
  lemma DescriptionTells(password: bool, passwordSet: bool, lock: bool, lockFailure: Option<Cause>)
    ensures var text := Description(password, passwordSet, lock, lockFailure);
      && WasCreated in text
      && (PasswordWasSet in text <==> password && passwordSet)
      && (PasswordMayNotBeSet in text <==> password && !passwordSet)
      && (LockedWithinGrace in text <==> lock && lockFailure.None?)
      && ((exists why :: NotLocked(why) in text) <==> lock && lockFailure.Some?)
      && (forall why :: NotLocked(why) in text ==> lockFailure == Some(why))
  {
    var text := Description(password, passwordSet, lock, lockFailure);
    if lock {
      assert text[|text| - 1] == match lockFailure case None => LockedWithinGrace case Some(why) => NotLocked(why);
    }
  }

  /** The planned commands and the lock within the grace, and the text about them. */
  lemma RaisedReports(password: bool, disabled: bool, timeout: real, cause: Cause, planned: seq<Attempt>,
                      grace: seq<Attempt>)
    requires FailedAt(Plan(password, disabled), planned, timeout, cause) && DidIn(planned, UserAdd)
    requires if disabled then |grace| == 1 && grace[0].command == Lock && grace[0].limit == GRACE else grace == []
    requires (cause.TimedOut? ==> cause.limit == timeout) && (DidIn(planned, ChPasswd) ==> password)
    ensures Reports(Raised(cause, if cause.TimedOut? then Some(timeout) else None,
                           Description(password, DidIn(planned, ChPasswd), disabled,
                                       if disabled then FailureOf(Lock, grace, GRACE) else None)),
                    password, disabled, timeout, planned + grace)
  {
    var attempts := planned + grace;
    DidInParts(planned, grace, UserAdd);
    DidInParts(planned, grace, ChPasswd);
    assert !DidIn(grace, ChPasswd);
    var failure := if disabled then FailureOf(Lock, grace, GRACE) else None;
    DescriptionTells(password, DidIn(planned, ChPasswd), disabled, failure);
    assert attempts[..|planned|] == planned;
    assert disabled ==> attempts[|attempts| - 1] == grace[0];
    hide DidIn, FailedAt, Description, Plan;
  }

  /** The text of a call that failed after useradd. */
  lemma PartialCreateReports(password: bool, disabled: bool, timeout: real, cause: Cause, useradd: seq<Attempt>,
                             chpasswd: seq<Attempt>, lock: seq<Attempt>, grace: seq<Attempt>)
    requires |useradd| == 1 && Did(useradd[0], UserAdd)
    requires |chpasswd| <= 1 && (chpasswd != [] ==> password && chpasswd[0].command == ChPasswd)
    requires |lock| <= 1 && (lock != [] ==> lock[0].command == Lock)
    requires if disabled then |grace| == 1 && grace[0].command == Lock && grace[0].limit == GRACE else grace == []
    requires cause.TimedOut? ==> cause.limit == timeout
    requires FailedAt(LaterPlan(password, disabled), chpasswd + lock, timeout, cause)
    ensures Reports(Raised(cause, if cause.TimedOut? then Some(timeout) else None,
                           Description(password, DidIn(chpasswd, ChPasswd), disabled,
                                       if disabled then FailureOf(Lock, grace, GRACE) else None)),
                    password, disabled, timeout, useradd + chpasswd + lock + grace)
  {
    var planned := useradd + chpasswd + lock;
    DidInAll(useradd, chpasswd, lock, UserAdd);
    DidInAll(useradd, chpasswd, lock, ChPasswd);
    assert DidIn(useradd, UserAdd) && !DidIn(useradd, ChPasswd) && !DidIn(lock, ChPasswd);
    FailedLater(password, disabled, timeout, cause, useradd, chpasswd + lock);
    assert useradd + (chpasswd + lock) == planned;
    hide DidIn, FailedAt, Description, Plan, LaterPlan, Reports;
    RaisedReports(password, disabled, timeout, cause, planned, grace);
  }

  /** A call that reports starts nothing that was not asked for: no lock without `disabled`, no chpasswd
      without a password, nothing after a useradd that did not succeed, and four commands at most. */
  lemma NothingUnasked(r: Result, password: bool, disabled: bool, timeout: real, attempts: seq<Attempt>)
    requires Reports(r, password, disabled, timeout, attempts)
    ensures forall i :: 0 <= i < |attempts| ==> (attempts[i].command == Lock ==> disabled)
    ensures forall i :: 0 <= i < |attempts| ==> (attempts[i].command == ChPasswd ==> password)
    ensures |attempts| <= 4 && (|attempts| > 1 ==> Did(attempts[0], UserAdd))
  {
    if r.Raised? {
      var grace := if disabled && DidIn(attempts, UserAdd) then 1 else 0;
      var planned := attempts[..|attempts| - grace];
      assert forall i :: 0 <= i < |planned| ==> planned[i] == attempts[i];
      if grace == 1 {
        var k :| 0 <= k < |attempts| && Did(attempts[k], UserAdd);
        assert attempts[|attempts| - 1].command == Lock;
        assert planned[k] == attempts[k];
      }
    }
  }

  // ----- the machine and the controller

  /** The account database and the clock, and the commands started so far. */
  class Machine {
    var now: real
    var created: bool
    var hasPassword: bool
    var locked: bool
    var log: seq<Attempt>

    constructor (now: real)
      ensures this.now == now && log == [] && !created && !hasPassword && !locked
    {
      this.now := now;
      created, hasPassword, locked := false, false, false;
      log := [];
    }

    /** A command runs to its end. */
    method Execute(c: Command, limit: real, fate: Fate)
      modifies this
      ensures log == old(log) + [Attempt(c, limit, fate)]
      ensures now == old(now) + fate.idle + fate.took
      ensures created == (old(created) || (c == UserAdd && (fate.ending == Succeeded || fate.effect)))
      ensures hasPassword == (old(hasPassword) || (c == ChPasswd && (fate.ending == Succeeded || fate.effect)))
      ensures locked == (old(locked) || (c == Lock && (fate.ending == Succeeded || fate.effect)))
    {
      var effect := fate.ending == Succeeded || fate.effect;
      created := created || (c == UserAdd && effect);
      hasPassword := hasPassword || (c == ChPasswd && effect);
      locked := locked || (c == Lock && effect);
      now := now + fate.idle + fate.took;
      log := log + [Attempt(c, limit, fate)];
    }
  }

  /** A verb's overall time limit. */
  class Deadline {
    const limit: real
    const endsAt: real

    constructor (limit: real, now: real)
      ensures this.limit == limit && endsAt == now + limit
    {
      this.limit := limit;
      endsAt := now + limit;
    }

    function Remaining(now: real): real {
      endsAt - now
    }
  }

  /** What a `new_user` call has done so far. */
  class NewUserProgress {
    const passwordRequested: bool
    const lockRequested: bool
    var passwordSet: bool
    var lockFailure: Option<Cause>

    constructor (passwordRequested: bool, lockRequested: bool)
      ensures this.passwordRequested == passwordRequested && this.lockRequested == lockRequested
      ensures !passwordSet && lockFailure == None
    {
      this.passwordRequested := passwordRequested;
      this.lockRequested := lockRequested;
      passwordSet := false;
      lockFailure := None;
    }

    /** `describe`. */
    function Describe(): seq<Part>
      reads this
    {
      Description(passwordRequested, passwordSet, lockRequested, lockFailure)
    }
  }

  /** What the system does with the commands, by how many were started before. */
  type Fates = nat -> Fate

  /** The controller of one machine. */
  class Controller {
    const machine: Machine

    constructor (machine: Machine)
      ensures this.machine == machine
    {
      this.machine := machine;
    }

    /** `_run`: the command gets what is left of the deadline, and is not started when nothing is. */
    method Run(c: Command, deadline: Deadline, fates: Fates)
      returns (failure: Option<Cause>, ghost attempts: seq<Attempt>)
      requires forall n :: IsFate(fates(n))
      modifies machine
      ensures machine.log == old(machine.log) + attempts
      ensures machine.now == old(machine.now) + Time(attempts)
      ensures attempts == if old(machine.now) >= deadline.endsAt then []
                          else [Attempt(c, deadline.endsAt - old(machine.now), fates(|old(machine.log)|))]
      ensures failure == FailureOf(c, attempts, deadline.limit)
      ensures old(machine.created) || (failure == None && c == UserAdd) ==> machine.created
      ensures old(machine.hasPassword) || (failure == None && c == ChPasswd) ==> machine.hasPassword
      ensures old(machine.locked) || (failure == None && c == Lock) ==> machine.locked
    {
      var remaining := deadline.Remaining(machine.now);
      if remaining <= 0.0 {
        return Some(TimedOut(c, false, deadline.limit)), [];
      }
      var fate := fates(|machine.log|);
      machine.Execute(c, remaining, fate);
      attempts := [Attempt(c, remaining, fate)];
      match fate.ending {
        case Succeeded => failure := None;
        case Failed => failure := Some(CommandFailed(c));
        case Killed => failure := Some(TimedOut(c, true, deadline.limit));
      }
    }

    /** `_lock_within_grace`: its own limit, so it is always started. */
    method LockWithinGrace(fates: Fates) returns (failure: Option<Cause>, ghost attempts: seq<Attempt>)
      requires forall n :: IsFate(fates(n))
      modifies machine
      ensures machine.log == old(machine.log) + attempts
      ensures machine.now == old(machine.now) + Time(attempts)
      ensures attempts == [Attempt(Lock, GRACE, fates(|old(machine.log)|))]
      ensures failure == FailureOf(Lock, attempts, GRACE)
      ensures (old(machine.created) ==> machine.created) && (old(machine.hasPassword) ==> machine.hasPassword)
      ensures failure == None ==> machine.locked
    {
      var grace := new Deadline(GRACE, machine.now);
      failure, attempts := Run(Lock, grace, fates);
    }

    /** `_after_partial_create`: the requested lock is still applied, and the error says what was done. */
    method AfterPartialCreate(cause: Cause, progress: NewUserProgress, deadline: Deadline, fates: Fates)
      returns (r: Result, ghost attempts: seq<Attempt>)
      requires (forall n :: IsFate(fates(n))) && progress.lockFailure == None
      modifies machine, progress
      ensures machine.log == old(machine.log) + attempts
      ensures machine.now == old(machine.now) + Time(attempts)
      ensures attempts == if progress.lockRequested then [Attempt(Lock, GRACE, fates(|old(machine.log)|))] else []
      ensures r == Raised(cause, if cause.TimedOut? then Some(deadline.limit) else None,
                          Description(progress.passwordRequested, old(progress.passwordSet), progress.lockRequested,
                                      if progress.lockRequested then FailureOf(Lock, attempts, GRACE) else None))
      ensures (old(machine.created) ==> machine.created) && (old(machine.hasPassword) ==> machine.hasPassword)
      ensures PasswordWasSet in r.text ==> old(progress.passwordSet)
      ensures progress.lockRequested && FailureOf(Lock, attempts, GRACE) == None ==> machine.locked
    {
      attempts := [];
      if progress.lockRequested {
        progress.lockFailure, attempts := LockWithinGrace(fates);
      }
      DescriptionTells(progress.passwordRequested, progress.passwordSet, progress.lockRequested, progress.lockFailure);
      r := Raised(cause, if cause.TimedOut? then Some(deadline.limit) else None, progress.Describe());
    }

    /** The steps of `new_user` after useradd: the password, then the lock, each if asked for and if nothing
        failed before. */
    method FinishAccount(progress: NewUserProgress, deadline: Deadline, fates: Fates, ghost bound: real,
                         ghost before: seq<Attempt>)
      returns (failure: Option<Cause>, ghost chpasswd: seq<Attempt>, ghost lock: seq<Attempt>)
      requires (forall n :: IsFate(fates(n))) && deadline.endsAt <= bound
      requires InTime(machine.now, bound, before, 1) && !progress.passwordSet && progress.lockFailure == None
      modifies machine, progress`passwordSet
      ensures machine.log == old(machine.log) + chpasswd + lock
      ensures InTime(machine.now, bound, before + chpasswd + lock, 1)
      ensures |chpasswd| <= 1 && (chpasswd != [] ==> progress.passwordRequested && chpasswd[0].command == ChPasswd)
      ensures |lock| <= 1 && (lock != [] ==> lock[0].command == Lock && progress.lockRequested)
      ensures lock != [] && progress.passwordRequested ==> DidIn(chpasswd, ChPasswd)
      ensures failure.Some? ==>
        FailedAt(LaterPlan(progress.passwordRequested, progress.lockRequested), chpasswd + lock, deadline.limit,
                 failure.value)
      ensures progress.passwordSet == DidIn(chpasswd, ChPasswd)
      ensures (old(machine.created) ==> machine.created) && (progress.passwordSet ==> machine.hasPassword)
      ensures failure == None && progress.passwordRequested ==> machine.hasPassword
      ensures failure == None ==>
        && (if progress.passwordRequested then |chpasswd| == 1 && Did(chpasswd[0], ChPasswd) else chpasswd == [])
        && (if progress.lockRequested then |lock| == 1 && Did(lock[0], Lock) && machine.locked else lock == [])
      ensures failure.Some? && failure.value.TimedOut? ==> failure.value.limit == deadline.limit
    {
      hide InTime, Time;
      NoAttempts();
      failure, chpasswd, lock := None, [], [];
      ghost var now := machine.now;
      if progress.passwordRequested {
        failure, chpasswd := Run(ChPasswd, deadline, fates);
        if failure == None {
          progress.passwordSet := true;
        }
      }
      StepInTime(now, bound, before, chpasswd);
      now := machine.now;
      if failure == None && progress.lockRequested {
        failure, lock := Run(Lock, deadline, fates);
      }
      StepInTime(now, bound, before + chpasswd, lock);
    }

    /** `new_user`, its name, comment and password acceptable or not (`valid`), and the account found
        afterwards or not (`found`). */
    method NewUser(valid: bool, password: bool, disabled: bool, timeout: real, fates: Fates, found: bool)
      returns (r: Result, ghost attempts: seq<Attempt>)
      requires forall n :: IsFate(fates(n))
      modifies machine
      ensures machine.log == old(machine.log) + attempts
      ensures !valid <==> r.InvalidInput?
      ensures !valid ==> attempts == []
      ensures valid ==> Reports(r, password, disabled, timeout, attempts)
      ensures valid && !(r.Raised? && r.text == []) ==> machine.created
      ensures (r.Created? || r.NoSuchUser?) && password ==> machine.hasPassword
      ensures r.Raised? && PasswordWasSet in r.text ==> machine.hasPassword
      ensures (r.Created? || r.NoSuchUser?) && disabled ==> machine.locked
      ensures r.Raised? && LockedWithinGrace in r.text ==> machine.locked
      ensures (r.NoSuchUser? ==> !found) && (r.Created? ==> found)
      // If each command keeps its own limit, all is over within the timeout, the grace where it was given,
      // and what the last planned command and the lock within the grace were kept waiting.
      ensures InTime(machine.now, old(machine.now) + AtLeastZero(timeout) + GraceOf(r, disabled), attempts,
                     if GraceOf(r, disabled) > 0.0 then 2 else 1)
    {
      hide Reports, AllDone, InTime, KeepLimits, IdleOfLast, Time, DidIn;
      ghost var bound := machine.now + AtLeastZero(timeout);
      StartsInTime(machine.now, bound);
      if !valid {
        return InvalidInput, [];
      }
      var deadline := new Deadline(timeout, machine.now);
      var failure, useradd := Run(UserAdd, deadline, fates);
      StepInTime(old(machine.now), bound, [], useradd);
      assert [] + useradd == useradd;
      if failure.Some? {
        UserAddFailedReports(password, disabled, timeout, useradd);
        return Raised(failure.value, if failure.value.TimedOut? then Some(timeout) else None, []), useradd;
      }
      var progress := new NewUserProgress(password, disabled);
      ghost var chpasswd, lock, grace: seq<Attempt>;
      failure, chpasswd, lock := FinishAccount(progress, deadline, fates, bound, useradd);
      if failure.Some? {
        ghost var now := machine.now;
        r, grace := AfterPartialCreate(failure.value, progress, deadline, fates);
        PartialCreateReports(password, disabled, timeout, failure.value, useradd, chpasswd, lock, grace);
        if disabled {
          GraceInTime(now, bound, useradd + chpasswd + lock, grace);
        } else {
          NoAttempts();
        }
      } else {
        grace := [];
        AllDoneReports(password, disabled, timeout, useradd, chpasswd, lock);
        r := if found then Created(!disabled) else NoSuchUser;
      }
      attempts := useradd + chpasswd + lock + grace;
      LogInParts(old(machine.log), useradd, chpasswd, lock, grace);
    }
  }
}
