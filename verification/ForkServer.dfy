/**
 * The fork server as a state machine: the server's steps interleave with those of the child
 * it forked and with kills from outside. Then, for a child that runs the persistent loop and
 * is not killed, how many forks a number of commands costs.
 */
module ForkServer {
  import opened Words

  datatype WaitStatus = WStopped | WExited(code: nat) | WSignaled(sig: nat)

  /** The process last forked: `NoProcess` once it has been reaped. `whileStopped` tells how it died. */
  datatype Process = NoProcess | Running | Stopped | Zombie(status: WaitStatus, whileStopped: bool)

  datatype Message = Pid(pid: nat) | Status(status: WaitStatus)

  /** Where the server is in its loop. */
  datatype Pc = Reading | Deciding | Reaping | Launching | SendingPid | Waiting | SendingStatus(status: WaitStatus)
    | Gone

  /** The statics of __afl_persistent_loop in the child. */
  datatype Loop = Loop(firstPass: bool, cycleCnt: u32)

  datatype Config = Config(persistent: bool, maxCnt: u32)

  datatype State = State(
    pc: Pc, wasKilled: bool, childStopped: bool, childPid: nat, process: Process,
    commands: nat, forks: nat, sent: seq<Message>, loop: Loop)

  const INITIAL: State := State(Reading, false, false, 0, NoProcess, 0, 0, [], Loop(true, 0))

  // ---- the persistent loop ----

  /** A call of the persistent loop goes on at once, stops itself first, or leaves the loop. */
  datatype Result = GoOn | StopFirst | Leave

  function LoopCall(l: Loop, cfg: Config): (Loop, Result) {
    if l.firstPass then (Loop(false, cfg.maxCnt), GoOn)
    else if !cfg.persistent then (l, Leave)
    else
      var c: u32 := (l.cycleCnt - 1) % TWO_TO_THE_32;
      (l.(cycleCnt := c), if c != 0 then StopFirst else Leave)
  }

  // ---- the server ----

  ghost predicate Read(s: State, t: State) {
    s.pc == Reading
    && (t == s.(pc := Deciding, wasKilled := true, commands := s.commands + 1)
        || t == s.(pc := Deciding, wasKilled := false, commands := s.commands + 1))
  }

  /** A stopped child that was killed is written off. */
  ghost predicate Decide(s: State, t: State) {
    s.pc == Deciding
    && t == if s.childStopped && s.wasKilled then s.(pc := Reaping, childStopped := false) else s.(pc := Launching)
  }

  /** waitpid without WUNTRACED returns only for a child that has terminated. */
  ghost predicate Reap(s: State, t: State) {
    s.pc == Reaping && s.process.Zombie? && t == s.(pc := Launching, process := NoProcess)
  }

  /** The child has entered the loop for the first time. */
  ghost predicate Fork(s: State, t: State, cfg: Config) {
    s.pc == Launching && !s.childStopped && t.childPid > 0
    && t == s.(pc := SendingPid, childPid := t.childPid, process := Running, forks := s.forks + 1,
               loop := LoopCall(Loop(true, 0), cfg).0)
  }

  /** SIGCONT; a child that has been killed meanwhile stays dead. */
  ghost predicate Continue(s: State, t: State) {
    s.pc == Launching && s.childStopped
    && t == s.(pc := SendingPid, childStopped := false, process := if s.process.Stopped? then Running else s.process)
  }

  ghost predicate SendPid(s: State, t: State) {
    s.pc == SendingPid && t == s.(pc := Waiting, sent := s.sent + [Pid(s.childPid)])
  }

  /** waitpid, with WUNTRACED in persistent mode. */
  ghost predicate Wait(s: State, t: State, cfg: Config) {
    s.pc == Waiting
    && ((s.process.Zombie? && t == s.(pc := SendingStatus(s.process.status), process := NoProcess))
        || (cfg.persistent && s.process.Stopped? && t == s.(pc := SendingStatus(WStopped), childStopped := true)))
  }

  ghost predicate SendStatus(s: State, t: State) {
    s.pc.SendingStatus? && t == s.(pc := Reading, sent := s.sent + [Status(s.pc.status)])
  }

  /** Any system call that fails ends the server. */
  ghost predicate Fail(s: State, t: State) { t == s.(pc := Gone) }

  // ---- the child, and kills from outside ----

  /** Whatever the child does, it ends up stopped or dead. */
  ghost predicate ChildMoves(s: State, t: State) {
    s.process.Running?
    && t == s.(process := t.process, loop := t.loop)
    && (t.process.Stopped? || (t.process.Zombie? && !t.process.status.WStopped? && !t.process.whileStopped))
  }

  ghost predicate Kill(s: State, t: State) {
    && (s.process.Running? || s.process.Stopped?)
    && t.process.Zombie? && t.process.status.WSignaled? && t.process.whileStopped == s.process.Stopped?
    && t == s.(process := t.process)
  }

  ghost predicate ServerMoves(s: State, t: State, cfg: Config) {
    || Read(s, t) || Decide(s, t) || Reap(s, t) || Fork(s, t, cfg) || Continue(s, t) || SendPid(s, t)
    || Wait(s, t, cfg) || SendStatus(s, t) || Fail(s, t)
  }

  ghost predicate Next(s: State, t: State, cfg: Config) {
    ServerMoves(s, t, cfg) || ChildMoves(s, t) || Kill(s, t)
  }

  ghost predicate IsRun(run: seq<State>, cfg: Config) {
    && run != [] && run[0] == INITIAL
    && forall i :: 0 < i < |run| ==> Next(run[i - 1], run[i], cfg)
  }

  // ---- safety ----

  /** One pid and one status for each command answered, in turn. */
  ghost predicate Alternates(sent: seq<Message>) {
    forall i :: 0 <= i < |sent| ==> if i % 2 == 0 then sent[i].Pid? && sent[i].pid > 0 else sent[i].Status?
  }

  /** The child is stopped, or was killed while it was. */
  ghost predicate StoppedChild(p: Process) { p.Stopped? || (p.Zombie? && p.whileStopped) }

  ghost predicate Inv(s: State, cfg: Config) {
    && Alternates(s.sent)
    && (s.process.Zombie? ==> !s.process.status.WStopped?)
    && match s.pc
       case Reading => (s.childStopped <==> StoppedChild(s.process)) && (!s.childStopped ==> s.process.NoProcess?)
                       && (s.childStopped ==> s.childPid > 0) && |s.sent| == 2 * s.commands
       case Deciding => (s.childStopped <==> StoppedChild(s.process)) && (!s.childStopped ==> s.process.NoProcess?)
                        && (s.childStopped ==> s.childPid > 0) && |s.sent| == 2 * s.commands - 2
       case Reaping => !s.childStopped && s.wasKilled && StoppedChild(s.process) && |s.sent| == 2 * s.commands - 2
       case Launching => (s.childStopped <==> StoppedChild(s.process)) && (!s.childStopped ==> s.process.NoProcess?)
                         && (s.childStopped ==> s.childPid > 0 && !s.wasKilled) && |s.sent| == 2 * s.commands - 2
       case SendingPid => !s.childStopped && !s.process.NoProcess? && s.childPid > 0 && |s.sent| == 2 * s.commands - 2
       case Waiting => !s.childStopped && !s.process.NoProcess? && s.childPid > 0 && |s.sent| == 2 * s.commands - 1
                       && s.sent[|s.sent| - 1] == Pid(s.childPid)
       case SendingStatus(status) =>
         (s.childStopped <==> StoppedChild(s.process)) && (!s.childStopped ==> s.process.NoProcess?)
         && (s.childStopped <==> status.WStopped?) && (s.childStopped ==> cfg.persistent)
         && s.childPid > 0 && |s.sent| == 2 * s.commands - 1 && s.sent[|s.sent| - 1] == Pid(s.childPid)
       case Gone => true
  }

  lemma InvServer(s: State, t: State, cfg: Config)
    requires Inv(s, cfg) && ServerMoves(s, t, cfg)
    ensures Inv(t, cfg)
  {
    assert Alternates(t.sent);
    hide Alternates;
  }

  lemma InvChild(s: State, t: State, cfg: Config)
    requires Inv(s, cfg) && (ChildMoves(s, t) || Kill(s, t))
    ensures Inv(t, cfg)
  {
    hide Alternates;
  }

  lemma {:induction false} RunInv(run: seq<State>, cfg: Config, k: nat)
    requires IsRun(run, cfg) && k < |run|
    ensures Inv(run[k], cfg)
  {
    if k > 0 {
      RunInv(run, cfg, k - 1);
      if ServerMoves(run[k - 1], run[k], cfg) {
        InvServer(run[k - 1], run[k], cfg);
      } else {
        InvChild(run[k - 1], run[k], cfg);
      }
    }
  }

  lemma LatestInv(run: seq<State>, cfg: Config)
    requires IsRun(run, cfg)
    ensures Inv(run[|run| - 1], cfg)
  {
    RunInv(run, cfg, |run| - 1);
  }

  /** No step of a run forks while an earlier child has not been reaped. */
  lemma ForksOnlyAfterReaping(run: seq<State>, cfg: Config, k: nat)
    requires IsRun(run, cfg) && 0 < k < |run| && run[k].forks != run[k - 1].forks
    ensures run[k - 1].process.NoProcess? && run[k].process.Running? && run[k].forks == run[k - 1].forks + 1
  {
    RunInv(run, cfg, k - 1);
    hide Alternates;
  }

  /** When a command is awaited, child_stopped says whether the child is stopped, or was when it was killed. */
  lemma StoppedFlagIsExact(run: seq<State>, cfg: Config, k: nat)
    requires IsRun(run, cfg) && k < |run| && (run[k].pc.Reading? || run[k].pc.Deciding? || run[k].pc.Launching?)
    ensures run[k].childStopped <==> StoppedChild(run[k].process)
    ensures run[k].childStopped ==> cfg.persistent
    ensures !run[k].childStopped <==> run[k].process.NoProcess?
  {
    RunInv(run, cfg, k);
    StopsOnlyWhenPersistent(run, cfg, k);
  }

  lemma {:induction false} StopsOnlyWhenPersistent(run: seq<State>, cfg: Config, k: nat)
    requires IsRun(run, cfg) && k < |run|
    ensures run[k].childStopped ==> cfg.persistent
  {
    if k > 0 {
      StopsOnlyWhenPersistent(run, cfg, k - 1);
    }
  }

  /** Every command answered got one pid and then one status. */
  lemma OnePidOneStatus(run: seq<State>, cfg: Config, k: nat)
    requires IsRun(run, cfg) && k < |run| && run[k].pc.Reading?
    ensures |run[k].sent| == 2 * run[k].commands
    ensures forall c :: 0 <= c < run[k].commands ==> run[k].sent[2 * c].Pid? && run[k].sent[2 * c + 1].Status?
  {
    RunInv(run, cfg, k);
  }

  /** The server never continues a process that is not its own stopped child. */
  lemma ContinuesOnlyTheStopped(run: seq<State>, cfg: Config, k: nat)
    requires IsRun(run, cfg) && 0 < k < |run| && Continue(run[k - 1], run[k])
    ensures StoppedChild(run[k - 1].process) && !run[k - 1].wasKilled && run[k].childPid > 0
    ensures run[k].forks == run[k - 1].forks && run[k].childPid == run[k - 1].childPid
  {
    RunInv(run, cfg, k - 1);
  }

  // ---- what a cooperating child costs ----

  /** The child handles one input and calls the persistent loop again. */
  ghost predicate Iterates(s: State, t: State, cfg: Config) {
    s.process.Running?
    && var (l, result) := LoopCall(s.loop, cfg);
    && (result.StopFirst? ==> t == s.(process := Stopped, loop := l))
    && (result.Leave? ==> t.process.Zombie? && t.process.status.WExited? && !t.process.whileStopped
                          && t == s.(process := t.process, loop := l))
    && (result.GoOn? ==> t == s.(loop := l))
  }

  /** A run without kills or crashes. */
  ghost predicate Cooperates(run: seq<State>, cfg: Config) {
    && IsRun(run, cfg)
    && forall i :: 0 < i < |run| ==> ServerMoves(run[i - 1], run[i], cfg) || Iterates(run[i - 1], run[i], cfg)
  }

  /** How many inputs one process handles. A max_cnt of zero wraps. */
  function InputsPerProcess(cfg: Config): (n: nat)
    ensures n > 0
  {
    if !cfg.persistent then 1 else if cfg.maxCnt == 0 then TWO_TO_THE_32 else cfg.maxCnt
  }

  /** How many inputs the process can still take, those it is at or was woken for included. */
  function Left(s: State, cfg: Config): nat {
    match s.process
    case Running => if !cfg.persistent then 1 else if s.loop.cycleCnt == 0 then TWO_TO_THE_32 else s.loop.cycleCnt
    case Stopped => s.loop.cycleCnt
    case _ => 0
  }

  /** How many of the commands read have not been given to a process, or are still with it. */
  function Open(s: State): nat {
    match s.pc
    case Deciding | Reaping | Launching => 1
    case SendingPid | Waiting => if s.process.Running? then 1 else 0
    case _ => 0
  }

  ghost predicate Accounted(s: State, cfg: Config) {
    s.pc.Gone?
    || (&& (s.process.Running? ==> !s.loop.firstPass && (s.pc.SendingPid? || s.pc.Waiting?))
        && (s.process.Stopped? ==> cfg.persistent && !s.loop.firstPass && s.loop.cycleCnt > 0)
        && (s.process.Zombie? ==> s.process.status.WExited? && !s.process.whileStopped)
        && Left(s, cfg) - Open(s) < InputsPerProcess(cfg)
        && Capacity(s.forks, cfg) == s.commands - Open(s) + Left(s, cfg))
  }

  /** The inputs that a number of processes handle. */
  function Capacity(processes: nat, cfg: Config): nat {
    if processes == 0 then 0 else Capacity(processes - 1, cfg) + InputsPerProcess(cfg)
  }

  lemma {:induction false} CapacityIsProduct(processes: nat, cfg: Config)
    ensures Capacity(processes, cfg) == processes * InputsPerProcess(cfg)
  {
    if processes > 0 {
      CapacityIsProduct(processes - 1, cfg);
      assert (processes - 1) * InputsPerProcess(cfg) + InputsPerProcess(cfg) == processes * InputsPerProcess(cfg);
    }
  }

  lemma AccountedServer(s: State, t: State, cfg: Config)
    requires Inv(s, cfg) && Accounted(s, cfg) && ServerMoves(s, t, cfg)
    ensures Accounted(t, cfg)
  {
    hide Alternates;
  }

  lemma AccountedChild(s: State, t: State, cfg: Config)
    requires Inv(s, cfg) && Accounted(s, cfg) && Iterates(s, t, cfg)
    ensures Accounted(t, cfg)
  {
    hide Alternates;
  }

  lemma {:induction false} RunAccounted(run: seq<State>, cfg: Config, k: nat)
    requires Cooperates(run, cfg) && k < |run|
    ensures Accounted(run[k], cfg)
  {
    if k > 0 {
      RunAccounted(run, cfg, k - 1);
      RunInv(run, cfg, k - 1);
      if ServerMoves(run[k - 1], run[k], cfg) {
        AccountedServer(run[k - 1], run[k], cfg);
      } else {
        AccountedChild(run[k - 1], run[k], cfg);
      }
    }
  }

  /** N commands cost ceil(N / max_cnt) forks: enough to handle them all, and with one less they would not be. */
  lemma ForksAreCeiling(run: seq<State>, cfg: Config, k: nat)
    requires Cooperates(run, cfg) && k < |run| && run[k].pc.Reading?
    ensures var e := InputsPerProcess(cfg);
            (run[k].forks - 1) * e < run[k].commands <= run[k].forks * e
  {
    RunAccounted(run, cfg, k);
    RunInv(run, cfg, k);
    CapacityIsProduct(run[k].forks, cfg);
    var e, f: int := InputsPerProcess(cfg), run[k].forks;
    assert (f - 1) * e == f * e - e;
  }

  /** The child's side, whose statics are its own copies after the fork. */
  class Child {
    var firstPass: bool
    var cycleCnt: u32

    ghost function Value(): Loop
      reads this
    {
      Loop(firstPass, cycleCnt)
    }

    constructor ()
      ensures Value() == Loop(true, 0)
    {
      firstPass, cycleCnt := true, 0;
    }

    /** `stopped` tells that the process stopped itself before it returned. */
    method PersistentLoop(cfg: Config) returns (again: bool, stopped: bool)
      modifies this
      ensures Value() == LoopCall(old(Value()), cfg).0
      ensures again <==> !LoopCall(old(Value()), cfg).1.Leave?
      ensures stopped <==> LoopCall(old(Value()), cfg).1.StopFirst?
    {
      if firstPass {
        cycleCnt := cfg.maxCnt;
        firstPass := false;
        return true, false;
      }
      if cfg.persistent {
        cycleCnt := (cycleCnt - 1) % TWO_TO_THE_32;
        if cycleCnt != 0 {
          return true, true;
        }
      }
      return false, false;
    }

    /** A fresh process handles exactly its share of inputs, stopping between any two of them. */
    method HandleAll(cfg: Config) returns (inputs: nat, stops: nat)
      requires Value() == Loop(true, 0)
      modifies this
      ensures inputs == InputsPerProcess(cfg) && stops == inputs - 1
    {
      var again, stopped := PersistentLoop(cfg);
      inputs, stops := 0, 0;
      while again
        invariant !firstPass && stops == (if again then inputs else inputs - 1)
        invariant again && !cfg.persistent ==> inputs == 0
        invariant again && cfg.persistent ==>
                    inputs + (if cycleCnt == 0 then TWO_TO_THE_32 else cycleCnt) == InputsPerProcess(cfg)
        invariant !again ==> inputs == InputsPerProcess(cfg)
        decreases if again then InputsPerProcess(cfg) - inputs + 1 else 0
      {
        inputs := inputs + 1;
        again, stopped := PersistentLoop(cfg);
        if stopped {
          stops := stops + 1;
        }
      }
    }
  }

  /**
   * What happens around one command: a signal that kills a stopped child, the pid of a new one, how
   * the child ends up.
   */
  datatype Turn = Turn(wasKilled: bool, signal: Option<nat>, pid: nat, child: Process, loop: Loop)

  ghost predicate Plausible(turn: Turn) {
    && turn.pid > 0
    && (turn.child.Stopped? || (turn.child.Zombie? && !turn.child.status.WStopped? && !turn.child.whileStopped))
  }

  /** A stopped child after a kill from outside, if there is one. */
  function Struck(p: Process, turn: Turn): Process {
    if p.Stopped? && turn.signal.Some? then Zombie(WSignaled(turn.signal.value), true) else p
  }

  /** The child that is to be written off was never killed: waitpid does not return. */
  predicate WritesOffAlive(p: Process, childStopped: bool, turn: Turn) {
    childStopped && turn.wasKilled && !Struck(p, turn).Zombie?
  }

  /** How the child of this command ends up: one that was dead when it was to be continued stays as it was. */
  function EndOfTurn(p: Process, childStopped: bool, turn: Turn): Process {
    if childStopped && !turn.wasKilled && Struck(p, turn).Zombie? then Struck(p, turn) else turn.child
  }

  /** What waitpid reports of a child that has stopped or died. */
  function Reported(p: Process): WaitStatus { if p.Zombie? then p.status else WStopped }

  /** The server's side: the variables of its loop, and the run that they are part of. */
  class Server {
    const cfg: Config
    var childStopped: bool
    var childPid: nat
    var process: Process
    var sent: seq<Message>
    ghost var run: seq<State>

    ghost function Now(): State
      reads this
      requires run != []
    {
      run[|run| - 1]
    }

    ghost predicate At(pc: Pc)
      reads this
    {
      && run != [] && IsRun(run, cfg) && Now().pc == pc
      && childStopped == Now().childStopped && childPid == Now().childPid && process == Now().process
      && sent == Now().sent
    }

    constructor (cfg: Config)
      ensures At(Reading) && this.cfg == cfg && run == [INITIAL]
    {
      this.cfg := cfg;
      childStopped, childPid, process, sent := false, 0, NoProcess, [];
      run := [INITIAL];
    }

    ghost method Step(t: State)
      requires run != [] && IsRun(run, cfg) && Next(Now(), t, cfg)
      modifies this`run
      ensures run != [] && IsRun(run, cfg) && Now() == t && old(run) <= run
    {
      run := run + [t];
    }

    /** A kill from outside that finds the child stopped. */
    method Strike(turn: Turn)
      requires At(Reading)
      modifies this`run, this`process
      ensures At(Reading) && old(run) <= run
      ensures process == Struck(old(process), turn)
    {
      hide Alternates, IsRun;
      if process.Stopped? && turn.signal.Some? {
        process := Zombie(WSignaled(turn.signal.value), true);
        Step(Now().(process := process));
      }
    }

    /** Reads the command; the old child is written off if it was killed. Waits forever if it was not. */
    method Prepare(turn: Turn) returns (ok: bool)
      requires At(Reading) && Plausible(turn)
      modifies this`run, this`childStopped, this`process
      ensures old(run) <= run
      ensures ok <==> !WritesOffAlive(old(process), old(childStopped), turn)
      ensures ok ==> At(Launching) && (childStopped <==> old(childStopped) && !turn.wasKilled)
      ensures ok && childStopped ==> process == Struck(old(process), turn) && (process.Stopped? || process.Zombie?)
    {
      hide Alternates, IsRun;
      LatestInv(run, cfg);
      Strike(turn);
      ReadCommand(turn);
      if childStopped && turn.wasKilled {
        ok := WriteOff();
      } else {
        Step(Now().(pc := Launching));
        ok := true;
      }
    }

    method ReadCommand(turn: Turn)
      requires At(Reading)
      modifies this`run
      ensures At(Deciding) && old(run) <= run && (Now().wasKilled <==> turn.wasKilled)
    {
      hide Alternates, IsRun;
      Step(Now().(pc := Deciding, wasKilled := turn.wasKilled, commands := Now().commands + 1));
    }

    /** waitpid for a child said to have been killed. */
    method WriteOff() returns (ok: bool)
      requires At(Deciding) && childStopped && Now().wasKilled
      modifies this`run, this`childStopped, this`process
      ensures old(run) <= run && !childStopped && (ok <==> old(process).Zombie?)
      ensures ok ==> At(Launching)
    {
      hide Alternates, IsRun;
      childStopped := false;
      Step(Now().(pc := Reaping, childStopped := false));
      if !process.Zombie? {
        return false;
      }
      process := NoProcess;
      Step(Now().(pc := Launching, process := NoProcess));
      ok := true;
    }

    /** Forks a child, or continues the stopped one, and reports its pid. */
    method Launch(turn: Turn)
      requires At(Launching) && Plausible(turn)
      modifies this`run, this`childStopped, this`childPid, this`process, this`sent
      ensures At(Waiting) && old(run) <= run
      ensures sent == old(sent) + [Pid(childPid)]
      ensures childPid == if old(childStopped) then old(childPid) else turn.pid
      ensures process == if old(childStopped) && !old(process).Stopped? then old(process) else Running
    {
      hide Alternates, IsRun;
      if !childStopped {
        childPid := turn.pid;
        process := Running;
        Step(Now().(pc := SendingPid, childPid := childPid, process := Running, forks := Now().forks + 1,
                    loop := LoopCall(Loop(true, 0), cfg).0));
      } else {
        if process.Stopped? {
          process := Running;
        }
        childStopped := false;
        Step(Now().(pc := SendingPid, childStopped := false, process := process));
      }
      sent := sent + [Pid(childPid)];
      Step(Now().(pc := Waiting, sent := sent));
    }

    method Finish(turn: Turn)
      requires At(Waiting) && Plausible(turn)
      modifies this`run, this`process
      ensures At(Waiting) && old(run) <= run
      ensures process == if old(process).Running? then turn.child else old(process)
    {
      hide Alternates, IsRun;
      if process.Running? {
        process := turn.child;
        Step(Now().(process := turn.child, loop := turn.loop));
      }
    }

    /** Waits for the child and reports how it is; waits forever for one that stops when only ends are waited for. */
    method Await(turn: Turn) returns (ok: bool)
      requires At(Waiting) && Plausible(turn)
      modifies this`run, this`childStopped, this`process, this`sent
      ensures old(run) <= run
      ensures var end := if old(process).Running? then turn.child else old(process);
              && (ok <==> !end.Stopped? || cfg.persistent)
              && sent == old(sent) + (if ok then [Status(Reported(end))] else [])
              && (ok ==> At(Reading) && (childStopped <==> end.Stopped?))
    {
      hide Alternates, IsRun;
      LatestInv(run, cfg);
      Finish(turn);
      LatestInv(run, cfg);
      if process.Stopped? && !cfg.persistent {
        return false;
      }
      Relay();
      ok := true;
    }

    /** What waitpid reports goes to the fuzzer. */
    method Relay()
      requires At(Waiting) && !childStopped && (process.Stopped? ==> cfg.persistent)
      requires process.Stopped? || (process.Zombie? && !process.status.WStopped?)
      modifies this`run, this`childStopped, this`process, this`sent
      ensures At(Reading) && old(run) <= run
      ensures sent == old(sent) + [Status(Reported(old(process)))]
      ensures childStopped <==> old(process).Stopped?
    {
      hide Alternates, IsRun;
      var status := if process.Zombie? then process.status else WStopped;
      if status.WStopped? {
        childStopped := true;
      } else {
        process := NoProcess;
      }
      Step(Now().(pc := SendingStatus(status), process := process, childStopped := childStopped));
      sent := sent + [Status(status)];
      Step(Now().(pc := Reading, sent := sent));
    }

    /** One turn of the server's loop is a stretch of a run, from one command to the next. */
    method Answer(turn: Turn) returns (answered: bool)
      requires At(Reading) && Plausible(turn)
      modifies this
      ensures old(run) <= run
      ensures var end := EndOfTurn(old(process), old(childStopped), turn);
              && (answered <==> !WritesOffAlive(old(process), old(childStopped), turn)
                                && (end.Stopped? ==> cfg.persistent))
              && (answered ==> At(Reading) && (childStopped <==> end.Stopped?))
              && sent == old(sent) + (if answered then [Pid(childPid), Status(Reported(end))]
                                      else if WritesOffAlive(old(process), old(childStopped), turn) then []
                                      else [Pid(childPid)])
      ensures answered ==> childPid == if old(childStopped) && !turn.wasKilled then old(childPid) else turn.pid
    {
      answered := Prepare(turn);
      if answered {
        Launch(turn);
        answered := Await(turn);
      }
    }
  }
}
