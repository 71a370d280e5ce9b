/** The shell's job list in memory, updated slot by slot. */
module ShellJobs {
  import opened JobControl

  class JobList {
    const slots: array<Job>
    var nextjid: int

    ghost predicate Valid()
      reads this, slots
    {
      slots.Length == MAXJOBS
    }

    ghost function Abstract(): Jobs
      reads this, slots
    {
      Jobs(slots[..], nextjid)
    }

    constructor ()
      ensures Valid() && fresh(slots) && Abstract() == Start().jobs
    {
      slots := new Job[MAXJOBS];
      nextjid := 1;
      new;
      InitJobs();
      assert slots[..] == Cleared();
    }

    method ClearJob(i: nat)
      requires Valid() && i < MAXJOBS
      modifies slots
      ensures slots[..] == old(slots[..])[i := CLEAR]
    {
      slots[i] := slots[i].(pid := 0);
      slots[i] := slots[i].(jid := 0);
      slots[i] := slots[i].(state := UNDEF);
      slots[i] := slots[i].(cmdline := "");
    }

    method InitJobs()
      requires Valid()
      modifies slots
      ensures slots[..] == Cleared()
    {
      for i := 0 to MAXJOBS
        invariant forall k :: 0 <= k < i ==> slots[k] == CLEAR
      {
        ghost var before := slots[..];
        ClearJob(i);
        assert forall k :: 0 <= k < i ==> slots[..][k] == before[k];
      }
    }

    method GetMaxJid() returns (max: int)
      requires Valid()
      ensures max == MaxJid(slots[..])
    {
      max := 0;
      for i := 0 to MAXJOBS
        invariant max == MaxJid(slots[..i])
      {
        assert slots[..i + 1][..i] == slots[..i];
        if slots[i].jid > max {
          max := slots[i].jid;
        }
      }
      assert slots[..MAXJOBS] == slots[..];
    }

    method AddJob(pid: int, state: JobState, cmdline: string) returns (ok: bool)
      requires Valid()
      modifies this, slots
      ensures Abstract() == Added(old(Abstract()), pid, state, cmdline)
      ensures ok <==> 1 <= pid && HasPid(old(slots[..]), 0)
    {
      if pid < 1 { return false; }
      for i := 0 to MAXJOBS
        invariant Abstract() == old(Abstract())
        invariant forall k :: 0 <= k < i ==> slots[k].pid != 0
      {
        if slots[i].pid == 0 {
          ghost var t := slots[..];
          assert t[i] == slots[i];
          assert FindPid(t, 0) == i;
          slots[i] := slots[i].(pid := pid);
          slots[i] := slots[i].(state := state);
          slots[i] := slots[i].(jid := nextjid);
          nextjid := nextjid + 1;
          if nextjid > MAXJOBS {
            nextjid := 1;
          }
          slots[i] := slots[i].(cmdline := cmdline);
          assert slots[..] == t[i := Job(pid, old(nextjid), state, cmdline)];
          return true;
        }
      }
      return false;
    }

    method DeleteJob(pid: int) returns (ok: bool)
      requires Valid()
      modifies this, slots
      ensures Abstract() == Deleted(old(Abstract()), pid)
      ensures ok <==> 1 <= pid && HasPid(old(slots[..]), pid)
    {
      if pid < 1 { return false; }
      for i := 0 to MAXJOBS
        invariant Abstract() == old(Abstract())
        invariant forall k :: 0 <= k < i ==> slots[k].pid != pid
      {
        if slots[i].pid == pid {
          ghost var t := slots[..];
          assert t[i] == slots[i];
          assert FindPid(t, pid) == i;
          ClearJob(i);
          var max := GetMaxJid();
          nextjid := max + 1;
          return true;
        }
      }
      return false;
    }

    method GetFgPid() returns (pid: int)
      requires Valid()
      ensures pid == FgPid(slots[..])
    {
      for i := 0 to MAXJOBS
        invariant forall k :: 0 <= k < i ==> slots[k].state != FG
      {
        if slots[i].state == FG {
          assert slots[..][i] == slots[i];
          assert FindState(slots[..], FG) == i;
          return slots[i].pid;
        }
      }
      return 0;
    }

    /** The slot of the job with this pid, or MAXJOBS for NULL. */
    method GetJobPid(pid: int) returns (k: nat)
      requires Valid()
      ensures k == if pid < 1 then MAXJOBS else FindPid(slots[..], pid)
    {
      if pid < 1 { return MAXJOBS; }
      for i := 0 to MAXJOBS
        invariant forall k :: 0 <= k < i ==> slots[k].pid != pid
      {
        if slots[i].pid == pid {
          assert slots[..][i] == slots[i];
          return i;
        }
      }
      return MAXJOBS;
    }

    method GetJobJid(jid: int) returns (k: nat)
      requires Valid()
      ensures k == if jid < 1 then MAXJOBS else FindJid(slots[..], jid)
    {
      if jid < 1 { return MAXJOBS; }
      for i := 0 to MAXJOBS
        invariant forall k :: 0 <= k < i ==> slots[k].jid != jid
      {
        if slots[i].jid == jid {
          assert slots[..][i] == slots[i];
          return i;
        }
      }
      return MAXJOBS;
    }

    /** The SIGCHLD handler on the children waitpid reports; a stopped child is in the table. */
    method SigchldHandler(batch: seq<Child>)
      requires Valid() && AllKnown(Abstract(), batch)
      modifies this, slots
      ensures Abstract() == ReapedAll(old(Abstract()), batch)
    {
      var rest := batch;
      while rest != []
        invariant AllKnown(Abstract(), rest) && ReapedAll(Abstract(), rest) == ReapedAll(old(Abstract()), batch)
        decreases |rest|
      {
        ghost var before := Abstract();
        match rest[0] {
          case Stopped(pid) =>
            var k := GetJobPid(pid);
            slots[k] := slots[k].(state := ST);
            assert slots[..] == WithState(before.table, k, ST);
          case Exited(pid) =>
            var ok := DeleteJob(pid);
          case Signaled(pid) =>
            var ok := DeleteJob(pid);
        }
        assert Abstract() == Reaped(before, rest[0]);
        rest := rest[1..];
      }
    }

    /** eval's parent branch up to the wait: the job enters the table. */
    method Launch(pid: int, bg: bool, cmdline: string)
      requires Valid()
      modifies this, slots
      ensures Shell(Abstract(), if bg then Prompt else WaitJob(pid))
           == Next(Shell(old(Abstract()), Prompt), Action.Launch(pid, bg, cmdline))
    {
      if bg {
        var ok := AddJob(pid, BG, cmdline);
      } else {
        var ok := AddJob(pid, FG, cmdline);
      }
    }

    /** The guard of eval's wait loop. */
    method MustWait(pid: int) returns (b: bool)
      requires Valid() && 1 <= pid && (FgPid(slots[..]) != 0 ==> HasPid(slots[..], pid))
      ensures b == EvalWaits(slots[..], pid)
    {
      var fg := GetFgPid();
      if fg == 0 { return false; }
      var k := GetJobPid(pid);
      return slots[k].state != ST;
    }

    /** fg %jid: the job goes to the foreground. */
    method Fg(jid: int)
      requires Valid() && 1 <= jid && FindJid(slots[..], jid) < MAXJOBS
      modifies slots
      ensures Shell(Abstract(), WaitAny) == Next(Shell(old(Abstract()), Prompt), FgJob(jid))
    {
      var k := GetJobJid(jid);
      ghost var t := slots[..];
      slots[k] := slots[k].(state := FG);
      assert slots[..] == WithState(t, k, FG);
    }

    /** bg %jid: looked up by id, then set by pid. */
    method Bg(jid: int)
      requires Valid() && TableOk(Abstract()) && 1 <= jid && FindJid(slots[..], jid) < MAXJOBS
      modifies slots
      ensures Shell(Abstract(), WaitAny) == Next(Shell(old(Abstract()), Prompt), BgJob(jid))
    {
      var i := GetJobJid(jid);
      ghost var t := slots[..];
      assert t[i] == slots[i] && SlotOk(t[i]);
      var pid := slots[i].pid;
      var k := GetJobPid(pid);
      assert k == i;
      slots[k] := slots[k].(state := BG);
      assert slots[..] == WithState(t, k, BG);
    }
  }

  /** eval for a foreground job: launch it, then handle batches of child reports until the
      guard of its loop fails; done is false when the reports run out first. */
  method EvalForeground(jobs: JobList, pid: int, cmdline: string, batches: seq<seq<Child>>) returns (done: bool)
    requires jobs.Valid() && Inv(Shell(jobs.Abstract(), Prompt)) && 1 <= pid && !HasPid(jobs.slots[..], pid)
    requires BatchesKnown(Added(jobs.Abstract(), pid, FG, cmdline), batches)
    modifies jobs, jobs.slots
    ensures jobs.Valid()
    ensures (jobs.Abstract(), done) == Waited(Added(old(jobs.Abstract()), pid, FG, cmdline), pid, batches)
    ensures Inv(Shell(jobs.Abstract(), if done then Prompt else WaitJob(pid)))
    ensures done ==> !HasPid(jobs.slots[..], pid) || jobs.slots[FindPid(jobs.slots[..], pid)].state == ST
  {
    ghost var j0 := jobs.Abstract();
    StepKeepsInv(Shell(j0, Prompt), Action.Launch(pid, false, cmdline));
    jobs.Launch(pid, false, cmdline);
    var rest := batches;
    ghost var j1 := jobs.Abstract();
    WaitGuard(Shell(j1, WaitJob(pid)), pid);
    var waits := jobs.MustWait(pid);
    while waits
      invariant jobs.Valid() && Inv(Shell(jobs.Abstract(), WaitJob(pid))) && BatchesKnown(jobs.Abstract(), rest)
      invariant waits == EvalWaits(jobs.slots[..], pid)
      invariant Waited(jobs.Abstract(), pid, rest) == Waited(j1, pid, batches)
      decreases |rest|
    {
      if rest == [] { return false; }
      StepKeepsInv(Shell(jobs.Abstract(), WaitJob(pid)), Children(rest[0]));
      jobs.SigchldHandler(rest[0]);
      rest := rest[1..];
      WaitGuard(Shell(jobs.Abstract(), WaitJob(pid)), pid);
      waits := jobs.MustWait(pid);
    }
    WaitGuard(Shell(jobs.Abstract(), WaitJob(pid)), pid);
    StepKeepsInv(Shell(jobs.Abstract(), WaitJob(pid)), Resume);
    return true;
  }

  // --------------------------------------------------------------- whole runs

  /** Whether an action is enabled, as the routines find it. */
  method MayAct(jobs: JobList, mode: Mode, a: Action) returns (ok: bool)
    requires jobs.Valid() && Inv(Shell(jobs.Abstract(), mode))
    ensures ok <==> Enabled(Shell(jobs.Abstract(), mode), a)
  {
    match a
    case Launch(pid, _, _) =>
      var k := jobs.GetJobPid(pid);
      return mode == Prompt && 1 <= pid && k == MAXJOBS;
    case FgJob(jid) =>
      var k := jobs.GetJobJid(jid);
      return mode == Prompt && k < MAXJOBS;
    case BgJob(jid) =>
      var k := jobs.GetJobJid(jid);
      return mode == Prompt && k < MAXJOBS;
    case Children(batch) =>
      return AllKnown(Jobs(jobs.slots[..], jobs.nextjid), batch);
    case Resume =>
      ok := MayResume(jobs, mode);
  }

  /** The guard of the wait the shell is in. */
  method MayResume(jobs: JobList, mode: Mode) returns (ok: bool)
    requires jobs.Valid() && Inv(Shell(jobs.Abstract(), mode))
    ensures ok <==> Enabled(Shell(jobs.Abstract(), mode), Resume)
  {
    match mode
    case Prompt => return false;
    case WaitJob(pid) =>
      WaitGuard(Shell(jobs.Abstract(), mode), pid);
      var wait := jobs.MustWait(pid);
      return !wait;
    case WaitAny =>
      var pid := jobs.GetFgPid();
      return pid == 0;
  }

  /** One enabled action, carried out by the routine it names. */
  method Act(jobs: JobList, mode: Mode, a: Action) returns (mode': Mode)
    requires jobs.Valid() && Inv(Shell(jobs.Abstract(), mode)) && Enabled(Shell(jobs.Abstract(), mode), a)
    modifies jobs, jobs.slots
    ensures jobs.Valid() && Shell(jobs.Abstract(), mode') == Next(Shell(old(jobs.Abstract()), mode), a)
  {
    match a
    case Launch(pid, bg, cmdline) =>
      jobs.Launch(pid, bg, cmdline);
      return if bg then Prompt else WaitJob(pid);
    case FgJob(jid) =>
      jobs.Fg(jid);
      return WaitAny;
    case BgJob(jid) =>
      jobs.Bg(jid);
      return WaitAny;
    case Children(batch) =>
      jobs.SigchldHandler(batch);
      return mode;
    case Resume =>
      return Prompt;
  }

  /** Any actions, from an empty job list on, until one that is not enabled: the run is one of
      the model's, and its invariant holds at the end. */
  method RunActions(actions: seq<Action>) returns (jobs: JobList, mode: Mode, k: nat, ghost ss: seq<Shell>)
    ensures jobs.Valid() && k <= |actions| && Run(ss, actions[..k])
    ensures ss[k] == Shell(jobs.Abstract(), mode) && Inv(ss[k])
    ensures k < |actions| ==> !Enabled(ss[k], actions[k])
  {
    jobs := new JobList();
    mode, k, ss := Prompt, 0, [Start()];
    while k < |actions|
      invariant jobs.Valid() && fresh(jobs) && fresh(jobs.slots) && k <= |actions|
      invariant Run(ss, actions[..k]) && ss[k] == Shell(jobs.Abstract(), mode) && Inv(ss[k])
      decreases |actions| - k
    {
      var ok := MayAct(jobs, mode, actions[k]);
      if !ok { return; }
      StepKeepsInv(ss[k], actions[k]);
      RunOn(ss, actions[..k], actions[k]);
      assert actions[..k + 1] == actions[..k] + [actions[k]];
      ghost var next := Next(ss[k], actions[k]);
      mode := Act(jobs, mode, actions[k]);
      ss := ss + [next];
      k := k + 1;
    }
  }
}
