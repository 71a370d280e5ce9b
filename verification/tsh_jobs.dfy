/** The shell's job table as a value, and job control as a state machine over it. */
module JobControl {

  const MAXJOBS := 16

  datatype JobState = UNDEF | FG | BG | ST
  datatype Job = Job(pid: int, jid: int, state: JobState, cmdline: string)

  const CLEAR: Job := Job(0, 0, UNDEF, "")

  // ------------------------------------------------------------------ the job table

  /** The first place of a key, or the number of keys. */
  function First<T(==)>(keys: seq<T>, key: T): (k: nat)
    ensures k <= |keys| && (k < |keys| ==> keys[k] == key)
    ensures forall i :: 0 <= i < k ==> keys[i] != key
  {
    if keys == [] || keys[0] == key then 0 else 1 + First(keys[1..], key)
  }

  /** The first slot with this pid, or the number of slots. */
  function FindPid(t: seq<Job>, pid: int): (k: nat)
    ensures k <= |t| && (k < |t| ==> t[k].pid == pid)
    ensures forall i :: 0 <= i < k ==> t[i].pid != pid
  {
    var keys := seq(|t|, i requires 0 <= i < |t| => t[i].pid);
    assert forall i :: 0 <= i < |t| ==> keys[i] == t[i].pid;
    First(keys, pid)
  }

  /** The first slot with this job id. */
  function FindJid(t: seq<Job>, jid: int): (k: nat)
    ensures k <= |t| && (k < |t| ==> t[k].jid == jid)
    ensures forall i :: 0 <= i < k ==> t[i].jid != jid
  {
    var keys := seq(|t|, i requires 0 <= i < |t| => t[i].jid);
    assert forall i :: 0 <= i < |t| ==> keys[i] == t[i].jid;
    First(keys, jid)
  }

  /** The first slot in this state. */
  function FindState(t: seq<Job>, state: JobState): (k: nat)
    ensures k <= |t| && (k < |t| ==> t[k].state == state)
    ensures forall i :: 0 <= i < k ==> t[i].state != state
  {
    var keys := seq(|t|, i requires 0 <= i < |t| => t[i].state);
    assert forall i :: 0 <= i < |t| ==> keys[i] == t[i].state;
    First(keys, state)
  }

  predicate HasPid(t: seq<Job>, pid: int) { FindPid(t, pid) < |t| }

  /** The largest job id, at least 0. */
  function MaxJid(t: seq<Job>): (m: int)
    ensures 0 <= m && forall i :: 0 <= i < |t| ==> t[i].jid <= m
    ensures m == 0 || exists i :: 0 <= i < |t| && t[i].jid == m
  {
    if t == [] then 0
    else
      var last := |t| - 1;
      var m := MaxJid(t[..last]);
      if t[last].jid > m then t[last].jid else m
  }

  function FgPid(t: seq<Job>): int {
    var k := FindState(t, FG);
    if k < |t| then t[k].pid else 0
  }

  /** The table and the next job id. */
  datatype Jobs = Jobs(table: seq<Job>, next: int)

  function Added(j: Jobs, pid: int, state: JobState, cmdline: string): Jobs {
    var k := FindPid(j.table, 0);
    if pid < 1 || k == |j.table| then j
    else Jobs(j.table[k := Job(pid, j.next, state, cmdline)], if j.next + 1 > MAXJOBS then 1 else j.next + 1)
  }

  function Deleted(j: Jobs, pid: int): Jobs {
    var k := FindPid(j.table, pid);
    if pid < 1 || k == |j.table| then j
    else
      var t := j.table[k := CLEAR];
      Jobs(t, MaxJid(t) + 1)
  }

  function WithState(t: seq<Job>, k: nat, state: JobState): seq<Job>
    requires k < |t|
  {
    t[k := t[k].(state := state)]
  }

  /** What waitpid reports of one child. */
  datatype Child = Exited(pid: int) | Signaled(pid: int) | Stopped(pid: int)

  /** A stop is reported only for a child in the table. */
  predicate Known(j: Jobs, c: Child) { c.Stopped? ==> 1 <= c.pid && HasPid(j.table, c.pid) }

  function Reaped(j: Jobs, c: Child): Jobs {
    match c
    case Stopped(pid) =>
      var k := FindPid(j.table, pid);
      if k < |j.table| then j.(table := WithState(j.table, k, ST)) else j
    case _ => Deleted(j, c.pid)
  }

  function ReapedAll(j: Jobs, batch: seq<Child>): Jobs
    decreases |batch|
  {
    if batch == [] then j else ReapedAll(Reaped(j, batch[0]), batch[1..])
  }

  predicate AllKnown(j: Jobs, batch: seq<Child>)
    decreases |batch|
  {
    batch == [] || (Known(j, batch[0]) && AllKnown(Reaped(j, batch[0]), batch[1..]))
  }

  /** Each batch of reports names only stopped children that are in the table when it comes. */
  predicate BatchesKnown(j: Jobs, batches: seq<seq<Child>>)
    decreases |batches|
  {
    batches == [] || (AllKnown(j, batches[0]) && BatchesKnown(ReapedAll(j, batches[0]), batches[1..]))
  }

  /** eval's wait: batches are handled until the guard fails; false when they run out first. */
  function Waited(j: Jobs, pid: int, batches: seq<seq<Child>>): (Jobs, bool)
    decreases |batches|
  {
    if !EvalWaits(j.table, pid) then (j, true)
    else if batches == [] then (j, false)
    else Waited(ReapedAll(j, batches[0]), pid, batches[1..])
  }

  // ------------------------------------------------------------------- job control

  /** Where the shell is: at the prompt, waiting in eval for the job it launched,
      or waiting in fg or bg for any foreground job. */
  datatype Mode = Prompt | WaitJob(pid: int) | WaitAny

  datatype Shell = Shell(jobs: Jobs, mode: Mode)

  datatype Action =
    | Launch(pid: int, bg: bool, cmdline: string)
    | FgJob(jid: int)
    | BgJob(jid: int)
    | Children(batch: seq<Child>)
    | Resume

  /** The guard of eval's wait loop; the second test reads the job's slot only when some job is FG. */
  predicate EvalWaits(t: seq<Job>, pid: int) {
    FgPid(t) != 0 && (HasPid(t, pid) ==> t[FindPid(t, pid)].state != ST)
  }

  ghost predicate Enabled(s: Shell, a: Action) {
    match a
    case Launch(pid, _, _) => s.mode == Prompt && 1 <= pid && !HasPid(s.jobs.table, pid)
    case FgJob(jid) => s.mode == Prompt && 1 <= jid && FindJid(s.jobs.table, jid) < |s.jobs.table|
    case BgJob(jid) => s.mode == Prompt && 1 <= jid && FindJid(s.jobs.table, jid) < |s.jobs.table|
    case Children(batch) => AllKnown(s.jobs, batch)
    case Resume =>
      match s.mode
      case Prompt => false
      case WaitJob(pid) => !EvalWaits(s.jobs.table, pid)
      case WaitAny => FgPid(s.jobs.table) == 0
  }

  function Next(s: Shell, a: Action): Shell {
    match a
    case Launch(pid, bg, cmdline) =>
      Shell(Added(s.jobs, pid, if bg then BG else FG, cmdline), if bg then Prompt else WaitJob(pid))
    case FgJob(jid) =>
      var k := FindJid(s.jobs.table, jid);
      if k < |s.jobs.table| then Shell(s.jobs.(table := WithState(s.jobs.table, k, FG)), WaitAny) else s
    case BgJob(jid) =>
      var k := FindJid(s.jobs.table, jid);
      if k < |s.jobs.table| then Shell(s.jobs.(table := WithState(s.jobs.table, k, BG)), WaitAny) else s
    case Children(batch) => s.(jobs := ReapedAll(s.jobs, batch))
    case Resume => s.(mode := Prompt)
  }

  function Cleared(): (t: seq<Job>)
    ensures |t| == MAXJOBS && forall i :: 0 <= i < |t| ==> t[i] == CLEAR
  {
    seq(MAXJOBS, _ => CLEAR)
  }

  function Start(): Shell { Shell(Jobs(Cleared(), 1), Prompt) }

  // ------------------------------------------------------------------- invariants

  predicate SlotOk(job: Job) {
    || (job.pid == 0 && job.jid == 0 && job.state == UNDEF)
    || (1 <= job.pid && 1 <= job.jid && job.state != UNDEF)
  }

  ghost predicate PidsDiffer(t: seq<Job>) {
    forall i, j :: 0 <= i < j < |t| && t[i].pid != 0 ==> t[i].pid != t[j].pid
  }

  ghost predicate OneForeground(t: seq<Job>) {
    forall i, j :: 0 <= i < j < |t| && t[i].state == FG ==> t[j].state != FG
  }

  ghost predicate TableOk(j: Jobs) {
    && |j.table| == MAXJOBS && 1 <= j.next
    && (forall i :: 0 <= i < |j.table| ==> SlotOk(j.table[i]))
    && PidsDiffer(j.table) && OneForeground(j.table)
  }

  /** What the mode says about the foreground. */
  ghost predicate ModeOk(s: Shell) {
    match s.mode
    case Prompt => NoForeground(s.jobs.table)
    case WaitJob(pid) => 1 <= pid && OnlyForeground(s.jobs.table, pid)
    case WaitAny => true
  }

  ghost predicate NoForeground(t: seq<Job>) {
    forall i :: 0 <= i < |t| ==> t[i].state != FG
  }

  /** A foreground job has this pid, and the job with this pid is in the foreground or stopped. */
  ghost predicate OnlyForeground(t: seq<Job>, pid: int) {
    && (forall i :: 0 <= i < |t| && t[i].state == FG ==> t[i].pid == pid)
    && (forall i :: 0 <= i < |t| && t[i].pid == pid ==> t[i].state == FG || t[i].state == ST)
  }

  ghost predicate Inv(s: Shell) { TableOk(s.jobs) && ModeOk(s) }

  lemma DeletedKeeps(j: Jobs, pid: int)
    requires TableOk(j)
    ensures TableOk(Deleted(j, pid))
    ensures forall i :: 0 <= i < MAXJOBS ==>
      Deleted(j, pid).table[i] == if 1 <= pid && j.table[i].pid == pid then CLEAR else j.table[i]
  { }

  lemma ReapedKeeps(j: Jobs, c: Child)
    requires TableOk(j) && Known(j, c)
    ensures TableOk(Reaped(j, c))
    ensures forall i :: 0 <= i < MAXJOBS ==> Settles(j.table[i], Reaped(j, c).table[i])
  {
    if !c.Stopped? { DeletedKeeps(j, c.pid); }
  }

  /** Reports from children only clear slots and stop jobs. */
  predicate Settles(before: Job, after: Job) {
    after == before || after == CLEAR || after == before.(state := ST)
  }

  lemma {:induction false} ReapedAllKeeps(j: Jobs, batch: seq<Child>)
    requires TableOk(j) && AllKnown(j, batch)
    ensures TableOk(ReapedAll(j, batch))
    ensures forall i :: 0 <= i < MAXJOBS ==> Settles(j.table[i], ReapedAll(j, batch).table[i])
    decreases |batch|
  {
    if batch != [] {
      ReapedKeeps(j, batch[0]);
      ReapedAllKeeps(Reaped(j, batch[0]), batch[1..]);
    }
  }

  // -------------------------------------------------------- what each step does

  /** A new job takes the first free slot under the next id, which goes from 16 back to 1;
      without a free slot nothing happens. */
  lemma AddedIs(j: Jobs, pid: int, state: JobState, cmdline: string, k: nat)
    requires 1 <= pid && k <= |j.table| && (k < |j.table| ==> j.table[k].pid == 0)
    requires forall i :: 0 <= i < k ==> j.table[i].pid != 0
    ensures k == |j.table| ==> Added(j, pid, state, cmdline) == j
    ensures k < |j.table| ==>
      && Added(j, pid, state, cmdline).table == j.table[k := Job(pid, j.next, state, cmdline)]
      && Added(j, pid, state, cmdline).next == if j.next >= 16 then 1 else j.next + 1
  {
    if k < |j.table| { FindPidIs(j.table, 0, k); }
  }

  /** One report about p, whose job is in slot k: a stop sets its state, an exit or a signal clears
      the slot; no other slot changes. */
  lemma ReportDecides(j: Jobs, c: Child, k: nat)
    requires TableOk(j) && k < MAXJOBS && j.table[k].pid == c.pid && 1 <= c.pid
    ensures c.Stopped? ==>
      && Reaped(j, c).table == j.table[k := Job(c.pid, j.table[k].jid, ST, j.table[k].cmdline)]
      && Reaped(j, c).next == j.next
    ensures !c.Stopped? ==>
      && Reaped(j, c).table == j.table[k := Job(0, 0, UNDEF, "")]
      && Reaped(j, c).next == MaxJid(Reaped(j, c).table) + 1
      && forall i :: 0 <= i < MAXJOBS ==> Reaped(j, c).table[i].pid != c.pid
  {
    FindPidIs(j.table, c.pid, k);
  }

  /** A report about any other child leaves a slot alone. */
  lemma ReportSpares(j: Jobs, c: Child, k: nat)
    requires TableOk(j) && Known(j, c) && k < MAXJOBS && j.table[k].pid != c.pid
    ensures Reaped(j, c).table[k] == j.table[k]
  {
    ReapedKeeps(j, c);
  }

  /** A batch of reports: a job that exits or is signaled in it leaves its slot clear, any other job
      that stops in it is stopped, and the rest, clear slots included, stays as it was. */
  lemma {:induction false} BatchDecides(j: Jobs, batch: seq<Child>, k: nat)
    requires TableOk(j) && AllKnown(j, batch) && k < MAXJOBS
    ensures var p, after := j.table[k].pid, ReapedAll(j, batch).table;
      |after| == MAXJOBS && after[k] ==
        if p == 0 then j.table[k]
        else if Exited(p) in batch || Signaled(p) in batch then Job(0, 0, UNDEF, "")
        else if Stopped(p) in batch then j.table[k].(state := ST)
        else j.table[k]
    decreases |batch|
  {
    if batch != [] {
      var c, p := batch[0], j.table[k].pid;
      ReapedKeeps(j, c);
      if p == c.pid && p != 0 {
        assert SlotOk(j.table[k]);
        ReportDecides(j, c, k);
      } else if p != c.pid {
        ReportSpares(j, c, k);
      }
      BatchDecides(Reaped(j, c), batch[1..], k);
      assert batch == [c] + batch[1..];
    }
  }

  /** fg and bg move just the job with the id: it is then the foreground job, or in the background. */
  lemma ContinueDecides(s: Shell, jid: int, k: nat)
    requires Inv(s) && s.mode == Prompt && 1 <= jid && k < MAXJOBS && s.jobs.table[k].jid == jid
    requires forall i :: 0 <= i < k ==> s.jobs.table[i].jid != jid
    ensures Enabled(s, FgJob(jid)) && Enabled(s, BgJob(jid))
    ensures var t, fg := s.jobs.table, Next(s, FgJob(jid));
      && fg.jobs.table == t[k := Job(t[k].pid, jid, FG, t[k].cmdline)] && fg.jobs.next == s.jobs.next
      && FgPid(fg.jobs.table) == t[k].pid && fg.mode == WaitAny
    ensures var t, bg := s.jobs.table, Next(s, BgJob(jid));
      && bg.jobs.table == t[k := Job(t[k].pid, jid, BG, t[k].cmdline)] && bg.jobs.next == s.jobs.next
      && FgPid(bg.jobs.table) == 0 && bg.mode == WaitAny
  {
    var t := s.jobs.table;
    FindJidIs(t, jid, k);
    var fg, bg := Next(s, FgJob(jid)).jobs.table, Next(s, BgJob(jid)).jobs.table;
    assert fg[k].state == FG && forall i :: 0 <= i < MAXJOBS && i != k ==> fg[i] == t[i];
    assert forall i :: 0 <= i < MAXJOBS && i != k ==> bg[i] == t[i];
    assert FindState(fg, FG) == k;
    assert FindState(bg, FG) == MAXJOBS;
  }

  lemma FindJidIs(t: seq<Job>, jid: int, k: nat)
    requires k < |t| && t[k].jid == jid
    requires forall i :: 0 <= i < k ==> t[i].jid != jid
    ensures FindJid(t, jid) == k
  {
    var f := FindJid(t, jid);
    if k < f { assert false; }
  }

  /** So a foreground job that stops ends the wait for it. */
  lemma StopEndsWait(s: Shell, pid: int, k: nat)
    requires Inv(s) && s.mode == WaitJob(pid) && k < MAXJOBS && s.jobs.table[k].pid == pid
    ensures AllKnown(s.jobs, [Stopped(pid)])
    ensures var after := Next(s, Children([Stopped(pid)]));
      Enabled(after, Resume) && |after.jobs.table| == MAXJOBS && after.jobs.table[k].state == ST
  {
    var c, batch := Stopped(pid), [Stopped(pid)];
    FindPidIsFirst(s.jobs, pid, k);
    ReportDecides(s.jobs, c, k);
    assert batch[1..] == [] && batch[0] == c;
    assert ReapedAll(Reaped(s.jobs, c), []) == Reaped(s.jobs, c);
    assert AllKnown(Reaped(s.jobs, c), []);
    FindPidIsFirst(Reaped(s.jobs, c), pid, k);
  }

  lemma FindPidIsFirst(j: Jobs, pid: int, k: nat)
    requires |j.table| == MAXJOBS && PidsDiffer(j.table) && 1 <= pid && k < MAXJOBS && j.table[k].pid == pid
    ensures FindPid(j.table, pid) == k
  {
    FindPidIs(j.table, pid, k);
  }

  lemma AddedKeeps(j: Jobs, pid: int, state: JobState, cmdline: string)
    requires TableOk(j) && 1 <= pid && !HasPid(j.table, pid) && state != UNDEF
    requires state == FG ==> forall i :: 0 <= i < MAXJOBS ==> j.table[i].state != FG
    ensures TableOk(Added(j, pid, state, cmdline))
  { }

  /** fg and bg at the prompt move one job, found by its id. */
  lemma SetStateKeeps(j: Jobs, k: nat, state: JobState)
    requires TableOk(j) && k < MAXJOBS && j.table[k].jid != 0 && (state == FG || state == BG)
    requires NoForeground(j.table)
    ensures TableOk(j.(table := WithState(j.table, k, state)))
  { }

  /** Every action keeps the invariant: slots are clear or fully set, pids stay distinct,
      at most one job is in the foreground, and none is at the prompt. */
  lemma StepKeepsInv(s: Shell, a: Action)
    requires Inv(s) && Enabled(s, a)
    ensures Inv(Next(s, a))
  {
    match a
    case Launch(pid, bg, cmdline) => AddedKeeps(s.jobs, pid, if bg then BG else FG, cmdline);
    case FgJob(jid) => SetStateKeeps(s.jobs, FindJid(s.jobs.table, jid), FG);
    case BgJob(jid) => SetStateKeeps(s.jobs, FindJid(s.jobs.table, jid), BG);
    case Children(batch) => ReapedAllKeeps(s.jobs, batch);
    case Resume => WaitEnds(s);
  }

  /** A wait that may end leaves no job in the foreground. */
  lemma WaitEnds(s: Shell)
    requires Inv(s) && Enabled(s, Resume)
    ensures forall i :: 0 <= i < MAXJOBS ==> s.jobs.table[i].state != FG
  {
    var t := s.jobs.table;
    var k := FindState(t, FG);
    assert k < |t| ==> SlotOk(t[k]);
  }

  ghost predicate Run(ss: seq<Shell>, actions: seq<Action>) {
    && |ss| == |actions| + 1 && ss[0] == Start()
    && forall i :: 0 <= i < |actions| ==> Enabled(ss[i], actions[i]) && ss[i + 1] == Next(ss[i], actions[i])
  }

  lemma {:induction false} RunKeepsInv(ss: seq<Shell>, actions: seq<Action>)
    requires Run(ss, actions)
    ensures Inv(ss[|actions|])
  {
    if actions != [] {
      var k := |actions| - 1;
      RunKeepsInv(ss[..k + 1], actions[..k]);
      StepKeepsInv(ss[k], actions[k]);
    }
  }

  /** Over every run: at most one foreground job, none at the prompt, slots clear or
      fully set, pids distinct. */
  lemma JobControlIsSafe(ss: seq<Shell>, actions: seq<Action>, i: nat, j: nat)
    requires Run(ss, actions) && i < j < MAXJOBS
    ensures var s := ss[|actions|];
      var t := s.jobs.table;
      && |t| == MAXJOBS && SlotOk(t[i]) && SlotOk(t[j])
      && (t[i].state == FG ==> t[j].state != FG && s.mode != Prompt && FgPid(t) == t[i].pid)
      && (t[i].pid != 0 ==> t[i].pid != t[j].pid)
  {
    RunKeepsInv(ss, actions);
    var t := ss[|actions|].jobs.table;
    assert t[i].state == FG ==> FindState(t, FG) == i;
  }

  /** Under the invariant eval's wait loop reads the slot of a job that exists, and it goes
      on exactly while the launched job is in the table and not stopped. */
  lemma WaitGuard(s: Shell, pid: int)
    requires Inv(s) && s.mode == WaitJob(pid)
    ensures var t := s.jobs.table;
      && (FgPid(t) != 0 ==> HasPid(t, pid))
      && (EvalWaits(t, pid) <==> HasPid(t, pid) && t[FindPid(t, pid)].state != ST)
  {
    var t := s.jobs.table;
    var k, f := FindPid(t, pid), FindState(t, FG);
    assert f < |t| ==> t[f].pid == pid && SlotOk(t[f]);
    assert k < |t| ==> t[k].state == FG || t[k].state == ST;
  }

  /** So in every reachable state: the wait ends only when the job has left the table or is stopped. */
  lemma EvalWaitsForItsJob(ss: seq<Shell>, actions: seq<Action>, pid: int)
    requires Run(ss, actions) && ss[|actions|].mode == WaitJob(pid)
    ensures var s := ss[|actions|];
      var t := s.jobs.table;
      && (FgPid(t) != 0 ==> HasPid(t, pid))
      && (Enabled(s, Resume) <==> !HasPid(t, pid) || t[FindPid(t, pid)].state == ST)
  {
    RunKeepsInv(ss, actions);
    WaitGuard(ss[|actions|], pid);
  }

  // -------------------------------------------------------------------- job ids

  ghost predicate JidsDiffer(t: seq<Job>) {
    forall i, j :: 0 <= i < j < |t| && t[i].jid != 0 ==> t[i].jid != t[j].jid
  }

  ghost predicate JidLive(t: seq<Job>, jid: int) { exists i :: 0 <= i < |t| && t[i].jid == jid }

  /** A new job keeps job ids distinct exactly when the next id is not in use. */
  lemma AddKeepsJidsDistinct(j: Jobs, pid: int, state: JobState, cmdline: string)
    requires TableOk(j) && JidsDiffer(j.table) && 1 <= pid && HasPid(j.table, 0)
    ensures JidsDiffer(Added(j, pid, state, cmdline).table) <==> !JidLive(j.table, j.next)
  {
    var k := FindPid(j.table, 0);
    var t := Added(j, pid, state, cmdline).table;
    assert SlotOk(j.table[k]);
    if JidLive(j.table, j.next) {
      var i :| 0 <= i < |j.table| && j.table[i].jid == j.next;
      assert t[i].jid == t[k].jid && i != k;
    }
  }

  /** After a deletion the next id is larger than every id in use. */
  lemma DeleteMakesNextFresh(j: Jobs, pid: int)
    requires TableOk(j) && 1 <= pid && HasPid(j.table, pid)
    ensures !JidLive(Deleted(j, pid).table, Deleted(j, pid).next)
    ensures JidsDiffer(j.table) ==> JidsDiffer(Deleted(j, pid).table)
  { }

  lemma {:induction false} FindPidIs(t: seq<Job>, pid: int, k: nat)
    requires k < |t| && t[k].pid == pid
    requires forall i :: 0 <= i < k ==> t[i].pid != pid
    ensures FindPid(t, pid) == k
  {
    var f := FindPid(t, pid);
    if k < f { assert false; }
  }

  /** The table after n launches from the start: slot i holds job i+1. */
  ghost predicate Filled(j: Jobs, p: int, n: nat) {
    && |j.table| == MAXJOBS && j.next == (if n == MAXJOBS then 1 else n + 1)
    && forall i :: 0 <= i < MAXJOBS ==> j.table[i] == if i < n then Job(p + i, i + 1, BG, "") else CLEAR
  }

  lemma {:induction false} MaxJidIs(t: seq<Job>, k: nat)
    requires k < |t| && forall i :: 0 <= i < |t| ==> t[i].jid <= t[k].jid
    requires 0 < t[k].jid
    ensures MaxJid(t) == t[k].jid
  {
    var m := MaxJid(t);
    assert m == 0 || exists i :: 0 <= i < |t| && t[i].jid == m;
  }

  lemma DeletedAt(j: Jobs, pid: int, k: nat)
    requires 1 <= pid && k < |j.table| && j.table[k].pid == pid
    requires forall i :: 0 <= i < k ==> j.table[i].pid != pid
    ensures Deleted(j, pid).table == j.table[k := CLEAR]
    ensures Deleted(j, pid).next == MaxJid(j.table[k := CLEAR]) + 1
  {
    FindPidIs(j.table, pid, k);
  }

  /** Every slot holds its first job, or is clear; the last one still holds its job. */
  ghost predicate Remains(t: seq<Job>, p: int) {
    && |t| == MAXJOBS && t[MAXJOBS - 1].jid == MAXJOBS
    && forall i :: 0 <= i < MAXJOBS ==> t[i] == Job(p + i, i + 1, BG, "") || t[i] == CLEAR
  }

  lemma FreeOne(j: Jobs, p: int, k: nat)
    requires 1 <= p && Remains(j.table, p) && k < MAXJOBS - 1 && j.table[k] != CLEAR
    ensures Deleted(j, p + k) == Jobs(j.table[k := CLEAR], MAXJOBS + 1)
    ensures Remains(j.table[k := CLEAR], p)
  {
    OnlyPid(j.table, p, k);
    DeletedAt(j, p + k, k);
    LastIsLargest(j.table[k := CLEAR], p);
  }

  lemma OnlyPid(t: seq<Job>, p: int, k: nat)
    requires 1 <= p && Remains(t, p) && k < MAXJOBS && t[k] != CLEAR
    ensures t[k].pid == p + k && forall i :: 0 <= i < k ==> t[i].pid != p + k
  { }

  lemma LastIsLargest(t: seq<Job>, p: int)
    requires 1 <= p && Remains(t, p)
    ensures MaxJid(t) == MAXJOBS
  {
    MaxJidIs(t, MAXJOBS - 1);
  }

  lemma FreeTwo(full: Jobs, p: int, k: nat, l: nat)
    requires 1 <= p && Filled(full, p, MAXJOBS) && k < l < MAXJOBS - 1
    ensures Deleted(Deleted(full, p + k), p + l)
         == Jobs(full.table[k := CLEAR][l := CLEAR], MAXJOBS + 1)
  {
    FreeOne(full, p, k);
    FreeOne(Deleted(full, p + k), p, l);
  }

  lemma LaunchTwo(j: Jobs, p: int, k: nat, l: nat)
    requires 1 <= p && k < l < |j.table| && j.table[k].pid == 0 && j.table[l].pid == 0 && j.next == MAXJOBS + 1
    requires forall i :: 0 <= i < l && i != k ==> j.table[i].pid != 0
    ensures Added(Added(j, p, BG, ""), p + 1, BG, "").table
         == j.table[k := Job(p, MAXJOBS + 1, BG, "")][l := Job(p + 1, 1, BG, "")]
  {
    FindPidIs(j.table, 0, k);
    var a := Added(j, p, BG, "");
    FindPidIs(a.table, 0, l);
  }

  lemma RunOn(ss: seq<Shell>, actions: seq<Action>, a: Action)
    requires Run(ss, actions) && Enabled(ss[|actions|], a)
    ensures Run(ss + [Next(ss[|actions|], a)], actions + [a])
  { }

  /** n background launches from the start, of pids p, p+1, ... */
  lemma {:induction false} LaunchesFill(p: int, n: nat) returns (ss: seq<Shell>, actions: seq<Action>)
    requires 1 <= p && n <= MAXJOBS
    ensures Run(ss, actions) && |actions| == n
    ensures ss[n].mode == Prompt && Filled(ss[n].jobs, p, n)
  {
    if n == 0 {
      ss, actions := [Start()], [];
    } else {
      ss, actions := LaunchesFill(p, n - 1);
      var j := ss[n - 1].jobs;
      var a := Launch(p + n - 1, true, "");
      FindPidIs(j.table, 0, n - 1);
      assert !HasPid(j.table, p + n - 1);
      RunOn(ss, actions, a);
      ss, actions := ss + [Next(ss[n - 1], a)], actions + [a];
    }
  }

  lemma ExitDeletes(s: Shell, pid: int)
    ensures Enabled(s, Children([Exited(pid)]))
    ensures Next(s, Children([Exited(pid)])) == s.(jobs := Deleted(s.jobs, pid))
  {
    var batch := [Exited(pid)];
    assert batch[1..] == [];
    assert AllKnown(Deleted(s.jobs, pid), []) && ReapedAll(Deleted(s.jobs, pid), []) == Deleted(s.jobs, pid);
  }

  /** Job ids can repeat: fill the table, let the jobs in slots k and l exit, launch two more.
      The first gets id 17, the counter wraps, and the second gets id 1, which slot 0 still has. */
  lemma JidsCanRepeat(p: int, k: nat, l: nat) returns (ss: seq<Shell>, actions: seq<Action>)
    requires 1 <= p && 0 < k < l < MAXJOBS - 1
    ensures Run(ss, actions)
    ensures var t := ss[|actions|].jobs.table;
      |t| == MAXJOBS && t[0].pid == p && t[l].pid == p + MAXJOBS + 1 && t[0].jid == t[l].jid == 1
  {
    ss, actions := LaunchesFill(p, MAXJOBS);
    var full := ss[|actions|];
    ss, actions := ExitsRun(ss, actions, p, k, l);
    var freed := ss[|actions|];
    LaunchTwo(freed.jobs, p + MAXJOBS, k, l);
    var a, b := Launch(p + MAXJOBS, true, ""), Launch(p + MAXJOBS + 1, true, "");
    assert !HasPid(freed.jobs.table, p + MAXJOBS);
    RunOn(ss, actions, a);
    ss, actions := ss + [Next(freed, a)], actions + [a];
    FindPidIs(freed.jobs.table, 0, k);
    assert !HasPid(ss[|actions|].jobs.table, p + MAXJOBS + 1);
    RunOn(ss, actions, b);
    ss, actions := ss + [Next(ss[|actions|], b)], actions + [b];
  }

  lemma ExitRun(ss: seq<Shell>, actions: seq<Action>, pid: int)
    returns (ss': seq<Shell>, actions': seq<Action>)
    requires Run(ss, actions)
    ensures Run(ss', actions') && ss'[|actions'|] == ss[|actions|].(jobs := Deleted(ss[|actions|].jobs, pid))
  {
    var s, a := ss[|actions|], Children([Exited(pid)]);
    ExitDeletes(s, pid);
    RunOn(ss, actions, a);
    ss', actions' := ss + [Next(s, a)], actions + [a];
  }

  /** Two jobs of a full table exit. */
  lemma ExitsRun(ss: seq<Shell>, actions: seq<Action>, p: int, k: nat, l: nat)
    returns (ss': seq<Shell>, actions': seq<Action>)
    requires Run(ss, actions) && 1 <= p && Filled(ss[|actions|].jobs, p, MAXJOBS) && k < l < MAXJOBS - 1
    requires ss[|actions|].mode == Prompt
    ensures Run(ss', actions') && ss'[|actions'|].mode == Prompt
    ensures ss'[|actions'|].jobs == Jobs(ss[|actions|].jobs.table[k := CLEAR][l := CLEAR], MAXJOBS + 1)
  {
    var full := ss[|actions|];
    ss', actions' := ExitRun(ss, actions, p + k);
    assert ss'[|actions'|] == full.(jobs := Deleted(full.jobs, p + k));
    ss', actions' := ExitRun(ss', actions', p + l);
    assert ss'[|actions'|] == full.(jobs := Deleted(Deleted(full.jobs, p + k), p + l));
    FreeTwo(full.jobs, p, k, l);
  }
}
