/** The job table of the shell: JobsList of Commands.cpp, and its use by commands and by the Ctrl-Z handler of
    signals.cpp, which may run at any moment while a foreground job is set. */
module Jobs {
  import opened LinkedQueue

  datatype Status = Foreground | Background | Stopped | Finished

  datatype Job = Job(id: int, pid: int, status: Status)

  // ----- the table as a value

  datatype Table = Table(jobs: seq<Job>, maxId: int)

  predicate ListedId(jobs: seq<Job>, id: int) {
    exists i :: 0 <= i < |jobs| && jobs[i].id == id
  }

  /** The largest listed id, or 0. */
  function LargestId(jobs: seq<Job>): (m: int)
    ensures 0 <= m && forall i | 0 <= i < |jobs| :: jobs[i].id <= m
    ensures m > 0 ==> ListedId(jobs, m)
  {
    if jobs == [] then 0
    else
      var front := jobs[..|jobs| - 1];
      var m := LargestId(front);
      assert m > 0 ==> ListedId(jobs, m) by {
        if m > 0 { var i :| 0 <= i < |front| && front[i].id == m; assert jobs[i].id == m; }
      }
      if m < jobs[|jobs| - 1].id then jobs[|jobs| - 1].id else m
  }

  /** Positive, pairwise distinct ids. */
  ghost predicate Distinct(jobs: seq<Job>) {
    && (forall i | 0 <= i < |jobs| :: jobs[i].id >= 1)
    && (forall i, j | 0 <= i < j < |jobs| :: jobs[i].id != jobs[j].id)
  }

  /** Remove the entry at i; the maximum steps down when that entry held it. */
  function Drop(t: Table, i: nat): Table
    requires i < |t.jobs|
  {
    Table(t.jobs[..i] + t.jobs[i + 1..], if t.jobs[i].id == t.maxId then t.maxId - 1 else t.maxId)
  }

  function FirstPid(jobs: seq<Job>, pid: int, i: nat): (k: nat)
    requires i <= |jobs|
    ensures i <= k <= |jobs| && (k < |jobs| ==> jobs[k].pid == pid)
    ensures forall j | i <= j < k :: jobs[j].pid != pid
    decreases |jobs| - i
  {
    if i == |jobs| || jobs[i].pid == pid then i else FirstPid(jobs, pid, i + 1)
  }

  function FirstId(jobs: seq<Job>, id: int, i: nat): (k: nat)
    requires i <= |jobs|
    ensures i <= k <= |jobs| && (k < |jobs| ==> jobs[k].id == id)
    ensures forall j | i <= j < k :: jobs[j].id != id
    decreases |jobs| - i
  {
    if i == |jobs| || jobs[i].id == id then i else FirstId(jobs, id, i + 1)
  }

  function DropPid(t: Table, pid: int): Table {
    var k := FirstPid(t.jobs, pid, 0);
    if k < |t.jobs| then Drop(t, k) else t
  }

  function DropId(t: Table, id: int): Table {
    var k := FirstId(t.jobs, id, 0);
    if k < |t.jobs| then Drop(t, k) else t
  }

  function DropPids(t: Table, pids: seq<int>): Table
    decreases pids
  {
    if pids == [] then t else DropPids(DropPid(t, pids[0]), pids[1..])
  }

  function Unfinished(jobs: seq<Job>): seq<Job> {
    if jobs == [] then []
    else Unfinished(jobs[..|jobs| - 1]) + if jobs[|jobs| - 1].status.Finished? then [] else [jobs[|jobs| - 1]]
  }

  /** removeFinishedJobs, given the pids that waitpid reaps. */
  function Reap(t: Table, reaped: seq<int>): Table {
    var rest := Unfinished(DropPids(t, reaped).jobs);
    Table(rest, LargestId(rest))
  }

  /** addJob with a new id. */
  function Issue(t: Table, pid: int, status: Status): Table {
    Table(t.jobs + [Job(t.maxId + 1, pid, status)], t.maxId + 1)
  }

  /** addJob of an existing entry. */
  function Relist(t: Table, job: Job): Table {
    if ListedId(t.jobs, job.id) then t else t.(jobs := t.jobs + [job])
  }

  function SetStatus(t: Table, id: int, status: Status): Table {
    var k := FirstId(t.jobs, id, 0);
    if k < |t.jobs| then t.(jobs := t.jobs[k := t.jobs[k].(status := status)]) else t
  }

  // ----- what the operations keep

  lemma DropKeeps(t: Table, i: nat)
    requires Distinct(t.jobs) && i < |t.jobs|
    ensures Distinct(Drop(t, i).jobs) && !ListedId(Drop(t, i).jobs, t.jobs[i].id)
    ensures forall id :: ListedId(Drop(t, i).jobs, id) ==> ListedId(t.jobs, id)
  {
    var jobs := Drop(t, i).jobs;
    assert forall j | 0 <= j < |jobs| :: jobs[j] == if j < i then t.jobs[j] else t.jobs[j + 1];
  }

  lemma {:induction false} DropPidsKeep(t: Table, pids: seq<int>)
    requires Distinct(t.jobs)
    ensures Distinct(DropPids(t, pids).jobs)
    decreases pids
  {
    if pids != [] {
      var k := FirstPid(t.jobs, pids[0], 0);
      if k < |t.jobs| { DropKeeps(t, k); }
      DropPidsKeep(DropPid(t, pids[0]), pids[1..]);
    }
  }

  // ----- what reaping removes

  /** Pairwise distinct process ids. */
  ghost predicate DistinctPids(jobs: seq<Job>) {
    forall i, j | 0 <= i < j < |jobs| :: jobs[i].pid != jobs[j].pid
  }

  lemma SubsequencePids(t: seq<Job>, s: seq<Job>)
    requires Subsequence(t, s) && DistinctPids(s)
    ensures DistinctPids(t)
  {
    var at: seq<nat> :| EmbedsAt(t, s, at);
    forall i, j | 0 <= i < j < |t| ensures t[i].pid != t[j].pid { assert at[i] < at[j]; }
  }

  /** Reaping a process removes exactly its job. */
  lemma DropPidExactly(t: Table, pid: int)
    requires DistinctPids(t.jobs)
    ensures var rest := DropPid(t, pid).jobs;
            && Subsequence(rest, t.jobs) && DistinctPids(rest)
            && forall x :: x in rest <==> x in t.jobs && x.pid != pid
  {
    var k := FirstPid(t.jobs, pid, 0);
    SubsequenceSelf(t.jobs);
    if k < |t.jobs| {
      RemoveAtEmbeds(t.jobs, k);
      assert DropPid(t, pid).jobs == RemoveAt(t.jobs, k);
      RemovedOne(t.jobs, k);
      SubsequencePids(RemoveAt(t.jobs, k), t.jobs);
    }
  }

  lemma RemovedOne(jobs: seq<Job>, k: nat)
    requires DistinctPids(jobs) && k < |jobs|
    ensures forall x :: x in RemoveAt(jobs, k) <==> x in jobs && x.pid != jobs[k].pid
  {
    var rest := RemoveAt(jobs, k);
    assert forall j | 0 <= j < |rest| :: rest[j] == jobs[if j < k then j else j + 1];
    forall x | x in jobs && x.pid != jobs[k].pid ensures x in rest {
      var i :| 0 <= i < |jobs| && jobs[i] == x;
      assert x == rest[if i < k then i else i - 1];
    }
  }

  lemma {:induction false} DropPidsExactly(t: Table, pids: seq<int>)
    requires DistinctPids(t.jobs)
    ensures var rest := DropPids(t, pids).jobs;
            && Subsequence(rest, t.jobs)
            && forall x :: x in rest <==> x in t.jobs && x.pid !in pids
    decreases pids
  {
    if pids == [] {
      SubsequenceSelf(t.jobs);
    } else {
      var t1 := DropPid(t, pids[0]);
      DropPidExactly(t, pids[0]);
      DropPidsExactly(t1, pids[1..]);
      SubsequenceTrans(DropPids(t, pids).jobs, t1.jobs, t.jobs);
      assert pids == [pids[0]] + pids[1..];
    }
  }

  lemma SubsequenceAppend(t: seq<Job>, s: seq<Job>, x: Job)
    requires Subsequence(t, s)
    ensures Subsequence(t, s + [x]) && Subsequence(t + [x], s + [x])
  {
    var at: seq<nat> :| EmbedsAt(t, s, at);
    assert EmbedsAt(t, s + [x], at);
    assert EmbedsAt(t + [x], s + [x], at + [|s|]);
  }

  lemma {:induction false} UnfinishedInOrder(jobs: seq<Job>)
    ensures Subsequence(Unfinished(jobs), jobs)
    decreases |jobs|
  {
    if jobs == [] {
      SubsequenceSelf(jobs);
    } else {
      var front, last := jobs[..|jobs| - 1], jobs[|jobs| - 1];
      UnfinishedInOrder(front);
      SubsequenceAppend(Unfinished(front), front, last);
      assert front + [last] == jobs && Unfinished(front) + [] == Unfinished(front);
    }
  }

  /** The loop keeps exactly the jobs that are not Finished. */
  lemma {:induction false} UnfinishedExactly(jobs: seq<Job>)
    ensures forall x :: x in Unfinished(jobs) <==> x in jobs && x.status != Finished
    decreases |jobs|
  {
    if jobs != [] {
      UnfinishedExactly(jobs[..|jobs| - 1]);
      assert jobs == jobs[..|jobs| - 1] + [jobs[|jobs| - 1]];
    }
  }

  /** removeFinishedJobs keeps exactly the listed jobs that are neither reaped nor Finished, in their order. */
  lemma ReapExactly(t: Table, reaped: seq<int>)
    requires DistinctPids(t.jobs)
    ensures Subsequence(Reap(t, reaped).jobs, t.jobs)
    ensures forall x :: x in Reap(t, reaped).jobs <==> x in t.jobs && x.status != Finished && x.pid !in reaped
  {
    var rest := DropPids(t, reaped).jobs;
    DropPidsExactly(t, reaped);
    UnfinishedExactly(rest);
    UnfinishedInOrder(rest);
    SubsequenceTrans(Unfinished(rest), rest, t.jobs);
  }

  /** Removing a job from a table whose maximum is right leaves it right, unless the job held the maximum and the
      next lower id is not listed. */
  lemma DropMaximumIff(t: Table, i: nat)
    requires Distinct(t.jobs) && t.maxId == LargestId(t.jobs) && i < |t.jobs|
    ensures var t', id := Drop(t, i), t.jobs[i].id;
            && LargestId(t'.jobs) <= t'.maxId
            && (t'.maxId == LargestId(t'.jobs) <==>
                  id < LargestId(t.jobs) || id == 1 || ListedId(t.jobs, id - 1))
  {
    var t', id := Drop(t, i), t.jobs[i].id;
    DropKeeps(t, i);
    var jobs := t'.jobs;
    forall j | 0 <= j < |t.jobs| && j != i ensures ListedId(jobs, t.jobs[j].id) {
      assert t.jobs[j] == jobs[if j < i then j else j - 1];
    }
    LargestListed(t.jobs, t.maxId);
    LargestAbove(jobs, t'.maxId);
    if id == t.maxId && id > 1 && ListedId(t.jobs, id - 1) { assert ListedId(jobs, id - 1); }
    if id < t.maxId { assert ListedId(jobs, t.maxId); }
  }

  lemma LargestListed(jobs: seq<Job>, m: int)
    requires jobs != [] && Distinct(jobs) && m == LargestId(jobs)
    ensures m > 0 && ListedId(jobs, m)
  {
    assert jobs[0].id <= m;
  }

  /** The largest id is the given bound if and only if the bound is listed or is 0. */
  lemma LargestAbove(jobs: seq<Job>, bound: int)
    requires 0 <= bound && forall id | ListedId(jobs, id) :: id <= bound
    ensures LargestId(jobs) <= bound
    ensures LargestId(jobs) == bound <==> bound == 0 || ListedId(jobs, bound)
  {
    var m := LargestId(jobs);
    assert m > 0 ==> ListedId(jobs, m);
  }

  lemma {:induction false} UnfinishedListed(jobs: seq<Job>, id: int)
    requires ListedId(Unfinished(jobs), id)
    ensures ListedId(jobs, id)
    decreases |jobs|
  {
    var front := jobs[..|jobs| - 1];
    if jobs[|jobs| - 1].id != id {
      var i :| 0 <= i < |Unfinished(jobs)| && Unfinished(jobs)[i].id == id;
      assert Unfinished(front)[i].id == id;
      UnfinishedListed(front, id);
      var j :| 0 <= j < |front| && front[j].id == id;
      assert jobs[j].id == id;
    }
  }

  lemma {:induction false} UnfinishedKeeps(jobs: seq<Job>)
    requires Distinct(jobs)
    ensures Distinct(Unfinished(jobs))
    decreases |jobs|
  {
    if jobs != [] {
      var front, last := jobs[..|jobs| - 1], jobs[|jobs| - 1];
      UnfinishedKeeps(front);
      var u := Unfinished(front);
      forall i | 0 <= i < |u| ensures u[i].id != last.id {
        UnfinishedListed(front, u[i].id);
        var j :| 0 <= j < |front| && front[j].id == u[i].id;
      }
    }
  }

  lemma ReapKeeps(t: Table, reaped: seq<int>)
    requires Distinct(t.jobs)
    ensures Distinct(Reap(t, reaped).jobs) && Reap(t, reaped).maxId == LargestId(Reap(t, reaped).jobs)
  {
    DropPidsKeep(t, reaped);
    UnfinishedKeeps(DropPids(t, reaped).jobs);
  }

  /** t' lists one job more than t, at the end and under an id one above the largest in t, and so not in t. */
  ghost predicate NextId(t: Table, t': Table, pid: int, status: Status) {
    t'.jobs == t.jobs + [Job(LargestId(t.jobs) + 1, pid, status)] && !ListedId(t.jobs, LargestId(t.jobs) + 1)
  }

  lemma LargestAppend(jobs: seq<Job>, job: Job)
    ensures LargestId(jobs + [job]) == if LargestId(jobs) < job.id then job.id else LargestId(jobs)
  {
    assert (jobs + [job])[..|jobs|] == jobs;
  }

  lemma UnfinishedNext(jobs: seq<Job>, k: nat)
    requires k < |jobs|
    ensures Unfinished(jobs[..k + 1]) == Unfinished(jobs[..k]) + if jobs[k].status.Finished? then [] else [jobs[k]]
  {
    assert jobs[..k + 1][..k] == jobs[..k];
  }

  /** An id issued while the maximum is right is the next one. */
  lemma IssueKeeps(t: Table, pid: int, status: Status)
    requires Distinct(t.jobs) && t.maxId == LargestId(t.jobs)
    ensures Distinct(Issue(t, pid, status).jobs)
    ensures Issue(t, pid, status).maxId == LargestId(Issue(t, pid, status).jobs)
    ensures NextId(t, Issue(t, pid, status), pid, status)
  {
    var job := Job(t.maxId + 1, pid, status);
    AboveAll(t.jobs, job);
    LargestAppend(t.jobs, job);
  }

  lemma AboveAll(jobs: seq<Job>, job: Job)
    requires Distinct(jobs) && job.id == LargestId(jobs) + 1
    ensures Distinct(jobs + [job]) && !ListedId(jobs, job.id)
  {
  }

  // ----- the shell

  /** Idle between commands; Selected once fg has set the foreground job but not yet removed it from the list;
      Waiting while waitpid is pending. */
  datatype Phase = Idle | Selected(fg: Job) | Waiting(fg: Job)

  datatype Shell = Shell(table: Table, phase: Phase)

  /** The commands that work with jobs, and setcore and redirection, first remove finished jobs; chprompt, showpid,
      pwd, cd, getfiletype and chmod do not look at the table. */
  datatype Event =
    | PlainCommand
    | OtherCommand(reaped: seq<int>)
    | RunBackground(reaped: seq<int>, pid: int)
    | RunForeground(reaped: seq<int>, pid: int)
    | RunPipe(reaped: seq<int>, pid: int)
    | Fg(reaped: seq<int>, id: int)
    | FgRemove
    | ChangeStatus(reaped: seq<int>, id: int, status: Status)
    | CtrlZ
    | CtrlC
    | WaitReturns

  predicate Enabled(s: Shell, e: Event) {
    match e
    case FgRemove => s.phase.Selected?
    case CtrlZ => true
    case CtrlC => true
    case WaitReturns => s.phase.Waiting?
    case _ => s.phase.Idle?
  }

  /** fg up to setCurrentForegroundJob. */
  function Select(t: Table, id: int): Shell {
    var k := FirstId(t.jobs, id, 0);
    if k < |t.jobs| then Shell(SetStatus(t, id, Foreground), Selected(t.jobs[k].(status := Foreground)))
    else Shell(t, Idle)
  }

  function Do(s: Shell, e: Event): Shell
    requires Enabled(s, e)
  {
    match e
    case PlainCommand => s
    case OtherCommand(reaped) => Shell(Reap(s.table, reaped), Idle)
    case RunBackground(reaped, pid) => Shell(Issue(Reap(s.table, reaped), pid, Background), Idle)
    case RunForeground(reaped, pid) => Shell(Reap(s.table, reaped), Waiting(Job(-1, pid, Foreground)))
    case RunPipe(reaped, pid) =>
      var t := Issue(Reap(s.table, reaped), pid, Foreground);
      Shell(t, Waiting(t.jobs[|t.jobs| - 1]))
    case Fg(reaped, id) => Select(Reap(s.table, reaped), id)
    case FgRemove => Shell(DropId(s.table, s.phase.fg.id), Waiting(s.phase.fg))
    case ChangeStatus(reaped, id, status) => Shell(SetStatus(Reap(s.table, reaped), id, status), Idle)
    case CtrlZ =>
      if s.phase.Idle? then s
      else if s.phase.fg.id == -1 then s.(table := Issue(s.table, s.phase.fg.pid, Stopped))
      else s.(table := Relist(SetStatus(s.table, s.phase.fg.id, Stopped), s.phase.fg.(status := Stopped)))
    case CtrlC => if s.phase.Idle? then s else s.(table := SetStatus(s.table, s.phase.fg.id, Finished))
    case WaitReturns => s.(phase := Idle)
  }

  /** Ids are distinct; and whenever the next step could issue one without recomputing the maximum, the maximum
      is right. */
  ghost predicate Inv(s: Shell) {
    && Distinct(s.table.jobs)
    && (!s.phase.Idle? ==> s.phase.fg.id == -1 || s.phase.fg.id >= 1)
    && (s.phase.Selected? ==> s.phase.fg.id >= 1)
    && (!s.phase.Idle? && s.phase.fg.id == -1 ==> s.table.maxId == LargestId(s.table.jobs))
    && (!s.phase.Idle? ==>
          forall x | x in s.table.jobs && x.id == s.phase.fg.id :: x.pid == s.phase.fg.pid)
  }

  /** Whatever id the event issues is one more than the largest id listed at that moment. */
  ghost predicate IssuesNext(s: Shell, e: Event)
    requires Enabled(s, e)
  {
    match e
    case RunBackground(reaped, pid) => NextId(Reap(s.table, reaped), Do(s, e).table, pid, Background)
    case RunPipe(reaped, pid) => NextId(Reap(s.table, reaped), Do(s, e).table, pid, Foreground)
    case CtrlZ =>
      !s.phase.Idle? && s.phase.fg.id == -1 ==> NextId(s.table, Do(s, e).table, s.phase.fg.pid, Stopped)
    case _ => true
  }

  lemma SetStatusKeeps(t: Table, id: int, status: Status)
    requires Distinct(t.jobs)
    ensures Distinct(SetStatus(t, id, status).jobs)
    ensures forall j :: ListedId(SetStatus(t, id, status).jobs, j) <==> ListedId(t.jobs, j)
    ensures LargestId(SetStatus(t, id, status).jobs) == LargestId(t.jobs)
  {
    var t' := SetStatus(t, id, status);
    assert |t'.jobs| == |t.jobs| && forall i | 0 <= i < |t.jobs| :: t'.jobs[i].id == t.jobs[i].id;
    SameIdsSameLargest(t.jobs, t'.jobs);
  }

  /** Only the status of the job with that id changes. */
  lemma SetStatusExactly(t: Table, id: int, status: Status)
    requires Distinct(t.jobs)
    ensures var t' := SetStatus(t, id, status);
            && t'.maxId == t.maxId && |t'.jobs| == |t.jobs|
            && forall i | 0 <= i < |t.jobs| ::
                 t'.jobs[i] == if t.jobs[i].id == id then Job(id, t.jobs[i].pid, status) else t.jobs[i]
  {
  }

  lemma SameIdsSameLargest(a: seq<Job>, b: seq<Job>)
    requires |a| == |b| && forall i | 0 <= i < |a| :: a[i].id == b[i].id
    ensures LargestId(a) == LargestId(b)
    ensures forall j :: ListedId(a, j) <==> ListedId(b, j)
  {
    forall j ensures ListedId(a, j) <==> ListedId(b, j) {
      if i :| 0 <= i < |a| && a[i].id == j { assert b[i].id == j; }
      if i :| 0 <= i < |b| && b[i].id == j { assert a[i].id == j; }
    }
  }

  lemma RelistKeeps(t: Table, job: Job)
    requires Distinct(t.jobs) && job.id >= 1
    ensures Distinct(Relist(t, job).jobs)
  {
  }

  lemma CtrlZHolds(s: Shell)
    requires Inv(s) && !s.phase.Idle?
    ensures Inv(Do(s, CtrlZ)) && IssuesNext(s, CtrlZ)
  {
    if s.phase.fg.id == -1 {
      IssueKeeps(s.table, s.phase.fg.pid, Stopped);
    } else {
      SetStatusKeeps(s.table, s.phase.fg.id, Stopped);
      RelistKeeps(SetStatus(s.table, s.phase.fg.id, Stopped), s.phase.fg.(status := Stopped));
      SamePid(s.table, s.phase.fg);
    }
  }

  lemma SamePid(t: Table, fg: Job)
    requires forall x | x in t.jobs && x.id == fg.id :: x.pid == fg.pid
    ensures forall x | x in Relist(SetStatus(t, fg.id, Stopped), fg.(status := Stopped)).jobs && x.id == fg.id ::
              x.pid == fg.pid
  {
  }

  lemma PipeHolds(s: Shell, reaped: seq<int>, pid: int)
    requires Inv(s) && s.phase.Idle?
    ensures Inv(Do(s, RunPipe(reaped, pid))) && IssuesNext(s, RunPipe(reaped, pid))
  {
    var t := Reap(s.table, reaped);
    ReapKeeps(s.table, reaped);
    IssueKeeps(t, pid, Foreground);
    var t' := Issue(t, pid, Foreground);
    OnlyEntry(t'.jobs, |t.jobs|);
  }

  /** Distinct ids single out their entries. */
  lemma OnlyEntry(jobs: seq<Job>, k: nat)
    requires Distinct(jobs) && k < |jobs|
    ensures forall x | x in jobs && x.id == jobs[k].id :: x == jobs[k]
  {
  }

  lemma FgHolds(s: Shell, reaped: seq<int>, id: int)
    requires Inv(s) && s.phase.Idle?
    ensures Inv(Do(s, Fg(reaped, id)))
  {
    ReapKeeps(s.table, reaped);
    SelectHolds(Reap(s.table, reaped), id);
  }

  lemma SelectHolds(t: Table, id: int)
    requires Distinct(t.jobs)
    ensures Inv(Select(t, id))
  {
    var k := FirstId(t.jobs, id, 0);
    if k < |t.jobs| { FgSelects(t, id, k); }
  }

  /** `fg` of the k-th job. */
  lemma FgSelects(t: Table, id: int, k: nat)
    requires Distinct(t.jobs) && k < |t.jobs| && t.jobs[k].id == id
    ensures var t' := t.(jobs := t.jobs[k := Job(id, t.jobs[k].pid, Foreground)]);
            && SetStatus(t, id, Foreground) == t' && Distinct(t'.jobs)
            && Select(t, id) == Shell(t', Selected(Job(id, t.jobs[k].pid, Foreground)))
            && forall x | x in t'.jobs && x.id == id :: x.pid == t.jobs[k].pid
  {
    FirstIs(t, id, k);
    SetStatusKeeps(t, id, Foreground);
    OnlyEntry(SetStatus(t, id, Foreground).jobs, k);
  }

  lemma FirstIs(t: Table, id: int, k: nat)
    requires Distinct(t.jobs) && k < |t.jobs| && t.jobs[k].id == id
    ensures FirstId(t.jobs, id, 0) == k
  {
  }

  lemma CommandHolds(s: Shell, e: Event)
    requires Inv(s) && Enabled(s, e)
    requires e.OtherCommand? || e.RunBackground? || e.RunForeground? || e.ChangeStatus?
    ensures Inv(Do(s, e)) && IssuesNext(s, e)
  {
    var t := Reap(s.table, e.reaped);
    ReapKeeps(s.table, e.reaped);
    match e
    case RunBackground(_, pid) => IssueKeeps(t, pid, Background);
    case ChangeStatus(_, id, status) => SetStatusKeeps(t, id, status);
    case _ =>
  }

  lemma StepHolds(s: Shell, e: Event)
    requires Inv(s) && Enabled(s, e)
    ensures Inv(Do(s, e)) && IssuesNext(s, e)
  {
    match e
    case PlainCommand =>
    case RunPipe(reaped, pid) => PipeHolds(s, reaped, pid);
    case Fg(reaped, id) => FgHolds(s, reaped, id);
    case FgRemove =>
      var k := FirstId(s.table.jobs, s.phase.fg.id, 0);
      if k < |s.table.jobs| { DropKeeps(s.table, k); }
    case CtrlZ => if !s.phase.Idle? { CtrlZHolds(s); }
    case CtrlC => if !s.phase.Idle? { SetStatusKeeps(s.table, s.phase.fg.id, Finished); }
    case WaitReturns =>
    case _ => CommandHolds(s, e);
  }

  /** Ctrl-Z leaves the foreground job listed as Stopped, under its old id if it had one, and every other job as it
      was. */
  lemma CtrlZStops(s: Shell)
    requires Inv(s) && !s.phase.Idle?
    ensures var jobs, fg := Do(s, CtrlZ).table.jobs, s.phase.fg;
            && (exists x :: x in jobs && x.pid == fg.pid && x.status == Stopped && (fg.id != -1 ==> x.id == fg.id))
            && forall x | x in s.table.jobs && x.id != fg.id :: x in jobs
  {
    var t, fg := s.table, s.phase.fg;
    var jobs := Do(s, CtrlZ).table.jobs;
    if fg.id == -1 {
      assert jobs[|t.jobs|] == Job(t.maxId + 1, fg.pid, Stopped);
    } else {
      SetStatusExactly(t, fg.id, Stopped);
      var t1 := SetStatus(t, fg.id, Stopped);
      forall x | x in t.jobs && x.id != fg.id ensures x in jobs {
        var i :| 0 <= i < |t.jobs| && t.jobs[i] == x;
        assert t1.jobs[i] == x;
      }
      if i :| 0 <= i < |t1.jobs| && t1.jobs[i].id == fg.id {
        assert t1.jobs[i] in jobs;
      } else {
        assert jobs[|t1.jobs|] == fg.(status := Stopped);
      }
    }
  }

  /** Ctrl-C, `kill` and `bg` set the status of exactly the job named, if it is listed. */
  lemma StatusEvents(s: Shell, e: Event)
    requires Inv(s) && Enabled(s, e) && ((e.CtrlC? && !s.phase.Idle?) || e.ChangeStatus?)
    ensures var before := if e.CtrlC? then s.table.jobs else Reap(s.table, e.reaped).jobs;
            var id := if e.CtrlC? then s.phase.fg.id else e.id;
            var status := if e.CtrlC? then Finished else e.status;
            && |Do(s, e).table.jobs| == |before|
            && forall i | 0 <= i < |before| ::
                 Do(s, e).table.jobs[i] == if before[i].id == id then Job(id, before[i].pid, status) else before[i]
  {
    if e.CtrlC? {
      SetStatusExactly(s.table, s.phase.fg.id, Finished);
    } else {
      ReapKeeps(s.table, e.reaped);
      SetStatusExactly(Reap(s.table, e.reaped), e.id, e.status);
    }
  }

  /** A command that works with jobs and starts none leaves exactly the jobs that are neither reaped nor Finished. */
  lemma CommandReaps(s: Shell, e: Event)
    requires DistinctPids(s.table.jobs) && Enabled(s, e) && (e.OtherCommand? || e.RunForeground?)
    ensures Subsequence(Do(s, e).table.jobs, s.table.jobs)
    ensures forall x ::
              x in Do(s, e).table.jobs <==> x in s.table.jobs && x.status != Finished && x.pid !in e.reaped
  {
    ReapExactly(s.table, e.reaped);
  }

  /** `fg` of a listed job followed by Ctrl-Z takes the job off the list and puts it back at the end, stopped and
      under its old id. */
  lemma FgThenCtrlZ(s: Shell, reaped: seq<int>, id: int, k: nat)
    requires Inv(s) && s.phase.Idle? && k < |Reap(s.table, reaped).jobs| && Reap(s.table, reaped).jobs[k].id == id
    ensures var jobs := Reap(s.table, reaped).jobs;
            var s1 := Do(s, Fg(reaped, id));
            && Enabled(s1, FgRemove)
            && var s2 := Do(s1, FgRemove);
               && s2.table.jobs == RemoveAt(jobs, k)
               && Do(s2, CtrlZ).table.jobs == RemoveAt(jobs, k) + [Job(id, jobs[k].pid, Stopped)]
  {
    var t := Reap(s.table, reaped);
    ReapKeeps(s.table, reaped);
    FgSelects(t, id, k);
    RemoveSelected(t, id, k);
    ListedPositive(t.jobs, k);
    StopAbsent(DropId(SetStatus(t, id, Foreground), id), Job(id, t.jobs[k].pid, Foreground));
  }

  lemma ListedPositive(jobs: seq<Job>, k: nat)
    requires Distinct(jobs) && k < |jobs|
    ensures jobs[k].id >= 1
  {
  }

  lemma RemoveSelected(t: Table, id: int, k: nat)
    requires Distinct(t.jobs) && k < |t.jobs| && t.jobs[k].id == id
    ensures var t' := DropId(SetStatus(t, id, Foreground), id);
            t'.jobs == RemoveAt(t.jobs, k) && !ListedId(t'.jobs, id)
  {
    FgSelects(t, id, k);
    var t1 := SetStatus(t, id, Foreground);
    FirstIs(t1, id, k);
    DropKeeps(t1, k);
  }

  lemma StopAbsent(t: Table, job: Job)
    requires !ListedId(t.jobs, job.id)
    ensures Relist(SetStatus(t, job.id, Stopped), job.(status := Stopped)).jobs == t.jobs + [job.(status := Stopped)]
  {
    var k := FirstId(t.jobs, job.id, 0);
    assert k < |t.jobs| ==> ListedId(t.jobs, job.id);
  }

  /** Ctrl-Z during a foreground command that is not listed lists it, stopped, under the next id; a pipe, which is
      listed from its start, keeps its entry. */
  lemma ForegroundThenCtrlZ(s: Shell, reaped: seq<int>, pid: int)
    requires Inv(s) && s.phase.Idle?
    ensures var jobs := Reap(s.table, reaped).jobs;
            var stopped := jobs + [Job(LargestId(jobs) + 1, pid, Stopped)];
            && Do(Do(s, RunForeground(reaped, pid)), CtrlZ).table.jobs == stopped
            && Do(Do(s, RunPipe(reaped, pid)), CtrlZ).table.jobs == stopped
  {
    ReapKeeps(s.table, reaped);
    StopNew(Reap(s.table, reaped), pid);
  }

  lemma StopNew(t: Table, pid: int)
    requires Distinct(t.jobs) && t.maxId == LargestId(t.jobs)
    ensures var t1 := Issue(t, pid, Foreground);
            && var last := t1.jobs[|t.jobs|];
               Relist(SetStatus(t1, last.id, Stopped), last.(status := Stopped)).jobs
               == t.jobs + [Job(t.maxId + 1, pid, Stopped)]
  {
    var t1 := Issue(t, pid, Foreground);
    IssueKeeps(t, pid, Foreground);
    assert FirstId(t1.jobs, t1.maxId, 0) == |t.jobs|;
    assert SetStatus(t1, t1.maxId, Stopped).jobs[|t.jobs|].id == t1.maxId;
  }

  ghost predicate Session(ss: seq<Shell>, es: seq<Event>) {
    && |ss| == |es| + 1
    && ss[0] == Shell(Table([], 0), Idle)
    && forall i | 0 <= i < |es| :: Enabled(ss[i], es[i]) && ss[i + 1] == Do(ss[i], es[i])
  }

  /** In every session ids stay pairwise distinct, and every id issued is one more than the largest listed id at
      that moment, however commands, reaping and Ctrl-Z interleave. */
  lemma {:induction false} SessionHolds(ss: seq<Shell>, es: seq<Event>, i: nat)
    requires Session(ss, es) && i < |ss|
    ensures Distinct(ss[i].table.jobs) && Inv(ss[i])
    ensures i < |es| ==> IssuesNext(ss[i], es[i])
    decreases i
  {
    if i > 0 {
      SessionHolds(ss, es, i - 1);
      StepHolds(ss[i - 1], es[i - 1]);
    }
    if i < |es| { StepHolds(ss[i], es[i]); }
  }

  // ----- the object

  class JobsList {
    var jobs: seq<Job>
    var maxJobID: int

    ghost function Value(): Table
      reads this
    {
      Table(jobs, maxJobID)
    }

    constructor ()
      ensures Value() == Table([], 0)
    {
      jobs, maxJobID := [], 0;
    }

    method AddNew(pid: int, status: Status) returns (job: Job)
      modifies this
      ensures Value() == Issue(old(Value()), pid, status) && job == Job(maxJobID, pid, status)
    {
      maxJobID := maxJobID + 1;
      job := Job(maxJobID, pid, status);
      jobs := jobs + [job];
    }

    method GetJobById(id: int) returns (i: nat)
      ensures i == FirstId(jobs, id, 0) && (i < |jobs| <==> ListedId(jobs, id))
    {
      i := 0;
      while i < |jobs| && jobs[i].id != id
        invariant 0 <= i <= |jobs| && FirstId(jobs, id, 0) == FirstId(jobs, id, i)
      {
        i := i + 1;
      }
    }

    method AddBack(job: Job)
      modifies this`jobs
      ensures Value() == Relist(old(Value()), job)
    {
      var i := GetJobById(job.id);
      if i == |jobs| {
        jobs := jobs + [job];
      }
    }

    method RemoveAt(i: nat)
      requires i < |jobs|
      modifies this
      ensures Value() == Drop(old(Value()), i)
    {
      var id := jobs[i].id;
      jobs := jobs[..i] + jobs[i + 1..];
      if id == maxJobID {
        maxJobID := maxJobID - 1;
      }
    }

    method RemoveJobById(id: int)
      modifies this
      ensures Value() == DropId(old(Value()), id)
    {
      var i := GetJobById(id);
      if i < |jobs| {
        RemoveAt(i);
      }
    }

    method RemoveJobByPid(pid: int)
      modifies this
      ensures Value() == DropPid(old(Value()), pid)
    {
      var i := 0;
      while i < |jobs| && jobs[i].pid != pid
        invariant 0 <= i <= |jobs| && FirstPid(jobs, pid, 0) == FirstPid(jobs, pid, i)
      {
        i := i + 1;
      }
      if i < |jobs| {
        RemoveAt(i);
      }
    }

    /** `reaped` are the pids that the waitpid calls return. */
    method RemoveFinishedJobs(reaped: seq<int>)
      modifies this
      ensures Value() == Reap(old(Value()), reaped)
    {
      var i := 0;
      while i < |reaped|
        invariant 0 <= i <= |reaped|
        invariant DropPids(Value(), reaped[i..]) == DropPids(old(Value()), reaped)
      {
        RemoveJobByPid(reaped[i]);
        assert reaped[i..][1..] == reaped[i + 1..];
        i := i + 1;
      }
      KeepUnfinished();
    }

    /** The second loop of removeFinishedJobs. */
    method KeepUnfinished()
      modifies this
      ensures jobs == Unfinished(old(jobs)) && maxJobID == LargestId(jobs)
    {
      var maxId := 0;
      var rest := [];
      for k := 0 to |jobs|
        invariant jobs == old(jobs) && rest == Unfinished(jobs[..k]) && maxId == LargestId(rest)
      {
        UnfinishedNext(jobs, k);
        if !jobs[k].status.Finished? {
          if maxId < jobs[k].id {
            maxId := jobs[k].id;
          }
          LargestAppend(rest, jobs[k]);
          rest := rest + [jobs[k]];
        }
      }
      assert jobs[..|jobs|] == jobs;
      jobs := rest;
      maxJobID := maxId;
    }

    method GetMaxStoppedJobID() returns (m: int)
      ensures m >= 0 && forall i | 0 <= i < |jobs| && jobs[i].status.Stopped? :: jobs[i].id <= m
      ensures m > 0 ==> exists i :: 0 <= i < |jobs| && jobs[i].status.Stopped? && jobs[i].id == m
    {
      m := 0;
      for k := 0 to |jobs|
        invariant m >= 0 && forall i | 0 <= i < k && jobs[i].status.Stopped? :: jobs[i].id <= m
        invariant m > 0 ==> exists i :: 0 <= i < k && jobs[i].status.Stopped? && jobs[i].id == m
      {
        if jobs[k].status.Stopped? && jobs[k].id > m {
          m := jobs[k].id;
        }
      }
    }
  }
}
