/** The bounded worker pool behind `service status`. */
module StatusPool {
  // Workers drain one shared queue, ask the hosts, and push what they hear into one shared list, in
  // whatever order the hosts answer. The report does not depend on that order.

  import opened Text
  import Orders

  datatype Job = Job(alias: string, units: seq<string>)

  datatype Row = Row(host: string, unit: string, state: string)

  datatype Answer = Rows(rows: seq<Row>) | Failed(message: string)

  /** What each host answers in this run. */
  type Network = Job -> Answer

  /** Every row a host reports carries that host's alias. */
  ghost predicate OwnRows(net: Network) {
    forall j: Job, r :: net(j).Rows? && r in net(j).rows ==> r.host == j.alias
  }

  datatype Worker = Idle | Asking(job: Job) | Holding(job: Job, answer: Answer) | Stopped

  /** The shared queue, the workers, the shared results, and the jobs those results came from. */
  datatype Pool = Pool(queue: seq<Job>, workers: seq<Worker>, results: seq<Answer>, finished: seq<Job>)

  /** The bounded number of workers, at least one. */
  function WorkerCount(hosts: nat, parallel: nat): nat {
    var n := if parallel < hosts then parallel else hosts;
    if n < 1 then 1 else n
  }

  function Begin(plans: seq<Job>, parallel: nat): Pool {
    Pool(plans, seq(WorkerCount(|plans|, parallel), _ => Idle), [], [])
  }

  function With(p: Pool, w: nat, worker: Worker): Pool
    requires w < |p.workers|
  {
    p.(workers := p.workers[w := worker])
  }

  /** What worker `w` does next: take a job or stop, ask the host, or push what it heard. */
  function Stepped(net: Network, p: Pool, w: nat): Pool
    requires w < |p.workers|
  {
    match p.workers[w]
    case Idle => if p.queue == [] then With(p, w, Stopped) else With(p, w, Asking(p.queue[0])).(queue := p.queue[1..])
    case Asking(job) => With(p, w, Holding(job, net(job)))
    case Holding(job, answer) => With(p, w, Idle).(results := p.results + [answer], finished := p.finished + [job])
    case Stopped => p
  }

  /** One schedule: the workers in the order of their steps; one that is not there, or has stopped, takes none. */
  function Scheduled(net: Network, p: Pool, schedule: seq<nat>): Pool
    decreases |schedule|
  {
    if schedule == [] then p
    else Scheduled(net, if schedule[0] < |p.workers| then Stepped(net, p, schedule[0]) else p, schedule[1..])
  }

  ghost predicate Joined(p: Pool) { forall w :: 0 <= w < |p.workers| ==> p.workers[w].Stopped? }

  /** Whether a worker has taken `job` and not yet pushed its result. */
  function Has(w: Worker, job: Job): nat {
    match w case Asking(j) => (if j == job then 1 else 0) case Holding(j, _) => (if j == job then 1 else 0) case _ => 0
  }

  /** How often `job` is in the workers' hands. */
  function InHand(workers: seq<Worker>, job: Job): nat {
    if workers == [] then 0 else InHand(workers[..|workers| - 1], job) + Has(workers[|workers| - 1], job)
  }

  function Work(w: Worker): nat {
    match w case Idle => 1 case Asking(_) => 3 case Holding(_, _) => 2 case Stopped => 0
  }

  /** The steps the workers still owe. */
  function Owed(workers: seq<Worker>): nat {
    if workers == [] then 0 else Owed(workers[..|workers| - 1]) + Work(workers[|workers| - 1])
  }

  lemma {:induction false} WorkerChanged(workers: seq<Worker>, w: nat, next: Worker, job: Job)
    requires w < |workers|
    ensures InHand(workers[w := next], job) + Has(workers[w], job) == InHand(workers, job) + Has(next, job)
    ensures Owed(workers[w := next]) + Work(workers[w]) == Owed(workers) + Work(next)
    decreases |workers|
  {
    var init := workers[..|workers| - 1];
    if w < |workers| - 1 {
      WorkerChanged(init, w, next, job);
      assert workers[w := next][..|workers| - 1] == init[w := next];
    } else {
      assert workers[w := next][..|workers| - 1] == init;
    }
  }

  /**
   No job is lost and none is asked twice: queued, in hand and finished together are always the plan;
   and every result is what its host answered.
   */
  ghost predicate Inv(net: Network, plans: seq<Job>, p: Pool) {
    && (forall job :: Accounted(plans, p, job))
    && p.results == Answers(net, p.finished)
    && (forall w :: 0 <= w < |p.workers| && p.workers[w].Holding? ==> p.workers[w].answer == net(p.workers[w].job))
    && (p.queue != [] ==> exists w :: 0 <= w < |p.workers| && !p.workers[w].Stopped?)
  }

  ghost predicate Accounted(plans: seq<Job>, p: Pool, job: Job) {
    multiset(p.queue)[job] + InHand(p.workers, job) + multiset(p.finished)[job] == multiset(plans)[job]
  }

  ghost function Answers(net: Network, jobs: seq<Job>): seq<Answer> {
    seq(|jobs|, k requires 0 <= k < |jobs| => net(jobs[k]))
  }

  lemma StepAccounts(net: Network, plans: seq<Job>, p: Pool, w: nat, job: Job)
    requires w < |p.workers| && Accounted(plans, p, job)
    ensures Accounted(plans, Stepped(net, p, w), job)
  {
    var q := Stepped(net, p, w);
    WorkerChanged(p.workers, w, q.workers[w], job);
    assert q.workers == p.workers[w := q.workers[w]];
    if p.queue != [] {
      FirstQueued(p.queue, job);
    }
    if p.workers[w].Holding? {
      OneMore(p.finished, p.workers[w].job, job);
    }
  }

  lemma FirstQueued(queue: seq<Job>, job: Job)
    requires queue != []
    ensures multiset(queue)[job] == (if queue[0] == job then 1 else 0) + multiset(queue[1..])[job]
  {
    assert queue == [queue[0]] + queue[1..];
  }

  lemma OneMore(jobs: seq<Job>, j: Job, job: Job)
    ensures multiset(jobs + [j])[job] == multiset(jobs)[job] + if j == job then 1 else 0
  {
  }

  lemma StepKeeps(net: Network, plans: seq<Job>, p: Pool, w: nat)
    requires Inv(net, plans, p) && w < |p.workers|
    ensures Inv(net, plans, Stepped(net, p, w))
  {
    var q := Stepped(net, p, w);
    forall job ensures Accounted(plans, q, job) {
      StepAccounts(net, plans, p, w, job);
    }
    if p.workers[w].Holding? {
      assert q.results == Answers(net, p.finished + [p.workers[w].job]);
    }
    if q.queue != [] && !p.workers[w].Stopped? {
      assert !q.workers[w].Stopped?;
    }
  }

  lemma {:induction false} NoneInHand(workers: seq<Worker>, job: Job)
    requires forall w :: 0 <= w < |workers| ==> workers[w].Idle? || workers[w].Stopped?
    ensures InHand(workers, job) == 0
  {
    if workers != [] {
      NoneInHand(workers[..|workers| - 1], job);
    }
  }

  lemma BeginHolds(net: Network, plans: seq<Job>, parallel: nat)
    ensures Inv(net, plans, Begin(plans, parallel))
  {
    var p := Begin(plans, parallel);
    forall job ensures Accounted(plans, p, job) {
      NoneInHand(p.workers, job);
    }
    assert !p.workers[0].Stopped?;
  }

  lemma {:induction false} ScheduleKeeps(net: Network, plans: seq<Job>, p: Pool, schedule: seq<nat>)
    requires Inv(net, plans, p)
    ensures Inv(net, plans, Scheduled(net, p, schedule))
    decreases |schedule|
  {
    if schedule != [] {
      if schedule[0] < |p.workers| {
        StepKeeps(net, plans, p, schedule[0]);
        ScheduleKeeps(net, plans, Stepped(net, p, schedule[0]), schedule[1..]);
      } else {
        ScheduleKeeps(net, plans, p, schedule[1..]);
      }
    }
  }

  /** How much of the run is left; every step of a worker that has not stopped makes it smaller. */
  function Left(p: Pool): nat { 3 * |p.queue| + Owed(p.workers) }

  /** The pool terminates under every schedule: a live worker can always step, and its step is progress. */
  lemma StepIsProgress(net: Network, p: Pool, w: nat)
    requires w < |p.workers| && !p.workers[w].Stopped?
    ensures Left(Stepped(net, p, w)) < Left(p)
  {
    var q := Stepped(net, p, w);
    WorkerChanged(p.workers, w, q.workers[w], Job("", []));
    assert q.workers == p.workers[w := q.workers[w]];
  }

  /** How many steps of a schedule are taken by workers that have not stopped. */
  function Moves(net: Network, p: Pool, schedule: seq<nat>): nat
    decreases |schedule|
  {
    if schedule == [] then 0
    else if schedule[0] < |p.workers| then
      (if p.workers[schedule[0]].Stopped? then 0 else 1) + Moves(net, Stepped(net, p, schedule[0]), schedule[1..])
    else Moves(net, p, schedule[1..])
  }

  /** No schedule, however long, holds more than `Left` real steps; what is left shrinks by as much. */
  lemma {:induction false} MovesAreBounded(net: Network, p: Pool, schedule: seq<nat>)
    ensures Moves(net, p, schedule) + Left(Scheduled(net, p, schedule)) <= Left(p)
    decreases |schedule|
  {
    if schedule != [] {
      if schedule[0] < |p.workers| {
        if !p.workers[schedule[0]].Stopped? {
          StepIsProgress(net, p, schedule[0]);
        }
        MovesAreBounded(net, Stepped(net, p, schedule[0]), schedule[1..]);
      } else {
        MovesAreBounded(net, p, schedule[1..]);
      }
    }
  }

  /** At any time, as many workers as there are hosts or as many as allowed, and at least one. */
  lemma {:induction false} PoolIsBounded(net: Network, plans: seq<Job>, parallel: nat, schedule: seq<nat>)
    ensures var n := |Scheduled(net, Begin(plans, parallel), schedule).workers|;
            && 1 <= n && (n == 1 || (n <= parallel && n <= |plans|))
            && (n == parallel || n == |plans| || parallel == 0 || plans == [])
  {
    WorkersStay(net, Begin(plans, parallel), schedule);
  }

  lemma {:induction false} WorkersStay(net: Network, p: Pool, schedule: seq<nat>)
    ensures |Scheduled(net, p, schedule).workers| == |p.workers|
    decreases |schedule|
  {
    if schedule != [] {
      WorkersStay(net, if schedule[0] < |p.workers| then Stepped(net, p, schedule[0]) else p, schedule[1..]);
    }
  }

  /** When all workers have stopped, every planned host was asked exactly once. */
  lemma EachHostOnce(net: Network, plans: seq<Job>, parallel: nat, schedule: seq<nat>)
    requires Joined(Scheduled(net, Begin(plans, parallel), schedule))
    ensures var p := Scheduled(net, Begin(plans, parallel), schedule);
            && p.queue == [] && multiset(p.finished) == multiset(plans)
            && p.results == Answers(net, p.finished)
  {
    BeginHolds(net, plans, parallel);
    ScheduleKeeps(net, plans, Begin(plans, parallel), schedule);
    var p := Scheduled(net, Begin(plans, parallel), schedule);
    assert p.queue == [];
    forall job ensures multiset(p.finished)[job] == multiset(plans)[job] {
      NoneInHand(p.workers, job);
      assert Accounted(plans, p, job);
    }
  }

  // The report.

  /** Rows are ordered by host, then by unit. */
  predicate RowLe(a: Row, b: Row) {
    if a.host == b.host then StrLe(a.unit, b.unit) else StrLe(a.host, b.host)
  }

  function AllRows(results: seq<Answer>): seq<Row> {
    if results == [] then []
    else
      var last := results[|results| - 1];
      AllRows(results[..|results| - 1]) + if last.Rows? then last.rows else []
  }

  function AllFailures(results: seq<Answer>): seq<string> {
    if results == [] then []
    else
      var last := results[|results| - 1];
      AllFailures(results[..|results| - 1]) + if last.Failed? then [last.message] else []
  }

  /** The sorted table and the sorted failures. */
  method Report(results: seq<Answer>) returns (rows: seq<Row>, failures: seq<string>)
    ensures rows == Orders.Sort(RowLe, AllRows(results))
    ensures failures == Orders.Sort(StrLe, AllFailures(results))
  {
    rows, failures := [], [];
    for k := 0 to |results|
      invariant rows == AllRows(results[..k]) && failures == AllFailures(results[..k])
    {
      assert results[..k + 1][..k] == results[..k];
      match results[k] {
        case Rows(states) => rows := rows + states;
        case Failed(message) => failures := failures + [message];
      }
    }
    assert results[..|results|] == results;
    rows := Orders.Sort(RowLe, rows);
    failures := Orders.Sort(StrLe, failures);
  }

  lemma RowOrder()
    ensures Orders.TotalPreorder(RowLe)
  {
    forall a: Row, b: Row ensures RowLe(a, b) || RowLe(b, a) {
      StrLeTotal(a.unit, b.unit);
      StrLeTotal(a.host, b.host);
    }
    forall a: Row, b: Row, c: Row | RowLe(a, b) && RowLe(b, c) ensures RowLe(a, c) {
      if a.host == b.host == c.host {
        StrLeTransitive(a.unit, b.unit, c.unit);
      } else {
        StrLeTotal(a.host, a.host);
        StrLeTotal(c.host, c.host);
        StrLeTransitive(a.host, b.host, c.host);
        if a.host == c.host {
          StrLeAntisymmetric(a.host, b.host);
        }
      }
    }
  }

  /** Rows of other hosts are told apart from `y`. */
  lemma {:induction false} ClassOfOthers(rows: seq<Row>, y: Row)
    requires forall r :: r in rows ==> r.host != y.host
    ensures Orders.Class(RowLe, y, rows) == []
  {
    if rows != [] {
      ClassOfOthers(rows[1..], y);
      if RowLe(y, rows[0]) && RowLe(rows[0], y) {
        StrLeAntisymmetric(y.host, rows[0].host);
      }
    }
  }

  function RowsOf(net: Network, job: Job): seq<Row> { if net(job).Rows? then net(job).rows else [] }

  ghost predicate DistinctAliases(jobs: seq<Job>) {
    forall k, l :: 0 <= k < l < |jobs| ==> jobs[k].alias != jobs[l].alias
  }

  lemma AnswersPush(net: Network, jobs: seq<Job>)
    requires jobs != []
    ensures Answers(net, jobs)[..|jobs| - 1] == Answers(net, jobs[..|jobs| - 1])
    ensures AllRows(Answers(net, jobs)) == AllRows(Answers(net, jobs[..|jobs| - 1])) + RowsOf(net, jobs[|jobs| - 1])
  {
  }

  lemma {:induction false} ClassNowhere(net: Network, jobs: seq<Job>, y: Row)
    requires OwnRows(net) && forall k :: 0 <= k < |jobs| ==> jobs[k].alias != y.host
    ensures Orders.Class(RowLe, y, AllRows(Answers(net, jobs))) == []
  {
    if jobs != [] {
      var init, last := jobs[..|jobs| - 1], jobs[|jobs| - 1];
      AnswersPush(net, jobs);
      ClassNowhere(net, init, y);
      Orders.ClassJoin(RowLe, AllRows(Answers(net, init)), RowsOf(net, last), y);
      OtherHost(net, last, y);
    }
  }

  lemma OtherHost(net: Network, job: Job, y: Row)
    requires OwnRows(net) && job.alias != y.host
    ensures Orders.Class(RowLe, y, RowsOf(net, job)) == []
  {
    ClassOfOthers(RowsOf(net, job), y);
  }

  /** The rows that tie with `y` all come from one host, in the order that host gave them. */
  lemma {:induction false} ClassFromOneHost(net: Network, jobs: seq<Job>, y: Row, job: Job)
    requires OwnRows(net) && DistinctAliases(jobs) && job in jobs && job.alias == y.host
    ensures Orders.Class(RowLe, y, AllRows(Answers(net, jobs))) == Orders.Class(RowLe, y, RowsOf(net, job))
  {
    var init, last := jobs[..|jobs| - 1], jobs[|jobs| - 1];
    AnswersPush(net, jobs);
    Orders.ClassJoin(RowLe, AllRows(Answers(net, init)), RowsOf(net, last), y);
    var k :| 0 <= k < |jobs| && jobs[k] == job;
    if k == |jobs| - 1 {
      forall l | 0 <= l < |init| ensures init[l].alias != y.host {
        assert jobs[l].alias != jobs[k].alias;
      }
      ClassNowhere(net, init, y);
    } else {
      assert init[k] == job;
      assert jobs[k].alias != last.alias;
      ClassFromOneHost(net, init, y, job);
      OtherHost(net, last, y);
    }
  }

  lemma SameClasses(net: Network, a: seq<Job>, b: seq<Job>, y: Row)
    requires OwnRows(net) && DistinctAliases(a) && DistinctAliases(b) && multiset(a) == multiset(b)
    ensures Orders.Class(RowLe, y, AllRows(Answers(net, a))) == Orders.Class(RowLe, y, AllRows(Answers(net, b)))
  {
    Orders.SameElements(a, b);
    if j :| j in a && j.alias == y.host {
      ClassFromOneHost(net, a, y, j);
      ClassFromOneHost(net, b, y, j);
    } else {
      assert forall k :: 0 <= k < |a| ==> a[k] in a;
      assert forall k :: 0 <= k < |b| ==> b[k] in b;
      ClassNowhere(net, a, y);
      ClassNowhere(net, b, y);
    }
  }

  lemma FailuresPush(net: Network, jobs: seq<Job>, message: string)
    requires jobs != []
    ensures multiset(AllFailures(Answers(net, jobs)))[message]
         == multiset(AllFailures(Answers(net, jobs[..|jobs| - 1])))[message] + Fails(net, message)(jobs[|jobs| - 1])
  {
    assert Answers(net, jobs)[..|jobs| - 1] == Answers(net, jobs[..|jobs| - 1]);
  }

  lemma {:induction false} FailureElements(net: Network, jobs: seq<Job>, message: string)
    ensures multiset(AllFailures(Answers(net, jobs)))[message] == Total(multiset(jobs), Fails(net, message))
  {
    if jobs != [] {
      var init, last := jobs[..|jobs| - 1], jobs[|jobs| - 1];
      assert jobs == init + [last];
      FailureElements(net, init, message);
      TotalPush(multiset(init), last, Fails(net, message));
      FailuresPush(net, jobs, message);
    }
  }

  lemma {:induction false} RowElements(net: Network, jobs: seq<Job>, row: Row)
    ensures multiset(AllRows(Answers(net, jobs)))[row] == Total(multiset(jobs), Reports(net, row))
  {
    if jobs != [] {
      var init, last := jobs[..|jobs| - 1], jobs[|jobs| - 1];
      assert jobs == init + [last];
      RowElements(net, init, row);
      TotalPush(multiset(init), last, Reports(net, row));
      AnswersPush(net, jobs);
    }
  }

  /** Whether a job fails with this message, and how often it reports this row. */
  function Fails(net: Network, message: string): Job -> nat {
    (j: Job) => if net(j) == Failed(message) then 1 else 0
  }

  function Reports(net: Network, row: Row): Job -> nat {
    (j: Job) => if net(j).Rows? then multiset(net(j).rows)[row] else 0
  }

  /** The sum over all jobs. */
  ghost function Total(jobs: multiset<Job>, weight: Job -> nat): nat
    decreases |jobs|
  {
    if jobs == multiset{} then 0
    else
      var j :| j in jobs;
      Total(jobs - multiset{j}, weight) + weight(j)
  }

  /** It does not depend on the order the jobs are taken in. */
  lemma {:induction false} TotalPush(jobs: multiset<Job>, job: Job, weight: Job -> nat)
    ensures Total(jobs + multiset{job}, weight) == Total(jobs, weight) + weight(job)
    decreases |jobs|
  {
    var all := jobs + multiset{job};
    assert job in all;
    var j :| j in all && Total(all, weight) == Total(all - multiset{j}, weight) + weight(j);
    if j == job {
      assert all - multiset{j} == jobs;
    } else {
      var rest := jobs - multiset{j};
      TakenFirst(jobs, job, j);
      TotalPush(rest, job, weight);
      TotalPush(rest, j, weight);
    }
  }

  lemma TakenFirst(jobs: multiset<Job>, job: Job, j: Job)
    requires j != job && j in jobs + multiset{job}
    ensures var rest := jobs - multiset{j};
            jobs + multiset{job} - multiset{j} == rest + multiset{job} && jobs == rest + multiset{j} && |rest| < |jobs|
  {
  }

  /** By host, byte by byte, and then by unit. */
  ghost predicate Ascending(rows: seq<Row>) {
    forall i, j :: 0 <= i < j < |rows| ==>
      && StrLe(rows[i].host, rows[j].host)
      && (rows[i].host == rows[j].host ==> StrLe(rows[i].unit, rows[j].unit))
  }

  /**
   What the report shows: every row as often as the hosts of the plan report it, and every failure as often as
   one of them fails with it, both in ascending order.
   */
  lemma ReportIsExact(net: Network, plans: seq<Job>, parallel: nat, schedule: seq<nat>, row: Row, message: string)
    requires Joined(Scheduled(net, Begin(plans, parallel), schedule))
    ensures var results := Scheduled(net, Begin(plans, parallel), schedule).results;
            var rows, failures := Orders.Sort(RowLe, AllRows(results)), Orders.Sort(StrLe, AllFailures(results));
            && Ascending(rows) && multiset(rows)[row] == Total(multiset(plans), Reports(net, row))
            && Orders.Sorted(StrLe, failures)
            && multiset(failures)[message] == Total(multiset(plans), Fails(net, message))
  {
    EachHostOnce(net, plans, parallel, schedule);
    var done := Scheduled(net, Begin(plans, parallel), schedule).finished;
    RowElements(net, done, row);
    FailureElements(net, done, message);
    SortedReport(Answers(net, done));
  }

  lemma SortedReport(results: seq<Answer>)
    ensures var rows, failures := Orders.Sort(RowLe, AllRows(results)), Orders.Sort(StrLe, AllFailures(results));
            && Ascending(rows) && multiset(rows) == multiset(AllRows(results))
            && Orders.Sorted(StrLe, failures) && multiset(failures) == multiset(AllFailures(results))
  {
    RowOrder();
    Orders.StrOrder();
    Orders.SortSorted(RowLe, AllRows(results));
    Orders.SortElements(RowLe, AllRows(results));
    Orders.SortSorted(StrLe, AllFailures(results));
    Orders.SortElements(StrLe, AllFailures(results));
    RowsAscend(Orders.Sort(RowLe, AllRows(results)));
  }

  lemma RowsAscend(rows: seq<Row>)
    requires Orders.Sorted(RowLe, rows)
    ensures Ascending(rows)
  {
    Orders.StrOrder();
    forall i, j | 0 <= i < j < |rows|
      ensures StrLe(rows[i].host, rows[j].host)
      ensures rows[i].host == rows[j].host ==> StrLe(rows[i].unit, rows[j].unit)
    {
      assert RowLe(rows[i], rows[j]);
      assert StrLe(rows[i].host, rows[i].host);
    }
  }

  /** Two orders of the same hosts give the same report. */
  lemma OrderDoesNotMatter(net: Network, a: seq<Job>, b: seq<Job>)
    requires OwnRows(net) && DistinctAliases(a) && multiset(a) == multiset(b)
    ensures Orders.Sort(RowLe, AllRows(Answers(net, a))) == Orders.Sort(RowLe, AllRows(Answers(net, b)))
    ensures Orders.Sort(StrLe, AllFailures(Answers(net, a))) == Orders.Sort(StrLe, AllFailures(Answers(net, b)))
  {
    Orders.StillDistinct(a, b, (job: Job) => job.alias);
    RowOrder();
    Orders.StrOrder();
    var rowsA, rowsB := AllRows(Answers(net, a)), AllRows(Answers(net, b));
    forall y ensures Orders.Class(RowLe, y, Orders.Sort(RowLe, rowsA))
      == Orders.Class(RowLe, y, Orders.Sort(RowLe, rowsB)) {
      Orders.SortStable(RowLe, rowsA, y);
      Orders.SortStable(RowLe, rowsB, y);
      SameClasses(net, a, b, y);
    }
    Orders.SortSorted(RowLe, rowsA);
    Orders.SortSorted(RowLe, rowsB);
    Orders.SortedByClasses(RowLe, Orders.Sort(RowLe, rowsA), Orders.Sort(RowLe, rowsB));
    FailuresSame(net, a, b);
  }

  lemma FailuresSame(net: Network, a: seq<Job>, b: seq<Job>)
    requires multiset(a) == multiset(b)
    ensures Orders.Sort(StrLe, AllFailures(Answers(net, a))) == Orders.Sort(StrLe, AllFailures(Answers(net, b)))
  {
    var failA, failB := AllFailures(Answers(net, a)), AllFailures(Answers(net, b));
    forall m ensures multiset(failA)[m] == multiset(failB)[m] {
      FailureElements(net, a, m);
      FailureElements(net, b, m);
    }
    assert multiset(failA) == multiset(failB);
    Orders.StrOrder();
    Orders.SortElements(StrLe, failA);
    Orders.SortElements(StrLe, failB);
    Orders.SortSorted(StrLe, failA);
    Orders.SortSorted(StrLe, failB);
    Orders.SortedByElements(StrLe, Orders.Sort(StrLe, failA), Orders.Sort(StrLe, failB));
  }

  /**
   The report is the same for every interleaving of the workers and every number of them: that of
   asking the hosts one after the other.
   */
  lemma ReportIsScheduleFree(net: Network, plans: seq<Job>, parallel: nat, schedule: seq<nat>)
    requires OwnRows(net) && DistinctAliases(plans)
    requires Joined(Scheduled(net, Begin(plans, parallel), schedule))
    ensures var results := Scheduled(net, Begin(plans, parallel), schedule).results;
            && Orders.Sort(RowLe, AllRows(results)) == Orders.Sort(RowLe, AllRows(Answers(net, plans)))
            && Orders.Sort(StrLe, AllFailures(results)) == Orders.Sort(StrLe, AllFailures(Answers(net, plans)))
  {
    EachHostOnce(net, plans, parallel, schedule);
    OrderDoesNotMatter(net, plans, Scheduled(net, Begin(plans, parallel), schedule).finished);
  }
}
