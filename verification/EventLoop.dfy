/**
 Collecting a database stream under the JavaScript job queue (src/utils/block.ts:23-39 and
 57-75, src/utils/transaction.ts:54-72).

 A `data` handler runs up to its `await` at once and leaves the rest as a job; `end`
 resolves the promise, which leaves the awaiting function's continuation as a job. Jobs run
 in the order they were queued (sections 9.5 and 27.7.5.3 of ECMA-262, 2023 edition).
 Events and jobs interleave in any way, and unrelated jobs may be queued at any time.

 `ticks` is the number of jobs an `await` of the decoder takes before the handler goes on.
 `codec.decode` returns a plain value, for which it is 1.
*/
module EventLoop {
  import opened ByteStrings
  import opened Sequences
  import opened Store

  datatype Job = Finish(record: Record, ticks: nat) | Resume | Unrelated

  datatype Step = Data | End | RunJob | QueueUnrelated

  /**
   `pending` are the events the stream has yet to emit; `output` is what the handlers have
   built; `resumed` says that the awaiting function has gone on.
  */
  datatype State<R> = State(
    pending: Database, ended: bool, jobs: seq<Job>,
    exist: bool, lastKey: Bytes, output: R, resumed: bool)

  function Initial<R>(page: Database, startingKey: Bytes, output: R): State<R> {
    State(page, false, [], false, startingKey, output, false)
  }

  predicate Enabled(s: State, step: Step) {
    match step
    case Data => s.pending != []
    case End => s.pending == [] && !s.ended
    case RunJob => s.jobs != []
    case QueueUnrelated => true
  }

  function Next<R>(store: (R, Record) -> R, ticks: nat, s: State<R>, step: Step): State<R>
    requires Enabled(s, step)
  {
    match step
    case Data =>
      s.(pending := s.pending[1..], exist := true, jobs := s.jobs + [Finish(s.pending[0], ticks)])
    case End => s.(ended := true, jobs := s.jobs + [Resume])
    case QueueUnrelated => s.(jobs := s.jobs + [Unrelated])
    case RunJob =>
      var rest := s.(jobs := s.jobs[1..]);
      match s.jobs[0]
      case Resume => rest.(resumed := true)
      case Unrelated => rest
      case Finish(r, t) =>
        if t > 1 then rest.(jobs := rest.jobs + [Finish(r, t - 1)])
        else rest.(output := store(s.output, r), lastKey := r.key)
  }

  /** Take the steps that are enabled when their turn comes. */
  function Run<R>(store: (R, Record) -> R, ticks: nat, s: State<R>, steps: seq<Step>): State<R>
    decreases |steps|
  {
    if steps == [] then s
    else Run(store, ticks, if Enabled(s, steps[0]) then Next(store, ticks, s, steps[0]) else s, steps[1..])
  }

  /** The handlers applied one after the other. */
  function Fold<R>(store: (R, Record) -> R, output: R, page: Database): R {
    if page == [] then output else Fold(store, store(output, page[0]), page[1..])
  }

  function KeyAfter(startingKey: Bytes, page: Database): Bytes {
    if page == [] then startingKey else page[|page| - 1].key
  }

  // ----- The invariant -----

  function FinishRecord(j: Job): Option<Record> {
    if j.Finish? then Some(j.record) else None
  }

  /** What is still to be stored, in the order in which it will be. */
  function Outstanding(s: State): Database {
    Collect(FinishRecord, s.jobs) + s.pending
  }

  /** Nothing is lost or reordered. */
  ghost predicate Accounted<R>(store: (R, Record) -> R, page: Database, startingKey: Bytes, output: R, s: State<R>) {
    && Fold(store, s.output, Outstanding(s)) == Fold(store, output, page)
    && KeyAfter(s.lastKey, Outstanding(s)) == KeyAfter(startingKey, page)
    && |s.pending| <= |page|
    && s.exist == (s.pending != page)
  }

  /** The continuation is queued after every handler, and once. */
  ghost predicate InOrder(s: State) {
    && (forall i :: 0 <= i < |s.jobs| && s.jobs[i].Finish? ==> s.jobs[i].ticks == 1)
    && (s.ended ==> s.pending == [])
    && (s.resumed || Resume in s.jobs <==> s.ended)
    && (s.resumed ==> forall i :: 0 <= i < |s.jobs| ==> s.jobs[i].Unrelated?)
    && (forall i, k :: 0 <= i < k < |s.jobs| && s.jobs[i].Resume? ==> s.jobs[k].Unrelated?)
  }

  ghost predicate Inv<R>(store: (R, Record) -> R, page: Database, startingKey: Bytes, output: R, s: State<R>) {
    Accounted(store, page, startingKey, output, s) && InOrder(s)
  }

  lemma InitialInv<R>(store: (R, Record) -> R, page: Database, startingKey: Bytes, output: R)
    ensures Inv(store, page, startingKey, output, Initial(page, startingKey, output))
  {
    assert Outstanding(Initial(page, startingKey, output)) == page;
  }

  lemma RunJobKeepsOrder<R>(store: (R, Record) -> R, s: State<R>)
    requires InOrder(s) && Enabled(s, RunJob)
    ensures InOrder(Next(store, 1, s, RunJob))
  {
    var t := Next(store, 1, s, RunJob);
    assert s.jobs[0].Finish? ==> s.jobs[0].ticks == 1;
    assert s.jobs == [s.jobs[0]] + t.jobs;
    assert forall i :: 0 <= i < |t.jobs| ==> t.jobs[i] == s.jobs[i + 1];
  }

  lemma StepKeepsOrder<R>(store: (R, Record) -> R, s: State<R>, step: Step)
    requires InOrder(s) && Enabled(s, step)
    ensures InOrder(Next(store, 1, s, step))
  {
    if step == RunJob {
      RunJobKeepsOrder(store, s);
    } else {
      var t := Next(store, 1, s, step);
      assert t.jobs[|s.jobs|] in t.jobs;
    }
  }

  lemma QueueJob(jobs: seq<Job>, j: Job)
    ensures Collect(FinishRecord, jobs + [j])
      == Collect(FinishRecord, jobs) + if j.Finish? then [j.record] else []
  {
    CollectAppend(FinishRecord, jobs, [j]);
    CollectOne(FinishRecord, j);
  }

  /** Running a job stores the first outstanding record, or leaves what is outstanding alone. */
  lemma OutstandingAfterJob<R>(store: (R, Record) -> R, s: State<R>)
    requires InOrder(s) && Enabled(s, RunJob)
    ensures var t := Next(store, 1, s, RunJob);
      if s.jobs[0].Finish?
      then Outstanding(s) == [s.jobs[0].record] + Outstanding(t)
      else Outstanding(s) == Outstanding(t)
  {
    var t := Next(store, 1, s, RunJob);
    assert s.jobs[0].Finish? ==> s.jobs[0].ticks == 1;
    assert t.jobs == s.jobs[1..] && t.pending == s.pending;
    var rest := Collect(FinishRecord, t.jobs);
    if s.jobs[0].Finish? {
      assert ([s.jobs[0].record] + rest) + s.pending == [s.jobs[0].record] + (rest + s.pending);
    } else {
      assert [] + rest == rest;
    }
  }

  /** An event leaves what is outstanding alone. */
  lemma OutstandingAfterEvent<R>(store: (R, Record) -> R, s: State<R>, step: Step)
    requires Enabled(s, step) && step != RunJob
    ensures Outstanding(Next(store, 1, s, step)) == Outstanding(s)
  {
    var t := Next(store, 1, s, step);
    var jobs := Collect(FinishRecord, s.jobs);
    QueueJob(s.jobs, t.jobs[|s.jobs|]);
    if step == Data {
      assert s.pending == [s.pending[0]] + t.pending;
      assert (jobs + [s.pending[0]]) + t.pending == jobs + s.pending;
    } else {
      assert jobs + [] == jobs;
    }
  }

  lemma StepKeepsAccount<R>(
      store: (R, Record) -> R, page: Database, startingKey: Bytes, output: R, s: State<R>, step: Step)
    requires Inv(store, page, startingKey, output, s) && Enabled(s, step)
    ensures Accounted(store, page, startingKey, output, Next(store, 1, s, step))
  {
    if step == RunJob {
      OutstandingAfterJob(store, s);
      if s.jobs[0].Finish? {
        assert s.jobs[0].ticks == 1;
        FoldFirst(store, s.output, s.lastKey, s.jobs[0].record, Outstanding(Next(store, 1, s, step)));
      }
    } else {
      OutstandingAfterEvent(store, s, step);
    }
  }

  lemma FoldFirst<R>(store: (R, Record) -> R, output: R, key: Bytes, r: Record, rest: Database)
    ensures Fold(store, output, [r] + rest) == Fold(store, store(output, r), rest)
    ensures KeyAfter(key, [r] + rest) == KeyAfter(r.key, rest)
  {
    assert ([r] + rest)[1..] == rest;
  }

  lemma StepKeepsInv<R>(
      store: (R, Record) -> R, page: Database, startingKey: Bytes, output: R, s: State<R>, step: Step)
    requires Inv(store, page, startingKey, output, s) && Enabled(s, step)
    ensures Inv(store, page, startingKey, output, Next(store, 1, s, step))
  {
    StepKeepsOrder(store, s, step);
    StepKeepsAccount(store, page, startingKey, output, s, step);
  }

  lemma {:induction false} RunKeepsInv<R>(
      store: (R, Record) -> R, page: Database, startingKey: Bytes, output: R, s: State<R>, steps: seq<Step>)
    requires Inv(store, page, startingKey, output, s)
    ensures Inv(store, page, startingKey, output, Run(store, 1, s, steps))
    decreases |steps|
  {
    if steps == [] {
    } else {
      if Enabled(s, steps[0]) {
        StepKeepsInv(store, page, startingKey, output, s, steps[0]);
        RunKeepsInv(store, page, startingKey, output, Next(store, 1, s, steps[0]), steps[1..]);
      } else {
        RunKeepsInv(store, page, startingKey, output, s, steps[1..]);
      }
    }
  }

  lemma ResumedHasAll<R>(store: (R, Record) -> R, page: Database, startingKey: Bytes, output: R, s: State<R>)
    requires Inv(store, page, startingKey, output, s) && s.resumed
    ensures s.output == Fold(store, output, page)
    ensures s.lastKey == KeyAfter(startingKey, page)
    ensures s.exist <==> page != []
  {
    if Outstanding(s) != [] {
      CollectMember(FinishRecord, s.jobs, Outstanding(s)[0]);
      assert false;
    }
  }

  /**
   In every interleaving, when the awaiting function has resumed the handlers have stored
   the whole page, in stream order, and `lastKey` is the key of its last record.
  */
  lemma EveryScheduleCollectsThePage<R>(
      store: (R, Record) -> R, page: Database, startingKey: Bytes, output: R, steps: seq<Step>)
    requires Run(store, 1, Initial(page, startingKey, output), steps).resumed
    ensures var s := Run(store, 1, Initial(page, startingKey, output), steps);
      && s.output == Fold(store, output, page)
      && s.lastKey == KeyAfter(startingKey, page)
      && (s.exist <==> page != [])
  {
    InitialInv(store, page, startingKey, output);
    RunKeepsInv(store, page, startingKey, output, Initial(page, startingKey, output), steps);
    ResumedHasAll(store, page, startingKey, output, Run(store, 1, Initial(page, startingKey, output), steps));
  }

  /**
   The awaiting function is never stuck: until it has resumed, an event or a job is due. And
   other code can queue jobs at any time.
  */
  lemma NeverStuck<R>(store: (R, Record) -> R, page: Database, startingKey: Bytes, output: R, s: State<R>)
    requires Inv(store, page, startingKey, output, s) && !s.resumed
    ensures Enabled(s, Data) || Enabled(s, End) || Enabled(s, RunJob)
    ensures Enabled(s, QueueUnrelated)
  {
  }

  /** Bounds the events and jobs still to come. */
  function Measure(s: State): nat {
    2 * |s.pending| + |s.jobs| + if s.ended then 0 else 2
  }

  lemma StepDecreases<R>(store: (R, Record) -> R, s: State<R>, step: Step)
    requires InOrder(s) && Enabled(s, step) && step != QueueUnrelated
    ensures Measure(Next(store, 1, s, step)) < Measure(s)
  {
    if step == RunJob && s.jobs[0].Finish? { assert s.jobs[0].ticks == 1; }
  }

  // ----- A decoder that takes longer loses records -----

  function Jobs(page: Database, ticks: nat): (js: seq<Job>)
    ensures |js| == |page|
  {
    seq(|page|, i requires 0 <= i < |page| => Finish(page[i], ticks))
  }

  function Repeat(step: Step, n: nat): seq<Step> {
    if n == 0 then [] else [step] + Repeat(step, n - 1)
  }

  lemma {:induction false} RunAppend<R>(store: (R, Record) -> R, ticks: nat, s: State<R>, a: seq<Step>, b: seq<Step>)
    ensures Run(store, ticks, s, a + b) == Run(store, ticks, Run(store, ticks, s, a), b)
    decreases |a|
  {
    if a == [] {
      assert a + b == b;
    } else {
      assert (a + b)[1..] == a[1..] + b;
      var s' := if Enabled(s, a[0]) then Next(store, ticks, s, a[0]) else s;
      RunAppend(store, ticks, s', a[1..], b);
    }
  }

  lemma {:induction false} EmitAll<R>(store: (R, Record) -> R, ticks: nat, s: State<R>)
    ensures Run(store, ticks, s, Repeat(Data, |s.pending|))
      == s.(pending := [], exist := s.exist || s.pending != [], jobs := s.jobs + Jobs(s.pending, ticks))
    decreases |s.pending|
  {
    if s.pending == [] {
      assert s.jobs + Jobs([], ticks) == s.jobs;
    } else {
      var s' := Next(store, ticks, s, Data);
      EmitAll(store, ticks, s');
      assert Repeat(Data, |s.pending|)[1..] == Repeat(Data, |s'.pending|);
      assert s'.jobs + Jobs(s'.pending, ticks) == s.jobs + Jobs(s.pending, ticks);
    }
  }

  lemma {:induction false} RequeueAll<R>(
      store: (R, Record) -> R, ticks: nat, s: State<R>, waiting: Database, back: seq<Job>, t: nat)
    requires t > 1 && s.jobs == Jobs(waiting, t) + back
    ensures Run(store, ticks, s, Repeat(RunJob, |waiting|)) == s.(jobs := back + Jobs(waiting, t - 1))
    decreases |waiting|
  {
    if waiting == [] {
      assert s.jobs == back + Jobs(waiting, t - 1);
    } else {
      var s' := Next(store, ticks, s, RunJob);
      var more := back + [Finish(waiting[0], t - 1)];
      assert s'.jobs == Jobs(waiting[1..], t) + more;
      RequeueAll(store, ticks, s', waiting[1..], more, t);
      assert more + Jobs(waiting[1..], t - 1) == back + Jobs(waiting, t - 1);
      assert Repeat(RunJob, |waiting|)[1..] == Repeat(RunJob, |waiting[1..]|);
    }
  }

  function LateSchedule(page: Database): seq<Step> {
    Repeat(Data, |page|) + ([End] + (Repeat(RunJob, |page|) + [RunJob]))
  }

  /** With a decoder of two or more ticks there is a schedule that resumes with nothing stored. */
  lemma LateDecoderLosesThePage<R>(
      store: (R, Record) -> R, ticks: nat, page: Database, startingKey: Bytes, output: R)
    requires ticks > 1
    ensures var s := Run(store, ticks, Initial(page, startingKey, output), LateSchedule(page));
      s.resumed && s.output == output && s.lastKey == startingKey
  {
    var s0 := Initial(page, startingKey, output);
    EmitAll(store, ticks, s0);
    var s1 := Run(store, ticks, s0, Repeat(Data, |page|));
    var rest := Repeat(RunJob, |page|) + [RunJob];
    RunAppend(store, ticks, s0, Repeat(Data, |page|), [End] + rest);
    assert ([End] + rest)[1..] == rest;
    assert [] + Jobs(page, ticks) == Jobs(page, ticks);
    ResumeOvertakes(store, ticks, page, Next(store, ticks, s1, End));
  }

  lemma ResumeOvertakes<R>(store: (R, Record) -> R, ticks: nat, page: Database, s: State<R>)
    requires ticks > 1 && s.jobs == Jobs(page, ticks) + [Resume]
    ensures var t := Run(store, ticks, s, Repeat(RunJob, |page|) + [RunJob]);
      t.resumed && t.output == s.output && t.lastKey == s.lastKey
  {
    RequeueAll(store, ticks, s, page, [Resume], ticks);
    RunAppend(store, ticks, s, Repeat(RunJob, |page|), [RunJob]);
    var u := Run(store, ticks, s, Repeat(RunJob, |page|));
    assert [RunJob][1..] == [];
    var v := Next(store, ticks, u, RunJob);
    assert Run(store, ticks, v, [RunJob][1..]) == v;
  }

  function Log(output: Database, r: Record): Database {
    output + [r]
  }

  lemma {:induction false} FoldLog(output: Database, page: Database)
    ensures Fold(Log, output, page) == output + page
    decreases |page|
  {
    if page == [] {
      assert output + page == output;
    } else {
      FoldLog(output + [page[0]], page[1..]);
      assert output + page == output + [page[0]] + page[1..];
    }
  }

  /**
   Exactly when collection is safe: a non-empty page is complete on resumption in every
   schedule if and only if the handler goes on in the first job after its `await`.
  */
  lemma CompleteIffDecodeIsSynchronous(ticks: nat, page: Database, startingKey: Bytes)
    requires page != [] && ticks >= 1
    ensures ticks == 1 <==>
      forall steps :: Run(Log, ticks, Initial(page, startingKey, []), steps).resumed ==>
        Run(Log, ticks, Initial(page, startingKey, []), steps).output == page
  {
    if ticks == 1 {
      forall steps | Run(Log, ticks, Initial(page, startingKey, []), steps).resumed
        ensures Run(Log, ticks, Initial(page, startingKey, []), steps).output == page
      {
        EveryScheduleCollectsThePage(Log, page, startingKey, [], steps);
        FoldLog([], page);
        assert [] + page == page;
      }
    } else {
      LateDecoderLosesThePage(Log, ticks, page, startingKey, []);
    }
  }

  // ----- The handlers as they run -----

  class PageCollector<R> {
    const store: (R, Record) -> R
    var pending: Database
    var ended: bool
    var jobs: seq<Job>
    var exist: bool
    var lastKey: Bytes
    var output: R
    var resumed: bool

    ghost function View(): State<R>
      reads this
    {
      State(pending, ended, jobs, exist, lastKey, output, resumed)
    }

    constructor (store: (R, Record) -> R, page: Database, startingKey: Bytes, output: R)
      ensures View() == Initial(page, startingKey, output) && this.store == store
    {
      this.store := store;
      pending, ended, jobs := page, false, [];
      exist, lastKey, this.output, resumed := false, startingKey, output, false;
    }

    method OnData()
      requires pending != []
      modifies this
      ensures View() == Next(store, 1, old(View()), Data)
    {
      exist := true;
      jobs := jobs + [Finish(pending[0], 1)];
      pending := pending[1..];
    }

    method OnEnd()
      requires pending == [] && !ended
      modifies this
      ensures View() == Next(store, 1, old(View()), End)
    {
      ended := true;
      jobs := jobs + [Resume];
    }

    method RunNextJob()
      requires jobs != [] && forall i :: 0 <= i < |jobs| && jobs[i].Finish? ==> jobs[i].ticks == 1
      modifies this
      ensures View() == Next(store, 1, old(View()), RunJob)
    {
      var job := jobs[0];
      jobs := jobs[1..];
      match job
      case Unrelated =>
      case Resume => resumed := true;
      case Finish(record, _) =>
        output := store(output, record);
        lastKey := record.key;
    }

    method Perform(step: Step)
      requires Enabled(View(), step) && InOrder(View())
      modifies this
      ensures View() == Next(store, 1, old(View()), step)
    {
      match step
      case Data => OnData();
      case End => OnEnd();
      case RunJob => RunNextJob();
      case QueueUnrelated => jobs := jobs + [Unrelated];
    }

    method IsEnabled(step: Step) returns (b: bool)
      ensures b == Enabled(View(), step)
    {
      b := match step
        case Data => pending != []
        case End => pending == [] && !ended
        case RunJob => jobs != []
        case QueueUnrelated => true;
    }

    /** Take the step if it is enabled. */
    method TryStep(step: Step)
      requires InOrder(View())
      modifies this
      ensures View() == if Enabled(old(View()), step) then Next(store, 1, old(View()), step) else old(View())
    {
      var enabled := IsEnabled(step);
      if enabled { Perform(step); }
    }

    /** An event or job that is due. */
    method DueStep(ghost page: Database, ghost startingKey: Bytes, ghost output0: R) returns (step: Step)
      requires Inv(store, page, startingKey, output0, View()) && !resumed
      ensures Enabled(View(), step) && step != QueueUnrelated
    {
      NeverStuck(store, page, startingKey, output0, View());
      if {
        case pending != [] => step := Data;
        case pending == [] && !ended => step := End;
        case jobs != [] => step := RunJob;
      }
    }

    /**
     Wait for the page: events and jobs come in the order `schedule` asks for, then in any
     order until the awaiting function resumes.
    */
    method Await(schedule: seq<Step>)
      requires View() == Initial(pending, lastKey, output)
      modifies this
      ensures resumed
      ensures output == Fold(store, old(output), old(pending))
      ensures lastKey == KeyAfter(old(lastKey), old(pending))
      ensures exist <==> old(pending) != []
    {
      ghost var page, startingKey, output0 := pending, lastKey, output;
      InitialInv(store, page, startingKey, output0);
      var k := 0;
      while !resumed && k < |schedule|
        invariant Inv(store, page, startingKey, output0, View())
      {
        if Enabled(View(), schedule[k]) { StepKeepsInv(store, page, startingKey, output0, View(), schedule[k]); }
        TryStep(schedule[k]);
        k := k + 1;
      }
      while !resumed
        invariant Inv(store, page, startingKey, output0, View())
        decreases Measure(View())
      {
        var step := DueStep(page, startingKey, output0);
        StepKeepsInv(store, page, startingKey, output0, View(), step);
        StepDecreases(store, View(), step);
        TryStep(step);
      }
      ResumedHasAll(store, page, startingKey, output0, View());
    }
  }
}
