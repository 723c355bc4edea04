/**
 * The nested-job function: a block whose behaviour is a sub-flow run by a
 * job of its own. The child job is abstract state; what `run` and `destroy`
 * do to it and to the parent block is recorded as a trace of events.
 */
module NestedJob {
  import opened Wrappers
  import opened Values
  import opened Strings

  /** A saved sub-flow definition, as loaded into the child job. */
  type SavedData = map<string, Value>

  /** Execution modes of a block, as the function declares its default. */
  type Mode = string

  const DefaultMode: Mode := "always"
  const DefaultPriority: int := 1

  /** The namespace of a class name: the text before its first '/', when that slash is not leading. */
  function Namespace(className: string): (r: Option<string>)
    ensures r.Some? <==> exists k :: 0 < k < |className| && className[k] == '/' && '/' !in className[..k]
    ensures r.Some? ==> 0 < |r.value| < |className| && '/' !in r.value
                        && className[..|r.value|] == r.value && className[|r.value|] == '/'
  {
    match IndexOf(className, '/')
    case Some(k) =>
      if k > 0 then
        assert '/' !in className[..k] by {
          forall j | 0 <= j < k ensures className[..k][j] != '/' { }
        }
        Some(className[..k])
      else
        assert forall k' :: 0 < k' < |className| && className[k'] == '/' ==> '/' in className[..k'] by {
          forall k' | 0 < k' < |className| && className[k'] == '/' ensures '/' in className[..k'] {
            assert className[..k'][0] == '/';
          }
        }
        None
    case None => None
  }

  /** What `registerClass` captures for the generated class. */
  datatype JobClass = JobClass(className: string, saved: SavedData, namespace: Option<string>, mode: Mode, priority: int)

  /** `registerClass` with an explicit mode and priority. */
  function RegisterClass(className: string, data: SavedData, mode: Mode, priority: int): (c: JobClass)
    ensures c.className == className && c.saved == data && c.mode == mode && c.priority == priority
    ensures c.namespace == Namespace(className)
  {
    JobClass(className, data, Namespace(className), mode, priority)
  }

  /** `registerClass` with the defaults: mode `always`, priority 1. */
  function RegisterClassDefaults(className: string, data: SavedData): (c: JobClass)
    ensures c.mode == "always" && c.priority == 1
    ensures c.namespace == Namespace(className) && c.saved == data
  {
    RegisterClass(className, data, DefaultMode, DefaultPriority)
  }

  /** Every instance of a registered class runs its child job in the class's namespace, on the class's saved data. */
  lemma RegisteredClassRuns(className: string, data: SavedData, mode: Mode, priority: int,
                            b: BlockId, destroyed: bool, newJob: nat, hasLoop: bool)
    ensures var f := Construct(RegisterClassDefaults(className, data));
      f.mode == DefaultMode && f.priority == DefaultPriority && f.saved == data && f.nested.None?
    ensures var r := Run(Construct(RegisterClass(className, data, mode, priority)), BlockData(b, destroyed), newJob, hasLoop);
      && r.0.mode == mode && r.0.priority == priority
      && r.0.nested.Some? && r.0.nested.value.id == newJob
      && r.0.nested.value.namespace == Namespace(className)
      && Load(newJob, data) in r.1
  {
    var r := Run(Construct(RegisterClass(className, data, mode, priority)), BlockData(b, destroyed), newJob, hasLoop);
    assert r.1[2] == Load(newJob, data);
  }

  /** Class names with a leading namespace, without a slash, and with a leading slash. */
  lemma NamespaceExamples()
    ensures Namespace("math/add") == Some("math")
    ensures Namespace("add") == None
    ensures Namespace("/add") == None
  {
    assert "math/add"[4] == '/' && "math/add"[..4] == "math";
    assert '/' !in "math";
    assert "/add"[0] == '/';
    assert forall k :: 0 <= k < |"add"| ==> "add"[k] != '/';
  }

  /** The child job: its identity, namespace and the flags `run` drives. */
  datatype ChildJob = ChildJob(id: nat, namespace: Option<string>, queued: bool, hasLoop: bool, input: Option<BlockId>)

  /** A nested-job function instance. */
  datatype NestedJobState = NestedJobState(saved: SavedData, namespace: Option<string>, mode: Mode, priority: int, nested: Option<ChildJob>)

  /** Constructing the generated class: every instance copies the class's settings. */
  function Construct(c: JobClass): (f: NestedJobState)
    ensures f.saved == c.saved && f.namespace == c.namespace && f.mode == c.mode && f.priority == c.priority
    ensures f.nested.None?
  {
    NestedJobState(c.saved, c.namespace, c.mode, c.priority, None)
  }

  /** `inputChanged`: a nested job never asks to be re-run because of an input. */
  function InputChanged(input: string, v: Value): (r: bool)
    ensures !r
  {
    false
  }

  /** The function's data: a live or destroyed block, or something that is not a block. */
  datatype Data = NotBlock | BlockData(block: BlockId, destroyed: bool)

  /** The value written to the parent's `#impl`. */
  datatype Impl = ImplJob(job: nat) | ImplNull

  /** The observable steps of `run` and `destroy`, in order. */
  datatype Event =
    | SetQueued(job: nat, flag: bool)
    | SetImpl(impl: Impl)
    | Load(job: nat, saved: SavedData)
    | SetInput(job: nat, block: BlockId)
    | ScheduleLoop(job: nat)
    | RunJob(job: nat)
    | DestroyJob(job: nat)

  /** The queued flag of `job` before event `i`: the last flag set for it, false if none. */
  function QueuedBefore(trace: seq<Event>, job: nat, i: nat): bool
    requires i <= |trace|
    decreases i
  {
    if i == 0 then false
    else if trace[i - 1].SetQueued? && trace[i - 1].job == job then trace[i - 1].flag
    else QueuedBefore(trace, job, i - 1)
  }

  /** The position of the first occurrence of `e` in `trace`. */
  function Position(trace: seq<Event>, e: Event): (r: Option<nat>)
    ensures r.Some? ==> r.value < |trace| && trace[r.value] == e
    ensures r.Some? ==> e !in trace[..r.value]
    ensures r.None? <==> e !in trace
  {
    if |trace| == 0 then None
    else if trace[0] == e then Some(0)
    else
      match Position(trace[1..], e)
      case Some(k) =>
        assert trace[..k + 1] == [trace[0]] + trace[1..][..k];
        Some(k + 1)
      case None => None
  }

  /** The events of `run` for a new child job `j`; the loop is run only when the job has one. */
  function RunTrace(saved: SavedData, block: BlockId, j: nat, hasLoop: bool): seq<Event> {
    [SetQueued(j, true), SetImpl(ImplJob(j)), Load(j, saved), SetInput(j, block)]
    + (if hasLoop then [ScheduleLoop(j), RunJob(j)] else [])
    + [SetQueued(j, false)]
  }

  /**
   * `run`: on a block, a new child job `newJob` replaces `_nested`; on
   * anything else nothing happens. Whether the new job has a loop is a
   * parameter, since the job's construction is not part of the model.
   */
  function Run(f: NestedJobState, data: Data, newJob: nat, hasLoop: bool): (r: (NestedJobState, seq<Event>))
    ensures data.NotBlock? ==> r == (f, [])
    ensures data.BlockData? ==>
      && r.0 == f.(nested := Some(ChildJob(newJob, f.namespace, false, hasLoop, Some(data.block))))
      && r.1 == RunTrace(f.saved, data.block, newJob, hasLoop)
  {
    match data
    case NotBlock => (f, [])
    case BlockData(b, _) =>
      (f.(nested := Some(ChildJob(newJob, f.namespace, false, hasLoop, Some(b)))),
       RunTrace(f.saved, b, newJob, hasLoop))
  }

  /**
   * The protocol of `run`: `#impl` is set before the saved data is loaded,
   * and `#input` after; the child is queued throughout, so loading does not
   * schedule a flush of its own; its loop, if any, is scheduled and then run
   * synchronously; and the child ends unqueued.
   */
  lemma RunProtocol(saved: SavedData, block: BlockId, j: nat, hasLoop: bool)
    ensures var t := RunTrace(saved, block, j, hasLoop);
      && Position(t, SetImpl(ImplJob(j))) == Some(1)
      && Position(t, Load(j, saved)) == Some(2)
      && Position(t, SetInput(j, block)) == Some(3)
      && (forall i :: 1 <= i < |t| ==> QueuedBefore(t, j, i))
      && !QueuedBefore(t, j, |t|)
      && (hasLoop <==> RunJob(j) in t)
      && (hasLoop ==> Position(t, ScheduleLoop(j)) == Some(4) && Position(t, RunJob(j)) == Some(5))
  {
    RunOrder(saved, block, j, hasLoop);
    RunQueued(saved, block, j, hasLoop);
  }

  /** The order of the steps of `run`. */
  lemma RunOrder(saved: SavedData, block: BlockId, j: nat, hasLoop: bool)
    ensures var t := RunTrace(saved, block, j, hasLoop);
      && Position(t, SetImpl(ImplJob(j))) == Some(1)
      && Position(t, Load(j, saved)) == Some(2)
      && Position(t, SetInput(j, block)) == Some(3)
      && (hasLoop <==> RunJob(j) in t)
      && (hasLoop ==> Position(t, ScheduleLoop(j)) == Some(4) && Position(t, RunJob(j)) == Some(5))
  {
    var head := [SetQueued(j, true), SetImpl(ImplJob(j)), Load(j, saved), SetInput(j, block)];
    var tail := (if hasLoop then [ScheduleLoop(j), RunJob(j)] else []) + [SetQueued(j, false)];
    assert RunTrace(saved, block, j, hasLoop) == head + tail;
    HeadOrder(head, tail, saved, block, j);
    if hasLoop {
      LoopOrder(head, saved, block, j);
    } else {
      assert RunJob(j) !in head + tail;
    }
  }

  /** The first four steps of `run` come first, whatever follows. */
  lemma HeadOrder(head: seq<Event>, tail: seq<Event>, saved: SavedData, block: BlockId, j: nat)
    requires head == [SetQueued(j, true), SetImpl(ImplJob(j)), Load(j, saved), SetInput(j, block)]
    ensures Position(head + tail, SetImpl(ImplJob(j))) == Some(1)
    ensures Position(head + tail, Load(j, saved)) == Some(2)
    ensures Position(head + tail, SetInput(j, block)) == Some(3)
  {
    PositionInHead(head, tail, SetImpl(ImplJob(j)), 1);
    PositionInHead(head, tail, Load(j, saved), 2);
    PositionInHead(head, tail, SetInput(j, block), 3);
  }

  /** With a loop, it is scheduled fifth and run sixth. */
  lemma LoopOrder(head: seq<Event>, saved: SavedData, block: BlockId, j: nat)
    requires head == [SetQueued(j, true), SetImpl(ImplJob(j)), Load(j, saved), SetInput(j, block)]
    ensures var t := head + ([ScheduleLoop(j), RunJob(j)] + [SetQueued(j, false)]);
      Position(t, ScheduleLoop(j)) == Some(4) && Position(t, RunJob(j)) == Some(5) && RunJob(j) in t
  {
    var head6 := head + [ScheduleLoop(j), RunJob(j)];
    assert head + ([ScheduleLoop(j), RunJob(j)] + [SetQueued(j, false)]) == head6 + [SetQueued(j, false)];
    PositionInHead(head6, [SetQueued(j, false)], ScheduleLoop(j), 4);
    PositionInHead(head6, [SetQueued(j, false)], RunJob(j), 5);
  }

  /** An event first found at `k` in a prefix is first found at `k` in the whole trace. */
  lemma {:induction false} PositionInHead(head: seq<Event>, tail: seq<Event>, e: Event, k: nat)
    requires k < |head| && head[k] == e && e !in head[..k]
    ensures Position(head + tail, e) == Some(k)
    decreases k
  {
    var t := head + tail;
    if k > 0 {
      assert t[0] == head[0] && head[0] in head[..k];
      assert t[1..] == head[1..] + tail;
      assert head[1..][..k - 1] == head[..k][1..];
      PositionInHead(head[1..], tail, e, k - 1);
    }
  }

  /** The child is queued from the first step of `run` to its last. */
  lemma RunQueued(saved: SavedData, block: BlockId, j: nat, hasLoop: bool)
    ensures var t := RunTrace(saved, block, j, hasLoop);
      && (forall i :: 1 <= i < |t| ==> QueuedBefore(t, j, i))
      && !QueuedBefore(t, j, |t|)
  {
    var t := RunTrace(saved, block, j, hasLoop);
    assert t[0] == SetQueued(j, true);
    assert t[|t| - 1] == SetQueued(j, false);
    assert forall i :: 0 < i < |t| - 1 ==> !t[i].SetQueued?;
    forall i | 1 <= i < |t|
      ensures QueuedBefore(t, j, i)
    {
      QueuedThrough(t, j, i);
    }
  }

  /** With no flag set after the first event, the first event's flag persists. */
  lemma {:induction false} QueuedThrough(t: seq<Event>, j: nat, i: nat)
    requires 1 <= i < |t|
    requires t[0] == SetQueued(j, true)
    requires forall k :: 0 < k < |t| - 1 ==> !t[k].SetQueued?
    ensures QueuedBefore(t, j, i)
    decreases i
  {
    if i > 1 {
      QueuedThrough(t, j, i - 1);
    }
  }

  /**
   * `destroy`: with no child job nothing happens; otherwise `#impl` is
   * cleared when the data is a live block, the child is destroyed, and
   * `_nested` is dropped.
   */
  function Destroy(f: NestedJobState, data: Data): (r: (NestedJobState, seq<Event>))
    ensures f.nested.None? ==> r == (f, [])
    ensures r.0.nested.None? && r.0 == f.(nested := None)
    ensures f.nested.Some? ==> |r.1| == (if data.BlockData? && !data.destroyed then 2 else 1)
    ensures f.nested.Some? ==> r.1[|r.1| - 1] == DestroyJob(f.nested.value.id)
    ensures f.nested.Some? ==> (SetImpl(ImplNull) in r.1 <==> data.BlockData? && !data.destroyed)
  {
    match f.nested
    case None => (f, [])
    case Some(child) =>
      var clear := if data.BlockData? && !data.destroyed then [SetImpl(ImplNull)] else [];
      (f.(nested := None), clear + [DestroyJob(child.id)])
  }

  /** Destroying after a run destroys exactly the job the run created. */
  lemma RunThenDestroy(f: NestedJobState, b: BlockId, newJob: nat, hasLoop: bool)
    ensures var after := Run(f, BlockData(b, false), newJob, hasLoop).0;
      Destroy(after, BlockData(b, false)) == (f.(nested := None), [SetImpl(ImplNull), DestroyJob(newJob)])
  {
    assert [SetImpl(ImplNull)] + [DestroyJob(newJob)] == [SetImpl(ImplNull), DestroyJob(newJob)];
  }
}
