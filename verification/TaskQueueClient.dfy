/**
 * Reassembly of chunked task output (`task_queue_client.py`). A class holds the three dictionaries; what
 * a step does to one task is a function, and tasks do not influence one another.
 */
module TaskQueueClient {
  import opened Text

  /** A message of the output queue, with the source's defaults filled in; an empty node name means none. */
  datatype Message = Message(task: string, success: bool, output: string, isFinal: bool, chunkNum: nat, total: nat, node: string)

  datatype Row = Row(output: string, node: string)
  datatype TaskInfo = TaskInfo(processed: set<nat>, chunks: map<nat, Row>, total: nat, lastTime: int, success: bool,
                               isComplete: bool)

  datatype Payload =
    | Plain(success: bool, output: string, node: string)
    | NoValidOutput
    | Assembled(success: bool, output: string, received: nat, expected: nat, isPartial: bool, node: string)

  datatype Call = Call(payload: Payload, returned: bool)

  /** Everything the client holds about one task, and the calls its handler has received. */
  datatype TaskView = TaskView(info: Option<TaskInfo>, output: Option<Payload>, registered: bool, calls: seq<Call>)

  // ----- assembling

  /** The outputs of the chunks present among the first `n`, in order. */
  function Assemble(chunks: map<nat, Row>, n: nat): string
  {
    if n == 0 then "" else Assemble(chunks, n - 1) + if n in chunks then chunks[n].output else ""
  }

  ghost predicate IsHighest(keys: set<nat>, k: nat)
  {
    k in keys && forall j | j in keys :: j <= k
  }

  lemma HigherOf(rest: set<nat>, k: nat, x: nat)
    requires IsHighest(rest, k)
    ensures IsHighest(rest + {x}, if x > k then x else k)
  {
  }

  lemma {:induction false} HighestExists(keys: set<nat>)
    requires keys != {}
    ensures exists k :: IsHighest(keys, k)
  {
    var x :| x in keys;
    var rest := keys - {x};
    assert keys == rest + {x};
    if rest == {} {
      assert keys == {x} && IsHighest({x}, x);
    } else {
      HighestExists(rest);
      var k :| IsHighest(rest, k);
      HigherOf(rest, k, x);
    }
  }

  ghost function Highest(keys: set<nat>): (k: nat)
    requires keys != {}
    ensures k in keys && forall j | j in keys :: j <= k
  {
    HighestExists(keys);
    var k :| IsHighest(keys, k);
    k
  }

  // ----- what a step does to one task

  /** The handler, if registered, is called; it is forgotten only when it returns normally. */
  ghost function CallHandler(v: TaskView, p: Payload, handled: bool): TaskView
  {
    if v.registered then v.(calls := v.calls + [Call(p, handled)], registered := !handled) else v
  }

  ghost function AddChunk(info: TaskInfo, m: Message, now: int): TaskInfo
  {
    if m.output == "" then info.(lastTime := now)
    else info.(lastTime := now, processed := info.processed + {m.chunkNum},
               chunks := info.chunks[m.chunkNum := Row(m.output, m.node)])
  }

  ghost function FreshInfo(m: Message, now: int): TaskInfo
  {
    TaskInfo({}, map[], m.total, now, m.success, false)
  }

  ghost function FinalPayload(info: TaskInfo, m: Message): Payload
    requires info.chunks.Keys != {}
  {
    var top := info.chunks[Highest(info.chunks.Keys)];
    Assembled(m.success, Assemble(info.chunks, m.total), |info.processed|, m.total, |info.processed| < m.total,
              if top.node != "" then top.node else m.node)
  }

  ghost function ReceiveChunk(v: TaskView, m: Message, now: int, handled: bool): TaskView
    requires m.total > 1
  {
    var info := AddChunk(v.info.GetOr(FreshInfo(m, now)), m, now);
    if m.output != "" && (|info.processed| == m.total || m.isFinal) then
      assert m.chunkNum in info.chunks.Keys;
      var p := FinalPayload(info, m);
      CallHandler(v.(output := Some(p), info := None), p, handled)
    else v.(info := Some(info))
  }

  ghost function ReceivePlain(v: TaskView, m: Message, handled: bool): TaskView
  {
    if m.success && m.output != "" then
      var p := Plain(m.success, m.output, m.node);
      CallHandler(v.(output := Some(p)), p, handled)
    else CallHandler(v, NoValidOutput, handled)
  }

  ghost function Receive(v: TaskView, m: Message, now: int, handled: bool): TaskView
  {
    if m.total > 1 then ReceiveChunk(v, m, now, handled) else ReceivePlain(v, m, handled)
  }

  /** More than nine tenths of the chunks, and a minute without a new one. */
  predicate Stalled(info: TaskInfo, now: int)
  {
    !info.isComplete && now - info.lastTime > 30
    && |info.processed| * 10 > info.total * 9 && now - info.lastTime > 60
  }

  ghost function AssembledPayload(info: TaskInfo, isPartial: bool): Payload
  {
    Assembled(info.success, Assemble(info.chunks, info.total), |info.processed|, info.total, isPartial,
              if info.chunks.Keys == {} then "" else info.chunks[Highest(info.chunks.Keys)].node)
  }

  ghost function CheckStalled(v: TaskView, now: int, handled: bool): TaskView
  {
    if v.info.Some? && Stalled(v.info.value, now) then
      var p := AssembledPayload(v.info.value, true);
      CallHandler(v.(output := Some(p), info := None), p, handled)
    else v
  }

  /** A collector asking for the output: the stored one, or else an assembly when every chunk is there. */
  ghost function Fetch(v: TaskView): (Option<Payload>, TaskView)
  {
    if v.output.Some? then (v.output, v.(output := None))
    else if v.info.Some? && !v.info.value.isComplete && |v.info.value.processed| == v.info.value.total then
      (Some(AssembledPayload(v.info.value, false)), v.(info := None))
    else (None, v)
  }

  // ----- the client object

  class Client {
    var taskOutputs: map<string, Payload>
    var taskChunks: map<string, TaskInfo>
    var outputHandlers: set<string>
    ghost var calls: map<string, seq<Call>>

    /** A stored chunk is stored under a processed number, and every processed number has its chunk. */
    ghost predicate Valid()
      reads this
    {
      forall t | t in taskChunks :: taskChunks[t].processed == taskChunks[t].chunks.Keys
    }

    ghost function View(t: string): TaskView
      reads this
    {
      TaskView(if t in taskChunks then Some(taskChunks[t]) else None,
               if t in taskOutputs then Some(taskOutputs[t]) else None,
               t in outputHandlers,
               if t in calls then calls[t] else [])
    }

    constructor ()
      ensures Valid() && forall t :: View(t) == TaskView(None, None, false, [])
    {
      taskOutputs, taskChunks, outputHandlers, calls := map[], map[], {}, map[];
    }

    method Register(t: string)
      requires Valid()
      modifies this`outputHandlers
      ensures Valid() && View(t) == old(View(t)).(registered := true)
      ensures forall u | u != t :: View(u) == old(View(u))
    {
      outputHandlers := outputHandlers + {t};
    }

    /** Calls a task's handler if there is one; `handled` says whether it returns normally. */
    method Notify(t: string, p: Payload, handled: bool)
      requires Valid()
      modifies this`outputHandlers, this`calls
      ensures Valid() && View(t) == CallHandler(old(View(t)), p, handled)
      ensures forall u | u != t :: View(u) == old(View(u))
    {
      if t in outputHandlers {
        calls := calls[t := View(t).calls + [Call(p, handled)]];
        if handled {
          outputHandlers := outputHandlers - {t};
        }
      }
    }

    /** Stores a finished output, drops the chunks it came from, and tells the handler. */
    method Deliver(t: string, p: Payload, handled: bool)
      requires Valid()
      modifies this
      ensures Valid() && View(t) == CallHandler(old(View(t)).(output := Some(p), info := None), p, handled)
      ensures forall u | u != t :: View(u) == old(View(u))
      ensures taskChunks == old(taskChunks) - {t}
    {
      taskOutputs := taskOutputs[t := p];
      taskChunks := taskChunks - {t};
      Notify(t, p, handled);
    }

    method ProcessChunk(m: Message, now: int, handled: bool)
      requires Valid() && m.total > 1
      modifies this
      ensures Valid() && View(m.task) == ReceiveChunk(old(View(m.task)), m, now, handled)
      ensures forall u | u != m.task :: View(u) == old(View(u))
    {
      hide FinalPayload, CallHandler;
      var t := m.task;
      var info := if t in taskChunks then taskChunks[t] else TaskInfo({}, map[], m.total, now, m.success, false);
      info := info.(lastTime := now);
      if m.output != "" {
        info := info.(processed := info.processed + {m.chunkNum}, chunks := info.chunks[m.chunkNum := Row(m.output, m.node)]);
        var count := |info.processed|;
        if count == m.total || m.isFinal {
          assert m.chunkNum in info.chunks.Keys;
          var p := FinalFrom(info, m);
          Deliver(t, p, handled);
          return;
        }
      }
      assert info.processed == info.chunks.Keys;
      taskChunks := taskChunks[t := info];
    }

    /** One message from the queue; a message without a task id is ignored. */
    method ProcessOutput(m: Message, now: int, handled: bool)
      requires Valid()
      modifies this
      ensures Valid()
      ensures forall t :: View(t) == if t == m.task && t != "" then Receive(old(View(t)), m, now, handled) else old(View(t))
    {
      hide ReceiveChunk, CallHandler;
      var t := m.task;
      if t == "" {
        return;
      }
      if m.total > 1 {
        ProcessChunk(m, now, handled);
      } else if m.success && m.output != "" {
        var p := Plain(m.success, m.output, m.node);
        taskOutputs := taskOutputs[t := p];
        Notify(t, p, handled);
      } else {
        Notify(t, NoValidOutput, handled);
      }
    }

    method GetTaskOutput(t: string) returns (r: Option<Payload>)
      requires Valid()
      modifies this`taskOutputs, this`taskChunks
      ensures Valid() && (r, View(t)) == Fetch(old(View(t)))
      ensures forall u | u != t :: View(u) == old(View(u))
    {
      hide AssembledPayload;
      if t in taskOutputs {
        r := Some(taskOutputs[t]);
        taskOutputs := taskOutputs - {t};
      } else if t in taskChunks && !taskChunks[t].isComplete && |taskChunks[t].processed| == taskChunks[t].total {
        var info := taskChunks[t];
        var p := AssembledFrom(info, false);
        taskChunks := taskChunks - {t};
        r := Some(p);
      } else {
        r := None;
      }
    }

    /** Releases every stalled task; `failing` are the tasks whose handler raises. */
    method CheckStalledChunks(now: int, failing: set<string>)
      requires Valid()
      modifies this
      ensures Valid()
      ensures forall t :: View(t) == CheckStalled(old(View(t)), now, t !in failing)
    {
      hide Highest, Assemble, AssembledPayload, CallHandler, Stalled;
      var todo := taskChunks.Keys;
      while todo != {}
        invariant Valid() && todo <= taskChunks.Keys
        invariant forall t :: View(t) == if t in todo then old(View(t)) else CheckStalled(old(View(t)), now, t !in failing)
      {
        var t :| t in todo;
        todo := todo - {t};
        var info := taskChunks[t];
        assert View(t).info == Some(info);
        if Stalled(info, now) {
          var p := AssembledFrom(info, true);
          Deliver(t, p, t !in failing);
        }
      }
    }
  }

  method AssembleOutput(chunks: map<nat, Row>, total: nat) returns (combined: string)
    ensures combined == Assemble(chunks, total)
  {
    combined := "";
    for i := 1 to total + 1
      invariant combined == Assemble(chunks, i - 1)
    {
      if i in chunks {
        combined := combined + chunks[i].output;
      }
    }
  }

  method HighestChunk(keys: set<nat>) returns (k: nat)
    requires keys != {}
    ensures k == Highest(keys)
  {
    k :| k in keys;
    var todo := keys - {k};
    while todo != {}
      invariant k in keys && todo <= keys
      invariant forall j | j in keys && j !in todo :: j <= k
    {
      var j :| j in todo;
      if j > k {
        k := j;
      }
      todo := todo - {j};
    }
  }

  method FinalFrom(info: TaskInfo, m: Message) returns (p: Payload)
    requires info.chunks.Keys != {}
    ensures p == FinalPayload(info, m)
  {
    hide Highest, Assemble;
    var combined := AssembleOutput(info.chunks, m.total);
    var top := HighestChunk(info.chunks.Keys);
    var node := if info.chunks[top].node != "" then info.chunks[top].node else m.node;
    var count := |info.processed|;
    p := Assembled(m.success, combined, count, m.total, count < m.total, node);
  }

  method AssembledFrom(info: TaskInfo, isPartial: bool) returns (p: Payload)
    requires info.processed == info.chunks.Keys
    ensures p == AssembledPayload(info, isPartial)
  {
    var combined := AssembleOutput(info.chunks, info.total);
    var node := "";
    if info.chunks.Keys != {} {
      var top := HighestChunk(info.chunks.Keys);
      node := info.chunks[top].node;
    }
    p := Assembled(info.success, combined, |info.processed|, info.total, isPartial, node);
  }
}
