/** The per-conversation Telegram inbound workers of the bridge.

    One dispatcher hands every arriving message to the bounded queue of its conversation's
    worker, creating the worker when none is registered and retrying once when the registered
    one turns out to be dead. Workers handle their queue in order and retire themselves under
    the registry lock after idling. A step is one locked region or one channel operation. */
module TelegramInboundWorkers {
  import opened Sums
  import opened Sequences

  const CAPACITY := 32

  datatype Message = Message(conversationKey: string, text: string)

  /** What one worker task is doing. Its receiver is dropped once it has stopped or crashed. */
  datatype Phase = Receiving | Handling(message: Message) | TimedOut | Finishing | Stopped | Crashed

  datatype Worker = Worker(key: string, queue: seq<Message>, phase: Phase) {
    predicate Live() {
      !phase.Stopped? && !phase.Crashed?
    }

    /** The accepted messages that are not handled yet, oldest first. */
    function Pending(): seq<Message> {
      (if phase.Handling? then [phase.message] else []) + queue
    }
  }

  datatype Outcome = Accepted | QueueFull | WorkerClosed

  datatype Dispatcher =
    | Idle
    | Sending(message: Message, attempt: nat)
    | Removing(message: Message, attempt: nat, id: nat)

  /** Worker ids count from 1 in creation order, so worker `id` is `workers[id - 1]`. The last four
      fields only record what happened: every arrival, every dispatch with its outcome, every
      handled message, and the conversations that lost a worker to a crash. */
  datatype System = System(
    registry: map<string, nat>,
    workers: seq<Worker>,
    dispatcher: Dispatcher,
    arrived: seq<Message>,
    dispatched: seq<(Message, Outcome)>,
    handled: seq<Message>,
    crashed: set<string>)

  const Initial := System(map[], [], Idle, [], [], [], {})

  predicate IsId(s: System, id: nat) {
    1 <= id <= |s.workers|
  }

  function Get(s: System, id: nat): Worker
    requires IsId(s, id)
  {
    s.workers[id - 1]
  }

  function Put(s: System, id: nat, w: Worker): System
    requires IsId(s, id)
  {
    s.(workers := s.workers[id - 1 := w])
  }

  predicate IsRegistered(s: System, id: nat)
    requires IsId(s, id)
  {
    Get(s, id).key in s.registry && s.registry[Get(s, id).key] == id
  }

  /** Removes the entry of `key` when it still names worker `id`. */
  function RemoveEntry(s: System, key: string, id: nat): System {
    if key in s.registry && s.registry[key] == id then s.(registry := s.registry - {key}) else s
  }

  // ---------- the dispatcher's locked region ----------

  /** Looks the worker of `key` up, creating and registering one when there is none. */
  function FindOrSpawn(s: System, key: string): (System, nat) {
    if key in s.registry then
      (s, s.registry[key])
    else
      var id := |s.workers| + 1;
      (s.(registry := s.registry[key := id], workers := s.workers + [Worker(key, [], Receiving)]), id)
  }

  /** `try_send` on the channel of worker `id`. */
  function TrySend(s: System, id: nat, m: Message): (System, Outcome)
    requires IsId(s, id)
  {
    var w := Get(s, id);
    if !w.Live() then (s, WorkerClosed)
    else if |w.queue| >= CAPACITY then (s, QueueFull)
    else (Put(s, id, w.(queue := w.queue + [m])), Accepted)
  }

  function Conclude(s: System, m: Message, o: Outcome): System {
    s.(dispatcher := Idle, dispatched := s.dispatched + [(m, o)])
  }

  function SendLocked(s: System, m: Message, attempt: nat): System
    requires m.conversationKey in s.registry ==> IsId(s, s.registry[m.conversationKey])
  {
    var (found, id) := FindOrSpawn(s, m.conversationKey);
    var (sent, outcome) := TrySend(found, id, m);
    if outcome.WorkerClosed? then sent.(dispatcher := Removing(m, attempt, id))
    else Conclude(sent, m, outcome)
  }

  function RemoveStale(s: System, m: Message, attempt: nat, id: nat): System {
    var removed := RemoveEntry(s, m.conversationKey, id);
    if attempt == 1 then Conclude(removed, m, WorkerClosed)
    else removed.(dispatcher := Sending(m, attempt + 1))
  }

  // ---------- the workers ----------

  function Take(s: System, id: nat): System
    requires IsId(s, id) && Get(s, id).queue != []
  {
    var w := Get(s, id);
    Put(s, id, w.(queue := w.queue[1..], phase := Handling(w.queue[0])))
  }

  function Stop(s: System, id: nat): System
    requires IsId(s, id)
  {
    Put(s, id, Get(s, id).(queue := [], phase := Stopped))
  }

  /** The locked region of an idle worker: a superseded worker leaves, a late message is taken,
      and an empty queue removes the entry and ends the worker. */
  function RetireLocked(s: System, id: nat): System
    requires IsId(s, id)
  {
    if !IsRegistered(s, id) then Stop(s, id)
    else if Get(s, id).queue != [] then Take(s, id)
    else Stop(RemoveEntry(s, Get(s, id).key, id), id)
  }

  // ---------- steps and runs ----------

  datatype Step =
    | Arrive(message: Message)
    | Send
    | Remove
    | Receive(id: nat)
    | IdleTimeout(id: nat)
    | ReceiveClosed(id: nat)
    | Retire(id: nat)
    | FinishHandling(id: nat)
    | Deregister(id: nat)
    | Crash(id: nat)

  predicate IsWorkerStep(step: Step) {
    !step.Arrive? && !step.Send? && !step.Remove?
  }

  predicate Enabled(s: System, step: Step) {
    match step
    case Arrive(m) => s.dispatcher.Idle?
    case Send => s.dispatcher.Sending?
                 && (s.dispatcher.message.conversationKey in s.registry ==>
                       IsId(s, s.registry[s.dispatcher.message.conversationKey]))
    case Remove => s.dispatcher.Removing?
    case Receive(id) => IsId(s, id) && Get(s, id).phase == Receiving && Get(s, id).queue != []
    case IdleTimeout(id) => IsId(s, id) && Get(s, id).phase == Receiving
    case ReceiveClosed(id) =>
      IsId(s, id) && Get(s, id).phase == Receiving && Get(s, id).queue == [] && !IsRegistered(s, id)
    case Retire(id) => IsId(s, id) && Get(s, id).phase == TimedOut
    case FinishHandling(id) => IsId(s, id) && Get(s, id).phase.Handling?
    case Deregister(id) => IsId(s, id) && Get(s, id).phase == Finishing
    case Crash(id) => IsId(s, id) && Get(s, id).Live()
  }

  function Next(s: System, step: Step): System
    requires Enabled(s, step)
  {
    match step
    case Arrive(m) => s.(dispatcher := Sending(m, 0), arrived := s.arrived + [m])
    case Send => SendLocked(s, s.dispatcher.message, s.dispatcher.attempt)
    case Remove => RemoveStale(s, s.dispatcher.message, s.dispatcher.attempt, s.dispatcher.id)
    case Receive(id) => Take(s, id)
    case IdleTimeout(id) => Put(s, id, Get(s, id).(phase := TimedOut))
    case ReceiveClosed(id) => Put(s, id, Get(s, id).(phase := Finishing))
    case Retire(id) => RetireLocked(s, id)
    case FinishHandling(id) =>
      Put(s, id, Get(s, id).(phase := Receiving)).(handled := s.handled + [Get(s, id).phase.message])
    case Deregister(id) => Stop(RemoveEntry(s, Get(s, id).key, id), id)
    case Crash(id) =>
      Put(s, id, Get(s, id).(queue := [], phase := Crashed)).(crashed := s.crashed + {Get(s, id).key})
  }

  predicate IsRun(s: System, run: seq<Step>)
    decreases |run|
  {
    run == [] || (Enabled(s, run[0]) && IsRun(Next(s, run[0]), run[1..]))
  }

  function Exec(s: System, run: seq<Step>): System
    requires IsRun(s, run)
    decreases |run|
  {
    if run == [] then s else Exec(Next(s, run[0]), run[1..])
  }

  // ---------- what happened, per conversation ----------

  function AcceptedFor(log: seq<(Message, Outcome)>, key: string): seq<Message> {
    if log == [] then []
    else
      var (m, o) := log[|log| - 1];
      AcceptedFor(log[..|log| - 1], key) + (if o.Accepted? && m.conversationKey == key then [m] else [])
  }

  function HandledFor(log: seq<Message>, key: string): seq<Message> {
    if log == [] then []
    else
      var m := log[|log| - 1];
      HandledFor(log[..|log| - 1], key) + (if m.conversationKey == key then [m] else [])
  }

  lemma AcceptedAppend(log: seq<(Message, Outcome)>, m: Message, o: Outcome, key: string)
    ensures AcceptedFor(log + [(m, o)], key)
            == AcceptedFor(log, key) + (if o.Accepted? && m.conversationKey == key then [m] else [])
  {
    assert (log + [(m, o)])[..|log|] == log;
  }

  lemma HandledAppend(log: seq<Message>, m: Message, key: string)
    ensures HandledFor(log + [m], key) == HandledFor(log, key) + (if m.conversationKey == key then [m] else [])
  {
    assert (log + [m])[..|log|] == log;
  }

  function PendingIn(registry: map<string, nat>, workers: seq<Worker>, key: string): seq<Message> {
    if key in registry && 1 <= registry[key] <= |workers| then workers[registry[key] - 1].Pending() else []
  }

  /** What the registered worker of `key` has accepted but not finished. */
  function PendingFor(s: System, key: string): seq<Message> {
    PendingIn(s.registry, s.workers, key)
  }

  /** `a` arises from `b` by leaving messages out. */
  ghost predicate Subsequence(a: seq<Message>, b: seq<Message>)
    decreases |b|
  {
    if a == [] then true
    else if b == [] then false
    else if a[|a| - 1] == b[|b| - 1] && Subsequence(a[..|a| - 1], b[..|b| - 1]) then true
    else Subsequence(a, b[..|b| - 1])
  }

  lemma SubsequenceAppend(a: seq<Message>, b: seq<Message>, m: Message)
    requires Subsequence(a, b)
    ensures Subsequence(a + [m], b + [m])
  {
    assert (a + [m])[..|a|] == a && (b + [m])[..|b|] == b;
  }

  lemma SubsequenceWeaken(a: seq<Message>, b: seq<Message>, b': seq<Message>)
    requires b != [] && b' == b[..|b| - 1] && Subsequence(a, b')
    ensures Subsequence(a, b)
  {
  }

  lemma {:induction false} SubsequenceInit(a: seq<Message>, b: seq<Message>)
    requires Subsequence(a, b) && a != []
    ensures Subsequence(a[..|a| - 1], b)
    decreases |b|
  {
    var b' := b[..|b| - 1];
    if a[|a| - 1] == b[|b| - 1] && Subsequence(a[..|a| - 1], b') {
      SubsequenceWeaken(a[..|a| - 1], b, b');
    } else {
      SubsequenceInit(a, b');
      SubsequenceWeaken(a[..|a| - 1], b, b');
    }
  }

  lemma {:induction false} SubsequencePrefix(a: seq<Message>, dropped: seq<Message>, b: seq<Message>)
    requires Subsequence(a + dropped, b)
    ensures Subsequence(a, b)
    decreases |dropped|
  {
    if dropped == [] {
      assert a + dropped == a;
    } else {
      SubsequenceInit(a + dropped, b);
      assert (a + dropped)[..|a + dropped| - 1] == a + dropped[..|dropped| - 1];
      SubsequencePrefix(a, dropped[..|dropped| - 1], b);
    }
  }

  // ---------- the invariant ----------

  /** An entry names a worker of its conversation; a dead one has crashed. */
  ghost predicate EntryOk(s: System, key: string) {
    key in s.registry ==>
      && IsId(s, s.registry[key])
      && Get(s, s.registry[key]).key == key
      && (Get(s, s.registry[key]).Live() || (Get(s, s.registry[key]).phase.Crashed? && key in s.crashed))
  }

  /** A live worker is the registered one of its conversation and holds messages of that conversation,
      at most `CAPACITY` of them queued; a dead one holds none. */
  ghost predicate WorkerOk(s: System, id: nat) {
    IsId(s, id) ==>
      var w := Get(s, id);
      && (if w.Live() then IsRegistered(s, id) else w.queue == [])
      && |w.queue| <= CAPACITY
      && w.phase != Finishing
      && (w.phase.Handling? ==> w.phase.message.conversationKey == w.key)
      && forall i :: 0 <= i < |w.queue| ==> w.queue[i].conversationKey == w.key
  }

  ghost predicate RegistryInv(s: System) {
    forall key :: EntryOk(s, key)
  }

  ghost predicate WorkersInv(s: System) {
    forall id :: WorkerOk(s, id)
  }

  /** The dispatcher sends at most twice, and the second time nobody is registered. */
  ghost predicate DispatcherInv(s: System) {
    match s.dispatcher
    case Idle => true
    case Sending(m, attempt) => attempt == 0 || (attempt == 1 && m.conversationKey !in s.registry)
    case Removing(m, attempt, id) =>
      attempt == 0 && IsId(s, id) && Get(s, id).phase.Crashed?
      && m.conversationKey in s.registry && s.registry[m.conversationKey] == id
  }

  ghost predicate Balanced(s: System, key: string) {
    && Subsequence(HandledFor(s.handled, key) + PendingFor(s, key), AcceptedFor(s.dispatched, key))
    && (key !in s.crashed ==>
          AcceptedFor(s.dispatched, key) == HandledFor(s.handled, key) + PendingFor(s, key))
  }

  function Messages(log: seq<(Message, Outcome)>): seq<Message> {
    seq(|log|, i requires 0 <= i < |log| => log[i].0)
  }

  function Current(d: Dispatcher): seq<Message> {
    if d.Idle? then [] else [d.message]
  }

  ghost predicate DispatchLogInv(s: System) {
    && s.arrived == Messages(s.dispatched) + Current(s.dispatcher)
    && (forall i :: 0 <= i < |s.dispatched| ==> s.dispatched[i].1 != WorkerClosed)
  }

  ghost predicate Inv(s: System) {
    && RegistryInv(s) && WorkersInv(s) && DispatcherInv(s) && DispatchLogInv(s)
    && forall key :: Balanced(s, key)
  }

  /** The worker a step is about; 0 when there is none yet. */
  function Subject(s: System, step: Step): nat {
    match step
    case Arrive(_) => 0
    case Send =>
      if s.dispatcher.Sending? then FindOrSpawn(s, s.dispatcher.message.conversationKey).1 else 0
    case Remove => 0
    case _ => step.id
  }

  lemma OtherWorkersUntouched(s: System, step: Step, id: nat)
    requires Enabled(s, step) && IsId(Next(s, step), id) && id != Subject(s, step)
    ensures IsId(s, id) && Get(Next(s, step), id) == Get(s, id)
  {
  }

  /** The conversation a step is about. */
  function SubjectKey(s: System, step: Step): string
    requires Enabled(s, step)
  {
    match step
    case Arrive(m) => m.conversationKey
    case Send => s.dispatcher.message.conversationKey
    case Remove => s.dispatcher.message.conversationKey
    case _ => Get(s, step.id).key
  }

  lemma EntryOkStep(s: System, step: Step, key: string)
    requires Enabled(s, step) && DispatcherInv(s)
    requires EntryOk(s, key) && EntryOk(s, SubjectKey(s, step)) && WorkerOk(s, Subject(s, step))
    ensures EntryOk(Next(s, step), key)
  {
  }

  lemma WorkerOkStep(s: System, step: Step, id: nat)
    requires Enabled(s, step) && DispatcherInv(s)
    requires EntryOk(s, SubjectKey(s, step)) && WorkerOk(s, Subject(s, step)) && WorkerOk(s, id)
    ensures WorkerOk(Next(s, step), id)
  {
    if IsId(Next(s, step), id) && id != Subject(s, step) {
      OtherWorkersUntouched(s, step, id);
    }
  }

  lemma DispatcherInvStep(s: System, step: Step)
    requires Enabled(s, step) && DispatcherInv(s)
    requires EntryOk(s, SubjectKey(s, step)) && WorkerOk(s, Subject(s, step))
    ensures DispatcherInv(Next(s, step))
  {
  }

  lemma DispatchLogInvStep(s: System, step: Step)
    requires DispatcherInv(s) && DispatchLogInv(s) && Enabled(s, step)
    ensures DispatchLogInv(Next(s, step))
  {
  }

  // ---------- how a step moves the messages of one conversation ----------

  lemma TakeKeepsPending(s: System, id: nat, key: string)
    requires IsId(s, id) && Get(s, id).queue != [] && !Get(s, id).phase.Handling?
    ensures PendingFor(Take(s, id), key) == PendingFor(s, key)
  {
    var w := Get(s, id);
    assert [w.queue[0]] + w.queue[1..] == w.queue;
  }

  lemma RetireKeepsPending(s: System, id: nat, key: string)
    requires Enabled(s, Retire(id)) && EntryOk(s, key) && WorkerOk(s, id)
    ensures PendingFor(RetireLocked(s, id), key) == PendingFor(s, key)
  {
    if Get(s, id).queue != [] {
      TakeKeepsPending(s, id, key);
    }
  }

  lemma QuietStepKeepsPending(s: System, step: Step, key: string)
    requires Enabled(s, step) && DispatcherInv(s)
    requires EntryOk(s, key) && EntryOk(s, SubjectKey(s, step)) && WorkerOk(s, Subject(s, step))
    requires step.Remove? ==> WorkerOk(s, s.dispatcher.id)
    requires !step.Send? && !step.FinishHandling? && !step.Crash?
    ensures PendingFor(Next(s, step), key) == PendingFor(s, key)
  {
    match step
    case Receive(id) => TakeKeepsPending(s, id, key);
    case Retire(id) => RetireKeepsPending(s, id, key);
    case _ =>
  }

  lemma FindOrSpawnKeepsPending(s: System, sought: string, key: string)
    requires EntryOk(s, key) && EntryOk(s, sought)
    ensures var (found, id) := FindOrSpawn(s, sought);
            && PendingFor(found, key) == PendingFor(s, key)
            && IsId(found, id) && Get(found, id).key == sought && IsRegistered(found, id)
            && (key in found.registry ==>
                  IsId(found, found.registry[key]) && Get(found, found.registry[key]).key == key)
  {
  }

  lemma TrySendAppendsPending(s: System, id: nat, m: Message, key: string)
    requires IsId(s, id) && IsRegistered(s, id) && Get(s, id).key == m.conversationKey
    requires key in s.registry ==> IsId(s, s.registry[key]) && Get(s, s.registry[key]).key == key
    ensures var (sent, o) := TrySend(s, id, m);
            PendingFor(sent, key) == PendingFor(s, key) + (if o.Accepted? && m.conversationKey == key then [m] else [])
  {
    var w := Get(s, id);
    var (sent, o) := TrySend(s, id, m);
    if o.Accepted? && m.conversationKey == key {
      assert w.(queue := w.queue + [m]).Pending() == w.Pending() + [m];
    }
  }

  function SendResult(s: System): Outcome
    requires Enabled(s, Send)
  {
    var (found, id) := FindOrSpawn(s, s.dispatcher.message.conversationKey);
    TrySend(found, id, s.dispatcher.message).1
  }

  lemma SendAppendsPending(s: System, key: string)
    requires Enabled(s, Send) && EntryOk(s, key) && EntryOk(s, s.dispatcher.message.conversationKey)
    ensures var s' := Next(s, Send); var m := s.dispatcher.message; var o := SendResult(s);
            PendingFor(s', key) == PendingFor(s, key) + (if o.Accepted? && m.conversationKey == key then [m] else [])
  {
    var m := s.dispatcher.message;
    var (found, id) := FindOrSpawn(s, m.conversationKey);
    FindOrSpawnKeepsPending(s, m.conversationKey, key);
    TrySendAppendsPending(found, id, m, key);
  }

  lemma SendLogs(s: System)
    requires Enabled(s, Send)
    ensures var s' := Next(s, Send); var o := SendResult(s);
            && s'.dispatched == s.dispatched + (if o.WorkerClosed? then [] else [(s.dispatcher.message, o)])
            && s'.handled == s.handled && s'.crashed == s.crashed
  {
  }

  lemma FinishTakesFirstPending(s: System, id: nat, key: string)
    requires Enabled(s, FinishHandling(id)) && EntryOk(s, key) && WorkerOk(s, id)
    ensures var m := Get(s, id).phase.message;
            PendingFor(s, key)
            == (if m.conversationKey == key then [m] else []) + PendingFor(Next(s, FinishHandling(id)), key)
  {
    var w := Get(s, id);
    if w.key == key {
      assert w.Pending() == [w.phase.message] + w.(phase := Receiving).Pending();
    }
  }

  lemma SubsequenceGrows(h: seq<Message>, p: seq<Message>, a: seq<Message>, d: seq<Message>)
    requires Subsequence(h + p, a) && |d| <= 1
    ensures Subsequence(h + (p + d), a + d)
    ensures a == h + p ==> a + d == h + (p + d)
  {
    assert h + (p + d) == (h + p) + d;
    if d == [] {
      assert (h + p) + d == h + p && a + d == a;
    } else {
      assert d == [d[0]];
      SubsequenceAppend(h + p, a, d[0]);
    }
  }

  lemma BalancedGrows(s: System, s': System, key: string, d: seq<Message>)
    requires Balanced(s, key) && |d| <= 1
    requires s'.handled == s.handled && s'.crashed == s.crashed
    requires PendingFor(s', key) == PendingFor(s, key) + d
    requires AcceptedFor(s'.dispatched, key) == AcceptedFor(s.dispatched, key) + d
    ensures Balanced(s', key)
  {
    SubsequenceGrows(HandledFor(s.handled, key), PendingFor(s, key), AcceptedFor(s.dispatched, key), d);
  }

  lemma BalancedSend(s: System, key: string)
    requires Enabled(s, Send) && EntryOk(s, key) && EntryOk(s, s.dispatcher.message.conversationKey) && Balanced(s, key)
    ensures Balanced(Next(s, Send), key)
  {
    var m, o := s.dispatcher.message, SendResult(s);
    SendAppendsPending(s, key);
    SendLogs(s);
    if o.WorkerClosed? {
      assert AcceptedFor(s.dispatched + [], key) == AcceptedFor(s.dispatched, key) + [] by {
        assert s.dispatched + [] == s.dispatched;
      }
      BalancedGrows(s, Next(s, Send), key, []);
    } else {
      AcceptedAppend(s.dispatched, m, o, key);
      BalancedGrows(s, Next(s, Send), key, if o.Accepted? && m.conversationKey == key then [m] else []);
    }
  }

  lemma BalancedFinish(s: System, id: nat, key: string)
    requires Enabled(s, FinishHandling(id)) && EntryOk(s, key) && WorkerOk(s, id) && Balanced(s, key)
    ensures Balanced(Next(s, FinishHandling(id)), key)
  {
    var s' := Next(s, FinishHandling(id));
    var m := Get(s, id).phase.message;
    FinishTakesFirstPending(s, id, key);
    HandledAppend(s.handled, m, key);
    Regroup(HandledFor(s.handled, key), if m.conversationKey == key then [m] else [], PendingFor(s', key));
    assert s'.dispatched == s.dispatched && s'.crashed == s.crashed;
  }

  lemma BalancedCrash(s: System, id: nat, key: string)
    requires Enabled(s, Crash(id)) && EntryOk(s, key) && WorkerOk(s, id) && Balanced(s, key)
    ensures Balanced(Next(s, Crash(id)), key)
  {
    var s' := Next(s, Crash(id));
    if Get(s, id).key == key {
      SubsequencePrefix(HandledFor(s.handled, key), PendingFor(s, key), AcceptedFor(s.dispatched, key));
      assert HandledFor(s'.handled, key) + PendingFor(s', key) == HandledFor(s.handled, key);
    } else {
      assert PendingFor(s', key) == PendingFor(s, key);
    }
  }

  lemma LogsQuiet(s: System, step: Step)
    requires DispatcherInv(s) && Enabled(s, step)
    requires !step.Send? && !step.FinishHandling? && !step.Crash?
    ensures var s' := Next(s, step);
            s'.dispatched == s.dispatched && s'.handled == s.handled && s'.crashed == s.crashed
  {
  }

  lemma BalancedStep(s: System, step: Step, key: string)
    requires RegistryInv(s) && WorkersInv(s) && DispatcherInv(s)
    requires Balanced(s, key) && Enabled(s, step)
    ensures Balanced(Next(s, step), key)
  {
    assert EntryOk(s, key) && EntryOk(s, SubjectKey(s, step)) && WorkerOk(s, Subject(s, step));
    match step
    case Send => BalancedSend(s, key);
    case FinishHandling(id) => BalancedFinish(s, id, key);
    case Crash(id) => BalancedCrash(s, id, key);
    case Remove =>
      assert WorkerOk(s, s.dispatcher.id);
      QuietStepKeepsPending(s, step, key);
      LogsQuiet(s, step);
    case _ =>
      QuietStepKeepsPending(s, step, key);
      LogsQuiet(s, step);
  }

  lemma InvStep(s: System, step: Step)
    requires Inv(s) && Enabled(s, step)
    ensures Inv(Next(s, step))
  {
    assert EntryOk(s, SubjectKey(s, step)) && WorkerOk(s, Subject(s, step));
    forall key ensures EntryOk(Next(s, step), key) {
      assert EntryOk(s, key);
      EntryOkStep(s, step, key);
    }
    forall id ensures WorkerOk(Next(s, step), id) {
      assert WorkerOk(s, id);
      WorkerOkStep(s, step, id);
    }
    DispatcherInvStep(s, step);
    DispatchLogInvStep(s, step);
    forall key ensures Balanced(Next(s, step), key) {
      BalancedStep(s, step, key);
    }
  }

  lemma {:induction false} InvRun(s: System, run: seq<Step>)
    requires Inv(s) && IsRun(s, run)
    ensures Inv(Exec(s, run))
    decreases |run|
  {
    if run != [] {
      InvStep(s, run[0]);
      InvRun(Next(s, run[0]), run[1..]);
    }
  }

  // ---------- the promises ----------

  ghost predicate Reachable(s: System) {
    exists run :: IsRun(Initial, run) && Exec(Initial, run) == s
  }

  lemma ReachableInv(s: System)
    requires Reachable(s)
    ensures Inv(s)
  {
    var run :| IsRun(Initial, run) && Exec(Initial, run) == s;
    InvRun(Initial, run);
  }

  /** First in, first out, exactly once: for a conversation without a crash the accepted messages are
      the handled ones, then the one in progress, then the queue, in that order, over any number
      of worker generations. */
  lemma HandledInOrderExactlyOnce(s: System, key: string)
    requires Reachable(s) && key !in s.crashed
    ensures AcceptedFor(s.dispatched, key) == HandledFor(s.handled, key) + PendingFor(s, key)
  {
    ReachableInv(s);
    assert Balanced(s, key);
  }

  /** With crashes messages may be lost, but never reordered or repeated. */
  lemma CrashesOnlyLose(s: System, key: string)
    requires Reachable(s)
    ensures Subsequence(HandledFor(s.handled, key) + PendingFor(s, key), AcceptedFor(s.dispatched, key))
  {
    ReachableInv(s);
    assert Balanced(s, key);
  }

  /** At most one worker of a conversation is alive, across all worker generations. */
  lemma OneLiveWorkerPerConversation(s: System, id1: nat, id2: nat)
    requires Reachable(s) && IsId(s, id1) && IsId(s, id2)
    requires Get(s, id1).Live() && Get(s, id2).Live() && Get(s, id1).key == Get(s, id2).key
    ensures id1 == id2
  {
    ReachableInv(s);
    assert WorkerOk(s, id1) && WorkerOk(s, id2);
  }

  /** An idle worker ends only with an empty queue and leaves the registry as it ends;
      a message that arrived meanwhile is handled instead. */
  lemma RetiresOnlyWhenEmpty(s: System, id: nat)
    requires Reachable(s) && Enabled(s, Retire(id))
    ensures var s' := Next(s, Retire(id));
            if Get(s, id).queue == [] then
              Get(s', id).phase == Stopped && Get(s, id).key !in s'.registry
            else
              Get(s', id).phase == Handling(Get(s, id).queue[0]) && s'.registry == s.registry
  {
    ReachableInv(s);
    assert WorkerOk(s, id);
  }

  /** A dispatch ends accepted, or rejected because the queue of the live worker holds 32 messages,
      or retries once after a crash; the retry is always accepted. */
  lemma SendOutcome(s: System)
    requires Reachable(s) && s.dispatcher.Sending?
    ensures Enabled(s, Send)
    ensures var s' := Next(s, Send); var m := s.dispatcher.message; var key := m.conversationKey;
            if key in s.registry && !Get(s, s.registry[key]).Live() then
              s.dispatcher.attempt == 0 && s'.dispatcher == Removing(m, 0, s.registry[key])
            else
              s'.dispatcher == Idle
              && s'.dispatched == s.dispatched + [(m, if key in s.registry
                                                   && |Get(s, s.registry[key]).queue| == CAPACITY
                                                      then QueueFull else Accepted)]
    ensures s.dispatcher.attempt != 0 ==> Next(s, Send).dispatched == s.dispatched + [(s.dispatcher.message, Accepted)]
  {
    ReachableInv(s);
    assert EntryOk(s, s.dispatcher.message.conversationKey);
    assert WorkerOk(s, FindOrSpawn(s, s.dispatcher.message.conversationKey).1);
  }

  /** Every arrival is dispatched once, in arrival order, and never ends in the
      `telegram_inbound_worker_closed` error. */
  lemma EveryArrivalConcluded(s: System)
    requires Reachable(s) && s.dispatcher.Idle?
    ensures s.arrived == Messages(s.dispatched)
    ensures forall i :: 0 <= i < |s.dispatched| ==> s.dispatched[i].1 == Accepted || s.dispatched[i].1 == QueueFull
  {
    ReachableInv(s);
    assert Messages(s.dispatched) + [] == Messages(s.dispatched);
    forall i | 0 <= i < |s.dispatched| ensures s.dispatched[i].1 == Accepted || s.dispatched[i].1 == QueueFull {
      assert s.dispatched[i].1 != WorkerClosed;
    }
  }

  // ---------- the queues drain ----------

  function PhaseRank(p: Phase): nat {
    match p
    case Receiving => 2
    case Handling(_) => 5
    case TimedOut => 1
    case Finishing => 1
    case Stopped => 0
    case Crashed => 0
  }

  function WorkerRank(w: Worker): nat {
    PhaseRank(w.phase) + 5 * |w.queue|
  }

  predicate OnlyWorkers(run: seq<Step>) {
    forall i :: 0 <= i < |run| ==> IsWorkerStep(run[i])
  }

  lemma WorkerStepDecreases(s: System, step: Step)
    requires Enabled(s, step) && IsWorkerStep(step)
    ensures Total(Next(s, step).workers, WorkerRank) < Total(s.workers, WorkerRank)
  {
    var s' := Next(s, step);
    var w' := s'.workers[step.id - 1];
    assert s'.workers == s.workers[step.id - 1 := w'];
    TotalUpdate(s.workers, step.id - 1, w', WorkerRank);
  }

  lemma {:induction false} WorkerRunBounded(s: System, run: seq<Step>)
    requires IsRun(s, run) && OnlyWorkers(run)
    ensures |run| + Total(Exec(s, run).workers, WorkerRank) <= Total(s.workers, WorkerRank)
    decreases |run|
  {
    if run != [] {
      assert IsWorkerStep(run[0]);
      WorkerStepDecreases(s, run[0]);
      assert forall i :: 0 <= i < |run[1..]| ==> run[1..][i] == run[i + 1];
      WorkerRunBounded(Next(s, run[0]), run[1..]);
    }
  }

  ghost predicate Quiescent(s: System) {
    forall step :: IsWorkerStep(step) && !step.Crash? ==> !Enabled(s, step)
  }

  lemma LiveWorkerCanStep(s: System, id: nat) returns (step: Step)
    requires WorkerOk(s, id) && IsId(s, id) && Get(s, id).Live()
    ensures Enabled(s, step) && IsWorkerStep(step) && !step.Crash?
  {
    var phase := Get(s, id).phase;
    step := if phase.Receiving? then IdleTimeout(id) else if phase.TimedOut? then Retire(id) else FinishHandling(id);
  }

  lemma QuiescentMeansUnregistered(s: System, key: string)
    requires RegistryInv(s) && WorkersInv(s) && Quiescent(s) && key !in s.crashed
    ensures key !in s.registry
  {
    assert EntryOk(s, key);
    if key in s.registry {
      assert WorkerOk(s, s.registry[key]);
      var step := LiveWorkerCanStep(s, s.registry[key]);
      assert false;
    }
  }

  /** When no message arrives any more, the workers take boundedly many steps in any order, and once
      none can step, every accepted message of a conversation without a crash has been handled
      and its worker is gone. */
  lemma QueuesDrain(s: System, run: seq<Step>, key: string)
    requires Reachable(s) && IsRun(s, run) && OnlyWorkers(run)
    ensures |run| <= Total(s.workers, WorkerRank)
    ensures var last := Exec(s, run);
            Quiescent(last) && key !in last.crashed ==>
              HandledFor(last.handled, key) == AcceptedFor(last.dispatched, key) && key !in last.registry
  {
    ReachableInv(s);
    InvRun(s, run);
    WorkerRunBounded(s, run);
    var last := Exec(s, run);
    if Quiescent(last) && key !in last.crashed {
      QuiescentMeansUnregistered(last, key);
      assert Balanced(last, key) && PendingFor(last, key) == [];
    }
  }

  // ---------- the registry, the workers and the dispatch loop ----------

  lemma {:induction false} RunSnoc(s: System, run: seq<Step>, step: Step)
    requires IsRun(s, run) && Enabled(Exec(s, run), step)
    ensures IsRun(s, run + [step]) && Exec(s, run + [step]) == Next(Exec(s, run), step)
    decreases |run|
  {
    if run == [] {
      assert [] + [step] == [step];
      assert IsRun(Next(s, step), [step][1..]);
    } else {
      RunSnoc(Next(s, run[0]), run[1..], step);
      assert (run + [step])[1..] == run[1..] + [step];
    }
  }

  lemma ReachableStep(s: System, step: Step)
    requires Reachable(s) && Enabled(s, step)
    ensures Reachable(Next(s, step))
  {
    var run :| IsRun(Initial, run) && Exec(Initial, run) == s;
    RunSnoc(Initial, run, step);
  }

  class Bridge {
    var registry: map<string, nat>
    var workers: seq<Worker>
    ghost var dispatcher: Dispatcher
    ghost var arrived: seq<Message>
    ghost var dispatched: seq<(Message, Outcome)>
    ghost var handled: seq<Message>
    ghost var crashed: set<string>

    ghost function View(): System
      reads this
    {
      System(registry, workers, dispatcher, arrived, dispatched, handled, crashed)
    }

    constructor ()
      ensures View() == Initial && Reachable(View())
    {
      registry, workers, dispatcher := map[], [], Idle;
      arrived, dispatched, handled, crashed := [], [], [], {};
      new;
      assert IsRun(Initial, []) && Exec(Initial, []) == Initial;
    }

    /** The locked region of one attempt: find or create the worker, then `try_send`. */
    method SendLocked(message: Message, ghost attempt: nat) returns (outcome: Outcome, id: nat)
      requires dispatcher == Sending(message, attempt) && Enabled(View(), Send)
      modifies this
      ensures View() == Next(old(View()), Send)
      ensures outcome == SendResult(old(View()))
      ensures outcome.WorkerClosed? ==> dispatcher == Removing(message, attempt, id)
      ensures !outcome.WorkerClosed? ==> dispatcher == Idle
    {
      var key := message.conversationKey;
      if key in registry {
        id := registry[key];
      } else {
        id := |workers| + 1;
        registry := registry[key := id];
        workers := workers + [Worker(key, [], Receiving)];
      }
      var w := workers[id - 1];
      if !w.Live() {
        outcome := WorkerClosed;
        dispatcher := Removing(message, attempt, id);
      } else {
        if |w.queue| >= CAPACITY {
          outcome := QueueFull;
        } else {
          workers := workers[id - 1 := w.(queue := w.queue + [message])];
          outcome := Accepted;
        }
        dispatcher, dispatched := Idle, dispatched + [(message, outcome)];
      }
    }

    method RemoveIfCurrent(key: string, id: nat)
      modifies this`registry
      ensures View() == RemoveEntry(old(View()), key, id)
    {
      if key in registry && registry[key] == id {
        registry := registry - {key};
      }
    }

    method StopWorker(id: nat)
      requires IsId(View(), id)
      modifies this`workers
      ensures View() == Stop(old(View()), id)
    {
      workers := workers[id - 1 := workers[id - 1].(queue := [], phase := Stopped)];
    }

    method TakeNext(id: nat)
      requires IsId(View(), id) && workers[id - 1].queue != []
      modifies this`workers
      ensures View() == Take(old(View()), id)
    {
      var w := workers[id - 1];
      workers := workers[id - 1 := w.(queue := w.queue[1..], phase := Handling(w.queue[0]))];
    }

    /** The locked region of an idle worker. */
    method RetireIdle(id: nat)
      requires Enabled(View(), Retire(id))
      modifies this`workers, this`registry
      ensures View() == Next(old(View()), Retire(id))
    {
      var w := workers[id - 1];
      if !(w.key in registry && registry[w.key] == id) {
        StopWorker(id);
      } else if w.queue != [] {
        TakeNext(id);
      } else {
        RemoveIfCurrent(w.key, id);
        StopWorker(id);
      }
    }

    /** One step of one worker, when it is enabled; worker tasks run at any time. */
    method WorkerTurn(step: Step)
      requires Reachable(View()) && IsWorkerStep(step)
      modifies this
      ensures Reachable(View())
      ensures View() == if Enabled(old(View()), step) then Next(old(View()), step) else old(View())
    {
      ghost var before := View();
      var id := step.id;
      if 1 <= id <= |workers| {
        var w := workers[id - 1];
        var registered := w.key in registry && registry[w.key] == id;
        match step {
          case Receive(_) =>
            if w.phase == Receiving && w.queue != [] {
              TakeNext(id);
            }
          case IdleTimeout(_) =>
            if w.phase == Receiving {
              workers := workers[id - 1 := w.(phase := TimedOut)];
            }
          case ReceiveClosed(_) =>
            if w.phase == Receiving && w.queue == [] && !registered {
              workers := workers[id - 1 := w.(phase := Finishing)];
            }
          case Retire(_) =>
            if w.phase == TimedOut {
              RetireIdle(id);
            }
          case FinishHandling(_) =>
            if w.phase.Handling? {
              workers := workers[id - 1 := w.(phase := Receiving)];
              handled := handled + [w.phase.message];
            }
          case Deregister(_) =>
            if w.phase == Finishing {
              RemoveIfCurrent(w.key, id);
              StopWorker(id);
            }
          case Crash(_) =>
            if w.Live() {
              workers := workers[id - 1 := w.(queue := [], phase := Crashed)];
              crashed := crashed + {w.key};
            }
        }
      }
      if Enabled(before, step) {
        ReachableStep(before, step);
      }
    }

    /** Any number of worker steps, in any order. */
    method RunWorkers(schedule: seq<Step>)
      requires Reachable(View()) && OnlyWorkers(schedule)
      modifies this
      ensures Reachable(View()) && dispatcher == old(dispatcher)
      ensures arrived == old(arrived) && dispatched == old(dispatched)
    {
      for i := 0 to |schedule|
        invariant Reachable(View()) && dispatcher == old(dispatcher)
        invariant arrived == old(arrived) && dispatched == old(dispatched)
      {
        WorkerTurn(schedule[i]);
      }
    }

    /** One attempt, with whatever the workers do before it. Only the first one can find a dead worker. */
    method AttemptSend(message: Message, attempt: nat, before: seq<Step>) returns (outcome: Outcome, id: nat)
      requires Reachable(View()) && dispatcher == Sending(message, attempt) && OnlyWorkers(before)
      modifies this
      ensures Reachable(View()) && arrived == old(arrived)
      ensures if outcome == WorkerClosed then dispatcher == Removing(message, attempt, id)
              && dispatched == old(dispatched)
              else dispatcher == Idle && dispatched == old(dispatched) + [(message, outcome)]
    {
      RunWorkers(before);
      SendOutcome(View());
      ReachableStep(View(), Send);
      outcome, id := SendLocked(message, attempt);
    }

    /** The removal of a dead worker's entry, with whatever the workers do meanwhile. */
    method RemoveDead(message: Message, ghost attempt: nat, id: nat, meanwhile: seq<Step>)
      requires Reachable(View()) && dispatcher == Removing(message, attempt, id) && OnlyWorkers(meanwhile)
      modifies this
      ensures Reachable(View()) && attempt == 0 && dispatcher == Sending(message, 1)
      ensures arrived == old(arrived) && dispatched == old(dispatched)
    {
      RunWorkers(meanwhile);
      ReachableInv(View());
      ReachableStep(View(), Remove);
      RemoveIfCurrent(message.conversationKey, id);
      dispatcher := Sending(message, 1);
    }

    /** The dispatch of one arriving message, whatever the workers do before each of the two attempts
        (`before`) and before a dead worker's entry is removed (`meanwhile`). It ends in one of two ways: the
        message is in the queue of its conversation, or that queue held 32 messages. */
    method Dispatch(message: Message, before: seq<seq<Step>>, meanwhile: seq<Step>) returns (outcome: Outcome)
      requires Reachable(View()) && dispatcher == Idle
      requires |before| == 2 && OnlyWorkers(before[0]) && OnlyWorkers(before[1]) && OnlyWorkers(meanwhile)
      modifies this
      ensures Reachable(View()) && dispatcher == Idle
      ensures outcome == Accepted || outcome == QueueFull
      ensures arrived == old(arrived) + [message] && dispatched == old(dispatched) + [(message, outcome)]
    {
      ReachableStep(View(), Arrive(message));
      dispatcher, arrived := Sending(message, 0), arrived + [message];
      outcome := WorkerClosed;
      var attempt := 0;
      while attempt < 2 && outcome == WorkerClosed
        invariant 0 <= attempt <= 2 && Reachable(View()) && arrived == old(arrived) + [message]
        invariant if outcome == WorkerClosed then attempt < 2 && dispatcher == Sending(message, attempt)
                  && dispatched == old(dispatched)
                  else dispatcher == Idle && dispatched == old(dispatched) + [(message, outcome)]
      {
        var id;
        outcome, id := AttemptSend(message, attempt, before[attempt]);
        if outcome == WorkerClosed {
          RemoveDead(message, attempt, id, meanwhile);
        }
        attempt := attempt + 1;
      }
    }
  }
}
