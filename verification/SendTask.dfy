// CProcessor::SendTask against InternalDealSysTask: the handoff of one record between a sender that may give up
// waiting and the processor thread, interleaved one statement at a time.

module SendTasks {
  datatype Flag = WAITING | DEALING | DEALED | TIMEOUT

  /** Who holds a record's stateMutex. */
  datatype Holder = Nobody | Sender | Processor

  /** Where the sender of a call is. */
  datatype SenderAt =
    | Calling                 // before the state check
    | Created                 // record allocated and filled in
    | Pushed                  // record is in m_sysQueue
    | Testing                 // stateMutex held, before the first test of eState
    | Blocked                 // inside cond.wait or cond.wait_for, mutex released
    | Deciding                // stateMutex held, before the second test
    | Unlocked                // saw DEALED and unlocked; the delete is next
    | GivingUp                // set TIMEOUT, the lock's destructor is next
    | Returned(result: bool)

  /** An SSysTask, with two history counters: how often its task ran and how often it was deleted. */
  datatype Record = Record(flag: Flag, mutex: Holder, runs: nat, deletes: nat)

  datatype ProcessorAt =
    | Idle
    | Popped(call: nat)       // front() and pop() done
    | Held(call: nat)         // stateMutex held, before the test
    | Running(call: nat)      // eState = DEALING
    | Ran(call: nat)          // task() returned
    | Marked(call: nat)       // eState = DEALED
    | Notifying(call: nat)    // unlocked a dealt-with record; its cond.notify_one is next
    | Dropping(call: nat)     // unlocked a timed-out record; the delete is next

  datatype State = State(senders: map<nat, SenderAt>, records: map<nat, Record>, queue: seq<nat>, processor: ProcessorAt, open: bool)

  /** One statement of one thread; Wake covers notification, timeout and spurious wakeup alike. */
  datatype Step =
    | Call(c: nat) | Refuse(c: nat) | Inline(c: nat) | Create(c: nat) | Push(c: nat) | SenderLock(c: nat) | Test(c: nat) | Wake(c: nat)
    | Decide(c: nat) | SenderDelete(c: nat) | GiveUp(c: nat)
    | Pop | ProcessorLock | Inspect | RunTask | Mark | ProcessorUnlock | Notify | ProcessorDelete
    | SetOpen(open: bool)

  predicate SenderIs(s: State, c: nat, at: SenderAt) {
    c in s.senders && s.senders[c] == at
  }

  predicate Exists(s: State, c: nat) {
    c in s.records && s.records[c].deletes == 0
  }

  predicate Enabled(s: State, e: Step) {
    match e
    case Call(c) => c !in s.senders
    case Refuse(c) => SenderIs(s, c, Calling) && !s.open
    case Inline(c) => SenderIs(s, c, Calling) && s.open
    case Create(c) => SenderIs(s, c, Calling) && s.open
    case Push(c) => SenderIs(s, c, Created)
    case SenderLock(c) => SenderIs(s, c, Pushed) && Exists(s, c) && s.records[c].mutex == Nobody
    case Test(c) => SenderIs(s, c, Testing) && Exists(s, c)
    case Wake(c) => SenderIs(s, c, Blocked) && Exists(s, c) && s.records[c].mutex == Nobody
    case Decide(c) => SenderIs(s, c, Deciding) && Exists(s, c)
    case SenderDelete(c) => SenderIs(s, c, Unlocked) && c in s.records
    case GiveUp(c) => SenderIs(s, c, GivingUp) && Exists(s, c)
    case Pop => s.processor.Idle? && s.queue != []
    case ProcessorLock => s.processor.Popped? && Exists(s, s.processor.call) && s.records[s.processor.call].mutex == Nobody
    case Inspect => s.processor.Held? && Exists(s, s.processor.call)
    case RunTask => s.processor.Running? && Exists(s, s.processor.call)
    case Mark => s.processor.Ran? && Exists(s, s.processor.call)
    case ProcessorUnlock => s.processor.Marked? && Exists(s, s.processor.call)
    case Notify => s.processor.Notifying?
    case ProcessorDelete => s.processor.Dropping? && s.processor.call in s.records
    case SetOpen(_) => true
  }

  function Sender(s: State, c: nat, at: SenderAt): State {
    s.(senders := s.senders[c := at])
  }

  function SetRecord(s: State, c: nat, r: Record): State {
    s.(records := s.records[c := r])
  }

  function Apply(s: State, e: Step): State
    requires Enabled(s, e)
  {
    match e
    case Call(c) => Sender(s, c, Calling)
    case Refuse(c) => Sender(s, c, Returned(false))
    case Inline(c) => SetRecord(Sender(s, c, Returned(true)), c, Record(DEALED, Nobody, 1, 1))
    case Create(c) => SetRecord(Sender(s, c, Created), c, Record(WAITING, Nobody, 0, 0))
    case Push(c) => Sender(s, c, Pushed).(queue := s.queue + [c])
    case SenderLock(c) => SetRecord(Sender(s, c, Testing), c, s.records[c].(mutex := Holder.Sender))
    case Test(c) =>
      if s.records[c].flag != DEALED then SetRecord(Sender(s, c, Blocked), c, s.records[c].(mutex := Nobody))
      else Sender(s, c, Deciding)
    case Wake(c) => SetRecord(Sender(s, c, Deciding), c, s.records[c].(mutex := Holder.Sender))
    case Decide(c) =>
      if s.records[c].flag == DEALED then SetRecord(Sender(s, c, Unlocked), c, s.records[c].(mutex := Nobody))
      else SetRecord(Sender(s, c, GivingUp), c, s.records[c].(flag := TIMEOUT))
    case SenderDelete(c) => SetRecord(Sender(s, c, Returned(true)), c, s.records[c].(deletes := s.records[c].deletes + 1))
    case GiveUp(c) => SetRecord(Sender(s, c, Returned(false)), c, s.records[c].(mutex := Nobody))
    case Pop => s.(queue := s.queue[1..], processor := Popped(s.queue[0]))
    case ProcessorLock =>
      var c := s.processor.call;
      SetRecord(s.(processor := Held(c)), c, s.records[c].(mutex := Processor))
    case Inspect =>
      var c := s.processor.call;
      if s.records[c].flag == WAITING then SetRecord(s.(processor := Running(c)), c, s.records[c].(flag := DEALING))
      else SetRecord(s.(processor := Dropping(c)), c, s.records[c].(mutex := Nobody))
    case RunTask =>
      var c := s.processor.call;
      SetRecord(s.(processor := Ran(c)), c, s.records[c].(runs := s.records[c].runs + 1))
    case Mark =>
      var c := s.processor.call;
      SetRecord(s.(processor := Marked(c)), c, s.records[c].(flag := DEALED))
    case ProcessorUnlock =>
      var c := s.processor.call;
      SetRecord(s.(processor := Notifying(c)), c, s.records[c].(mutex := Nobody))
    case Notify => s.(processor := Idle)
    case ProcessorDelete =>
      var c := s.processor.call;
      SetRecord(s.(processor := Idle), c, s.records[c].(deletes := s.records[c].deletes + 1))
    case SetOpen(o) => s.(open := o)
  }

  ghost predicate Init(s: State) {
    s.senders == map[] && s.records == map[] && s.queue == [] && s.processor == Idle
  }

  // ---------- the invariant of one call ----------

  /** The processor thread has popped the record of c and neither unlocked it for good nor deleted it. */
  predicate AtProcessor(s: State, c: nat) {
    !s.processor.Idle? && !s.processor.Notifying? && s.processor.call == c
  }

  predicate ProcessorHolds(s: State, c: nat) {
    AtProcessor(s, c) && !s.processor.Popped? && !s.processor.Dropping?
  }

  predicate SenderHolds(at: SenderAt) {
    at.Testing? || at.Deciding? || at.GivingUp?
  }

  /** The sender is past its push and has not decided yet. */
  predicate Undecided(at: SenderAt) {
    at.Pushed? || at.Testing? || at.Blocked? || at.Deciding?
  }

  predicate Enqueued(s: State, c: nat) {
    c in s.queue || AtProcessor(s, c)
  }

  /** One call: where its sender is, against the record's flag, its mutex and where the processor is. */
  ghost predicate CallOk(s: State, c: nat)
    requires c in s.senders
  {
    var at := s.senders[c];
    if at.Calling? then c !in s.records && !Enqueued(s, c) && s.processor != Notifying(c)
    else if c !in s.records then at == Returned(false) && !Enqueued(s, c) && s.processor != Notifying(c)
    else
      var r := s.records[c];
      && (r.mutex == Processor <==> ProcessorHolds(s, c))
      && (r.mutex == Holder.Sender <==> SenderHolds(at))
      && (at.Created? ==> r == Record(WAITING, Nobody, 0, 0) && !Enqueued(s, c))
      && (Undecided(at) ==>
            && r.deletes == 0
            && (Enqueued(s, c) ==> !AtProcessor(s, c) || s.processor.Popped? || s.processor.Held? ==> r.flag == WAITING && r.runs == 0)
            && (AtProcessor(s, c) && s.processor.Running? ==> r.flag == DEALING && r.runs == 0)
            && (AtProcessor(s, c) && s.processor.Ran? ==> r.flag == DEALING && r.runs == 1)
            && (AtProcessor(s, c) && s.processor.Marked? ==> r.flag == DEALED && r.runs == 1)
            && !(AtProcessor(s, c) && s.processor.Dropping?)
            && (!Enqueued(s, c) ==> r.flag == DEALED && r.runs == 1))
      && (s.processor == Notifying(c) ==> c !in s.queue && (Undecided(at) || at.Unlocked? || at == Returned(true)))
      && (at.Unlocked? ==> r.flag == DEALED && r.runs == 1 && r.deletes == 0 && !Enqueued(s, c))
      && (at == Returned(true) ==> r.runs == 1 && r.deletes == 1 && !Enqueued(s, c))
      && (at.GivingUp? ==> r.flag == TIMEOUT && r.runs == 0 && r.deletes == 0 && (c in s.queue || s.processor == Popped(c)))
      && (at == Returned(false) ==>
            && r.flag == TIMEOUT && r.runs == 0
            && (Enqueued(s, c) ==> r.deletes == 0) && (!Enqueued(s, c) ==> r.deletes == 1)
            && (AtProcessor(s, c) ==> s.processor.Popped? || s.processor.Held? || s.processor.Dropping?))
  }

  ghost predicate QueueOk(s: State) {
    && (forall i, j :: 0 <= i < j < |s.queue| ==> s.queue[i] != s.queue[j])
    && (forall c :: c in s.queue ==> c in s.senders && c in s.records && !AtProcessor(s, c))
    && (!s.processor.Idle? ==> s.processor.call in s.senders && s.processor.call in s.records)
    && (forall c :: c in s.records ==> c in s.senders)
  }

  ghost predicate Inv(s: State) {
    QueueOk(s) && forall c :: c in s.senders ==> CallOk(s, c)
  }

  /** The call a step is about; other calls see it only through the queue. */
  function Subject(s: State, e: Step): nat {
    match e
    case Pop => if s.queue == [] then 0 else s.queue[0]
    case ProcessorLock | Inspect | RunTask | Mark | ProcessorUnlock | Notify | ProcessorDelete =>
      if s.processor.Idle? then 0 else s.processor.call
    case SetOpen(_) => 0
    case _ => e.c
  }

  lemma InitInv(s: State)
    requires Init(s)
    ensures Inv(s)
  {}

  lemma QueueStep(s: State, e: Step)
    requires Inv(s) && Enabled(s, e)
    ensures QueueOk(Apply(s, e))
  {
    if e.Push? {
      assert CallOk(s, e.c);
      PushQueue(s, e.c);
    } else if e.Pop? {
      PopQueue(s);
    } else {
      OtherQueue(s, e);
    }
  }

  lemma PushQueue(s: State, c: nat)
    requires QueueOk(s) && Enabled(s, Push(c)) && CallOk(s, c)
    ensures QueueOk(Apply(s, Push(c)))
  {}

  lemma PopQueue(s: State)
    requires QueueOk(s) && Enabled(s, Pop)
    ensures QueueOk(Apply(s, Pop))
  {
    var s' := Apply(s, Pop);
    assert forall i :: 0 <= i < |s'.queue| ==> s'.queue[i] == s.queue[i + 1];
  }

  lemma OtherQueue(s: State, e: Step)
    requires QueueOk(s) && Enabled(s, e) && !e.Push? && !e.Pop?
    ensures QueueOk(Apply(s, e))
  {
    var s' := Apply(s, e);
    assert QueueKept(s, s') by {
      hide QueueOk;
      OnlyGrows(s, e);
    }
    assert forall c :: AtProcessor(s', c) ==> AtProcessor(s, c);
  }

  /** The queue is as it was, no call or record is forgotten or made up, and the processor took up no other call. */
  predicate QueueKept(s: State, s': State) {
    && s'.queue == s.queue && s.senders.Keys <= s'.senders.Keys && s.records.Keys <= s'.records.Keys
    && s'.records.Keys - s.records.Keys <= s'.senders.Keys
    && (!s'.processor.Idle? ==> !s.processor.Idle? && s'.processor.call == s.processor.call)
    && (!s'.processor.Idle? && !s'.processor.Notifying? ==> !s.processor.Notifying?)
  }

  lemma OnlyGrows(s: State, e: Step)
    requires Enabled(s, e) && !e.Push? && !e.Pop?
    ensures QueueKept(s, Apply(s, e))
  {}

  /** What a call that the step is not about sees of the change: nothing. */
  ghost predicate SameView(s: State, s': State, c: nat) {
    && c in s.senders && c in s'.senders && s'.senders[c] == s.senders[c]
    && (c in s'.records <==> c in s.records) && (c in s.records ==> s'.records[c] == s.records[c])
    && (c in s'.queue <==> c in s.queue) && (AtProcessor(s', c) <==> AtProcessor(s, c))
    && (AtProcessor(s, c) ==> s'.processor == s.processor)
    && (s'.processor == Notifying(c) <==> s.processor == Notifying(c))
  }

  predicate ByProcessor(e: Step) {
    e.Pop? || e.ProcessorLock? || e.Inspect? || e.RunTask? || e.Mark? || e.ProcessorUnlock? || e.Notify? || e.ProcessorDelete?
  }

  lemma OthersView(s: State, e: Step, c: nat)
    requires QueueOk(s) && Enabled(s, e) && c in s.senders && (c != Subject(s, e) || e.SetOpen?)
    ensures SameView(s, Apply(s, e), c)
  {
    hide QueueOk;
    if ByProcessor(e) {
      OthersViewProcessor(s, e, c);
    }
  }

  lemma OthersViewProcessor(s: State, e: Step, c: nat)
    requires Enabled(s, e) && c in s.senders && c != Subject(s, e) && ByProcessor(e)
    ensures SameView(s, Apply(s, e), c)
  {
    if e.Pop? { assert s.queue == [s.queue[0]] + s.queue[1..]; }
  }

  lemma SameViewOk(s: State, s': State, c: nat)
    requires SameView(s, s', c) && CallOk(s, c)
    ensures CallOk(s', c)
  {
    if !AtProcessor(s, c) { assert s.processor != Popped(c) && s'.processor != Popped(c); }
  }

  lemma OthersStep(s: State, e: Step, c: nat)
    requires Inv(s) && Enabled(s, e) && c in s.senders && (c != Subject(s, e) || e.SetOpen?)
    ensures c in Apply(s, e).senders && CallOk(Apply(s, e), c)
  {
    hide Apply, CallOk, Enabled, QueueOk;
    OthersView(s, e, c);
    SameViewOk(s, Apply(s, e), c);
  }

  lemma SubjectStep(s: State, e: Step)
    requires Inv(s) && Enabled(s, e) && !e.SetOpen?
    ensures Subject(s, e) in Apply(s, e).senders && CallOk(Apply(s, e), Subject(s, e))
  {
    hide Apply, CallOk, Enabled;
    var c := Subject(s, e);
    if !e.Call? { SubjectKnown(s, e); }
    if e.Call? {
      CallStep(s, c);
    } else if ByProcessor(e) {
      assert CallOk(s, c);
      ProcessorStep(s, e, c);
    } else {
      assert CallOk(s, c);
      SenderStep(s, e, c);
    }
  }

  lemma SubjectKnown(s: State, e: Step)
    requires QueueOk(s) && Enabled(s, e) && !e.SetOpen? && !e.Call?
    ensures Subject(s, e) in s.senders
  {}

  lemma CallStep(s: State, c: nat)
    requires QueueOk(s) && Enabled(s, Call(c))
    ensures c in Apply(s, Call(c)).senders && CallOk(Apply(s, Call(c)), c)
  {}

  predicate BeforePush(e: Step) {
    e.Refuse? || e.Inline? || e.Create? || e.Push?
  }

  lemma SenderStep(s: State, e: Step, c: nat)
    requires QueueOk(s) && Enabled(s, e) && c in s.senders && CallOk(s, c) && c == Subject(s, e)
    requires !ByProcessor(e) && !e.SetOpen? && !e.Call?
    ensures c in Apply(s, e).senders && CallOk(Apply(s, e), c)
  {
    hide QueueOk, Enabled, Apply, CallOk;
    if BeforePush(e) { EnteringStep(s, e, c); } else { WaitingStep(s, e, c); }
  }

  lemma EnteringStep(s: State, e: Step, c: nat)
    requires Enabled(s, e) && c in s.senders && CallOk(s, c) && BeforePush(e) && c == e.c
    ensures c in Apply(s, e).senders && CallOk(Apply(s, e), c)
  {}

  lemma WaitingStep(s: State, e: Step, c: nat)
    requires Enabled(s, e) && c in s.senders && CallOk(s, c) && c == Subject(s, e)
    requires !BeforePush(e) && !ByProcessor(e) && !e.SetOpen? && !e.Call?
    ensures c in Apply(s, e).senders && CallOk(Apply(s, e), c)
  {
    hide Enabled, Apply, CallOk;
    if e.SenderLock? || e.Test? || e.Wake? { BlockingStep(s, e, c); } else { DecidingStep(s, e, c); }
  }

  lemma BlockingStep(s: State, e: Step, c: nat)
    requires Enabled(s, e) && c in s.senders && CallOk(s, c) && (e.SenderLock? || e.Test? || e.Wake?) && c == e.c
    ensures c in Apply(s, e).senders && CallOk(Apply(s, e), c)
  {}

  lemma DecidingStep(s: State, e: Step, c: nat)
    requires Enabled(s, e) && c in s.senders && CallOk(s, c) && (e.Decide? || e.SenderDelete? || e.GiveUp?) && c == e.c
    ensures c in Apply(s, e).senders && CallOk(Apply(s, e), c)
  {}

  lemma ProcessorStep(s: State, e: Step, c: nat)
    requires QueueOk(s) && Enabled(s, e) && c in s.senders && CallOk(s, c) && c == Subject(s, e)
    requires ByProcessor(e)
    ensures c in Apply(s, e).senders && CallOk(Apply(s, e), c)
  {
    hide Apply;
    if e.Pop? { PopStep(s); } else { DealingStep(s, e, c); }
  }

  lemma PopStep(s: State)
    requires QueueOk(s) && Enabled(s, Pop) && s.queue[0] in s.senders && CallOk(s, s.queue[0])
    ensures s.queue[0] in Apply(s, Pop).senders && CallOk(Apply(s, Pop), s.queue[0])
  {
    assert s.queue[0] !in s.queue[1..];
  }

  lemma DealingStep(s: State, e: Step, c: nat)
    requires Enabled(s, e) && c in s.senders && CallOk(s, c) && ByProcessor(e) && !e.Pop? && c == s.processor.call
    requires c in s.records && c !in s.queue
    ensures c in Apply(s, e).senders && CallOk(Apply(s, e), c)
  {
    hide Enabled, Apply, CallOk;
    if e.Inspect? {
      InspectStep(s, c);
    } else if e.ProcessorLock? || e.ProcessorDelete? {
      LockingStep(s, e, c);
    } else {
      RunningStep(s, e, c);
    }
  }

  lemma InspectStep(s: State, c: nat)
    requires Enabled(s, Inspect) && c in s.senders && CallOk(s, c) && c == s.processor.call && c in s.records && c !in s.queue
    ensures c in Apply(s, Inspect).senders && CallOk(Apply(s, Inspect), c)
  {}

  lemma LockingStep(s: State, e: Step, c: nat)
    requires Enabled(s, e) && (e.ProcessorLock? || e.ProcessorDelete?)
    requires c in s.senders && CallOk(s, c) && c == s.processor.call && c in s.records && c !in s.queue
    ensures c in Apply(s, e).senders && CallOk(Apply(s, e), c)
  {}

  lemma RunningStep(s: State, e: Step, c: nat)
    requires Enabled(s, e) && (e.RunTask? || e.Mark? || e.ProcessorUnlock? || e.Notify?)
    requires c in s.senders && CallOk(s, c) && c == s.processor.call && c in s.records && c !in s.queue
    ensures c in Apply(s, e).senders && CallOk(Apply(s, e), c)
  {}

  lemma StepInv(s: State, e: Step)
    requires Inv(s) && Enabled(s, e)
    ensures Inv(Apply(s, e))
  {
    hide Apply, CallOk, QueueOk, Enabled;
    QueueStep(s, e);
    forall c | c in Apply(s, e).senders ensures CallOk(Apply(s, e), c) {
      if c == Subject(s, e) && !e.SetOpen? {
        SubjectStep(s, e);
      } else {
        SendersKept(s, e, c);
        OthersStep(s, e, c);
      }
    }
  }

  lemma SendersKept(s: State, e: Step, c: nat)
    requires Inv(s) && Enabled(s, e) && c in Apply(s, e).senders && (c != Subject(s, e) || e.SetOpen?)
    ensures c in s.senders
  {}

  // ---------- whole executions ----------

  ghost predicate Next(s: State, s': State) {
    exists e :: Enabled(s, e) && s' == Apply(s, e)
  }

  /** Any interleaving of any number of SendTask calls with the processor thread. */
  ghost predicate Execution(run: seq<State>) {
    && |run| > 0 && Init(run[0])
    && forall i :: 0 <= i < |run| - 1 ==> Next(run[i], run[i + 1])
  }

  lemma {:induction false} ExecutionInv(run: seq<State>, i: nat)
    requires Execution(run) && i < |run|
    ensures Inv(run[i])
    decreases i
  {
    hide Enabled, Apply, Inv, Init;
    if i == 0 {
      InitInv(run[0]);
    } else {
      ExecutionInv(run, i - 1);
      assert Next(run[i - 1], run[i - 1 + 1]);
      var e :| Enabled(run[i - 1], e) && run[i] == Apply(run[i - 1], e);
      StepInv(run[i - 1], e);
    }
  }

  lemma ReturnStays(s: State, e: Step, c: nat)
    requires Enabled(s, e) && c in s.senders && s.senders[c].Returned?
    ensures c in Apply(s, e).senders && Apply(s, e).senders[c] == s.senders[c]
  {}

  lemma {:induction false} ReturnIsFinal(run: seq<State>, i: nat, j: nat, c: nat)
    requires Execution(run) && i <= j < |run| && c in run[i].senders && run[i].senders[c].Returned?
    ensures c in run[j].senders && run[j].senders[c] == run[i].senders[c]
    decreases j
  {
    hide Enabled, Apply, Init;
    if i < j {
      ReturnIsFinal(run, i, j - 1, c);
      assert Next(run[j - 1], run[j - 1 + 1]);
      var e :| Enabled(run[j - 1], e) && run[j] == Apply(run[j - 1], e);
      ReturnStays(run[j - 1], e, c);
    }
  }

  /** SendTask returns true only when its task has run exactly once, and it never runs again. */
  lemma TrueMeansRanOnce(run: seq<State>, i: nat, j: nat, c: nat)
    requires Execution(run) && i <= j < |run| && SenderIs(run[i], c, Returned(true))
    ensures c in run[j].records && run[j].records[c].runs == 1
  {
    ExecutionInv(run, j);
    ReturnIsFinal(run, i, j, c);
    assert CallOk(run[j], c);
  }

  /** Once SendTask has returned false, its task has not run and never will. */
  lemma FalseMeansNeverRuns(run: seq<State>, i: nat, j: nat, c: nat)
    requires Execution(run) && i <= j < |run| && SenderIs(run[i], c, Returned(false))
    ensures c in run[j].records ==> run[j].records[c].runs == 0
  {
    ExecutionInv(run, j);
    ReturnIsFinal(run, i, j, c);
    assert CallOk(run[j], c);
  }

  /** A record is deleted at most once, whichever side deletes it, and its task runs at most once. */
  lemma DeletedAtMostOnce(run: seq<State>, i: nat, c: nat)
    requires Execution(run) && i < |run| && c in run[i].records
    ensures run[i].records[c].deletes <= 1 && run[i].records[c].runs <= 1
  {
    ExecutionInv(run, i);
    assert c in run[i].senders && CallOk(run[i], c);
  }

  /** Every statement but the processor's last one finds the record it is about. That one, the notify_one after the
      unlock, finds it exactly as long as the sender has not returned true. */
  lemma NoUseAfterDelete(run: seq<State>, i: nat, c: nat)
    requires Execution(run) && i < |run| && c in run[i].senders
    ensures var s, at := run[i], run[i].senders[c];
      && (Undecided(at) || at.Unlocked? || at.GivingUp? ==> Exists(s, c))
      && (AtProcessor(s, c) ==> Exists(s, c))
      && (s.processor == Notifying(c) ==> (Exists(s, c) <==> at != Returned(true)))
  {
    ExecutionInv(run, i);
    assert CallOk(run[i], c);
  }

  /** An execution made one step longer. */
  lemma Play(run: seq<State>, e: Step) returns (longer: seq<State>)
    requires Execution(run) && Enabled(run[|run| - 1], e)
    ensures Execution(longer) && longer[|longer| - 1] == Apply(run[|run| - 1], e)
  {
    hide Enabled, Apply, Init;
    longer := run + [Apply(run[|run| - 1], e)];
    forall i | 0 <= i < |longer| - 1 ensures Next(longer[i], longer[i + 1]) {
      if i < |run| - 1 { assert Next(run[i], run[i + 1]); }
    }
  }

  /** An execution, without any wakeup, in which the processor's notify_one is about to touch a deleted record: the sender
      comes to its first test only after the unlock, finds the task dealt with and deletes the record. */
  lemma NotifyAfterDelete() returns (run: seq<State>)
    ensures Execution(run)
    ensures var s := run[|run| - 1];
      s.processor == Notifying(0) && SenderIs(s, 0, Returned(true)) && 0 in s.records && s.records[0].deletes == 1
  {
    hide Init;
    run := DealtWithUnseen();
    run := Play(run, SenderLock(0));
    run := Play(run, Test(0));
    run := Play(run, Decide(0));
    run := Play(run, SenderDelete(0));
  }

  /** A run in which the processor has dealt with and unlocked a record whose sender has not looked at it yet. */
  lemma DealtWithUnseen() returns (run: seq<State>)
    ensures Execution(run)
    ensures run[|run| - 1] == State(map[0 := Pushed], map[0 := Record(DEALED, Nobody, 1, 0)], [], Notifying(0), true)
  {
    hide Init;
    run := Enqueuing();
    run := Play(run, Pop);
    run := Play(run, ProcessorLock);
    run := Play(run, Inspect);
    run := Play(run, RunTask);
    run := Play(run, Mark);
    run := Play(run, ProcessorUnlock);
  }

  lemma Enqueuing() returns (run: seq<State>)
    ensures Execution(run)
    ensures run[|run| - 1] == State(map[0 := Pushed], map[0 := Record(WAITING, Nobody, 0, 0)], [0], Idle, true)
  {
    run := [State(map[], map[], [], Idle, true)];
    run := Play(run, Call(0));
    run := Play(run, Create(0));
    run := Play(run, Push(0));
  }

  /** When both sides are done with a call that was enqueued, its record is gone: exactly one side deleted it. */
  lemma NothingLeaks(run: seq<State>, i: nat, c: nat)
    requires Execution(run) && i < |run| && c in run[i].records
    requires c in run[i].senders && run[i].senders[c].Returned? && !Enqueued(run[i], c)
    ensures run[i].records[c].deletes == 1
  {
    ExecutionInv(run, i);
    assert CallOk(run[i], c);
  }
}
