// When a task that PostTask accepts is certain to run before the processor is stopped: exactly, for each priority.

module ProcessorPromises {
  import opened ProcessorRuns

  function Last(run: seq<State>): State
    requires run != []
  {
    run[|run| - 1]
  }

  /** How many tasks the batch in progress on a queue will still run. */
  function RestOfBatch(s: State, p: Priority): nat {
    if s.processor.Dealing? && s.processor.pri == p then
      if s.processor.stage.Ran? && s.processor.todo > 0 then s.processor.todo - 1 else s.processor.todo
    else 0
  }

  /** The batch in progress will run InternalStop. */
  predicate StopInBatch(s: State) {
    exists i :: 0 <= i < |Waiting(s.normal)| && i < RestOfBatch(s, NORMAL) && Waiting(s.normal)[i] == InternalStop
  }

  /** A task pushed now on the queue of p is certain to run: the processor has not come to its end, and it will not run
      InternalStop before it has run the task. A LOW task never is. */
  predicate Sure(s: State, p: Priority) {
    && !s.processor.Finished? && s.phase != STOPED
    && match p
       case NORMAL => InternalStop !in Waiting(s.normal)
       case HIGHT => s.processor != Check(NORMAL) && s.processor != Sizing(NORMAL) && !StopInBatch(s)
       case LOW => false
  }

  // ---------- what is certain ----------

  /** The end has not come, or InternalStop was run behind the first n NORMAL tasks. */
  ghost predicate EndSeen(s: State, n: nat) {
    || (!s.processor.Finished? && s.phase != STOPED)
    || exists k :: n <= k < |s.normal.executed| && s.normal.executed[k] == InternalStop
  }

  lemma EndStepSeen(s: State, e: Step, n: nat)
    requires Inv(s) && Enabled(s, e) && EndSeen(s, n) && n <= |s.normal.executed|
    ensures EndSeen(Apply(s, e), n) && n <= |Apply(s, e).normal.executed|
  {
    hide LaneInv, EndOk, StartOk, StopOk;
    var s' := Apply(s, e);
    LaneEffect(s, e, NORMAL);
    if e.Finish? {
      StopIsNormal(s);
      if s.processor.pri == NORMAL { assert s'.normal.executed[|s.normal.executed|] == s.normal.contents[0]; }
    }
    if exists k :: n <= k < |s.normal.executed| && s.normal.executed[k] == InternalStop {
      var k :| n <= k < |s.normal.executed| && s.normal.executed[k] == InternalStop;
      assert s'.normal.executed[k] == InternalStop;
    }
  }

  lemma {:induction false} EndSeenLater(run: seq<State>, i: nat, j: nat, n: nat)
    requires Execution(run) && i <= j < |run| && EndSeen(run[i], n) && n <= |run[i].normal.executed|
    ensures EndSeen(run[j], n)  && n <= |run[j].normal.executed|
    decreases j
  {
    hide Enabled, Apply, Init, EndSeen, Inv;
    if i < j {
      EndSeenLater(run, i, j - 1, n);
      ExecutionInv(run, j - 1);
      assert Next(run[j - 1], run[j - 1 + 1]);
      var e :| Enabled(run[j - 1], e) && run[j] == Apply(run[j - 1], e);
      EndStepSeen(run[j - 1], e, n);
    }
  }

  lemma NormalKept(run: seq<State>, i: nat, j: nat, c: nat)
    requires Execution(run) && i < j < |run| && PostIs(run[i], c, Allowed) && run[i].posts[c].pri == NORMAL
    requires run[i + 1] == Apply(run[i], PostPush(c)) && Sure(run[i], NORMAL) && Stopped(run[j])
    ensures User(c) in run[j].normal.executed
  {
    var s, t := run[i], run[j];
    var n := |s.normal.executed|;
    ExecutionInv(run, i);
    WaitingIs(s.normal, JustRan(s, NORMAL));
    assert run[i + 1].normal.pushed == s.normal.pushed + [User(c)];
    hide Inv, Init, Enabled, Apply;
    EndSeenLater(run, i, j, n);
    RunExtends(run, i + 1, j);
    Fifo(run, j, NORMAL);
    assert LaneOf(run[i + 1], NORMAL).pushed <= LaneOf(t, NORMAL).pushed && LaneOf(t, NORMAL).executed <= LaneOf(t, NORMAL).pushed;
    var k :| n <= k < |t.normal.executed| && t.normal.executed[k] == InternalStop;
    RanBefore(n, s.normal.pushed, t.normal.pushed, t.normal.executed, k, c);
  }

  /** InternalStop was run, and not from the first pushes, so everything pushed up to then was run before it. */
  lemma RanBefore(n: nat, before: seq<Task>, pushed: seq<Task>, executed: seq<Task>, k: nat, c: nat)
    requires n <= |before| && InternalStop !in before[n..] && before + [User(c)] <= pushed && executed <= pushed
    requires n <= k < |executed| && executed[k] == InternalStop
    ensures User(c) in executed
  {
    var m := |before|;
    assert pushed[m] == (before + [User(c)])[m] == User(c);
    forall i | n <= i < m ensures pushed[i] != InternalStop {
      assert pushed[i] == (before + [User(c)])[i] == before[n..][i - n];
    }
    assert pushed[k] == InternalStop && k > m;
    assert executed[m] == pushed[m];
  }

  /** A HIGHT task has run or still will. */
  ghost predicate HightComes(s: State, c: nat) {
    User(c) in s.hight.executed || (Sure(s, HIGHT) && User(c) in Waiting(s.hight))
  }

  lemma HightComesStep(s: State, e: Step, c: nat)
    requires Inv(s) && Enabled(s, e) && HightComes(s, c)
    ensures HightComes(Apply(s, e), c)
  {
    hide LaneInv, EndOk, StartOk, StopOk;
    var s' := Apply(s, e);
    WaitingEffect(s, e, HIGHT);
    if User(c) !in s'.hight.executed {
      assert User(c) in Waiting(s'.hight) by {
        if e.Finish? && s.processor.pri == HIGHT { assert s'.hight.executed[|s.hight.executed|] == s.hight.contents[0]; }
      }
      HightStaysSure(s, e);
    }
  }

  lemma HightStaysSure(s: State, e: Step)
    requires Inv(s) && Enabled(s, e) && Sure(s, HIGHT) && Waiting(s.hight) != []
    ensures Sure(Apply(s, e), HIGHT)
  {
    hide LaneInv, EndOk, StartOk, StopOk, Apply, StopInBatch, RestOfBatch;
    HightStaysAway(s, e);
    StopStaysOut(s, e);
  }

  /** The processor does not pass the test of the HIGHT queue, and does not come to its end. */
  lemma HightStaysAway(s: State, e: Step)
    requires Inv(s) && Enabled(s, e) && Sure(s, HIGHT) && Waiting(s.hight) != []
    ensures var s' := Apply(s, e);
      !s'.processor.Finished? && s'.phase != STOPED && s'.processor != Check(NORMAL) && s'.processor != Sizing(NORMAL)
  {
    WaitingIs(s.hight, JustRan(s, HIGHT));
    WaitingIs(s.normal, JustRan(s, NORMAL));
    if e.Finish? { StopIsNormal(s); }
    hide LaneInv, EndOk, StartOk, StopOk;
    if e.Finish? && s.processor.pri == NORMAL {
      assert Waiting(s.normal)[0] == s.normal.contents[0] && 0 < RestOfBatch(s, NORMAL);
    }
  }

  /** What a step does to the rest of the batch. */
  lemma RestEffect(s: State, e: Step, p: Priority)
    requires BatchOk(s) && Enabled(s, e)
    ensures RestOfBatch(Apply(s, e), p) ==
      if e.Size? && s.processor.pri == p then e.n
      else if e.Finish? && s.processor.pri == p then RestOfBatch(s, p) - 1
      else RestOfBatch(s, p)
  {}

  lemma StopStaysOut(s: State, e: Step)
    requires Inv(s) && Enabled(s, e) && !StopInBatch(s) && s.processor != Sizing(NORMAL)
    ensures !StopInBatch(Apply(s, e))
  {
    hide LaneInv, EndOk, StartOk, StopOk, BatchOk, Apply, RestOfBatch, Enabled, LaneOf;
    var s' := Apply(s, e);
    WaitingEffect(s, e, NORMAL);
    RestEffect(s, e, NORMAL);
    RestFits(s, NORMAL);
    NoSizing(s, e);
    IsNormal(s);
    IsNormal(s');
    var w, w' := Waiting(s.normal), Waiting(s'.normal);
    var head := if e.Finish? && s.processor.pri == NORMAL then [LaneOf(s, NORMAL).contents[0]] else [];
    var tail := if e.PostPush? && s.posts[e.c].pri == NORMAL then [User(e.c)] else if e.StopPush? then [InternalStop] else [];
    assert w + [] == w && [] + w' == w';
    NoneAhead(w, w', head, tail, RestOfBatch(s, NORMAL), RestOfBatch(s', NORMAL));
  }

  lemma IsNormal(s: State)
    ensures LaneOf(s, NORMAL) == s.normal
  {}

  lemma NoSizing(s: State, e: Step)
    requires Enabled(s, e) && s.processor != Sizing(NORMAL)
    ensures !(e.Size? && s.processor.pri == NORMAL)
    ensures e.Finish? ==> s.processor.Dealing?
    ensures e.PostPush? ==> e.c in s.posts
  {}

  /** Pushes come behind the rest of the batch, and a task run was its first. */
  lemma NoneAhead(w: seq<Task>, w': seq<Task>, head: seq<Task>, tail: seq<Task>, rest: nat, rest': nat)
    requires head + w' == w + tail && rest == |head| + rest' && rest <= |w|
    requires forall i :: 0 <= i < |w| && i < rest ==> w[i] != InternalStop
    ensures forall i :: 0 <= i < |w'| && i < rest' ==> w'[i] != InternalStop
  {
    forall i | 0 <= i < |w'| && i < rest' ensures w'[i] != InternalStop {
      assert w'[i] == (head + w')[|head| + i] == (w + tail)[|head| + i] == w[|head| + i];
    }
  }

  /** The rest of the batch is waiting. */
  lemma RestFits(s: State, p: Priority)
    requires BatchOk(s) && LaneInv(s, p)
    ensures RestOfBatch(s, p) <= |Waiting(LaneOf(s, p))|
  {
    WaitingIs(LaneOf(s, p), JustRan(s, p));
  }

  lemma {:induction false} HightComesLater(run: seq<State>, i: nat, j: nat, c: nat)
    requires Execution(run) && i <= j < |run| && HightComes(run[i], c)
    ensures HightComes(run[j], c)
    decreases j
  {
    hide Enabled, Apply, Init, HightComes, Inv;
    if i < j {
      HightComesLater(run, i, j - 1, c);
      ExecutionInv(run, j - 1);
      assert Next(run[j - 1], run[j - 1 + 1]);
      var e :| Enabled(run[j - 1], e) && run[j] == Apply(run[j - 1], e);
      HightComesStep(run[j - 1], e, c);
    }
  }

  lemma HightKept(run: seq<State>, i: nat, j: nat, c: nat)
    requires Execution(run) && i < j < |run| && PostIs(run[i], c, Allowed) && run[i].posts[c].pri == HIGHT
    requires run[i + 1] == Apply(run[i], PostPush(c)) && Sure(run[i], HIGHT) && Stopped(run[j])
    ensures User(c) in run[j].hight.executed
  {
    ExecutionInv(run, i);
    WaitingEffect(run[i], PostPush(c), HIGHT);
    assert HightComes(run[i + 1], c);
    hide HightComes;
    HightComesLater(run, i + 1, j, c);
    assert HightComes(run[j], c);
    assert !Sure(run[j], HIGHT);
    ComesButNotSure(run[j], c);
  }

  lemma ComesButNotSure(s: State, c: nat)
    requires HightComes(s, c) && !Sure(s, HIGHT)
    ensures User(c) in s.hight.executed
  {}

  /** A task pushed when it is sure has run in every later state in which the processor is stopped. */
  lemma SureIsKept(run: seq<State>, i: nat, j: nat, c: nat)
    requires Execution(run) && i < j < |run| && PostIs(run[i], c, Allowed) && Sure(run[i], run[i].posts[c].pri)
    requires run[i + 1] == Apply(run[i], PostPush(c)) && Stopped(run[j])
    ensures User(c) in LaneOf(run[j], run[i].posts[c].pri).executed
  {
    hide Sure, Apply, Execution;
    match run[i].posts[c].pri
    case NORMAL => NormalKept(run, i, j, c);
    case HIGHT => HightKept(run, i, j, c);
    case LOW => LowIsNotSure(run[i]);
  }

  lemma LowIsNotSure(s: State)
    ensures !Sure(s, LOW)
  {}

  // ---------- what may be lost ----------

  /** The processor is on its way to run InternalStop without looking at the queue of p for the last task in it. */
  predicate StopAhead(s: State, p: Priority) {
    InternalStop in Waiting(s.normal) && (p == HIGHT ==> StopInBatch(s) || s.processor == Check(NORMAL) || s.processor == Sizing(NORMAL))
  }

  /** The task of c was pushed last, its caller is still in the push, and the processor can come to its end without it. */
  predicate Doomed(s: State, c: nat) {
    && PostIs(s, c, Enqueued)
    && (var w := Waiting(LaneOf(s, s.posts[c].pri));
        w != [] && w[|w| - 1] == User(c) && RestOfBatch(s, s.posts[c].pri) < |w|)
    && !s.processor.NotStarted?
    && (s.processor.Finished? || s.phase == STOPED || StopAhead(s, s.posts[c].pri))
  }

  /** The next statement of the processor thread; the batch it takes from the queue of p leaves out the last task. */
  function Move(s: State, p: Priority): Step {
    match s.processor
    case NotStarted => Start
    case Finished => TestLoop
    case LoopTest => TestLoop
    case SysTest => DealSys(false)
    case Check(_) => TestEmpty
    case Sizing(q) =>
      var n := |LaneOf(s, q).contents|;
      Size(if q == p && n > 0 then n - 1 else n)
    case Dealing(_, todo, stage) =>
      match stage
      case Ready => if todo == 0 then EndBatch else Begin
      case Inside => Finish
      case Ran => Pop
  }

  function Load(s: State): nat {
    |Waiting(s.hight)| + |Waiting(s.normal)| + |Waiting(s.low)|
  }

  /** How far the processor thread is from running a task; the LOW queue is not come to again. */
  function Distance(s: State): nat {
    match s.processor
    case NotStarted => 0
    case Finished => 0
    case LoopTest => 8
    case SysTest => 7
    case Check(q) => if q == HIGHT then 6 else if q == NORMAL then 5 else 30
    case Sizing(q) => if q == LOW then 25 else 4
    case Dealing(q, todo, stage) =>
      if RestOfBatch(s, q) == 0 then (if stage.Ran? then 11 else 10)
      else (if q == LOW then 20 else 0) + (if stage.Inside? then 1 else if stage.Ready? then 2 else 3)
  }

  ghost predicate Closer(s: State, s': State) {
    Load(s') < Load(s) || (Load(s') == Load(s) && Distance(s') < Distance(s))
  }

  ghost predicate MovesOn(s: State, c: nat)
    requires PostIs(s, c, Enqueued)
  {
    var e := Move(s, s.posts[c].pri);
    Enabled(s, e) && Doomed(Apply(s, e), c) && Closer(s, Apply(s, e))
  }

  lemma DoomStep(s: State, c: nat)
    requires Inv(s) && Doomed(s, c) && !s.processor.Finished?
    ensures MovesOn(s, c)
  {
    hide Inv, Doomed, MovesOn;
    assert PostIs(s, c, Enqueued) && !s.processor.NotStarted? by { DoomedFacts(s, c); }
    match s.processor
    case LoopTest => LoopMoves(s, c);
    case SysTest => SysMoves(s, c);
    case Check(_) => CheckMoves(s, c);
    case Sizing(_) => SizingMoves(s, c);
    case Dealing(_, todo, stage) =>
      match stage
      case Ready => ReadyMoves(s, c);
      case Inside => RunMoves(s, c);
      case Ran => PopMoves(s, c);
  }

  lemma DoomedFacts(s: State, c: nat)
    requires Doomed(s, c)
    ensures PostIs(s, c, Enqueued) && !s.processor.NotStarted?
  {}

  predicate Quiet(e: Step) {
    e.TestLoop? || e.DealSys? || e.TestEmpty? || e.Size? || e.Begin? || e.Pop? || e.EndBatch?
  }

  /** Nothing but the processor's place changes. */
  ghost predicate SameTasks(s: State, s': State) {
    && s'.posts == s.posts && s'.phase == s.phase && !s'.processor.NotStarted?
    && Waiting(s'.hight) == Waiting(s.hight) && Waiting(s'.normal) == Waiting(s.normal) && Waiting(s'.low) == Waiting(s.low)
  }

  lemma QuietMove(s: State, e: Step)
    requires Inv(s) && Enabled(s, e) && Quiet(e)
    ensures SameTasks(s, Apply(s, e))
  {
    hide Inv, Waiting, LaneOf, Enabled, Apply;
    QuietWaiting(s, e, HIGHT);
    QuietWaiting(s, e, NORMAL);
    QuietWaiting(s, e, LOW);
    QuietRest(s, e);
    Lanes(s);
    Lanes(Apply(s, e));
  }

  lemma QuietWaiting(s: State, e: Step, p: Priority)
    requires Inv(s) && Enabled(s, e) && Quiet(e)
    ensures Waiting(LaneOf(Apply(s, e), p)) == Waiting(LaneOf(s, p))
  {
    hide Inv, Waiting, LaneOf, Enabled, Apply;
    WaitingEffect(s, e, p) by { InvLane(s, p); }
  }

  lemma QuietRest(s: State, e: Step)
    requires Enabled(s, e) && Quiet(e)
    ensures var s' := Apply(s, e); s'.posts == s.posts && s'.phase == s.phase && !s'.processor.NotStarted?
  {}

  lemma Lanes(s: State)
    ensures LaneOf(s, HIGHT) == s.hight && LaneOf(s, NORMAL) == s.normal && LaneOf(s, LOW) == s.low
  {}

  lemma SameWaiting(s: State, s': State, p: Priority)
    requires SameTasks(s, s')
    ensures Waiting(LaneOf(s', p)) == Waiting(LaneOf(s, p)) && Load(s') == Load(s)
  {}

  lemma StillDoomed(s: State, s': State, c: nat)
    requires Doomed(s, c) && SameTasks(s, s') && RestOfBatch(s', s.posts[c].pri) < |Waiting(LaneOf(s, s.posts[c].pri))|
    requires s'.processor.Finished? || s.phase == STOPED || StopAhead(s', s.posts[c].pri)
    ensures Doomed(s', c) && Load(s') == Load(s)
  {
    SameWaiting(s, s', s.posts[c].pri);
    hide Waiting, RestOfBatch, StopAhead, LaneOf;
  }

  /** Unless a task has just been run, what is waiting is what the queues hold. */
  lemma WaitingHeld(s: State, p: Priority)
    requires Inv(s) && !JustRan(s, p)
    ensures Waiting(LaneOf(s, p)) == LaneOf(s, p).contents
  {
    assert LaneInv(s, p);
    WaitingIs(LaneOf(s, p), JustRan(s, p));
  }

  lemma LoopMoves(s: State, c: nat)
    requires Inv(s) && Doomed(s, c) && s.processor.LoopTest?
    ensures MovesOn(s, c)
  {
    hide LaneInv, StartOk, StopOk, EndOk, BatchOk, Waiting;
  }

  lemma SysMoves(s: State, c: nat)
    requires Inv(s) && Doomed(s, c) && s.processor.SysTest?
    ensures MovesOn(s, c)
  {
    hide LaneInv, StartOk, StopOk, BatchOk, Waiting;
  }

  lemma CheckMoves(s: State, c: nat)
    requires Inv(s) && Doomed(s, c) && s.processor.Check?
    ensures MovesOn(s, c)
  {
    hide Inv, Doomed, Waiting, StopAhead, RestOfBatch, Apply, Distance, Load;
    DoomedFacts(s, c);
    QuietMove(s, TestEmpty);
    WaitingHeld(s, NORMAL);
    WaitingHeld(s, s.posts[c].pri);
    NotAtTheEnd(s);
    CheckDistance(s, c);
    StillDoomed(s, Apply(s, TestEmpty), c);
  }

  lemma CheckDistance(s: State, c: nat)
    requires Doomed(s, c) && s.processor.Check? && s.phase != STOPED && SameTasks(s, Apply(s, TestEmpty))
    requires Waiting(LaneOf(s, NORMAL)) == LaneOf(s, NORMAL).contents
    requires Waiting(LaneOf(s, s.posts[c].pri)) == LaneOf(s, s.posts[c].pri).contents
    ensures var s', p := Apply(s, TestEmpty), s.posts[c].pri;
      StopAhead(s', p) && Distance(s') < Distance(s) && RestOfBatch(s', p) < |Waiting(LaneOf(s, p))|
  {
    hide Waiting;
  }

  lemma NotAtTheEnd(s: State)
    requires Inv(s) && (s.processor.Check? || s.processor.Sizing? || s.processor.SysTest?)
    ensures s.phase != STOPED
    ensures s.processor.Sizing? ==> LaneOf(s, s.processor.pri).contents != []
  {}

  lemma SizingMoves(s: State, c: nat)
    requires Inv(s) && Doomed(s, c) && s.processor.Sizing?
    ensures MovesOn(s, c)
  {
    hide Inv, Doomed, Waiting, StopAhead, RestOfBatch, Apply, Distance, Load, Enabled, LaneOf, Move;
    DoomedFacts(s, c);
    WaitingHeld(s, NORMAL);
    WaitingHeld(s, s.processor.pri);
    NotAtTheEnd(s);
    var e := Move(s, s.posts[c].pri);
    SizingEnabled(s, c);
    QuietMove(s, e);
    SizingDistance(s, c, e);
    StillDoomed(s, Apply(s, e), c);
  }

  lemma SizingEnabled(s: State, c: nat)
    requires Doomed(s, c) && s.processor.Sizing? && LaneOf(s, s.processor.pri).contents != []
    requires Waiting(LaneOf(s, s.processor.pri)) == LaneOf(s, s.processor.pri).contents
    ensures Enabled(s, Move(s, s.posts[c].pri)) && Quiet(Move(s, s.posts[c].pri))
  {
    hide Waiting;
  }

  lemma SizingDistance(s: State, c: nat, e: Step)
    requires Doomed(s, c) && s.processor.Sizing? && s.phase != STOPED && e == Move(s, s.posts[c].pri) && Enabled(s, e)
    requires Waiting(LaneOf(s, NORMAL)) == LaneOf(s, NORMAL).contents && LaneOf(s, s.processor.pri).contents != []
    requires Waiting(LaneOf(s, s.processor.pri)) == LaneOf(s, s.processor.pri).contents
    requires SameTasks(s, Apply(s, e))
    ensures var s', p := Apply(s, e), s.posts[c].pri;
      StopAhead(s', p) && Distance(s') < Distance(s) && RestOfBatch(s', p) < |Waiting(LaneOf(s, p))|
  {
    hide Waiting;
    var s', p, w := Apply(s, e), s.posts[c].pri, Waiting(s.normal);
    var k :| 0 <= k < |w| && w[k] == InternalStop;
    if p == HIGHT {
      assert s.processor == Sizing(NORMAL) && RestOfBatch(s', NORMAL) == |w|;
      assert Waiting(s'.normal)[k] == InternalStop;
    } else if p == NORMAL && s.processor.pri == NORMAL {
      assert k < |w| - 1;
    }
  }

  lemma ReadyMoves(s: State, c: nat)
    requires Inv(s) && Doomed(s, c) && s.processor.Dealing? && s.processor.stage.Ready?
    ensures MovesOn(s, c)
  {
    hide LaneInv, StartOk, StopOk, EndOk, Waiting;
  }

  lemma PopMoves(s: State, c: nat)
    requires Inv(s) && Doomed(s, c) && s.processor.Dealing? && s.processor.stage.Ran?
    ensures MovesOn(s, c)
  {
    hide Inv, Doomed, Waiting, StopAhead, RestOfBatch, Apply, Distance, Load, Enabled, LaneOf;
    DoomedFacts(s, c);
    DealingEnabled(s);
    QuietMove(s, Pop);
    PopRest(s);
    PopAhead(s, c);
    StillDoomed(s, Apply(s, Pop), c);
  }

  lemma DealingEnabled(s: State)
    requires Inv(s) && s.processor.Dealing? && !s.processor.stage.Ready?
    ensures s.processor.stage.Ran? ==> Enabled(s, Pop)
    ensures s.processor.stage.Inside? ==> Enabled(s, Finish)
    ensures BatchOk(s)
  {
    hide LaneInv, StartOk, StopOk, EndOk;
  }

  lemma PopAhead(s: State, c: nat)
    requires Doomed(s, c) && Enabled(s, Pop) && SameTasks(s, Apply(s, Pop))
    requires forall p :: RestOfBatch(Apply(s, Pop), p) == RestOfBatch(s, p)
    ensures var s', p := Apply(s, Pop), s.posts[c].pri;
      (s.phase == STOPED || StopAhead(s', p)) && RestOfBatch(s', p) < |Waiting(LaneOf(s, p))|
  {
    hide Waiting, RestOfBatch, LaneOf;
    var s' := Apply(s, Pop);
    if StopInBatch(s) {
      var i :| 0 <= i < |Waiting(s.normal)| && i < RestOfBatch(s, NORMAL) && Waiting(s.normal)[i] == InternalStop;
      assert Waiting(s'.normal)[i] == InternalStop;
    }
  }

  lemma PopRest(s: State)
    requires BatchOk(s) && Enabled(s, Pop)
    ensures forall p :: RestOfBatch(Apply(s, Pop), p) == RestOfBatch(s, p)
    ensures Distance(Apply(s, Pop)) < Distance(s) && Apply(s, Pop).processor.Dealing?
  {}

  /** Running a task takes it from those waiting; running InternalStop ends the run. */
  lemma RunMoves(s: State, c: nat)
    requires Inv(s) && Doomed(s, c) && s.processor.Dealing? && s.processor.stage.Inside?
    ensures MovesOn(s, c)
  {
    hide Inv, Doomed, Waiting, StopAhead, RestOfBatch, Apply, Distance, Load, Enabled, LaneOf;
    DoomedFacts(s, c);
    DealingEnabled(s);
    LoadFalls(s);
    RestEffect(s, Finish, s.posts[c].pri);
    WaitingEffect(s, Finish, s.posts[c].pri) by { InvLane(s, s.posts[c].pri); }
    if Apply(s, Finish).phase != STOPED { StopStillAhead(s, c); }
    LastStays(s, c);
  }

  lemma InvLane(s: State, p: Priority)
    requires Inv(s)
    ensures LaneInv(s, p)
  {}

  lemma LastStays(s: State, c: nat)
    requires Doomed(s, c) && Enabled(s, Finish)
    requires var s', p := Apply(s, Finish), s.posts[c].pri;
      && RestOfBatch(s', p) == (if s.processor.pri == p then RestOfBatch(s, p) - 1 else RestOfBatch(s, p))
      && (if s.processor.pri == p then Waiting(LaneOf(s, p)) == [LaneOf(s, p).contents[0]] + Waiting(LaneOf(s', p))
          else Waiting(LaneOf(s', p)) == Waiting(LaneOf(s, p)))
      && (s'.phase == STOPED || StopAhead(s', p))
    ensures Doomed(Apply(s, Finish), c)
  {
    hide Waiting, RestOfBatch, StopAhead;
    var p := s.posts[c].pri;
    var w, w' := Waiting(LaneOf(s, p)), Waiting(LaneOf(Apply(s, Finish), p));
    if s.processor.pri == p { assert w[|w| - 1] == w'[|w'| - 1]; }
  }

  lemma LoadFalls(s: State)
    requires Inv(s) && Enabled(s, Finish)
    ensures Load(Apply(s, Finish)) < Load(s)
  {
    WaitingEffect(s, Finish, HIGHT);
    WaitingEffect(s, Finish, NORMAL);
    WaitingEffect(s, Finish, LOW);
    hide Inv, Waiting;
  }

  lemma StopStillAhead(s: State, c: nat)
    requires Inv(s) && Doomed(s, c) && Enabled(s, Finish) && Apply(s, Finish).phase != STOPED
    ensures StopAhead(Apply(s, Finish), s.posts[c].pri)
  {
    hide Inv, Waiting, RestOfBatch, Apply, Enabled;
    WaitingEffect(s, Finish, NORMAL) by { InvLane(s, NORMAL); }
    RestEffect(s, Finish, NORMAL) by { DealingIs(s); }
    FinishIs(s);
    StopBehind(s, Apply(s, Finish), s.posts[c].pri);
  }

  lemma DealingIs(s: State)
    requires Inv(s)
    ensures BatchOk(s)
  {}

  lemma FinishIs(s: State)
    requires Enabled(s, Finish)
    ensures s.processor.Dealing? && LaneOf(s, s.processor.pri).contents != []
    ensures Apply(s, Finish).phase == if LaneOf(s, s.processor.pri).contents[0].InternalStop? then STOPED else s.phase
  {}

  lemma StopBehind(s: State, s': State, p: Priority)
    requires StopAhead(s, p) && s.processor.Dealing? && LaneOf(s, s.processor.pri).contents != []
    requires !LaneOf(s, s.processor.pri).contents[0].InternalStop?
    requires if s.processor.pri == NORMAL then
               Waiting(s.normal) == [s.normal.contents[0]] + Waiting(s'.normal) && RestOfBatch(s', NORMAL) == RestOfBatch(s, NORMAL) - 1
             else Waiting(s'.normal) == Waiting(s.normal) && RestOfBatch(s', NORMAL) == RestOfBatch(s, NORMAL)
    ensures StopAhead(s', p)
  {
    hide Waiting, RestOfBatch;
    var w, w' := Waiting(s.normal), Waiting(s'.normal);
    var front := if s.processor.pri == NORMAL then 1 else 0;
    if p == HIGHT {
      var i :| 0 <= i < |w| && i < RestOfBatch(s, NORMAL) && w[i] == InternalStop;
      assert w'[i - front] == InternalStop;
    } else {
      var i :| 0 <= i < |w| && w[i] == InternalStop;
      assert w'[i - front] == InternalStop;
    }
  }

  /** From such a state on the processor thread alone comes to its end, and the task is still waiting. */
  lemma {:induction false} Drive(run: seq<State>, c: nat) returns (longer: seq<State>)
    requires Execution(run) && Doomed(Last(run), c)
    ensures Execution(longer) && run <= longer && Doomed(Last(longer), c) && Last(longer).processor.Finished?
    ensures SamePriority(Last(run), Last(longer), c)
    decreases Load(Last(run)), Distance(Last(run))
  {
    hide Enabled, Apply, Init, Inv, Doomed, Load, Distance, Move, SamePriority;
    var s := Last(run);
    PriorityKept(s, s, c) by { DoomedFacts(s, c); }
    if s.processor.Finished? {
      longer := run;
    } else {
      ExecutionInv(run, |run| - 1);
      DoomStep(s, c);
      DoomedFacts(s, c);
      var e := Move(s, s.posts[c].pri);
      var next := Play(run, e);
      DoomedFacts(Last(next), c);
      MovePosts(s, e, c);
      longer := Drive(next, c);
      PriorityThen(s, Last(next), Last(longer), c);
    }
  }

  ghost predicate SamePriority(s: State, s': State, c: nat) {
    c in s.posts && c in s'.posts && s'.posts[c].pri == s.posts[c].pri
  }

  lemma PriorityKept(s: State, s': State, c: nat)
    requires c in s.posts && s' == s
    ensures SamePriority(s, s', c)
  {}

  lemma PriorityThen(s: State, t: State, u: State, c: nat)
    requires SamePriority(s, t, c) && SamePriority(t, u, c)
    ensures SamePriority(s, u, c)
  {}

  lemma MovePosts(s: State, e: Step, c: nat)
    requires Enabled(s, e) && c in s.posts
    ensures SamePriority(s, Apply(s, e), c)
  {
    PostsExtend(s, e);
  }

  /** A number no call of Stop has. */
  lemma FreshStop(stops: map<nat, StopperAt>) returns (d: nat)
    ensures d !in stops
  {
    d := Bound(stops.Keys);
  }

  ghost function Bound(ids: set<nat>): (k: nat)
    ensures forall i :: i in ids ==> i < k
  {
    if ids == {} then 0
    else
      var i :| i in ids;
      assert forall j :: j in ids ==> j == i || j in ids - {i};
      var k := Bound(ids - {i});
      if i < k then k else i + 1
  }

  /** Everything but the NORMAL queue and the calls of Stop is as it was, and InternalStop is waiting. */
  ghost predicate Announces(s: State, s': State) {
    && s'.posts == s.posts && s'.processor == s.processor && s'.hight == s.hight && s'.low == s.low && s'.phase != STOPED
    && InternalStop in Waiting(s'.normal) && RestOfBatch(s', NORMAL) == RestOfBatch(s, NORMAL)
  }

  /** As long as InternalStop has not ended the run, a call of Stop can get one waiting. */
  lemma GetStopWaiting(run: seq<State>) returns (longer: seq<State>)
    requires Execution(run) && Last(run).phase != STOPED
    ensures Execution(longer) && run <= longer && Announces(Last(run), Last(longer))
  {
    hide Init, Inv, Waiting;
    var s := Last(run);
    ExecutionInv(run, |run| - 1);
    if InternalStop in Waiting(s.normal) {
      longer := run;
    } else if s.phase == STOPPING {
      StopIsAnnounced(s);
      var d :| d in s.stops && s.stops[d] == Announced;
      longer := Play(run, StopPush(d));
      StopPushed(s, d);
    } else {
      longer := CallStop(run);
    }
  }

  /** A new call of Stop, up to its push. */
  lemma CallStop(run: seq<State>) returns (longer: seq<State>)
    requires Execution(run) && Rank(Last(run).phase) < Rank(STOPPING)
    ensures Execution(longer) && run <= longer && Announces(Last(run), Last(longer))
  {
    hide Init, Inv, Waiting, Execution;
    RunNotEmpty(run);
    var s := Last(run);
    var d := FreshStop(s.stops);
    longer := Play(run, Step.Stop(d));
    longer := Play(longer, StopCheck(d));
    longer := Play(longer, StopSet(d));
    InvAtEnd(longer);
    StopPushed(Last(longer), d);
    longer := Play(longer, StopPush(d));
  }

  lemma RunNotEmpty(run: seq<State>)
    requires Execution(run)
    ensures run != []
  {}

  lemma StopIsAnnounced(s: State)
    requires Inv(s) && s.phase == STOPPING && InternalStop !in Waiting(s.normal)
    ensures StopAnnounced(s)
  {
    hide LaneInv, StartOk, StopOk, BatchOk;
  }

  lemma StopPushed(s: State, d: nat)
    requires Inv(s) && StopIs(s, d, Announced)
    ensures InternalStop in Waiting(Apply(s, StopPush(d)).normal)
  {
    WaitingEffect(s, StopPush(d), NORMAL) by { InvLane(s, NORMAL); }
    hide Inv, Waiting;
  }

  /** A task that is pushed when it is not sure can be lost: the processor comes to its end with the task still waiting. */
  lemma UnsureIsDoomed(run: seq<State>, c: nat) returns (longer: seq<State>)
    requires Execution(run) && PostIs(Last(run), c, Allowed) && !Sure(Last(run), Last(run).posts[c].pri)
    ensures Execution(longer) && |run| < |longer| && run <= longer && longer[|run|] == Apply(Last(run), PostPush(c))
    ensures Doomed(Last(longer), c) && SamePriority(Last(run), Last(longer), c)
  {
    hide Init, Inv, Waiting, Sure, StopAhead, RestOfBatch, Doomed;
    var s, p := Last(run), Last(run).posts[c].pri;
    ExecutionInv(run, |run| - 1);
    AllowedIsStarted(s, c);
    longer := Play(run, PostPush(c));
    var t := Last(longer);
    JustPushed(s, c);
    if s.processor.Finished? || s.phase == STOPED || StopAhead(t, p) {
      DoomedByEnd(t, c);
    } else {
      UnsureCases(s, c);
      var first := longer[|run|];
      longer := GetStopWaiting(longer);
      assert longer[|run|] == first;
      Announced2(t, Last(longer), c);
    }
  }

  lemma AllowedIsStarted(s: State, c: nat)
    requires Inv(s) && PostIs(s, c, Allowed)
    ensures !s.processor.NotStarted?
  {
    hide LaneInv, EndOk, StopOk, BatchOk;
  }

  /** The task just pushed is the last one waiting, and no batch in progress includes it. */
  ghost predicate LastWaiting(s: State, c: nat) {
    && PostIs(s, c, Enqueued) && !s.processor.NotStarted?
    && var w := Waiting(LaneOf(s, s.posts[c].pri));
       w != [] && w[|w| - 1] == User(c) && RestOfBatch(s, s.posts[c].pri) < |w|
  }

  lemma JustPushed(s: State, c: nat)
    requires Inv(s) && PostIs(s, c, Allowed) && !s.processor.NotStarted?
    ensures var t := Apply(s, PostPush(c));
      && LastWaiting(t, c) && t.phase == s.phase && t.processor == s.processor && SamePriority(s, t, c)
  {
    hide Inv, Waiting, RestOfBatch, LaneOf, Apply, Enabled;
    var p := s.posts[c].pri;
    PushFacts(s, c);
    WaitingEffect(s, PostPush(c), p) by { InvLane(s, p); }
    RestEffect(s, PostPush(c), p) by { DealingIs(s); }
    RestFits(s, p) by { InvLane(s, p); DealingIs(s); }
  }

  lemma PushFacts(s: State, c: nat)
    requires PostIs(s, c, Allowed)
    ensures Enabled(s, PostPush(c))
    ensures var t := Apply(s, PostPush(c));
      PostIs(t, c, Enqueued) && t.phase == s.phase && t.processor == s.processor && SamePriority(s, t, c)
  {}

  lemma DoomedByEnd(t: State, c: nat)
    requires LastWaiting(t, c) && (t.processor.Finished? || t.phase == STOPED || StopAhead(t, t.posts[c].pri))
    ensures Doomed(t, c)
  {
    hide Waiting, RestOfBatch, StopAhead;
  }

  /** Why a push is not sure although the end is not ahead yet: it is LOW, or the processor has passed the HIGHT queue. */
  lemma UnsureCases(s: State, c: nat)
    requires Inv(s) && PostIs(s, c, Allowed) && !Sure(s, s.posts[c].pri) && !s.processor.Finished? && s.phase != STOPED
    requires var t := Apply(s, PostPush(c)); !StopAhead(t, s.posts[c].pri)
    ensures s.posts[c].pri == LOW || (s.posts[c].pri == HIGHT && (s.processor == Check(NORMAL) || s.processor == Sizing(NORMAL)))
  {
    hide Inv, Waiting, RestOfBatch, StopInBatch;
    AheadKept(s, c);
  }

  /** A push takes no InternalStop away. */
  lemma AheadKept(s: State, c: nat)
    requires Inv(s) && PostIs(s, c, Allowed)
    ensures var t := Apply(s, PostPush(c));
      && (InternalStop in Waiting(s.normal) ==> InternalStop in Waiting(t.normal))
      && (StopInBatch(s) ==> StopInBatch(t) && InternalStop in Waiting(t.normal))
  {
    WaitingEffect(s, PostPush(c), NORMAL) by { InvLane(s, NORMAL); }
    RestEffect(s, PostPush(c), NORMAL) by { DealingIs(s); }
    hide Inv, Waiting, RestOfBatch;
    var t := Apply(s, PostPush(c));
    assert forall i :: 0 <= i < |Waiting(s.normal)| ==> Waiting(t.normal)[i] == Waiting(s.normal)[i];
  }

  lemma Announced2(t: State, u: State, c: nat)
    requires LastWaiting(t, c) && Announces(t, u)
    requires t.posts[c].pri == LOW || (t.posts[c].pri == HIGHT && (t.processor == Check(NORMAL) || t.processor == Sizing(NORMAL)))
    ensures Doomed(u, c) && SamePriority(t, u, c)
  {
    hide Waiting;
  }

  /** A task that is waiting has not run. */
  lemma WaitingHasNotRun(s: State, p: Priority, c: nat)
    requires Inv(s) && User(c) in Waiting(LaneOf(s, p))
    ensures User(c) !in LaneOf(s, p).executed
  {
    InvLane(s, p);
    hide Inv;
    var l := LaneOf(s, p);
    WaitingIs(l, JustRan(s, p));
    RunIsPrefix(l, JustRan(s, p));
    var k :| 0 <= k < |Waiting(l)| && Waiting(l)[k] == User(c);
    assert l.pushed[|l.executed| + k] == User(c);
    forall i | 0 <= i < |l.executed| ensures l.executed[i] != User(c) {
      assert l.executed[i] == l.pushed[i];
    }
  }

  lemma RunIsPrefix(l: Lane, ran: bool)
    requires HistoryOk(l, ran)
    ensures l.executed <= l.pushed
  {
    if ran { RanIsPrefix(l); }
  }

  /** An execution that goes on from the last state of another one with the push of c. */
  ghost predicate GoesOn(run: seq<State>, longer: seq<State>, c: nat)
    requires run != [] && PostIs(Last(run), c, Allowed)
  {
    Execution(longer) && |run| < |longer| && run <= longer && longer[|run|] == Apply(Last(run), PostPush(c))
  }

  /** Wherever a push is not sure, the execution has a continuation that begins with it, in which PostTask returns true,
      the processor thread leaves its loop, and the task has not run. */
  lemma UnsureMayBeLost(run: seq<State>, c: nat) returns (longer: seq<State>)
    requires Execution(run) && PostIs(Last(run), c, Allowed) && !Sure(Last(run), Last(run).posts[c].pri)
    ensures GoesOn(run, longer, c)
    ensures var t := Last(longer);
      && PostIs(t, c, Returned(true)) && t.processor.Finished?
      && t.posts[c].pri == Last(run).posts[c].pri && User(c) !in LaneOf(t, t.posts[c].pri).executed
  {
    hide Init, Inv, Sure;
    var s := Last(run);
    var pushed := UnsureIsDoomed(run, c);
    var driven := Drive(pushed, c);
    PriorityThen(s, Last(pushed), Last(driven), c);
    var t := Last(driven);
    InvAtEnd(driven);
    NotRunYet(t, c);
    longer := Play(driven, PostReturn(c));
    assert longer[|run|] == driven[|run|] == pushed[|run|];
  }

  lemma InvAtEnd(run: seq<State>)
    requires Execution(run)
    ensures run != [] && Inv(Last(run))
  {
    hide Inv, Init;
    ExecutionInv(run, |run| - 1);
  }

  lemma NotRunYet(t: State, c: nat)
    requires Inv(t) && Doomed(t, c)
    ensures PostIs(t, c, Enqueued) && User(c) !in LaneOf(t, t.posts[c].pri).executed
  {
    hide Inv;
    var p := t.posts[c].pri;
    assert User(c) in Waiting(LaneOf(t, p));
    WaitingHasNotRun(t, p, c);
  }

  /** A push is certain to be run before the processor is stopped exactly when it is sure. */
  lemma SureExactly(run: seq<State>, c: nat)
    requires Execution(run) && PostIs(Last(run), c, Allowed)
    ensures var p := Last(run).posts[c].pri;
      Sure(Last(run), p) <==>
      forall longer :: GoesOn(run, longer, c) && Stopped(Last(longer)) ==> User(c) in LaneOf(Last(longer), p).executed
  {
    hide Sure, Init, Inv, LaneOf;
    var p := Last(run).posts[c].pri;
    if Sure(Last(run), p) {
      forall longer | GoesOn(run, longer, c) && Stopped(Last(longer)) ensures User(c) in LaneOf(Last(longer), p).executed {
        assert longer[|run| - 1] == Last(run);
        SureIsKept(longer, |run| - 1, |longer| - 1, c) by { SureIsNotOver(run, longer, c); }
      }
    } else {
      var longer := UnsureMayBeLost(run, c);
    }
  }

  lemma SureIsNotOver(run: seq<State>, longer: seq<State>, c: nat)
    requires run != [] && PostIs(Last(run), c, Allowed) && GoesOn(run, longer, c)
    ensures |run| - 1 < |longer| - 1
  {}
}
