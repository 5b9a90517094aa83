// CProcessor: PostTask and Stop from any thread against Run, RunOneSys, RunAll and InternalDealTask on the processor
// thread, interleaved one statement at a time. The queues are the linearised RWQueues of RwQueue.dfy.

module ProcessorRuns {
  datatype Phase = RUNNING | PAUSE | STOPPING | STOPED

  function Rank(p: Phase): nat {
    match p
    case RUNNING => 0
    case PAUSE => 1
    case STOPPING => 2
    case STOPED => 3
  }

  datatype Priority = LOW | NORMAL | HIGHT

  /** A queued FTask: the one of a PostTask call, or the bound InternalStop that Stop pushes. */
  datatype Task = User(call: nat) | InternalStop

  /** A queue, with the history of what was pushed on it and what was run from it. */
  datatype Lane = Lane(contents: seq<Task>, pushed: seq<Task>, executed: seq<Task>)

  datatype PosterAt = Called | Allowed | Enqueued | Returned(result: bool)

  datatype Poster = Poster(pri: Priority, at: PosterAt)

  datatype StopperAt = Entered | Stopping | Announced | Pushed | Done

  /** Within one iteration of InternalDealTask: before front(), inside task(), before pop(). */
  datatype Stage = Ready | Inside | Ran

  datatype ProcessorAt =
    | NotStarted
    | LoopTest                                          // while (m_eState != STOPED)
    | SysTest                                           // RunOneSys
    | Check(pri: Priority)                              // the empty() test of that queue in RunAll
    | Sizing(pri: Priority)                             // InternalDealTask, before size()
    | Dealing(pri: Priority, todo: nat, stage: Stage)
    | Finished

  datatype State = State(
    phase: Phase, hight: Lane, normal: Lane, low: Lane,
    posts: map<nat, Poster>, stops: map<nat, StopperAt>, processor: ProcessorAt)

  datatype Step =
    | Post(c: nat, pri: Priority) | PostCheck(c: nat) | PostPush(c: nat) | PostReturn(c: nat)
    | Stop(c: nat) | StopCheck(c: nat) | StopSet(c: nat) | StopPush(c: nat) | StopReturn(c: nat)
    | Start | TestLoop | DealSys(found: bool) | TestEmpty | Size(n: nat) | Begin | Finish | Pop | EndBatch

  function LaneOf(s: State, p: Priority): Lane {
    match p
    case HIGHT => s.hight
    case NORMAL => s.normal
    case LOW => s.low
  }

  function SetLane(s: State, p: Priority, l: Lane): State {
    match p
    case HIGHT => s.(hight := l)
    case NORMAL => s.(normal := l)
    case LOW => s.(low := l)
  }

  function PushOn(l: Lane, t: Task): Lane {
    l.(contents := l.contents + [t], pushed := l.pushed + [t])
  }

  predicate PostIs(s: State, c: nat, at: PosterAt) {
    c in s.posts && s.posts[c].at == at
  }

  predicate StopIs(s: State, c: nat, at: StopperAt) {
    c in s.stops && s.stops[c] == at
  }

  predicate Dealt(s: State, stage: Stage) {
    s.processor.Dealing? && s.processor.todo > 0 && s.processor.stage == stage && LaneOf(s, s.processor.pri).contents != []
  }

  /** The push of the last element may not have been counted yet: its caller is still inside it. Pushes exclude one
      another, so all elements before it have been counted. */
  predicate Uncounted(s: State, p: Priority) {
    var q := LaneOf(s, p).contents;
    q != [] &&
    match q[|q| - 1]
    case User(c) => PostIs(s, c, Enqueued)
    case InternalStop => exists c :: c in s.stops && s.stops[c] == Pushed
  }

  /** What size() may return. */
  predicate MaySize(s: State, p: Priority, n: nat) {
    var size := |LaneOf(s, p).contents|;
    n == size || (n + 1 == size && Uncounted(s, p))
  }

  predicate Enabled(s: State, e: Step) {
    match e
    case Post(c, _) => c !in s.posts
    case PostCheck(c) => PostIs(s, c, Called)
    case PostPush(c) => PostIs(s, c, Allowed)
    case PostReturn(c) => PostIs(s, c, Enqueued)
    case Stop(c) => c !in s.stops
    case StopCheck(c) => StopIs(s, c, Entered)
    case StopSet(c) => StopIs(s, c, Stopping)
    case StopPush(c) => StopIs(s, c, Announced)
    case StopReturn(c) => StopIs(s, c, Pushed)
    case Start => s.processor.NotStarted? && s.phase != RUNNING
    case TestLoop => s.processor.LoopTest?
    case DealSys(_) => s.processor.SysTest?
    case TestEmpty => s.processor.Check?
    case Size(n) => s.processor.Sizing? && MaySize(s, s.processor.pri, n)
    case Begin => Dealt(s, Ready)
    case Finish => Dealt(s, Inside)
    case Pop => Dealt(s, Ran)
    case EndBatch => s.processor.Dealing? && s.processor.todo == 0 && s.processor.stage.Ready?
  }

  function PostTo(s: State, c: nat, at: PosterAt): State
    requires c in s.posts
  {
    s.(posts := s.posts[c := s.posts[c].(at := at)])
  }

  function StopTo(s: State, c: nat, at: StopperAt): State {
    s.(stops := s.stops[c := at])
  }

  function Apply(s: State, e: Step): State
    requires Enabled(s, e)
  {
    match e
    case Post(c, p) => s.(posts := s.posts[c := Poster(p, Called)])
    case PostCheck(c) => PostTo(s, c, if Rank(s.phase) > Rank(PAUSE) then Returned(false) else Allowed)
    case PostPush(c) =>
      var p := s.posts[c].pri;
      PostTo(SetLane(s, p, PushOn(LaneOf(s, p), User(c))), c, Enqueued)
    case PostReturn(c) => PostTo(s, c, Returned(true))
    case Stop(c) => StopTo(s, c, Entered)
    case StopCheck(c) => StopTo(s, c, if Rank(s.phase) < Rank(STOPPING) then Stopping else Done)
    case StopSet(c) => StopTo(s, c, Announced).(phase := STOPPING)
    case StopPush(c) => StopTo(s, c, Pushed).(normal := PushOn(s.normal, InternalStop))
    case StopReturn(c) => StopTo(s, c, Done)
    case Start => s.(phase := RUNNING, processor := LoopTest)
    case TestLoop => s.(processor := if s.phase != STOPED then SysTest else Finished)
    case DealSys(found) => s.(processor := if found then LoopTest else Check(HIGHT))
    case TestEmpty =>
      var p := s.processor.pri;
      s.(processor :=
        if LaneOf(s, p).contents != [] then Sizing(p)
        else if p == HIGHT then Check(NORMAL)
        else if p == NORMAL then Check(LOW)
        else LoopTest)
    case Size(n) => s.(processor := Dealing(s.processor.pri, n, Ready))
    case Begin => s.(processor := s.processor.(stage := Inside))
    case Finish =>
      var l := LaneOf(s, s.processor.pri);
      var after := SetLane(s, s.processor.pri, l.(executed := l.executed + [l.contents[0]]));
      after.(processor := s.processor.(stage := Ran), phase := if l.contents[0].InternalStop? then STOPED else s.phase)
    case Pop =>
      var l := LaneOf(s, s.processor.pri);
      var after := SetLane(s, s.processor.pri, l.(contents := l.contents[1..]));
      after.(processor := Dealing(s.processor.pri, s.processor.todo - 1, Ready))
    case EndBatch => s.(processor := LoopTest)
  }

  ghost predicate Init(s: State) {
    && s.phase == STOPED && s.processor == NotStarted && s.posts == map[] && s.stops == map[]
    && s.hight == s.normal == s.low == Lane([], [], [])
  }

  // ---------- the invariant ----------

  /** Run then waiting is what was pushed, except that a task just run is still at the front. */
  ghost predicate HistoryOk(l: Lane, ran: bool) {
    if ran then
      && l.contents != [] && l.executed != [] && l.executed[|l.executed| - 1] == l.contents[0]
      && l.pushed == l.executed[..|l.executed| - 1] + l.contents
    else l.pushed == l.executed + l.contents
  }

  predicate JustRan(s: State, p: Priority) {
    s.processor.Dealing? && s.processor.pri == p && s.processor.stage.Ran?
  }

  predicate IsPushed(p: Poster) {
    p.at == Enqueued || p.at == Returned(true)
  }

  /** The tasks pushed on a queue: those of the calls that got that far, once each. */
  ghost predicate TasksOk(pushed: seq<Task>, p: Priority, posts: map<nat, Poster>) {
    && (forall i :: 0 <= i < |pushed| && pushed[i].User? ==>
          pushed[i].call in posts && posts[pushed[i].call].pri == p && IsPushed(posts[pushed[i].call]))
    && (forall i, j :: 0 <= i < j < |pushed| && pushed[i].User? ==> pushed[i] != pushed[j])
    && (forall c :: c in posts && posts[c].pri == p && IsPushed(posts[c]) ==> User(c) in pushed)
    && (p != NORMAL ==> InternalStop !in pushed)
  }

  ghost predicate LaneInv(s: State, p: Priority) {
    HistoryOk(LaneOf(s, p), JustRan(s, p)) && TasksOk(LaneOf(s, p).pushed, p, s.posts)
  }

  /** A batch in progress: the tasks it will still run are in the queue. */
  ghost predicate BatchOk(s: State) {
    s.processor.Dealing? ==>
      && s.processor.todo <= |LaneOf(s, s.processor.pri).contents|
      && (!s.processor.stage.Ready? ==> s.processor.todo > 0)
  }

  ghost predicate StopCalled(s: State) {
    exists c :: c in s.stops
  }

  /** What has been pushed on a queue and not been run. */
  function Waiting(l: Lane): seq<Task> {
    if |l.executed| <= |l.pushed| then l.pushed[|l.executed|..] else []
  }

  /** Before the start nothing is accepted. */
  ghost predicate StartOk(s: State) {
    s.processor.NotStarted? ==>
      && s.phase == STOPED
      && (forall c :: c in s.posts ==> s.posts[c].at == Called || s.posts[c].at == Returned(false))
      && (forall c :: c in s.stops ==> s.stops[c] == Entered || s.stops[c] == Done)
  }

  /** Where the processor thread can be once InternalStop has run: still in the NORMAL batch, or behind it. */
  predicate LastStretch(at: ProcessorAt) {
    at.LoopTest? || at.Finished? || (at.Dealing? && at.pri == NORMAL)
  }

  predicate StopAnnounced(s: State) {
    exists c :: c in s.stops && s.stops[c] == Announced
  }

  /** The end is only seen behind a NORMAL batch; a stop under way is still to be pushed or to be run; a queue that is
      being sized holds something. */
  ghost predicate EndOk(s: State) {
    && (s.phase == STOPED && !s.processor.NotStarted? ==> LastStretch(s.processor))
    && (s.phase == STOPPING ==> InternalStop in Waiting(s.normal) || StopAnnounced(s))
    && (s.processor.Sizing? ==> LaneOf(s, s.processor.pri).contents != [])
  }

  /** A run is over only because InternalStop was run, which takes a call of Stop. */
  ghost predicate StopOk(s: State) {
    && (InternalStop in s.normal.pushed ==> StopCalled(s))
    && (!s.processor.NotStarted? && s.phase == STOPED ==> InternalStop in s.normal.executed)
    && (s.processor.Finished? ==> InternalStop in s.normal.executed)
    && (s.processor.NotStarted? ==> s.normal.executed == [])
  }

  ghost predicate Inv(s: State) {
    LaneInv(s, HIGHT) && LaneInv(s, NORMAL) && LaneInv(s, LOW) && BatchOk(s) && StopOk(s) && StartOk(s) && EndOk(s)
  }

  lemma InitInv(s: State)
    requires Init(s)
    ensures Inv(s)
  {}

  lemma HistoryPush(l: Lane, ran: bool, t: Task)
    requires HistoryOk(l, ran)
    ensures HistoryOk(PushOn(l, t), ran)
  {
    var done := if ran then l.executed[..|l.executed| - 1] else l.executed;
    assert (done + l.contents) + [t] == done + (l.contents + [t]);
  }

  /** A task that has run and is still at the front counts as run; popping it changes nothing in the history. */
  lemma RanIsPrefix(l: Lane)
    requires HistoryOk(l, true)
    ensures l.pushed == l.executed + l.contents[1..]
  {
    var done := l.executed[..|l.executed| - 1];
    calc {
      l.pushed;
      done + l.contents;
      { assert l.contents == [l.contents[0]] + l.contents[1..]; }
      done + ([l.contents[0]] + l.contents[1..]);
      (done + [l.contents[0]]) + l.contents[1..];
      { assert l.executed == done + [l.contents[0]]; }
      l.executed + l.contents[1..];
    }
  }

  /** What a step does to a queue. */
  lemma LaneEffect(s: State, e: Step, p: Priority)
    requires Enabled(s, e)
    ensures var l, s' := LaneOf(s, p), Apply(s, e);
      if e.PostPush? && s.posts[e.c].pri == p then LaneOf(s', p) == PushOn(l, User(e.c)) && (JustRan(s', p) <==> JustRan(s, p))
      else if e.StopPush? && p == NORMAL then LaneOf(s', p) == PushOn(l, InternalStop) && (JustRan(s', p) <==> JustRan(s, p))
      else if e.Finish? && s.processor.pri == p then
        !JustRan(s, p) && JustRan(s', p) && l.contents != [] && LaneOf(s', p) == l.(executed := l.executed + [l.contents[0]])
      else if e.Pop? && s.processor.pri == p then
        JustRan(s, p) && !JustRan(s', p) && l.contents != [] && LaneOf(s', p) == l.(contents := l.contents[1..])
      else LaneOf(s', p) == l && (JustRan(s', p) <==> JustRan(s, p))
  {}

  lemma HistoryStep(s: State, e: Step, p: Priority)
    requires HistoryOk(LaneOf(s, p), JustRan(s, p)) && Enabled(s, e)
    ensures HistoryOk(LaneOf(Apply(s, e), p), JustRan(Apply(s, e), p))
  {
    hide Apply, HistoryOk, LaneOf, JustRan, PushOn;
    LaneEffect(s, e, p);
    var l, l' := LaneOf(s, p), LaneOf(Apply(s, e), p);
    if e.PostPush? && s.posts[e.c].pri == p {
      HistoryPush(l, JustRan(s, p), User(e.c));
    } else if e.StopPush? && p == NORMAL {
      HistoryPush(l, JustRan(s, p), InternalStop);
    } else if e.Finish? && s.processor.pri == p {
      HistoryRan(l);
    } else if e.Pop? && s.processor.pri == p {
      RanIsPrefix(l);
      HistoryPopped(l, l');
    }
  }

  lemma HistoryRan(l: Lane)
    requires HistoryOk(l, false) && l.contents != []
    ensures HistoryOk(l.(executed := l.executed + [l.contents[0]]), true)
  {
    assert (l.executed + [l.contents[0]])[..|l.executed|] == l.executed;
  }

  lemma HistoryPopped(l: Lane, l': Lane)
    requires l.contents != [] && l.pushed == l.executed + l.contents[1..] && l' == l.(contents := l.contents[1..])
    ensures HistoryOk(l', false)
  {}

  lemma TasksPushed(pushed: seq<Task>, p: Priority, posts: map<nat, Poster>, c: nat)
    requires TasksOk(pushed, p, posts) && c in posts && posts[c].at == Allowed && posts[c].pri == p
    ensures TasksOk(pushed + [User(c)], p, posts[c := Poster(p, Enqueued)])
  {
    var posts' := posts[c := Poster(p, Enqueued)];
    forall d | d in posts' && posts'[d].pri == p && IsPushed(posts'[d]) ensures User(d) in pushed + [User(c)] {
      if d != c { assert d in posts && User(d) in pushed; }
    }
  }

  /** Any other step of a PostTask call leaves the pushed calls of a lane as they were. */
  lemma TasksSame(pushed: seq<Task>, p: Priority, posts: map<nat, Poster>, posts': map<nat, Poster>)
    requires TasksOk(pushed, p, posts)
    requires forall c :: c in posts && posts[c].pri == p && IsPushed(posts[c]) ==>
      c in posts' && posts'[c].pri == p && IsPushed(posts'[c])
    requires forall c :: c in posts' && posts'[c].pri == p && IsPushed(posts'[c]) ==>
      c in posts && posts[c].pri == p && IsPushed(posts[c])
    ensures TasksOk(pushed, p, posts')
  {}

  lemma TasksStopPushed(pushed: seq<Task>, posts: map<nat, Poster>)
    requires TasksOk(pushed, NORMAL, posts)
    ensures TasksOk(pushed + [InternalStop], NORMAL, posts)
  {}

  /** The calls of a step that does not push on a queue count for it as before. */
  lemma PostsEffect(s: State, e: Step, p: Priority)
    requires Enabled(s, e) && !(e.PostPush? && s.posts[e.c].pri == p)
    ensures var posts' := Apply(s, e).posts;
      && (forall c :: c in s.posts && s.posts[c].pri == p && IsPushed(s.posts[c]) ==>
            c in posts' && posts'[c].pri == p && IsPushed(posts'[c]))
      && (forall c :: c in posts' && posts'[c].pri == p && IsPushed(posts'[c]) ==>
            c in s.posts && s.posts[c].pri == p && IsPushed(s.posts[c]))
  {
    hide Enabled, Apply, IsPushed;
    if ByPoster(e) { PosterEffect(s, e); } else { PostsUntouched(s, e); }
  }

  predicate ByPoster(e: Step) {
    e.Post? || e.PostCheck? || e.PostPush? || e.PostReturn?
  }

  lemma PostsUntouched(s: State, e: Step)
    requires Enabled(s, e) && !ByPoster(e)
    ensures Apply(s, e).posts == s.posts
  {}

  lemma PosterEffect(s: State, e: Step)
    requires Enabled(s, e) && ByPoster(e)
    ensures var posts' := Apply(s, e).posts;
      && e.c in posts' && (forall c :: c in posts' && c != e.c ==> c in s.posts && posts'[c] == s.posts[c])
      && (forall c :: c in s.posts ==> c in posts') && (e.c in s.posts <==> !e.Post?)
      && (e.c in s.posts ==> posts'[e.c].pri == s.posts[e.c].pri)
      && (e.Post? ==> !IsPushed(posts'[e.c]))
      && (e.PostPush? || (e.c in s.posts ==> (IsPushed(posts'[e.c]) <==> IsPushed(s.posts[e.c]))))
  {}

  lemma PushEffect(s: State, c: nat)
    requires Enabled(s, PostPush(c))
    ensures Apply(s, PostPush(c)).posts == s.posts[c := Poster(s.posts[c].pri, Enqueued)]
  {}

  lemma TasksStep(s: State, e: Step, p: Priority)
    requires TasksOk(LaneOf(s, p).pushed, p, s.posts) && Enabled(s, e)
    ensures TasksOk(LaneOf(Apply(s, e), p).pushed, p, Apply(s, e).posts)
  {
    hide Apply, TasksOk, LaneOf, JustRan;
    LaneEffect(s, e, p);
    var pushed := LaneOf(s, p).pushed;
    if e.PostPush? && s.posts[e.c].pri == p {
      TasksPushed(pushed, p, s.posts, e.c);
      PushEffect(s, e.c);
    } else {
      PostsEffect(s, e, p);
      TasksSame(pushed, p, s.posts, Apply(s, e).posts);
      if e.StopPush? && p == NORMAL { TasksStopPushed(pushed, Apply(s, e).posts); }
    }
  }

  lemma LaneStep(s: State, e: Step, p: Priority)
    requires LaneInv(s, p) && Enabled(s, e)
    ensures LaneInv(Apply(s, e), p)
  {
    hide Apply, Enabled, HistoryOk, TasksOk;
    HistoryStep(s, e, p);
    TasksStep(s, e, p);
  }

  lemma BatchStep(s: State, e: Step)
    requires BatchOk(s) && Enabled(s, e)
    ensures BatchOk(Apply(s, e))
  {}

  lemma StopStep(s: State, e: Step)
    requires LaneInv(s, HIGHT) && LaneInv(s, NORMAL) && LaneInv(s, LOW) && StopOk(s) && Enabled(s, e)
    ensures StopOk(Apply(s, e))
  {
    hide LaneInv, HistoryOk, TasksOk;
    var s' := Apply(s, e);
    assert StopCalled(s) ==> StopCalled(s') by {
      if StopCalled(s) {
        var c :| c in s.stops;
        assert c in s'.stops;
      }
    }
    if e.StopPush? {
      assert e.c in s'.stops;
    } else if e.Finish? {
      StopIsNormal(s);
    }
  }

  lemma StopIsNormal(s: State)
    requires LaneInv(s, HIGHT) && LaneInv(s, NORMAL) && LaneInv(s, LOW) && Enabled(s, Finish)
    ensures LaneOf(s, s.processor.pri).contents[0].InternalStop? ==> s.processor.pri == NORMAL
  {
    var l := LaneOf(s, s.processor.pri);
    assert LaneInv(s, s.processor.pri);
    assert l.pushed[|l.executed|] == l.contents[0];
  }

  lemma StartStep(s: State, e: Step)
    requires StartOk(s) && Enabled(s, e)
    ensures StartOk(Apply(s, e))
  {}

  lemma EndStep(s: State, e: Step)
    requires LaneInv(s, HIGHT) && LaneInv(s, NORMAL) && LaneInv(s, LOW) && EndOk(s) && StartOk(s) && Enabled(s, e)
    ensures EndOk(Apply(s, e))
  {
    hide LaneInv, StartOk, EndOk;
    LastStep(s, e);
    StopComes(s, e);
    SizingStep(s, e);
    assert EndOk(Apply(s, e)) by { EndIs(Apply(s, e)); }
  }

  lemma EndIs(s: State)
    requires s.phase == STOPED && !s.processor.NotStarted? ==> LastStretch(s.processor)
    requires s.phase == STOPPING ==> InternalStop in Waiting(s.normal) || StopAnnounced(s)
    requires s.processor.Sizing? ==> LaneOf(s, s.processor.pri).contents != []
    ensures EndOk(s)
  {}

  lemma LastStep(s: State, e: Step)
    requires LaneInv(s, HIGHT) && LaneInv(s, NORMAL) && LaneInv(s, LOW) && EndOk(s) && StartOk(s) && Enabled(s, e)
    ensures var s' := Apply(s, e); s'.phase == STOPED && !s'.processor.NotStarted? ==> LastStretch(s'.processor)
  {
    hide LaneInv;
    if e.Finish? { StopIsNormal(s); }
  }

  lemma SizingStep(s: State, e: Step)
    requires EndOk(s) && Enabled(s, e)
    ensures var s' := Apply(s, e); s'.processor.Sizing? ==> LaneOf(s', s'.processor.pri).contents != []
  {}

  /** A stop under way stays under way until it is run. */
  lemma StopComes(s: State, e: Step)
    requires LaneInv(s, HIGHT) && LaneInv(s, NORMAL) && LaneInv(s, LOW) && EndOk(s) && StartOk(s) && Enabled(s, e)
    ensures var s' := Apply(s, e); s'.phase == STOPPING ==> InternalStop in Waiting(s'.normal) || StopAnnounced(s')
  {
    hide LaneInv;
    var s' := Apply(s, e);
    WaitingEffect(s, e, NORMAL);
    if s'.phase == STOPPING {
      if e.StopSet? {
        assert s'.stops[e.c] == Announced;
      } else if e.StopPush? {
        assert Waiting(s'.normal) == Waiting(s.normal) + [InternalStop];
      } else if InternalStop in Waiting(s.normal) {
        if e.Finish? && s.processor.pri == NORMAL {
          assert Waiting(s.normal) == [s.normal.contents[0]] + Waiting(s'.normal);
        }
      } else {
        var c :| c in s.stops && s.stops[c] == Announced;
        assert c in s'.stops && s'.stops[c] == Announced;
      }
    }
  }

  /** What a step does to the tasks waiting in a queue. */
  lemma WaitingEffect(s: State, e: Step, p: Priority)
    requires LaneInv(s, p) && Enabled(s, e)
    ensures var l, l' := LaneOf(s, p), LaneOf(Apply(s, e), p);
      && |l.executed| <= |l.pushed| && |l'.executed| <= |l'.pushed|
      && if e.PostPush? && s.posts[e.c].pri == p then Waiting(l') == Waiting(l) + [User(e.c)]
         else if e.StopPush? && p == NORMAL then Waiting(l') == Waiting(l) + [InternalStop]
         else if e.Finish? && s.processor.pri == p then l.contents != [] && Waiting(l) == [l.contents[0]] + Waiting(l')
         else Waiting(l') == Waiting(l)
  {
    hide Apply, Enabled, TasksOk, LaneOf, JustRan;
    LaneEffect(s, e, p);
    HistoryStep(s, e, p);
    WaitingIs(LaneOf(s, p), JustRan(s, p));
  }

  /** They are what the queue holds, without a task that has just been run. */
  lemma WaitingIs(l: Lane, ran: bool)
    requires HistoryOk(l, ran)
    ensures |l.executed| <= |l.pushed| && Waiting(l) == if ran then l.contents[1..] else l.contents
  {
    if ran { RanIsPrefix(l); }
  }

  lemma StepInv(s: State, e: Step)
    requires Inv(s) && Enabled(s, e)
    ensures Inv(Apply(s, e))
  {
    hide Apply, Enabled, LaneInv, BatchOk, StopOk, StartOk, EndOk;
    LaneStep(s, e, HIGHT);
    LaneStep(s, e, NORMAL);
    LaneStep(s, e, LOW);
    BatchStep(s, e);
    StopStep(s, e);
    StartStep(s, e);
    EndStep(s, e);
  }

  // ---------- whole executions ----------

  ghost predicate Next(s: State, s': State) {
    exists e :: Enabled(s, e) && s' == Apply(s, e)
  }

  /** Any interleaving of any number of PostTask and Stop calls with the processor thread. */
  ghost predicate Execution(run: seq<State>) {
    && |run| > 0 && Init(run[0])
    && forall i :: 0 <= i < |run| - 1 ==> Next(run[i], run[i + 1])
  }

  lemma {:induction false} ExecutionInv(run: seq<State>, i: nat)
    requires Execution(run) && i < |run|
    ensures Inv(run[i])
    decreases i
  {
    hide Enabled, Apply, Inv, Init;
    if i == 0 {
      InitInv(run[0]);
    } else {
      ExecutionInv(run, i - 1);
      assert Next(run[i - 1], run[i - 1 + 1]);
      var e :| Enabled(run[i - 1], e) && run[i] == Apply(run[i - 1], e);
      StepInv(run[i - 1], e);
    }
  }

  /** What later states keep: the histories grow at the end and a returned call stays returned. */
  ghost predicate Extends(s: State, s': State) {
    && (forall p :: LaneOf(s, p).pushed <= LaneOf(s', p).pushed && LaneOf(s, p).executed <= LaneOf(s', p).executed)
    && (forall c :: c in s.posts ==> c in s'.posts && s'.posts[c].pri == s.posts[c].pri)
    && (forall c :: c in s.posts && s.posts[c].at.Returned? ==> s'.posts[c] == s.posts[c])
  }

  lemma StepExtends(s: State, e: Step)
    requires Enabled(s, e)
    ensures Extends(s, Apply(s, e))
  {
    PostsExtend(s, e);
    hide Apply, Enabled;
    forall p ensures LaneOf(s, p).pushed <= LaneOf(Apply(s, e), p).pushed && LaneOf(s, p).executed <= LaneOf(Apply(s, e), p).executed {
      hide Apply, Enabled, LaneOf, JustRan;
      LaneEffect(s, e, p);
    }
  }

  lemma PostsExtend(s: State, e: Step)
    requires Enabled(s, e)
    ensures var s' := Apply(s, e);
      && (forall c :: c in s.posts ==> c in s'.posts && s'.posts[c].pri == s.posts[c].pri)
      && (forall c :: c in s.posts && s.posts[c].at.Returned? ==> s'.posts[c] == s.posts[c])
  {}

  lemma {:induction false} RunExtends(run: seq<State>, i: nat, j: nat)
    requires Execution(run) && i <= j < |run|
    ensures Extends(run[i], run[j])
    decreases j
  {
    hide Enabled, Apply, Init, LaneOf;
    if i < j {
      RunExtends(run, i, j - 1);
      assert Next(run[j - 1], run[j - 1 + 1]);
      var e :| Enabled(run[j - 1], e) && run[j] == Apply(run[j - 1], e);
      StepExtends(run[j - 1], e);
    }
  }

  // ---------- results ----------

  /** In every reachable state each queue has run a prefix of what was pushed on it, in the order of the pushes. */
  lemma Fifo(run: seq<State>, i: nat, p: Priority)
    requires Execution(run) && i < |run|
    ensures LaneOf(run[i], p).executed <= LaneOf(run[i], p).pushed
  {
    hide Enabled, Apply, Init;
    ExecutionInv(run, i);
    hide LaneOf, TasksOk, JustRan;
    assert LaneInv(run[i], p);
    if JustRan(run[i], p) { RanIsPrefix(LaneOf(run[i], p)); }
  }

  /** An element that no other place of the sequence holds is counted once. */
  lemma {:induction false} CountedOnce(ts: seq<Task>, t: Task)
    requires forall i, j :: 0 <= i < j < |ts| && ts[i] == t ==> ts[i] != ts[j]
    ensures multiset(ts)[t] == if t in ts then 1 else 0
  {
    if ts != [] {
      var n := |ts| - 1;
      assert ts == ts[..n] + [ts[n]];
      CountedOnce(ts[..n], t);
      assert forall i :: 0 <= i < n ==> ts[..n][i] == ts[i];
    }
  }

  /** The task of a PostTask call runs at most once, and only on the queue of its priority. */
  lemma AtMostOnce(run: seq<State>, i: nat, p: Priority, c: nat)
    requires Execution(run) && i < |run|
    ensures var times := multiset(LaneOf(run[i], p).executed)[User(c)];
      times <= 1 && (times == 1 ==> c in run[i].posts && run[i].posts[c].pri == p && IsPushed(run[i].posts[c]))
  {
    ExecutionInv(run, i);
    Fifo(run, i, p);
    var l := LaneOf(run[i], p);
    assert LaneInv(run[i], p);
    assert forall k :: 0 <= k < |l.executed| ==> l.executed[k] == l.pushed[k];
    CountedOnce(l.executed, User(c));
  }

  /** The task of a call that returned false never runs. */
  lemma RefusedNeverRuns(run: seq<State>, i: nat, j: nat, c: nat, p: Priority)
    requires Execution(run) && i <= j < |run| && PostIs(run[i], c, Returned(false))
    ensures User(c) !in LaneOf(run[j], p).executed
  {
    AtMostOnce(run, j, p, c);
    RunExtends(run, i, j);
  }

  /** The processor has been started and has reached its final state, or its loop has ended. */
  predicate Stopped(s: State) {
    s.processor.Finished? || (!s.processor.NotStarted? && s.phase == STOPED)
  }

  /** Every NORMAL task that was pushed at a moment when no Stop call had pushed InternalStop yet has run exactly once by
      the time the processor is stopped, whether or not its PostTask had returned and whether or not Stop had been
      entered. With Fifo, it ran in the order of the pushes. */
  lemma PromisesKept(run: seq<State>, i: nat, j: nat, c: nat)
    requires Execution(run) && i <= j < |run| && InternalStop !in run[i].normal.pushed
    requires c in run[i].posts && IsPushed(run[i].posts[c]) && run[i].posts[c].pri == NORMAL
    requires Stopped(run[j])
    ensures multiset(run[j].normal.executed)[User(c)] == 1
  {
    hide Enabled, Apply, Init;
    ExecutionInv(run, i);
    ExecutionInv(run, j);
    RunExtends(run, i, j);
    Fifo(run, j, NORMAL);
    AtMostOnce(run, j, NORMAL, c);
    assert LaneOf(run[i], NORMAL).pushed <= LaneOf(run[j], NORMAL).pushed;
    RanBeforeStop(run[i].normal.pushed, run[j].normal.pushed, run[j].normal.executed, c);
  }

  /** While Stop has not been called InternalStop has not been pushed, so everything accepted until then is kept. */
  lemma NotStoppedNotPushed(run: seq<State>, i: nat)
    requires Execution(run) && i < |run| && !StopCalled(run[i])
    ensures InternalStop !in run[i].normal.pushed
  {
    hide Enabled, Apply, Init;
    ExecutionInv(run, i);
  }

  lemma RanBeforeStop(before: seq<Task>, pushed: seq<Task>, executed: seq<Task>, c: nat)
    requires before <= pushed && executed <= pushed
    requires User(c) in before && InternalStop !in before && InternalStop in executed
    ensures User(c) in executed
  {
    var k :| 0 <= k < |executed| && executed[k] == InternalStop;
    var m :| 0 <= m < |before| && before[m] == User(c);
    assert pushed[k] == InternalStop && pushed[m] == User(c);
    assert k >= |before| by { assert forall i :: 0 <= i < |before| ==> before[i] == pushed[i]; }
    assert executed[m] == User(c);
  }

  // ---------- the order of the queues within a pass ----------

  /** At moment i of the pass that run[j] is in, the queue of priority p was observed empty: the test of RunAll read
      it at i, and from then to j the processor thread did nothing but such tests. */
  ghost predicate ObservedEmpty(run: seq<State>, p: Priority, i: nat, j: nat) {
    && i < j < |run|
    && run[i].processor == Check(p) && LaneOf(run[i], p).contents == []
    && forall k :: i <= k <= j ==> run[k].processor.Check?
  }

  /** How the processor thread can have come to test the NORMAL or the LOW queue. */
  lemma CheckStep(s: State, e: Step)
    requires Enabled(s, e) && Apply(s, e).processor.Check? && Apply(s, e).processor.pri != HIGHT
    ensures s.processor.Check?
    ensures s.processor == Apply(s, e).processor || (LaneOf(s, s.processor.pri).contents == []
      && s.processor.pri == if Apply(s, e).processor.pri == NORMAL then HIGHT else NORMAL)
  {}

  /** When RunAll comes to test the NORMAL queue it has observed HIGHT empty in this pass. */
  lemma {:induction false} HightSeenEmpty(run: seq<State>, j: nat)
    requires Execution(run) && j < |run| && run[j].processor == Check(NORMAL)
    ensures exists i :: ObservedEmpty(run, HIGHT, i, j)
    decreases j
  {
    hide Enabled, Apply, LaneOf;
    assert Next(run[j - 1], run[j - 1 + 1]);
    var e :| Enabled(run[j - 1], e) && run[j] == Apply(run[j - 1], e);
    CheckStep(run[j - 1], e);
    if run[j - 1].processor == run[j].processor {
      HightSeenEmpty(run, j - 1);
      var i :| ObservedEmpty(run, HIGHT, i, j - 1);
      assert ObservedEmpty(run, HIGHT, i, j);
    } else {
      assert ObservedEmpty(run, HIGHT, j - 1, j);
    }
  }

  lemma {:induction false} NormalSeenEmpty(run: seq<State>, j: nat)
    requires Execution(run) && j < |run| && run[j].processor == Check(LOW)
    ensures exists i, m :: i < m && ObservedEmpty(run, HIGHT, i, j) && ObservedEmpty(run, NORMAL, m, j)
    decreases j
  {
    hide Enabled, Apply, LaneOf;
    assert Next(run[j - 1], run[j - 1 + 1]);
    var e :| Enabled(run[j - 1], e) && run[j] == Apply(run[j - 1], e);
    CheckStep(run[j - 1], e);
    if run[j - 1].processor == run[j].processor {
      NormalSeenEmpty(run, j - 1);
      var i, m :| i < m && ObservedEmpty(run, HIGHT, i, j - 1) && ObservedEmpty(run, NORMAL, m, j - 1);
      assert ObservedEmpty(run, HIGHT, i, j) && ObservedEmpty(run, NORMAL, m, j);
    } else {
      HightSeenEmpty(run, j - 1);
      var i :| ObservedEmpty(run, HIGHT, i, j - 1);
      assert ObservedEmpty(run, HIGHT, i, j) && ObservedEmpty(run, NORMAL, j - 1, j);
    }
  }

  /** A batch of the LOW queue starts at j + 1 only when HIGHT and then NORMAL were each observed empty in that pass. */
  lemma LowComesLast(run: seq<State>, j: nat)
    requires Execution(run) && j + 1 < |run| && run[j].processor != Sizing(LOW) && run[j + 1].processor == Sizing(LOW)
    ensures exists i, m :: i < m && ObservedEmpty(run, HIGHT, i, j) && ObservedEmpty(run, NORMAL, m, j)
  {
    assert Next(run[j], run[j + 1]);
    assert run[j].processor == Check(LOW);
    NormalSeenEmpty(run, j);
  }

  // ---------- what is not promised ----------

  lemma Play(run: seq<State>, e: Step) returns (longer: seq<State>)
    requires Execution(run) && Enabled(run[|run| - 1], e)
    ensures Execution(longer) && longer[|longer| - 1] == Apply(run[|run| - 1], e)
    ensures run <= longer && |longer| == |run| + 1
  {
    hide Enabled, Apply, Init;
    longer := run + [Apply(run[|run| - 1], e)];
    assert Next(run[|run| - 1], longer[|run|]);
    forall i | 0 <= i < |longer| - 1 ensures Next(longer[i], longer[i + 1]) {
      if i < |run| - 1 { assert Next(run[i], run[i + 1]); }
    }
  }

  /** An execution in which PostTask returns true and its task is never run: the state test and the push are separate
      statements, and here the processor runs InternalStop and leaves its loop in between. */
  lemma LateTrueMayNeverRun() returns (run: seq<State>, c: nat)
    ensures Execution(run) && |run| > 0
    ensures var s := run[|run| - 1];
      && PostIs(s, c, Returned(true)) && s.posts[c].pri == NORMAL && s.processor.Finished?
      && User(c) !in s.normal.executed
  {
    c := 0;
    run := LoopEnded();
    run := Play(run, PostPush(0));
    run := Play(run, PostReturn(0));
  }

  /** And then the processor runs InternalStop and leaves its loop. */
  lemma LoopEnded() returns (run: seq<State>)
    ensures Execution(run)
    ensures run[|run| - 1] == State(STOPED, Lane([], [], []), Lane([], [InternalStop], [InternalStop]), Lane([], [], []),
      map[0 := Poster(NORMAL, Allowed)], map[0 := Done], Finished)
  {
    hide Init;
    run := StopTaken();
    run := Play(run, Begin);
    run := Play(run, Finish);
    run := Play(run, Pop);
    run := Play(run, EndBatch);
    run := Play(run, TestLoop);
  }

  lemma StopTaken() returns (run: seq<State>)
    ensures Execution(run)
    ensures run[|run| - 1] == State(STOPPING, Lane([], [], []), Lane([InternalStop], [InternalStop], []), Lane([], [], []),
      map[0 := Poster(NORMAL, Allowed)], map[0 := Done], Dealing(NORMAL, 1, Ready))
  {
    hide Init;
    run := StoppedBetween();
    run := Play(run, TestEmpty);
    run := Play(run, TestEmpty);
    run := Play(run, Size(1));
  }

  /** A run in which Stop comes between the state test and the push of a PostTask call. */
  lemma StoppedBetween() returns (run: seq<State>)
    ensures Execution(run)
    ensures run[|run| - 1] == State(STOPPING, Lane([], [], []), Lane([InternalStop], [InternalStop], []), Lane([], [], []),
      map[0 := Poster(NORMAL, Allowed)], map[0 := Done], Check(HIGHT))
  {
    var empty := Lane([], [], []);
    run := [State(STOPED, empty, empty, empty, map[], map[], NotStarted)];
    run := Play(run, Start);
    run := Play(run, Post(0, NORMAL));
    run := Play(run, PostCheck(0));
    run := Play(run, Step.Stop(0));
    run := Play(run, StopCheck(0));
    run := Play(run, StopSet(0));
    run := Play(run, StopPush(0));
    run := Play(run, StopReturn(0));
    run := Play(run, TestLoop);
    run := Play(run, DealSys(false));
  }
}
