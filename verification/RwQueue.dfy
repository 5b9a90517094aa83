// RWQueue: many writers behind one mutex, one reader, interleaved one statement at a time.

module RwQueues {
  import opened Options

  /** SNode. A value is None until it has been written. */
  datatype Node<T> = Node(next: Option<nat>, value: Option<T>)

  /** Where a writer is in push( value ). */
  datatype Writer<T> =
    | Outside
    | Allocated(value: T, node: nat)   // pNode = new SNode
    | Cleared(value: T, node: nat)     // pNode->pNext = NULL
    | Locked(value: T, node: nat)      // m_mutex.lock()
    | Linked(value: T, node: nat)      // m_pTail->pNext = pNode
    | Written(value: T, node: nat)     // m_pTail->value = value
    | Swung                            // m_pTail = pNode
    | Counted                          // ++m_nSize
  {
    predicate OwnsNode() {
      Allocated? || Cleared? || Locked? || Linked? || Written?
    }

    predicate InMutex() {
      Locked? || Linked? || Written? || Swung? || Counted?
    }
  }

  /** Where the reader is in pop(). */
  datatype Reader =
    | Between
    | Decremented          // --m_nSize
    | Found(node: nat)     // pNode = m_pHead->pNext
    | Unlinked(node: nat)  // m_pHead->pNext = pNode->pNext

  /** How the reader decides to pop: after a snapshot of size(), or after empty() returned false. */
  datatype Mode = BySize | ByEmpty

  /** The queue and its threads. `pushed` and `popped` are history: the values in the order their push and pop
      took effect. A size of -1 is the wrapped-around counter. */
  datatype State<T> = State(
    nodes: map<nat, Node<T>>, head: nat, tail: nat, size: int, mutex: Option<nat>,
    writers: map<nat, Writer<T>>, reader: Reader, mode: Mode, todo: int, sawElement: bool,
    pushed: seq<T>, popped: seq<T>)

  /** One statement of one thread. */
  datatype Step<T> =
    | New(t: nat, value: T, node: nat) | Clear(t: nat) | Lock(t: nat) | Link(t: nat) | Write(t: nat)
    | Swing(t: nat) | Count(t: nat) | Unlock(t: nat)
    | Snapshot | CheckEmpty | Decrement | Find | Unlink | Delete

  /** The reader has grounds to call front() and pop(). */
  predicate MayPop<T>(s: State<T>) {
    s.reader.Between? && if s.mode.BySize? then s.todo > 0 else s.sawElement
  }

  function At<T>(s: State<T>, t: nat): Writer<T> {
    if t in s.writers then s.writers[t] else Outside
  }

  /** m_pHead->pNext */
  predicate HasFirst<T>(s: State<T>) {
    s.head in s.nodes && s.nodes[s.head].next.Some?
  }

  predicate Enabled<T>(s: State<T>, e: Step<T>) {
    match e
    case New(t, _, node) => At(s, t).Outside? && node !in s.nodes
    case Clear(t) => At(s, t).Allocated? && At(s, t).node in s.nodes
    case Lock(t) => At(s, t).Cleared? && s.mutex.None?
    case Link(t) => At(s, t).Locked? && s.tail in s.nodes
    case Write(t) => At(s, t).Linked? && s.tail in s.nodes
    case Swing(t) => At(s, t).Written?
    case Count(t) => At(s, t).Swung?
    case Unlock(t) => At(s, t).Counted?
    case Snapshot => s.mode.BySize? && s.reader.Between? && s.todo == 0
    case CheckEmpty => s.mode.ByEmpty? && s.reader.Between? && HasFirst(s)
    case Decrement => MayPop(s)
    case Find => s.reader.Decremented? && HasFirst(s)
    case Unlink => s.reader.Found? && s.reader.node in s.nodes && s.head in s.nodes
    case Delete => s.reader.Unlinked?
  }

  function SetNext<T>(nodes: map<nat, Node<T>>, n: nat, next: Option<nat>): map<nat, Node<T>>
    requires n in nodes
  {
    nodes[n := nodes[n].(next := next)]
  }

  function Apply<T>(s: State<T>, e: Step<T>): State<T>
    requires Enabled(s, e)
  {
    match e
    case New(t, value, node) =>
      s.(nodes := s.nodes[node := Node(None, None)], writers := s.writers[t := Allocated(value, node)])
    case Clear(t) =>
      var w := At(s, t);
      s.(nodes := SetNext(s.nodes, w.node, None), writers := s.writers[t := Cleared(w.value, w.node)])
    case Lock(t) =>
      var w := At(s, t);
      s.(mutex := Some(t), writers := s.writers[t := Locked(w.value, w.node)])
    case Link(t) =>
      var w := At(s, t);
      s.(nodes := SetNext(s.nodes, s.tail, Some(w.node)), writers := s.writers[t := Linked(w.value, w.node)])
    case Write(t) =>
      var w := At(s, t);
      s.(nodes := s.nodes[s.tail := s.nodes[s.tail].(value := Some(w.value))], writers := s.writers[t := Written(w.value, w.node)])
    case Swing(t) =>
      var w := At(s, t);
      s.(tail := w.node, writers := s.writers[t := Swung], pushed := s.pushed + [w.value])
    case Count(t) => s.(size := s.size + 1, writers := s.writers[t := Counted])
    case Unlock(t) => s.(mutex := None, writers := s.writers[t := Outside])
    case Snapshot => s.(todo := s.size)
    case CheckEmpty => s.(sawElement := s.nodes[s.head].next.value != s.tail)
    case Decrement => s.(size := s.size - 1, reader := Decremented)
    case Find => s.(reader := Found(s.nodes[s.head].next.value))
    case Unlink =>
      var n := s.reader.node;
      s.(nodes := SetNext(s.nodes, s.head, s.nodes[n].next), reader := Unlinked(n),
         todo := if s.mode.BySize? then s.todo - 1 else s.todo, sawElement := false,
         popped := s.popped + Values(s.nodes[n].value))
    case Delete => s.(nodes := s.nodes - {s.reader.node}, reader := Between)
  }

  /** The value a node holds, if it has been written. */
  function Values<T>(v: Option<T>): seq<T> {
    if v.Some? then [v.value] else []
  }

  /** RWQueue::RWQueue */
  ghost predicate Init<T>(s: State<T>) {
    && s.head != s.tail && s.nodes.Keys == {s.head, s.tail}
    && s.nodes[s.head].next == Some(s.tail) && s.nodes[s.tail].next == None
    && s.size == 0 && s.mutex.None? && s.writers == map[] && s.reader.Between?
    && s.todo == 0 && !s.sawElement && s.pushed == [] && s.popped == []
  }

  // ---------- the invariant ----------

  function Pending<T>(s: State<T>): nat {
    if s.mutex.Some? && At(s, s.mutex.value).Swung? then 1 else 0
  }

  function Leaving<T>(s: State<T>): nat {
    if s.reader.Decremented? || s.reader.Found? then 1 else 0
  }

  ghost predicate ChainLinks<T>(s: State<T>, chain: seq<nat>) {
    && |chain| > 0 && s.head in s.nodes && s.nodes[s.head].next == Some(chain[0]) && chain[|chain| - 1] == s.tail
    && (forall i :: 0 <= i < |chain| ==> chain[i] in s.nodes && chain[i] != s.head)
    && (forall i, j :: 0 <= i < j < |chain| ==> chain[i] != chain[j])
    && (forall i :: 0 <= i < |chain| - 1 ==> s.nodes[chain[i]].next == Some(chain[i + 1]))
  }

  /** The nodes before the tail hold, in order, the values pushed and not yet popped. */
  ghost predicate ChainHolds<T>(s: State<T>, chain: seq<nat>) {
    && |chain| > 0 && |s.pushed| == |s.popped| + (|chain| - 1) && s.popped == s.pushed[..|s.popped|]
    && forall i :: 0 <= i < |chain| - 1 && chain[i] in s.nodes ==> s.nodes[chain[i]].value == Some(s.pushed[|s.popped| + i])
  }

  ghost predicate WritersOk<T>(s: State<T>, chain: seq<nat>) {
    && (forall t :: t in s.writers ==> (s.writers[t].InMutex() <==> s.mutex == Some(t)))
    && (s.mutex.Some? ==> s.mutex.value in s.writers)
    && (forall t :: t in s.writers && s.writers[t].OwnsNode() ==>
          s.writers[t].node in s.nodes && s.writers[t].node != s.head && s.writers[t].node !in chain)
    && (forall t, u :: t in s.writers && u in s.writers && t != u && s.writers[t].OwnsNode() && s.writers[u].OwnsNode() ==>
          s.writers[t].node != s.writers[u].node)
    && (forall t :: t in s.writers && (s.writers[t].Linked? || s.writers[t].Written?) ==>
          s.tail in s.nodes && s.nodes[s.tail].next == Some(s.writers[t].node)
          && (s.writers[t].Written? ==> s.nodes[s.tail].value == Some(s.writers[t].value)))
  }

  ghost predicate ReaderOk<T>(s: State<T>, chain: seq<nat>) {
    && (Leaving(s) == 1 ==> |chain| >= 2)
    && (s.reader.Found? ==> s.reader.node == chain[0])
    && (s.reader.Unlinked? ==> s.reader.node in s.nodes && s.reader.node != s.head && s.reader.node !in chain)
    && (forall t :: t in s.writers && s.writers[t].OwnsNode() && s.reader.Unlinked? ==> s.writers[t].node != s.reader.node)
    && s.size == |chain| - 1 - Pending(s) - Leaving(s)
    && (s.mode.BySize? ==> Leaving(s) <= s.todo <= s.size + Leaving(s))
    && (s.mode.ByEmpty? && s.sawElement ==> |chain| >= 2)
  }

  ghost predicate InvWith<T>(s: State<T>, chain: seq<nat>) {
    ChainLinks(s, chain) && ChainHolds(s, chain) && WritersOk(s, chain) && ReaderOk(s, chain)
  }

  ghost predicate Inv<T>(s: State<T>) {
    exists chain :: InvWith(s, chain)
  }

  lemma InitInv<T>(s: State<T>)
    requires Init(s)
    ensures Inv(s)
  {
    assert InvWith(s, [s.tail]);
  }

  /** The chain after a step: grown by the swing, shortened by the unlink. */
  function NextChain<T>(s: State<T>, e: Step<T>, chain: seq<nat>): seq<nat>
    requires Enabled(s, e) && |chain| > 0
  {
    match e
    case Swing(t) => chain + [At(s, t).node]
    case Unlink => chain[1..]
    case _ => chain
  }

  lemma StepLinks<T>(s: State<T>, e: Step<T>, chain: seq<nat>)
    requires InvWith(s, chain) && Enabled(s, e)
    ensures ChainLinks(Apply(s, e), NextChain(s, e, chain))
  {
    hide ChainHolds;
  }

  lemma SwingHolds<T>(s: State<T>, t: nat, chain: seq<nat>)
    requires InvWith(s, chain) && Enabled(s, Swing(t))
    ensures ChainHolds(Apply(s, Swing(t)), NextChain(s, Swing(t), chain))
  {
    var s', chain' := Apply(s, Swing(t)), NextChain(s, Swing(t), chain);
    var n, k := |chain| - 1, |s.popped|;
    assert s'.pushed[..k] == s.pushed[..k];
    assert chain'[n] == s.tail && s'.pushed[k + n] == At(s, t).value;
    forall i | 0 <= i < n ensures s'.nodes[chain'[i]].value == Some(s'.pushed[k + i]) {
      assert chain'[i] == chain[i] && s'.pushed[k + i] == s.pushed[k + i];
    }
  }

  lemma UnlinkHolds<T>(s: State<T>, chain: seq<nat>)
    requires InvWith(s, chain) && Enabled(s, Unlink)
    ensures ChainHolds(Apply(s, Unlink), NextChain(s, Unlink, chain))
  {
    var s', chain' := Apply(s, Unlink), NextChain(s, Unlink, chain);
    var k := |s.popped|;
    assert s.nodes[chain[0]].value == Some(s.pushed[k + 0]);
    assert s'.popped == s.pushed[..k] + [s.pushed[k]] == s.pushed[..k + 1];
    forall i | 0 <= i < |chain'| - 1 && chain'[i] in s'.nodes
      ensures s'.nodes[chain'[i]].value == Some(s'.pushed[k + 1 + i])
    {
      assert chain'[i] == chain[i + 1] && s.pushed[k + (i + 1)] == s'.pushed[k + 1 + i];
    }
  }

  lemma StepHolds<T>(s: State<T>, e: Step<T>, chain: seq<nat>)
    requires InvWith(s, chain) && Enabled(s, e)
    ensures ChainHolds(Apply(s, e), NextChain(s, e, chain))
  {
    if e.Swing? {
      SwingHolds(s, e.t, chain);
    } else if e.Unlink? {
      UnlinkHolds(s, chain);
    } else {
      OtherHolds(s, e, chain);
    }
  }

  /** Only the swing and the unlink change what the queue holds. */
  lemma OtherHolds<T>(s: State<T>, e: Step<T>, chain: seq<nat>)
    requires InvWith(s, chain) && Enabled(s, e) && !e.Swing? && !e.Unlink?
    ensures ChainHolds(Apply(s, e), chain)
  {
    var s' := Apply(s, e);
    assert s'.pushed == s.pushed && s'.popped == s.popped;
    forall i | 0 <= i < |chain| - 1 && chain[i] in s'.nodes
      ensures s'.nodes[chain[i]].value == Some(s.pushed[|s.popped| + i])
    {
      assert chain[i] != chain[|chain| - 1] && chain[i] in s.nodes;
      assert s.nodes[chain[i]].value == Some(s.pushed[|s.popped| + i]);
      assert s'.nodes[chain[i]].value == s.nodes[chain[i]].value;
    }
  }

  predicate InPush<T>(e: Step<T>) {
    e.New? || e.Clear? || e.Lock? || e.Link? || e.Write?
  }

  predicate AfterPush<T>(e: Step<T>) {
    e.Swing? || e.Count? || e.Unlock?
  }

  lemma StepWriters<T>(s: State<T>, e: Step<T>, chain: seq<nat>)
    requires InvWith(s, chain) && Enabled(s, e)
    ensures WritersOk(Apply(s, e), NextChain(s, e, chain))
  {
    hide InvWith, WritersOk, Apply, Enabled;
    if InPush(e) {
      WriterStepWriters(s, e, chain);
    } else if AfterPush(e) {
      SwingStepWriters(s, e, chain);
    } else {
      ReaderStepWriters(s, e, chain);
    }
  }

  lemma WriterStepWriters<T>(s: State<T>, e: Step<T>, chain: seq<nat>)
    requires InvWith(s, chain) && Enabled(s, e) && InPush(e)
    ensures WritersOk(Apply(s, e), chain)
  {
    hide ChainHolds;
  }

  lemma SwingStepWriters<T>(s: State<T>, e: Step<T>, chain: seq<nat>)
    requires InvWith(s, chain) && Enabled(s, e) && AfterPush(e)
    ensures WritersOk(Apply(s, e), NextChain(s, e, chain))
  {
    hide ChainHolds;
  }

  lemma ReaderStepWriters<T>(s: State<T>, e: Step<T>, chain: seq<nat>)
    requires InvWith(s, chain) && Enabled(s, e) && !InPush(e) && !AfterPush(e)
    ensures WritersOk(Apply(s, e), NextChain(s, e, chain))
  {
    hide ChainHolds;
  }

  lemma StepReader<T>(s: State<T>, e: Step<T>, chain: seq<nat>)
    requires InvWith(s, chain) && Enabled(s, e)
    ensures ReaderOk(Apply(s, e), NextChain(s, e, chain))
  {
    hide *;
    if InPush(e) || AfterPush(e) { WriterStepReader(s, e, chain); } else { ReaderStepReader(s, e, chain); }
  }

  lemma WriterStepReader<T>(s: State<T>, e: Step<T>, chain: seq<nat>)
    requires InvWith(s, chain) && Enabled(s, e) && (InPush(e) || AfterPush(e))
    ensures ReaderOk(Apply(s, e), NextChain(s, e, chain))
  {
    hide ChainHolds;
  }

  lemma ReaderStepReader<T>(s: State<T>, e: Step<T>, chain: seq<nat>)
    requires InvWith(s, chain) && Enabled(s, e) && !InPush(e) && !AfterPush(e)
    ensures ReaderOk(Apply(s, e), NextChain(s, e, chain))
  {
    hide ChainHolds;
  }

  lemma StepInv<T>(s: State<T>, e: Step<T>, chain: seq<nat>)
    requires InvWith(s, chain) && Enabled(s, e)
    ensures InvWith(Apply(s, e), NextChain(s, e, chain))
  {
    hide Apply, NextChain, ChainLinks, ChainHolds, WritersOk, ReaderOk;
    StepLinks(s, e, chain);
    StepHolds(s, e, chain);
    StepWriters(s, e, chain);
    StepReader(s, e, chain);
  }

  // ---------- whole executions ----------

  ghost predicate Next<T(!new)>(s: State<T>, s': State<T>) {
    exists e :: Enabled(s, e) && s' == Apply(s, e)
  }

  /** Any interleaving of any number of writers with the one reader. */
  ghost predicate Execution<T(!new)>(run: seq<State<T>>) {
    && |run| > 0 && Init(run[0])
    && forall i :: 0 <= i < |run| - 1 ==> Next(run[i], run[i + 1])
  }

  lemma {:induction false} ExecutionInv<T(!new)>(run: seq<State<T>>, i: nat)
    requires Execution(run) && i < |run|
    ensures Inv(run[i])
    decreases i
  {
    hide Enabled, Apply, Init, InvWith;
    if i == 0 {
      InitInv(run[0]);
    } else {
      ExecutionInv(run, i - 1);
      assert Next(run[i - 1], run[i - 1 + 1]);
      var e :| Enabled(run[i - 1], e) && run[i] == Apply(run[i - 1], e);
      var chain :| InvWith(run[i - 1], chain);
      ChainNotEmpty(run[i - 1], chain);
      StepInv(run[i - 1], e, chain);
    }
  }

  lemma ChainNotEmpty<T>(s: State<T>, chain: seq<nat>)
    requires InvWith(s, chain)
    ensures |chain| > 0
  {}

  /** The queue is FIFO: values leave in the order in which they entered, none lost, none twice. The
      push takes effect at `m_pTail = pNode`, the pop when the node is unlinked. */
  lemma Linearises<T(!new)>(run: seq<State<T>>, i: nat)
    requires Execution(run) && i < |run|
    ensures run[i].popped <= run[i].pushed
    ensures i + 1 < |run| ==>
      var s, s' := run[i], run[i + 1];
      || (s'.pushed == s.pushed && s'.popped == s.popped)
      || (s'.popped == s.popped && exists t :: At(s, t).Written? && s'.pushed == s.pushed + [At(s, t).value])
      || (s'.pushed == s.pushed && |s.popped| < |s.pushed| && s'.popped == s.popped + [s.pushed[|s.popped|]])
  {
    ExecutionInv(run, i);
    var s := run[i];
    var chain :| InvWith(s, chain);
    if i + 1 < |run| {
      assert Next(run[i], run[i + 1]);
      var e :| Enabled(s, e) && run[i + 1] == Apply(s, e);
      StepEffect(s, e, chain);
    }
  }

  lemma StepEffect<T>(s: State<T>, e: Step<T>, chain: seq<nat>)
    requires InvWith(s, chain) && Enabled(s, e)
    ensures var s' := Apply(s, e);
      && (!e.Swing? ==> s'.pushed == s.pushed)
      && (e.Swing? ==> At(s, e.t).Written? && s'.pushed == s.pushed + [At(s, e.t).value])
      && (!e.Unlink? ==> s'.popped == s.popped)
      && (e.Unlink? ==> |s.popped| < |s.pushed| && s'.popped == s.popped + [s.pushed[|s.popped|]])
  {
    if e.Unlink? { assert s.nodes[chain[0]].value == Some(s.pushed[|s.popped| + 0]); }
  }

  /** front() and pop() are safe whenever the reader has grounds for them: the queue is not empty, the first
      node is allocated, and its value is written and is the oldest one not yet popped. */
  lemma FrontIsWritten<T(!new)>(run: seq<State<T>>, i: nat)
    requires Execution(run) && i < |run| && MayPop(run[i])
    ensures var s := run[i];
      && |s.popped| < |s.pushed| && HasFirst(s) && s.nodes[s.head].next.value in s.nodes
      && s.nodes[s.head].next.value != s.tail
      && s.nodes[s.nodes[s.head].next.value].value == Some(s.pushed[|s.popped|])
  {
    ExecutionInv(run, i);
    var s := run[i];
    var chain :| InvWith(s, chain);
    assert chain[0] != chain[|chain| - 1];
    assert s.nodes[chain[0]].value == Some(s.pushed[|s.popped| + 0]);
  }

  /** A reader that took a snapshot of size() and has todo elements of it left never finds fewer in the queue,
      and the counter never goes below zero for it. */
  lemma SnapshotCovers<T(!new)>(run: seq<State<T>>, i: nat)
    requires Execution(run) && i < |run| && run[i].mode.BySize?
    ensures run[i].todo <= |run[i].pushed| - |run[i].popped| && run[i].size >= 0
  {
    ExecutionInv(run, i);
    var chain :| InvWith(run[i], chain);
  }

  /** No statement of a writer in push or of the reader in pop touches a node that is not allocated: each is
      enabled when its thread reaches it, except a writer waiting for the mutex. */
  lemma NoDanglingNode<T(!new)>(run: seq<State<T>>, i: nat, t: nat)
    requires Execution(run) && i < |run|
    ensures var s, w := run[i], At(run[i], t);
      && (w.Allocated? ==> Enabled(s, Clear(t))) && (w.Locked? ==> Enabled(s, Link(t)))
      && (w.Linked? ==> Enabled(s, Write(t)))
      && (s.reader.Decremented? ==> Enabled(s, Find))
      && (s.reader.Found? ==> Enabled(s, Unlink) && s.nodes[s.reader.node].value.Some? && s.nodes[s.reader.node].next.Some?)
      && (s.reader.Unlinked? ==> s.reader.node in s.nodes)
  {
    ExecutionInv(run, i);
    var s := run[i];
    var chain :| InvWith(s, chain);
    if s.reader.Found? {
      assert s.nodes[chain[0]].value == Some(s.pushed[|s.popped| + 0]) && s.nodes[chain[0]].next == Some(chain[0 + 1]);
    }
  }

  /** At rest the counter is the number of elements. */
  lemma SizeAtRest<T(!new)>(run: seq<State<T>>, i: nat)
    requires Execution(run) && i < |run| && run[i].mutex.None? && run[i].reader.Between?
    ensures run[i].size == |run[i].pushed| - |run[i].popped|
  {
    ExecutionInv(run, i);
    var chain :| InvWith(run[i], chain);
  }
}
