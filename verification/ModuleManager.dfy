// CDataManager: modules installed from a registry of classes, and a sorted event table indexed modulo the number of
// events that has to agree with asking every module.

module ModuleManagers {
  import opened Bytes      // M_TYPE, MSG_TYPE and BYTE are all unsigned char
  import opened Options
  import opened Sequences

  const MAX_MESSAGE_NUM: int := 255

  const MEC_OK := 0
  const MEC_MODULE_NOT_FIND := -2
  const MEC_MODULE_NOT_DEAL_MSG := -4
  const MEC_MODULE_MSG_NOT_REGISTER := -5
  const MEC_MSG_ID_NOT_EVENT := -6

  /** A module object: its run-time class record, when it declares one, and for which messages its map, when it has
      one, holds a handler. */
  datatype Module = Module(runTimeClass: Option<ClassKey>, messageMap: Option<set<Byte>>)
  {
    predicate Handles(msg: Byte) {
      messageMap.Some? && msg in messageMap.value
    }

    /** doRegisterModule enters it for the event. */
    predicate Registers(msg: Byte) {
      runTimeClass.Some? && Handles(msg)
    }
  }

  datatype ClassKey = ClassKey(classID: Byte, priority: Byte)

  /** RunTimeClassEx: create is what CreateObject returns, None for a null pointer. A created object that declares a
      run-time class declares the record it was created from. */
  datatype ClassInfo = ClassInfo(key: ClassKey, create: Option<Module>)
  {
    predicate Declares() {
      create.Some? && create.value.runTimeClass.Some? ==> create.value.runTimeClass.value == key
    }
  }

  datatype Event = Event(priority: Byte, moduleID: Byte)

  /** SModuleEvent::operator<. */
  predicate Less(a: Event, b: Event) {
    if a.priority == b.priority then a.moduleID < b.moduleID else a.priority < b.priority
  }

  ghost predicate Sorted(s: seq<Event>) {
    forall i, j :: 0 <= i < j < |s| ==> Less(s[i], s[j])
  }

  function Numbers(s: seq<Event>): (ns: seq<nat>)
    ensures |ns| == |s| && forall i :: 0 <= i < |s| ==> ns[i] == s[i].moduleID
  {
    seq(|s|, i requires 0 <= i < |s| => s[i].moduleID)
  }

  ghost predicate OnePerModule(s: seq<Event>) {
    Distinct(Numbers(s))
  }

  ghost predicate SameElements(a: seq<Event>, b: seq<Event>) {
    forall x :: x in a <==> x in b
  }

  lemma SameTails(a: seq<Event>, b: seq<Event>)
    requires Sorted(a) && Sorted(b) && SameElements(a, b) && a != [] && b != [] && a[0] == b[0]
    ensures Sorted(a[1..]) && Sorted(b[1..]) && SameElements(a[1..], b[1..])
  {
    assert forall i :: 0 <= i < |a[1..]| ==> a[1..][i] == a[i + 1] != a[0];
    assert forall i :: 0 <= i < |b[1..]| ==> b[1..][i] == b[i + 1] != b[0];
    forall x ensures x in a[1..] <==> x in b[1..] {
      assert x in a <==> x == a[0] || x in a[1..] by { assert a == [a[0]] + a[1..]; }
      assert x in b <==> x == b[0] || x in b[1..] by { assert b == [b[0]] + b[1..]; }
    }
  }

  /** A strictly increasing sequence is determined by its elements. */
  lemma {:induction false} SortedIsUnique(a: seq<Event>, b: seq<Event>)
    requires Sorted(a) && Sorted(b) && SameElements(a, b)
    ensures a == b
    decreases |a|
  {
    BothEmpty(a, b);
    if a != [] {
      SameHead(a, b);
      SameTails(a, b);
      SortedIsUnique(a[1..], b[1..]);
      assert a == [a[0]] + a[1..] && b == [b[0]] + b[1..];
    }
  }

  lemma BothEmpty(a: seq<Event>, b: seq<Event>)
    requires SameElements(a, b)
    ensures a == [] <==> b == []
  {
    if a != [] { NotEmpty(a, b); }
    if b != [] { NotEmpty(b, a); }
  }

  lemma NotEmpty(a: seq<Event>, b: seq<Event>)
    requires SameElements(a, b) && a != []
    ensures b != []
  {
    assert a[0] in a;
    assert a[0] in b;
  }

  lemma SameHead(a: seq<Event>, b: seq<Event>)
    requires Sorted(a) && Sorted(b) && SameElements(a, b) && a != [] && b != []
    ensures a[0] == b[0]
  {
    assert a[0] in a && b[0] in b;
    var i :| 0 <= i < |b| && b[i] == a[0];
    var j :| 0 <= j < |a| && a[j] == b[0];
    var x, y := a[0], b[0];
    assert i > 0 ==> Less(y, x);
    assert j > 0 ==> Less(x, y);
  }

  /** Where e goes in a sorted sequence. */
  function InsertSorted(s: seq<Event>, e: Event): seq<Event> {
    if s == [] then [e]
    else if Less(e, s[0]) then [e] + s
    else [s[0]] + InsertSorted(s[1..], e)
  }

  lemma {:induction false} InsertSortedKeeps(s: seq<Event>, e: Event)
    requires Sorted(s) && forall i :: 0 <= i < |s| ==> s[i].moduleID != e.moduleID
    ensures Sorted(InsertSorted(s, e)) && SameElements(InsertSorted(s, e), s + [e])
    ensures |InsertSorted(s, e)| == |s| + 1
  {
    if s != [] && !Less(e, s[0]) {
      InsertSortedKeeps(s[1..], e);
      var rest := InsertSorted(s[1..], e);
      assert s == [s[0]] + s[1..];
      forall i | 0 <= i < |rest| ensures Less(s[0], rest[i]) {
        assert rest[i] in s[1..] + [e];
        if rest[i] != e {
          var j :| 0 <= j < |s[1..]| && s[1..][j] == rest[i];
          assert s[j + 1] == rest[i];
        }
      }
    }
  }

  /** std::sort, for the vectors of one event. */
  method Sort(v: seq<Event>) returns (s: seq<Event>)
    requires OnePerModule(v)
    ensures Sorted(s) && SameElements(s, v) && |s| == |v|
  {
    s := [];
    for i := 0 to |v|
      invariant Sorted(s) && SameElements(s, v[..i]) && |s| == i
    {
      forall k | 0 <= k < |s| ensures s[k].moduleID != v[i].moduleID {
        assert s[k] in s && s[k] in v[..i];
      }
      InsertSortedKeeps(s, v[i]);
      s := InsertSorted(s, v[i]);
      assert v[..i + 1] == v[..i] + [v[i]];
    }
    assert v[..|v|] == v;
  }

  // ---------- what the registry installs ----------

  /** The module in slot id: of the first class in the registry with that number whose object could be made. */
  function Slot(rs: seq<ClassInfo>, id: int): Option<Module> {
    if rs == [] then None
    else
      var n := |rs| - 1;
      if Slot(rs[..n], id).Some? then Slot(rs[..n], id)
      else if rs[n].key.classID == id then rs[n].create
      else None
  }

  ghost predicate FirstFor(rs: seq<ClassInfo>, id: int, k: nat) {
    && k < |rs| && rs[k].key.classID == id && rs[k].create.Some?
    && forall j :: 0 <= j < k ==> !(rs[j].key.classID == id && rs[j].create.Some?)
  }

  lemma {:induction false} SlotIsFirst(rs: seq<ClassInfo>, id: int)
    ensures Slot(rs, id).None? <==> forall j :: 0 <= j < |rs| ==> !(rs[j].key.classID == id && rs[j].create.Some?)
    ensures Slot(rs, id).Some? ==> exists k: nat :: FirstFor(rs, id, k) && Slot(rs, id) == rs[k].create
  {
    if rs != [] {
      var n := |rs| - 1;
      SlotIsFirst(rs[..n], id);
      assert forall j :: 0 <= j < n ==> rs[..n][j] == rs[j];
      if Slot(rs[..n], id).Some? {
        var k: nat :| FirstFor(rs[..n], id, k) && Slot(rs[..n], id) == rs[..n][k].create;
        assert FirstFor(rs, id, k);
      } else if Slot(rs, id).Some? {
        assert FirstFor(rs, id, n);
      }
    }
  }

  /** The record is installed when the registry has been read up to it. */
  predicate Installs(before: seq<ClassInfo>, r: ClassInfo, moduleNum: int) {
    r.create.Some? && r.key.classID < moduleNum && Slot(before, r.key.classID).None?
  }

  /** The vector of event e as it grows while the registry is read. */
  function Registered(rs: seq<ClassInfo>, moduleNum: int, e: Byte): seq<Event> {
    if rs == [] then []
    else
      var n := |rs| - 1;
      Registered(rs[..n], moduleNum, e)
      + if Installs(rs[..n], rs[n], moduleNum) && rs[n].create.value.Registers(e)
        then [Event(rs[n].key.priority, rs[n].key.classID)] else []
  }

  ghost predicate AllDeclare(rs: seq<ClassInfo>) {
    forall i :: 0 <= i < |rs| ==> rs[i].Declares()
  }

  /** The module with this number and priority is installed and has a handler for e. */
  predicate Wants(rs: seq<ClassInfo>, moduleNum: int, e: Byte, x: Event) {
    && x.moduleID < moduleNum
    && Slot(rs, x.moduleID).Some?
    && var m := Slot(rs, x.moduleID).value;
      m.Registers(e) && m.runTimeClass.value == ClassKey(x.moduleID, x.priority)
  }

  /** The table holds exactly the installed modules that have a handler, each once. */
  lemma {:induction false} RegisteredExactly(rs: seq<ClassInfo>, moduleNum: int, e: Byte)
    requires AllDeclare(rs)
    ensures forall x :: x in Registered(rs, moduleNum, e) <==> Wants(rs, moduleNum, e, x)
    ensures OnePerModule(Registered(rs, moduleNum, e))
  {
    if rs != [] {
      var n := |rs| - 1;
      RegisteredExactly(rs[..n], moduleNum, e);
      var before, r := Registered(rs[..n], moduleNum, e), rs[n];
      forall x ensures x in Registered(rs, moduleNum, e) <==> Wants(rs, moduleNum, e, x) {
        assert x in before <==> Wants(rs[..n], moduleNum, e, x);
      }
      forall i, j | 0 <= i < j < |Registered(rs, moduleNum, e)|
        ensures Registered(rs, moduleNum, e)[i].moduleID != Registered(rs, moduleNum, e)[j].moduleID
      {
        if j == |before| {
          assert before[i] in before;
        }
      }
    }
  }

  // ---------- the index of an event ----------

  /** Two numbers less than n apart leave different remainders. */
  lemma ModuloInjective(a: nat, b: nat, n: nat)
    requires a < b < a + n
    ensures a % n != b % n
  {
    var p, q := a / n, b / n;
    assert a == n * p + a % n && b == n * q + b % n;
    Multiple(n, q - p);
    assert n * (q - p) == n * q - n * p;
  }

  lemma Multiple(n: nat, k: int)
    ensures k >= 1 ==> n * k >= n
    ensures k <= 0 ==> n * k <= 0
  {}

  /** ID_TO_INDEX. */
  function Index(id: int, size: nat): (i: nat)
    requires id >= 0 && size > 0
    ensures i < size
  {
    id % size
  }

  lemma IndexInjective(a: Byte, b: Byte, start: Byte, end: Byte)
    requires start < a < end && start < b < end && a != b
    ensures Index(a, end - start - 1) != Index(b, end - start - 1)
  {
    if a < b { ModuloInjective(a, b, end - start - 1); } else { ModuloInjective(b, a, end - start - 1); }
  }

  // ---------- asking every module ----------

  /** The modules of one priority with a handler for e, in the order of their numbers. */
  function Scan(rs: seq<ClassInfo>, n: nat, e: Byte, priority: Byte): seq<Event>
    requires n <= 256
  {
    if n == 0 then []
    else
      var x := Event(priority, n - 1);
      Scan(rs, n - 1, e, priority) + if Wants(rs, n, e, x) then [x] else []
  }

  /** The naive dispatch order: every priority in turn, and for each every module. */
  function Naive(rs: seq<ClassInfo>, moduleNum: nat, e: Byte, priorities: nat): seq<Event>
    requires moduleNum <= 256 && priorities <= 256
  {
    if priorities == 0 then []
    else Naive(rs, moduleNum, e, priorities - 1) + Scan(rs, moduleNum, e, priorities - 1)
  }

  lemma {:induction false} ScanExactly(rs: seq<ClassInfo>, n: nat, e: Byte, priority: Byte)
    requires n <= 256
    ensures forall x :: x in Scan(rs, n, e, priority) <==> x.priority == priority && Wants(rs, n, e, x)
    ensures Sorted(Scan(rs, n, e, priority))
  {
    if n > 0 {
      ScanExactly(rs, n - 1, e, priority);
      var before, all := Scan(rs, n - 1, e, priority), Scan(rs, n, e, priority);
      forall x ensures x in all <==> x.priority == priority && Wants(rs, n, e, x) {
        assert x in before <==> x.priority == priority && Wants(rs, n - 1, e, x);
      }
      forall i, j | 0 <= i < j < |all| ensures Less(all[i], all[j]) {
        if j == |before| { assert before[i] in before; }
      }
    }
  }

  lemma {:induction false} NaiveExactly(rs: seq<ClassInfo>, moduleNum: nat, e: Byte, priorities: nat)
    requires moduleNum <= 256 && priorities <= 256
    ensures forall x :: x in Naive(rs, moduleNum, e, priorities) <==> x.priority < priorities && Wants(rs, moduleNum, e, x)
    ensures Sorted(Naive(rs, moduleNum, e, priorities))
  {
    if priorities > 0 {
      NaiveExactly(rs, moduleNum, e, priorities - 1);
      ScanExactly(rs, moduleNum, e, priorities - 1);
      var before, now := Naive(rs, moduleNum, e, priorities - 1), Scan(rs, moduleNum, e, priorities - 1);
      forall x, y | x in before && y in now ensures Less(x, y) {}
      SortedConcat(before, now);
    }
  }

  lemma SortedConcat(a: seq<Event>, b: seq<Event>)
    requires Sorted(a) && Sorted(b) && forall x, y :: x in a && y in b ==> Less(x, y)
    ensures Sorted(a + b)
  {
    var all := a + b;
    forall i, j | 0 <= i < j < |all| ensures Less(all[i], all[j]) {
      assert all[i] == if i < |a| then a[i] else b[i - |a|];
      assert all[j] == if j < |a| then a[j] else b[j - |a|];
    }
  }

  /** A sorted vector of exactly the modules that want the event is the naive dispatch order. */
  lemma TableIsNaive(rs: seq<ClassInfo>, moduleNum: nat, e: Byte, table: seq<Event>)
    requires moduleNum <= 255 && AllDeclare(rs) && Sorted(table) && SameElements(table, Registered(rs, moduleNum, e))
    ensures table == Naive(rs, moduleNum, e, 256)
    ensures |table| <= moduleNum && forall i :: 0 <= i < |table| ==> Wants(rs, moduleNum, e, table[i])
  {
    RegisteredExactly(rs, moduleNum, e);
    NaiveExactly(rs, moduleNum, e, 256);
    SortedIsUnique(table, Naive(rs, moduleNum, e, 256));
    forall i | 0 <= i < |table| ensures Wants(rs, moduleNum, e, table[i]) {
      assert table[i] in table;
    }
    AtMostOneEach(table, moduleNum);
  }

  lemma AtMostOneEach(table: seq<Event>, n: nat)
    requires Distinct(Numbers(table)) && forall i :: 0 <= i < |table| ==> table[i].moduleID < n
    ensures |table| <= n
  {
    DistinctBelow(Numbers(table), n);
  }

  lemma SmallIndex(id: Byte, n: Byte)
    requires n > 0
    ensures id < n ==> Index(id, n) == id
  {
    if id < n { Remainder(id, 0, id, n); }
  }

  // ---------- the manager ----------

  /** What registering a module adds to the vector of e. */
  function Entry(m: Module, e: Byte): seq<Event> {
    if m.Registers(e) then [Event(m.runTimeClass.value.priority, m.runTimeClass.value.classID)] else []
  }

  lemma RegisteredSnoc(rs: seq<ClassInfo>, r: ClassInfo, moduleNum: int, e: Byte)
    requires r.Declares()
    ensures Registered(rs + [r], moduleNum, e) ==
      Registered(rs, moduleNum, e) + if Installs(rs, r, moduleNum) then Entry(r.create.value, e) else []
  {
    assert (rs + [r])[..|rs|] == rs;
  }

  lemma SlotSnoc(rs: seq<ClassInfo>, r: ClassInfo, id: int)
    ensures Slot(rs + [r], id) == if Slot(rs, id).None? && r.key.classID == id then r.create else Slot(rs, id)
  {
    assert (rs + [r])[..|rs|] == rs;
  }

  /** A call of SendMsg: on which module, with which message. */
  datatype Sent = Sent(moduleID: Byte, msg: Byte)

  function Calls(order: seq<Event>, msg: Byte): seq<Sent> {
    seq(|order|, i requires 0 <= i < |order| => Sent(order[i].moduleID, msg))
  }

  /** SendMsg of DECLARE_BASE_EX, up to the handler: the error code, or None when the handler is called. */
  function SendError(m: Module, msg: Byte): Option<int> {
    if m.messageMap.None? then Some(MEC_MODULE_NOT_DEAL_MSG)
    else if msg !in m.messageMap.value then Some(MEC_MODULE_MSG_NOT_REGISTER)
    else None
  }

  class CDataManager {
    const MODULE_NUM: Byte
    const eventStart: Byte
    const eventEnd: Byte
    const modules: array<Option<Module>>
    const moduleEvent: array<seq<Event>>
    /** The classes this manager was built from, as far as they have been read. */
    ghost var registry: seq<ClassInfo>

    predicate Shape() {
      && 0 < MODULE_NUM < 256 && eventStart + 1 < eventEnd < 256
      && modules.Length == MODULE_NUM && moduleEvent.Length == eventEnd - eventStart - 1
    }

    function EVENT_NUM(): (n: nat)
      requires Shape()
      ensures n == moduleEvent.Length > 0
    {
      eventEnd - eventStart - 1
    }

    predicate IsEvent(e: Byte) {
      eventStart < e < eventEnd
    }

    /** The vector of an event. */
    function Table(e: Byte): seq<Event>
      requires Shape() && IsEvent(e)
      reads moduleEvent
    {
      moduleEvent[Index(e, EVENT_NUM())]
    }

    ghost predicate SlotsHold()
      requires Shape()
      reads this, modules
    {
      forall id :: 0 <= id < MODULE_NUM ==> modules[id] == Slot(registry, id)
    }

    ghost predicate Valid()
      reads this, modules, moduleEvent
    {
      && Shape() && AllDeclare(registry) && SlotsHold()
      && forall e: Byte :: IsEvent(e) ==> Sorted(Table(e)) && SameElements(Table(e), Registered(registry, MODULE_NUM, e))
    }

    /** Enters a module into the vectors of its events. */
    method DoRegisterModule(m: Module) returns (ok: bool)
      requires Shape()
      modifies moduleEvent
      ensures ok == (m.runTimeClass.Some? && m.messageMap.Some?)
      ensures forall e: Byte :: IsEvent(e) ==> Table(e) == old(Table(e)) + Entry(m, e)
    {
      if m.runTimeClass.None? {
        return false;
      }
      if m.messageMap.None? {
        return false;
      }
      var x := Event(m.runTimeClass.value.priority, m.runTimeClass.value.classID);
      var i: Byte := eventStart + 1;
      while i < eventEnd
        invariant eventStart < i <= eventEnd
        invariant forall e: Byte :: IsEvent(e) ==> Table(e) == old(Table(e)) + (if e < i then Entry(m, e) else [])
      {
        if i in m.messageMap.value {
          var et := Index(i, EVENT_NUM());
          forall e: Byte | IsEvent(e) && e != i ensures Index(e, EVENT_NUM()) != et {
            IndexInjective(e, i, eventStart, eventEnd);
          }
          moduleEvent[et] := moduleEvent[et] + [x];
        }
        i := i + 1;
      }
      return true;
    }

    constructor (moduleMaxNum: Byte, eventStart: Byte, eventEnd: Byte, classes: seq<ClassInfo>)
      requires 0 < moduleMaxNum <= 255 && eventStart + 1 < eventEnd <= MAX_MESSAGE_NUM && AllDeclare(classes)
      ensures Valid() && registry == classes
      ensures MODULE_NUM == moduleMaxNum && this.eventStart == eventStart && this.eventEnd == eventEnd
      ensures fresh(modules) && fresh(moduleEvent)
    {
      MODULE_NUM := moduleMaxNum;
      this.eventStart := eventStart;
      this.eventEnd := eventEnd;
      modules := new Option<Module>[moduleMaxNum](_ => None);
      moduleEvent := new seq<Event>[eventEnd - eventStart - 1](_ => []);
      registry := [];
      new;
      ReadRegistry(classes);
      SortTables();
    }

    /** The constructor's walk along the chain of classes. */
    method ReadRegistry(classes: seq<ClassInfo>)
      requires Shape() && registry == [] && AllDeclare(classes)
      requires SlotsHold() && forall e: Byte :: IsEvent(e) ==> Table(e) == []
      modifies this`registry, modules, moduleEvent
      ensures registry == classes && SlotsHold()
      ensures forall e: Byte :: IsEvent(e) ==> Table(e) == Registered(classes, MODULE_NUM, e)
    {
      for k := 0 to |classes|
        invariant registry == classes[..k] && SlotsHold()
        invariant forall e: Byte :: IsEvent(e) ==> Table(e) == Registered(classes[..k], MODULE_NUM, e)
      {
        assert classes[..k + 1] == classes[..k] + [classes[k]];
        ReadClass(classes[k]);
      }
      assert classes[..|classes|] == classes;
    }

    /** One turn of that walk. */
    method ReadClass(it: ClassInfo)
      requires Shape() && it.Declares() && SlotsHold()
      requires forall e: Byte :: IsEvent(e) ==> Table(e) == Registered(registry, MODULE_NUM, e)
      modifies this`registry, modules, moduleEvent
      ensures registry == old(registry) + [it] && SlotsHold()
      ensures forall e: Byte :: IsEvent(e) ==> Table(e) == Registered(registry, MODULE_NUM, e)
    {
      hide Slot, Registered, Index, Entry;
      ghost var before := registry;
      var index := Index(it.key.classID, MODULE_NUM);
      SmallIndex(it.key.classID, MODULE_NUM);
      forall id: int ensures Slot(before + [it], id) ==
        if Slot(before, id).None? && it.key.classID == id then it.create else Slot(before, id)
      {
        SlotSnoc(before, it, id);
      }
      forall e: Byte ensures Registered(before + [it], MODULE_NUM, e) ==
        Registered(before, MODULE_NUM, e) + if Installs(before, it, MODULE_NUM) then Entry(it.create.value, e) else []
      {
        RegisteredSnoc(before, it, MODULE_NUM, e);
      }
      if it.create.Some? && it.key.classID < MODULE_NUM && modules[index].None? {
        modules[index] := it.create;
        var _ := DoRegisterModule(it.create.value);
      }
      registry := registry + [it];
    }

    /** The constructor's last loop. */
    method SortTables()
      requires Shape() && AllDeclare(registry) && SlotsHold()
      requires forall e: Byte :: IsEvent(e) ==> Table(e) == Registered(registry, MODULE_NUM, e)
      modifies moduleEvent
      ensures Valid()
    {
      var i := 0;
      while i < EVENT_NUM()
        invariant i <= EVENT_NUM()
        invariant forall e: Byte :: IsEvent(e) && Index(e, EVENT_NUM()) < i ==>
          Sorted(Table(e)) && SameElements(Table(e), Registered(registry, MODULE_NUM, e))
        invariant forall e: Byte :: IsEvent(e) && Index(e, EVENT_NUM()) >= i ==> Table(e) == Registered(registry, MODULE_NUM, e)
      {
        EventAt(i);
        ghost var e: Byte :| IsEvent(e) && Index(e, EVENT_NUM()) == i;
        RegisteredExactly(registry, MODULE_NUM, e);
        var sorted := Sort(moduleEvent[i]);
        moduleEvent[i] := sorted;
        forall f: Byte | IsEvent(f) && f != e ensures Index(f, EVENT_NUM()) != i {
          IndexInjective(e, f, eventStart, eventEnd);
        }
        i := i + 1;
      }
    }

    function GetModuleByID(moduleID: Byte): Option<Module>
      requires Shape()
      reads modules
    {
      modules[Index(moduleID, MODULE_NUM)]
    }

    /** dispatchMessage up to the handler: the error code, or None when the module's handler is called. A number
        past the last slot wraps around to one of the slots. */
    method DispatchMessage(moduleID: Byte, msgID: Byte) returns (error: Option<int>)
      requires Valid() && msgID < MAX_MESSAGE_NUM
      ensures var m := Slot(registry, Index(moduleID, MODULE_NUM));
        error == if m.None? then Some(MEC_MODULE_NOT_FIND) else SendError(m.value, msgID)
    {
      var m := GetModuleByID(moduleID);
      if m.None? {
        return Some(MEC_MODULE_NOT_FIND);
      }
      error := SendError(m.value, msgID);
    }

    /** Notifies an event: every installed module with a handler for it is called, each once, in the order a scan of
        all priorities and all modules would find them. No call fails and the loop counter, a byte, does not wrap. */
    method AllModuleExcEvent(msgID: Byte) returns (code: int, calls: seq<Sent>)
      requires Valid()
      ensures !IsEvent(msgID) ==> code == MEC_MSG_ID_NOT_EVENT && calls == []
      ensures IsEvent(msgID) ==> code == MEC_OK && calls == Calls(Naive(registry, MODULE_NUM, msgID, 256), msgID)
      ensures forall i :: 0 <= i < |calls| ==>
        var m := Slot(registry, Index(calls[i].moduleID, MODULE_NUM)); m.Some? && SendError(m.value, msgID).None?
    {
      hide Slot, Registered, Naive, Index;
      calls := [];
      if msgID <= eventStart || msgID >= eventEnd {
        return MEC_MSG_ID_NOT_EVENT, [];
      }
      var eventModule := moduleEvent[Index(msgID, EVENT_NUM())];
      assert eventModule == Table(msgID);
      TableIsNaive(registry, MODULE_NUM, msgID, eventModule);
      var i: Byte := 0;
      while i < |eventModule|
        invariant i <= |eventModule| <= MODULE_NUM && calls == Calls(eventModule[..i], msgID)
        invariant forall k :: 0 <= k < i ==> calls[k].moduleID == eventModule[k].moduleID
        decreases |eventModule| - i
      {
        var refData := eventModule[i];
        SmallIndex(refData.moduleID, MODULE_NUM);
        var m := GetModuleByID(refData.moduleID);
        assert Wants(registry, MODULE_NUM, msgID, refData) && m.Some? && SendError(m.value, msgID).None?;
        calls := calls + [Sent(refData.moduleID, msgID)];
        i := (i + 1) % 256;
      }
      code := MEC_OK;
      assert eventModule[..|eventModule|] == eventModule;
      forall k | 0 <= k < |calls|
        ensures var m := Slot(registry, Index(calls[k].moduleID, MODULE_NUM)); m.Some? && SendError(m.value, msgID).None?
      {
        assert Wants(registry, MODULE_NUM, msgID, eventModule[k]);
        SmallIndex(eventModule[k].moduleID, MODULE_NUM);
      }
    }

    /** Every vector belongs to an event. */
    lemma EventAt(i: nat)
      requires Shape() && i < EVENT_NUM()
      ensures exists e: Byte :: IsEvent(e) && Index(e, EVENT_NUM()) == i
    {
      var n := EVENT_NUM();
      var first := eventStart + 1;
      var r := first % n;
      var e: Byte := if i >= r then first + (i - r) else first + (i - r + n);
      SameRemainder(first, i - r, n);
      SameRemainder(first, i - r + n, n);
      assert IsEvent(e) && Index(e, n) == i;
    }
  }

  lemma SameRemainder(a: nat, k: int, n: nat)
    requires n > 0 && 0 <= a % n + k < 2 * n
    ensures a + k >= 0 ==> (a + k) % n == if a % n + k < n then a % n + k else a % n + k - n
  {
    var q := a / n;
    assert a == n * q + a % n;
    var r := if a % n + k < n then a % n + k else a % n + k - n;
    var p := if a % n + k < n then q else q + 1;
    assert a + k == n * p + r by { assert n * (q + 1) == n * q + n; }
    Remainder(a + k, p, r, n);
  }

  lemma Remainder(x: int, q: int, r: nat, n: nat)
    requires x == n * q + r && r < n
    ensures x % n == r
  {
    var p := x / n;
    assert x == n * p + x % n;
    assert n * (p - q) == r - x % n by { assert n * (p - q) == n * p - n * q; }
    Multiple(n, p - q);
    Multiple(n, q - p);
    assert n * (q - p) == -(n * (p - q));
  }
}
