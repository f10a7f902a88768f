/**
  The version-tagged lock-free free list of the v1 pool (v1/src/MemoryPool.cpp), as a machine whose
  steps are the single loads, stores and compare-exchanges of any number of threads.  Memory is
  sequentially consistent.  The tag of the head counts its changes; the hardware compares tags
  modulo the word size, and modulus 0 stands for tags that never wrap.
 */
module FreeList {
  import opened Wrappers

  type Slot = nat
  type Tid = nat

  datatype Head = Head(top: Option<Slot>, tag: nat)

  /** Where a thread stands inside pushFreeList or popFreeList, with its local variables. */
  datatype Pc =
    | Idle
    | PushStore(slot: Slot, seen: Head)
    | PushCas(slot: Slot, seen: Head)
    | PopRead(seen: Head)
    | PopCas(seen: Head, next: Option<Slot>)

  /** next holds the first word of every slot ever carved; owned are the slots in client hands. */
  datatype State = State(
    modulus: nat, head: Head, next: map<Slot, Option<Slot>>, threads: map<Tid, Pc>, owned: set<Slot>)
  {
    function At(t: Tid): Pc {
      if t in threads then threads[t] else Idle
    }

    function Move(t: Tid, pc: Pc): State {
      this.(threads := threads[t := pc])
    }

    /** What the double-word compare of the CAS sees. */
    predicate Matches(seen: Head) {
      seen.top == head.top && SameTag(seen.tag, head.tag, modulus)
    }

    /** A successful CAS installs a new top and the next tag. */
    function Swing(t: Tid, top: Option<Slot>): State {
      Move(t, Idle).(head := Head(top, head.tag + 1))
    }
  }

  /** Tags are stored modulo the word size. */
  predicate SameTag(x: nat, y: nat, modulus: nat) {
    if modulus == 0 then x == y else x % modulus == y % modulus
  }

  datatype Action =
    | BeginPush(t: Tid, slot: Slot)
    | StoreNext(t: Tid)
    | TryPush(t: Tid, success: bool)
    | BeginPop(t: Tid)
    | ReadNext(t: Tid)
    | TryPop(t: Tid, success: bool)
    | Scribble(slot: Slot, word: Option<Slot>)
    | Carve(slot: Slot)

  /**
    compare_exchange_weak may fail spuriously but succeeds only on a match; clients free and write
    only what they own; a carved slot has never been seen before.
   */
  predicate Enabled(s: State, a: Action) {
    match a
    case BeginPush(t, x) => s.At(t) == Idle && x in s.owned && x in s.next
    case StoreNext(t) => s.At(t).PushStore? && s.At(t).slot in s.next
    case TryPush(t, ok) => s.At(t).PushCas? && (ok ==> s.Matches(s.At(t).seen))
    case BeginPop(t) => s.At(t) == Idle
    case ReadNext(t) => s.At(t).PopRead? && (s.At(t).seen.top.Some? ==> s.At(t).seen.top.value in s.next)
    case TryPop(t, ok) => s.At(t).PopCas? && s.At(t).seen.top.Some? && (ok ==> s.Matches(s.At(t).seen))
    case Scribble(x, _) => x in s.owned && x in s.next
    case Carve(x) => x !in s.next
  }

  function Step(s: State, a: Action): State
    requires Enabled(s, a)
  {
    match a
    case BeginPush(t, x) => s.Move(t, PushStore(x, s.head)).(owned := s.owned - {x})
    case StoreNext(t) =>
      var pc := s.At(t);
      s.Move(t, PushCas(pc.slot, pc.seen)).(next := s.next[pc.slot := pc.seen.top])
    case TryPush(t, ok) =>
      var pc := s.At(t);
      if ok then s.Swing(t, Some(pc.slot)) else s.Move(t, PushStore(pc.slot, s.head))
    case BeginPop(t) => s.Move(t, PopRead(s.head))
    case ReadNext(t) =>
      var pc := s.At(t);
      if pc.seen.top.None? then s.Move(t, Idle) else s.Move(t, PopCas(pc.seen, s.next[pc.seen.top.value]))
    case TryPop(t, ok) =>
      var pc := s.At(t);
      if ok then s.Swing(t, pc.next).(owned := s.owned + {pc.seen.top.value}) else s.Move(t, PopRead(s.head))
    case Scribble(x, w) => s.(next := s.next[x := w])
    case Carve(x) => s.(next := s.next[x := None], owned := s.owned + {x})
  }

  /** Effects on the sequential stack, at the linearization points. */
  datatype Event = Nothing | Pushed(slot: Slot) | Popped(slot: Slot) | FoundEmpty

  /** An empty pop linearizes where it loads the null head: the first load or the reload of a failed CAS. */
  function EventOf(s: State, a: Action): Event
    requires Enabled(s, a)
  {
    match a
    case TryPush(t, true) => Pushed(s.At(t).slot)
    case TryPop(t, true) => Popped(s.At(t).seen.top.value)
    case TryPop(t, false) => if s.head.top.None? then FoundEmpty else Nothing
    case BeginPop(t) => if s.head.top.None? then FoundEmpty else Nothing
    case _ => Nothing
  }

  predicate StackAllows(stack: seq<Slot>, e: Event) {
    match e
    case Popped(x) => stack != [] && stack[0] == x
    case FoundEmpty => stack == []
    case _ => true
  }

  function StackAfter(stack: seq<Slot>, e: Event): seq<Slot>
    requires StackAllows(stack, e)
  {
    match e
    case Pushed(x) => [x] + stack
    case Popped(x) => stack[1..]
    case _ => stack
  }

  // ---------- the invariant ----------

  /** The words of the slots spell out the stack from the head. */
  ghost predicate Spells(top: Option<Slot>, next: map<Slot, Option<Slot>>, stack: seq<Slot>)
    decreases |stack|
  {
    if stack == [] then top == None
    else top == Some(stack[0]) && stack[0] in next && Spells(next[stack[0]], next, stack[1..])
  }

  /** A loaded head is the current one unless the head has changed since. */
  ghost predicate Loaded(s: State, seen: Head) {
    && seen.tag <= s.head.tag
    && (seen.tag == s.head.tag ==> seen == s.head)
    && (seen.top.Some? ==> seen.top.value in s.next && seen.tag > 0)
  }

  ghost predicate ThreadOk(s: State, pc: Pc) {
    match pc
    case Idle => true
    case PushStore(x, seen) => Loaded(s, seen)
    case PushCas(x, seen) => Loaded(s, seen) && x in s.next && s.next[x] == seen.top
    case PopRead(seen) => Loaded(s, seen)
    case PopCas(seen, n) =>
      Loaded(s, seen) && seen.top.Some? && (seen.tag == s.head.tag ==> n == s.next[seen.top.value])
  }

  predicate Pushing(pc: Pc) {
    pc.PushStore? || pc.PushCas?
  }

  ghost predicate InPush(s: State, x: Slot) {
    exists t :: t in s.threads && Pushing(s.threads[t]) && s.threads[t].slot == x
  }

  /** Every carved slot is on the stack, in client hands, or being pushed by one thread. */
  ghost predicate Placed(s: State, stack: seq<Slot>) {
    && (forall x :: x in stack ==> x !in s.owned)
    && (forall x :: x in s.owned ==> x in s.next)
    && (forall t :: t in s.threads && Pushing(s.threads[t]) ==>
          s.threads[t].slot in s.next && s.threads[t].slot !in s.owned && s.threads[t].slot !in stack)
    && (forall t, u :: t in s.threads && u in s.threads && t != u && Pushing(s.threads[t]) && Pushing(s.threads[u]) ==>
          s.threads[t].slot != s.threads[u].slot)
    && (forall x :: x in s.next ==> x in stack || x in s.owned || InPush(s, x))
  }

  ghost predicate ThreadsOk(s: State) {
    forall t :: t in s.threads ==> ThreadOk(s, s.threads[t])
  }

  ghost predicate Inv(s: State, stack: seq<Slot>) {
    && Spells(s.head.top, s.next, stack) && NoDup(stack) && Loaded(s, s.head)
    && Placed(s, stack) && ThreadsOk(s)
  }

  /** The tag has not wrapped around since it was seen. */
  predicate Fresh(s: State, seen: Head) {
    s.modulus == 0 || s.head.tag < seen.tag + s.modulus
  }

  /** No pop sleeps through a whole wrap-around of the tag between its load and its successful CAS. */
  predicate NoWrap(s: State, a: Action) {
    match a
    case TryPop(t, true) => s.At(t).PopCas? ==> Fresh(s, s.At(t).seen)
    case _ => true
  }

  lemma ModEqualNear(x: nat, y: nat, m: nat)
    requires m > 0 && x <= y < x + m && x % m == y % m
    ensures x == y
  {
    var q := y / m - x / m;
    assert y - x == m * (y / m) - m * (x / m);
    Distribute(m, y / m, x / m);
    if q >= 1 { AtLeast(m, q); } else if q <= -1 { AtLeast(m, -q); }
  }

  lemma Distribute(m: nat, a: int, b: int)
    ensures m * a - m * b == m * (a - b)
  {
  }

  lemma AtLeast(m: nat, q: int)
    requires q >= 1
    ensures m * q >= m
  {
  }

  /**
    The heart of the protocol: a CAS that succeeds means the head never changed since its load, unless the tag wrapped
    around.
   */
  lemma CasMeansUnchanged(s: State, seen: Head)
    requires Loaded(s, seen) && s.Matches(seen)
    ensures seen == s.head <==> Fresh(s, seen)
  {
    if s.modulus > 0 && Fresh(s, seen) { ModEqualNear(seen.tag, s.head.tag, s.modulus); }
  }

  lemma {:induction false} SpellsFrame(top: Option<Slot>,
      next: map<Slot, Option<Slot>>, next': map<Slot, Option<Slot>>, stack: seq<Slot>)
    requires Spells(top, next, stack)
    requires forall x :: x in stack && x in next ==> x in next' && next'[x] == next[x]
    ensures Spells(top, next', stack)
    decreases |stack|
  {
    if stack != [] {
      assert forall x :: x in stack[1..] ==> x in stack;
      assert stack[0] in stack;
      SpellsFrame(next[stack[0]], next, next', stack[1..]);
    }
  }

  /** A step of thread t disturbs only the push of thread t. */
  lemma InPushKept(s: State, s': State, t: Tid, pc: Pc)
    requires s'.threads == s.threads[t := pc]
    ensures forall x :: InPush(s, x) && !(Pushing(s.At(t)) && s.At(t).slot == x) ==> InPush(s', x)
    ensures Pushing(pc) ==> InPush(s', pc.slot)
  {
    forall x | InPush(s, x) && !(Pushing(s.At(t)) && s.At(t).slot == x) ensures InPush(s', x) {
      var u :| u in s.threads && Pushing(s.threads[u]) && s.threads[u].slot == x;
      assert u in s'.threads && s'.threads[u] == s.threads[u];
    }
    assert t in s'.threads && s'.threads[t] == pc;
  }

  // ---------- every step keeps the invariant and refines the sequential stack ----------

  lemma StoreNextKeeps(s: State, stack: seq<Slot>, t: Tid)
    requires Inv(s, stack) && Enabled(s, StoreNext(t))
    ensures Inv(Step(s, StoreNext(t)), stack)
  {
    var x := s.At(t).slot;
    SpellsFrame(s.head.top, s.next, s.next[x := s.At(t).seen.top], stack);
    var s' := Step(s, StoreNext(t));
    InPushKept(s, s', t, s'.At(t));
    forall u | u in s'.threads ensures ThreadOk(s', s'.threads[u]) {
      assert u in s.threads && ThreadOk(s, s.threads[u]);
      TopIsStacked(s, stack);
    }
  }

  lemma TopIsStacked(s: State, stack: seq<Slot>)
    requires Inv(s, stack)
    ensures s.head.top == if stack == [] then None else Some(stack[0])
    ensures stack != [] ==> stack[0] in stack && stack[0] in s.next
  {
  }

  lemma ScribbleKeeps(s: State, stack: seq<Slot>, x: Slot, w: Option<Slot>)
    requires Inv(s, stack) && Enabled(s, Scribble(x, w))
    ensures Inv(Step(s, Scribble(x, w)), stack)
  {
    SpellsFrame(s.head.top, s.next, s.next[x := w], stack);
    TopIsStacked(s, stack);
  }

  lemma CarveKeeps(s: State, stack: seq<Slot>, x: Slot)
    requires Inv(s, stack) && Enabled(s, Carve(x))
    ensures x !in s.owned && x !in stack && Inv(Step(s, Carve(x)), stack)
  {
    SpellsFrame(s.head.top, s.next, s.next[x := None], stack);
    StackCarved(s.head.top, s.next, stack);
  }

  lemma {:induction false} StackCarved(top: Option<Slot>, next: map<Slot, Option<Slot>>, stack: seq<Slot>)
    requires Spells(top, next, stack)
    ensures forall x :: x in stack ==> x in next
    decreases |stack|
  {
    if stack != [] {
      StackCarved(next[stack[0]], next, stack[1..]);
      assert stack == [stack[0]] + stack[1..];
    }
  }

  /** A push is right even if the tag has wrapped around: its slot was linked to the top that the CAS finds. */
  lemma PushKeeps(s: State, stack: seq<Slot>, t: Tid)
    requires Inv(s, stack) && Enabled(s, TryPush(t, true))
    ensures Inv(Step(s, TryPush(t, true)), [s.At(t).slot] + stack)
  {
    hide Placed, InPush;
    var pc := s.At(t);
    assert ThreadOk(s, pc);
    PushPlaced(s, stack, t);
    NotStacked(s, stack, t);
    assert ([pc.slot] + stack)[1..] == stack;
  }

  lemma NotStacked(s: State, stack: seq<Slot>, t: Tid)
    requires Placed(s, stack) && t in s.threads && Pushing(s.threads[t])
    ensures s.threads[t].slot !in stack
  {
  }

  lemma PushPlaced(s: State, stack: seq<Slot>, t: Tid)
    requires Placed(s, stack) && Enabled(s, TryPush(t, true))
    ensures Placed(Step(s, TryPush(t, true)), [s.At(t).slot] + stack)
  {
    hide State.Matches;
    InPushKept(s, Step(s, TryPush(t, true)), t, Idle);
    assert forall x :: x in [s.At(t).slot] + stack <==> x == s.At(t).slot || x in stack;
  }

  lemma PopKeeps(s: State, stack: seq<Slot>, t: Tid)
    requires Inv(s, stack) && Enabled(s, TryPop(t, true)) && NoWrap(s, TryPop(t, true))
    ensures stack != [] && stack[0] == s.At(t).seen.top.value && s.At(t).next == s.next[stack[0]]
    ensures Inv(Step(s, TryPop(t, true)), stack[1..])
  {
    var pc := s.At(t);
    CasMeansUnchanged(s, pc.seen);
    assert forall x :: x in stack[1..] ==> x in stack && x != stack[0];
    assert forall x :: x in stack ==> x == stack[0] || x in stack[1..];
    InPushKept(s, Step(s, TryPop(t, true)), t, Idle);
    TopIsStacked(s, stack);
    StackCarved(s.head.top, s.next, stack);
  }

  /** The steps that neither write memory nor move the head. */
  lemma LocalKeeps(s: State, stack: seq<Slot>, t: Tid, pc: Pc, owned: set<Slot>)
    requires Inv(s, stack) && !Pushing(s.At(t)) && ThreadOk(s, pc)
    requires if Pushing(pc) then pc.slot in s.owned && owned == s.owned - {pc.slot} else owned == s.owned
    ensures Inv(s.Move(t, pc).(owned := owned), stack)
  {
    hide Placed, Spells;
    LocalPlaced(s, stack, t, pc, owned);
  }

  lemma LocalPlaced(s: State, stack: seq<Slot>, t: Tid, pc: Pc, owned: set<Slot>)
    requires Placed(s, stack) && !Pushing(s.At(t))
    requires if Pushing(pc) then pc.slot in s.owned && owned == s.owned - {pc.slot} else owned == s.owned
    ensures Placed(s.Move(t, pc).(owned := owned), stack)
  {
    InPushKept(s, s.Move(t, pc).(owned := owned), t, pc);
  }

  lemma RetryPushKeeps(s: State, stack: seq<Slot>, t: Tid)
    requires Inv(s, stack) && Enabled(s, TryPush(t, false))
    ensures Inv(Step(s, TryPush(t, false)), stack)
  {
    TopIsStacked(s, stack);
    InPushKept(s, Step(s, TryPush(t, false)), t, PushStore(s.At(t).slot, s.head));
  }

  /** Every step acts on the sequential stack as its event says, and keeps the invariant. */
  lemma StepRefines(s: State, stack: seq<Slot>, a: Action)
    requires Inv(s, stack) && Enabled(s, a) && NoWrap(s, a)
    ensures StackAllows(stack, EventOf(s, a))
    ensures Inv(Step(s, a), StackAfter(stack, EventOf(s, a)))
  {
    TopIsStacked(s, stack);
    match a
    case BeginPush(t, x) => LocalKeeps(s, stack, t, PushStore(x, s.head), s.owned - {x});
    case StoreNext(t) => StoreNextKeeps(s, stack, t);
    case TryPush(t, ok) => if ok { PushKeeps(s, stack, t); } else { RetryPushKeeps(s, stack, t); }
    case BeginPop(t) => LocalKeeps(s, stack, t, PopRead(s.head), s.owned);
    case ReadNext(t) => LocalKeeps(s, stack, t, Step(s, a).At(t), s.owned);
    case TryPop(t, ok) => if ok { PopKeeps(s, stack, t); } else { LocalKeeps(s, stack, t, PopRead(s.head), s.owned); }
    case Scribble(x, w) => ScribbleKeeps(s, stack, x, w);
    case Carve(x) => CarveKeeps(s, stack, x);
  }

  // ---------- runs ----------

  predicate EnabledRun(s: State, acts: seq<Action>)
    decreases |acts|
  {
    acts != [] ==> Enabled(s, acts[0]) && EnabledRun(Step(s, acts[0]), acts[1..])
  }

  /** No pop of the run sleeps through a wrap-around. */
  predicate FreshRun(s: State, acts: seq<Action>)
    requires EnabledRun(s, acts)
    decreases |acts|
  {
    acts != [] ==> NoWrap(s, acts[0]) && FreshRun(Step(s, acts[0]), acts[1..])
  }

  function Run(s: State, acts: seq<Action>): State
    requires EnabledRun(s, acts)
    decreases |acts|
  {
    if acts == [] then s else Run(Step(s, acts[0]), acts[1..])
  }

  function Events(s: State, acts: seq<Action>): seq<Event>
    requires EnabledRun(s, acts)
    decreases |acts|
  {
    if acts == [] then [] else [EventOf(s, acts[0])] + Events(Step(s, acts[0]), acts[1..])
  }

  /** The events are a legal history of one sequential stack. */
  ghost predicate Sequential(stack: seq<Slot>, events: seq<Event>)
    decreases |events|
  {
    events != [] ==> StackAllows(stack, events[0]) && Sequential(StackAfter(stack, events[0]), events[1..])
  }

  ghost function Replay(stack: seq<Slot>, events: seq<Event>): seq<Slot>
    requires Sequential(stack, events)
    decreases |events|
  {
    if events == [] then stack else Replay(StackAfter(stack, events[0]), events[1..])
  }

  function Initial(modulus: nat): State {
    State(modulus, Head(None, 0), map[], map[], {})
  }

  lemma InitialOk(modulus: nat)
    ensures Inv(Initial(modulus), [])
  {
  }

  /** Every run linearizes to a sequential stack, and the words in memory spell that stack at its end. */
  lemma {:induction false} RunLinearizes(s: State, stack: seq<Slot>, acts: seq<Action>)
    requires Inv(s, stack) && EnabledRun(s, acts) && FreshRun(s, acts)
    ensures Sequential(stack, Events(s, acts))
    ensures Inv(Run(s, acts), Replay(stack, Events(s, acts)))
    decreases |acts|
  {
    if acts != [] {
      hide Inv, Enabled, Step, EventOf, StackAllows, StackAfter, NoWrap;
      StepRefines(s, stack, acts[0]);
      var rest := Events(Step(s, acts[0]), acts[1..]);
      assert Events(s, acts)[1..] == rest;
      RunLinearizes(Step(s, acts[0]), StackAfter(stack, EventOf(s, acts[0])), acts[1..]);
    }
  }

  // ---------- runs shorter than the tag space ----------

  predicate Swings(a: Action) {
    match a
    case TryPush(_, true) => true
    case TryPop(_, true) => true
    case _ => false
  }

  /** How many compare-and-swaps succeed. */
  function SwingCount(acts: seq<Action>): nat {
    if acts == [] then 0 else (if Swings(acts[0]) then 1 else 0) + SwingCount(acts[1..])
  }

  /** The tag counts the successful compare-and-swaps. */
  lemma {:induction false} TagCounts(s: State, acts: seq<Action>)
    requires EnabledRun(s, acts)
    ensures Run(s, acts).head.tag == s.head.tag + SwingCount(acts) && Run(s, acts).modulus == s.modulus
    decreases |acts|
  {
    if acts != [] {
      hide Enabled, Step, Swings;
      OneSwing(s, acts[0]);
      TagCounts(Step(s, acts[0]), acts[1..]);
    }
  }

  lemma OneSwing(s: State, a: Action)
    requires Enabled(s, a)
    ensures Step(s, a).head.tag == s.head.tag + if Swings(a) then 1 else 0
    ensures Step(s, a).modulus == s.modulus
  {
  }

  lemma PopIsFresh(s: State, stack: seq<Slot>, a: Action)
    requires Inv(s, stack) && Enabled(s, a) && (s.modulus == 0 || !Swings(a) || s.head.tag <= s.modulus)
    ensures NoWrap(s, a)
  {
    match a
    case TryPop(t, true) => assert ThreadOk(s, s.At(t));
    case _ =>
  }

  lemma {:induction false} ShortRunFresh(s: State, stack: seq<Slot>, acts: seq<Action>)
    requires Inv(s, stack) && EnabledRun(s, acts)
    requires s.modulus == 0 || s.head.tag + SwingCount(acts) <= s.modulus + 1
    ensures FreshRun(s, acts)
    decreases |acts|
  {
    if acts != [] {
      hide Inv, Enabled, Step, EventOf, StackAllows, StackAfter, NoWrap, Swings;
      PopIsFresh(s, stack, acts[0]);
      StepRefines(s, stack, acts[0]);
      OneSwing(s, acts[0]);
      ShortRunFresh(Step(s, acts[0]), StackAfter(stack, EventOf(s, acts[0])), acts[1..]);
    }
  }

  /**
    Every run linearizes when tags do not wrap, and with wrapping tags every run in which at most one
    compare-and-swap more succeeds than there are tags.
   */
  lemma ShortRunsLinearize(modulus: nat, acts: seq<Action>)
    requires EnabledRun(Initial(modulus), acts) && (modulus == 0 || SwingCount(acts) <= modulus + 1)
    ensures Sequential([], Events(Initial(modulus), acts))
    ensures Inv(Run(Initial(modulus), acts), Replay([], Events(Initial(modulus), acts)))
  {
    hide Inv;
    InitialOk(modulus);
    ShortRunFresh(Initial(modulus), [], acts);
    RunLinearizes(Initial(modulus), [], acts);
  }

  /** The slot an action hands to its caller. */
  function Granted(s: State, a: Action): Option<Slot>
    requires Enabled(s, a)
  {
    match a
    case TryPop(t, true) => s.At(t).seen.top
    case Carve(x) => Some(x)
    case _ => None
  }

  /** A slot that is handed out has no other owner, is being pushed by nobody, and leaves the stack. */
  lemma HandedOutOnce(s: State, stack: seq<Slot>, a: Action)
    requires Inv(s, stack) && Enabled(s, a) && NoWrap(s, a) && Granted(s, a).Some?
    ensures StackAllows(stack, EventOf(s, a))
    ensures var x := Granted(s, a).value;
      x !in s.owned && !InPush(s, x) && x in Step(s, a).owned && x !in StackAfter(stack, EventOf(s, a))
  {
    StepRefines(s, stack, a);
    StackCarved(s.head.top, s.next, stack);
    match a
    case TryPop(t, true) => PopKeeps(s, stack, t);
    case Carve(x) =>
    case _ =>
  }

  // ---------- the tag bound is needed ----------

  ghost predicate ReachedBy(s: State, acts: seq<Action>) {
    EnabledRun(Initial(s.modulus), acts) && FreshRun(Initial(s.modulus), acts) && Run(Initial(s.modulus), acts) == s
  }

  ghost predicate Reachable(s: State) {
    exists acts :: ReachedBy(s, acts)
  }

  lemma {:induction false} RunAppend(s: State, acts: seq<Action>, a: Action)
    requires EnabledRun(s, acts) && Enabled(Run(s, acts), a)
    ensures EnabledRun(s, acts + [a]) && Run(s, acts + [a]) == Step(Run(s, acts), a)
    ensures Events(s, acts + [a]) == Events(s, acts) + [EventOf(Run(s, acts), a)]
    ensures FreshRun(s, acts) && NoWrap(Run(s, acts), a) ==> FreshRun(s, acts + [a])
    ensures SwingCount(acts + [a]) == SwingCount(acts) + if Swings(a) then 1 else 0
    decreases |acts|
  {
    hide Enabled, Step, NoWrap, Swings, EventOf;
    if acts == [] {
      assert (acts + [a])[1..] == [];
    } else {
      RunAppend(Step(s, acts[0]), acts[1..], a);
      assert (acts + [a])[1..] == acts[1..] + [a];
    }
  }

  lemma ReachStep(s: State, a: Action)
    requires Reachable(s) && Enabled(s, a) && NoWrap(s, a)
    ensures Reachable(Step(s, a))
  {
    OneSwing(s, a);
    hide Enabled, Step, NoWrap;
    var acts :| ReachedBy(s, acts);
    RunAppend(Initial(s.modulus), acts, a);
    assert ReachedBy(Step(s, a), acts + [a]);
  }

  lemma InitialReachable(modulus: nat)
    ensures Reachable(Initial(modulus))
  {
    assert ReachedBy(Initial(modulus), []);
  }

  /** A reachable state in which thread 2 is at rest, and what thread 1 is doing. */
  ghost predicate Scene(s: State, modulus: nat, pc: Pc) {
    Reachable(s) && s.modulus == modulus && s.At(1) == pc && s.At(2) == Idle
  }

  /** Three slots in client hands. */
  lemma ThreeCarved(modulus: nat) returns (s: State)
    ensures Scene(s, modulus, Idle) && s.head == Head(None, 0) && s.owned == {8, 16, 24}
    ensures s.next == map[8 := None, 16 := None, 24 := None]
  {
    hide Reachable;
    s := Initial(modulus);
    InitialReachable(modulus);
    ReachStep(s, Carve(8));
    s := Step(s, Carve(8));
    ReachStep(s, Carve(16));
    s := Step(s, Carve(16));
    ReachStep(s, Carve(24));
    s := Step(s, Carve(24));
  }

  /** A push by thread 2 without interruption. */
  lemma DoPush(s: State, m: nat, pc: Pc, x: Slot) returns (e: State)
    requires Scene(s, m, pc) && x in s.owned && x in s.next
    ensures Scene(e, m, pc) && e.owned == s.owned - {x} && e.next == s.next[x := s.head.top]
    ensures e.head == Head(Some(x), s.head.tag + 1)
  {
    hide Reachable;
    ReachStep(s, BeginPush(2, x));
    var s1 := Step(s, BeginPush(2, x));
    ReachStep(s1, StoreNext(2));
    var s2 := Step(s1, StoreNext(2));
    ReachStep(s2, TryPush(2, true));
    e := Step(s2, TryPush(2, true));
  }

  /** A pop by thread 2 without interruption. */
  lemma DoPop(s: State, m: nat, pc: Pc) returns (e: State)
    requires Scene(s, m, pc) && s.head.top.Some? && s.head.top.value in s.next
    ensures Scene(e, m, pc) && e.owned == s.owned + {s.head.top.value} && e.next == s.next
    ensures e.head == Head(s.next[s.head.top.value], s.head.tag + 1)
  {
    hide Reachable;
    ReachStep(s, BeginPop(2));
    var s1 := Step(s, BeginPop(2));
    ReachStep(s1, ReadNext(2));
    var s2 := Step(s1, ReadNext(2));
    ReachStep(s2, TryPop(2, true));
    e := Step(s2, TryPop(2, true));
  }

  /** Popping the top and pushing it again changes nothing but the tag. */
  lemma {:induction false} Rounds(s: State, m: nat, pc: Pc, k: nat) returns (e: State)
    requires Scene(s, m, pc) && s.head.top.Some? && s.head.top.value in s.next && s.head.top.value !in s.owned
    ensures Scene(e, m, pc) && e.owned == s.owned && e.next == s.next && e.head == Head(s.head.top, s.head.tag + 2 * k)
  {
    hide Scene;
    e := s;
    if k > 0 {
      var x := s.head.top.value;
      e := Rounds(s, m, pc, k - 1);
      e := DoPop(e, m, pc);
      assert e.owned - {x} == s.owned && e.next[x := e.head.top] == s.next;
      e := DoPush(e, m, pc, x);
    }
  }

  /** Thread 1 reads the head and the next slot, and falls asleep before its CAS. */
  lemma FallAsleep(s: State, m: nat) returns (e: State)
    requires Scene(s, m, Idle) && s.head.top.Some? && s.head.top.value in s.next
    ensures Scene(e, m, PopCas(s.head, s.next[s.head.top.value]))
    ensures e.owned == s.owned && e.next == s.next && e.head == s.head
  {
    hide Reachable;
    ReachStep(s, BeginPop(1));
    var s1 := Step(s, BeginPop(1));
    ReachStep(s1, ReadNext(1));
    e := Step(s1, ReadNext(1));
  }

  /** The action is possible, breaks the tag bound, and leaves an owned slot at the head of the list. */
  ghost predicate HandsOwnedSlot(s: State, a: Action) {
    Enabled(s, a) && !NoWrap(s, a) && Step(s, a).head.top.Some? && Step(s, a).head.top.value in Step(s, a).owned
  }

  lemma SameTagAgain(x: nat, m: nat)
    requires m > 0
    ensures SameTag(x, x + m, m)
  {
    var q := x / m;
    assert x + m == m * (q + 1) + x % m;
    ModOf(x + m, m, q + 1, x % m);
  }

  lemma ModOf(n: nat, m: nat, q: nat, r: nat)
    requires r < m && n == m * q + r
    ensures n % m == r
  {
    var q', r' := n / m, n % m;
    assert n == m * q' + r';
    Distribute(m, q, q');
    if q > q' { AtLeast(m, q - q'); } else if q < q' { AtLeast(m, q' - q); }
  }

  /**
    For every number of tag values, the guarantee is lost without the bound: thread 1 sleeps through
    a whole wrap-around, its CAS succeeds, and the head of the list becomes a slot a client owns.
   */
  lemma WrappedTagBreaks(modulus: nat)
    requires modulus > 0
    ensures exists s :: Reachable(s) && s.modulus == modulus && HandsOwnedSlot(s, TryPop(1, true))
  {
    hide Reachable;
    var s := ThreeCarved(modulus);
    s := DoPush(s, modulus, Idle, 8);
    s := DoPush(s, modulus, Idle, 16);
    s := FallAsleep(s, modulus);
    var pc := PopCas(Head(Some(16), 2), Some(8));
    s := DoPop(s, modulus, pc);
    s := DoPop(s, modulus, pc);
    var even := modulus % 2 == 0;
    if even { s := DoPush(s, modulus, pc, 24); }
    s := DoPush(s, modulus, pc, 16);
    var first := if even then 4 else 3;
    s := Rounds(s, modulus, pc, if modulus < first then 0 else (modulus - first) / 2);
    if modulus >= first { SameTagAgain(2, modulus); }
    assert HandsOwnedSlot(s, TryPop(1, true));
  }

  // ---------- the bound on runs is exact ----------

  lemma {:induction false} SequentialSplit(stack: seq<Slot>, a: seq<Event>, b: seq<Event>)
    requires Sequential(stack, a)
    ensures Sequential(stack, a + b) <==> Sequential(Replay(stack, a), b)
    decreases |a|
  {
    hide StackAllows, StackAfter;
    if a == [] {
      assert a + b == b;
    } else {
      assert (a + b)[1..] == a[1..] + b;
      SequentialSplit(StackAfter(stack, a[0]), a[1..], b);
    }
  }

  /** Thread 1 has read a list of one slot; by its CAS, after every tag has come once, the list has more slots. */
  lemma OneSlotSeen(modulus: nat) returns (s: State)
    requires modulus >= 3
    ensures Scene(s, modulus, PopCas(Head(Some(16), 1), None)) && s.head == Head(Some(16), modulus + 1)
    ensures 16 in s.next && s.next[16] == Some(8)
  {
    hide Reachable;
    s := ThreeCarved(modulus);
    s := DoPush(s, modulus, Idle, 16);
    s := FallAsleep(s, modulus);
    var pc := PopCas(Head(Some(16), 1), None);
    s := DoPop(s, modulus, pc);
    var even := modulus % 2 == 0;
    if even { s := DoPush(s, modulus, pc, 24); }
    s := DoPush(s, modulus, pc, 8);
    s := DoPush(s, modulus, pc, 16);
    s := Rounds(s, modulus, pc, if even then (modulus - 4) / 2 else (modulus - 3) / 2);
  }

  /** From there the CAS drops the other slots, and the next pop finds the list empty. */
  lemma LosesSlots(modulus: nat) returns (acts: seq<Action>)
    requires modulus >= 3
    ensures EnabledRun(Initial(modulus), acts) && SwingCount(acts) == modulus + 2
    ensures !Sequential([], Events(Initial(modulus), acts))
  {
    hide Enabled, EnabledRun, FreshRun, Run, Events, Inv, SwingCount, Sequential, Replay, StackAllows, Step, EventOf;
    var s := OneSlotSeen(modulus);
    var init := Initial(modulus);
    var before :| ReachedBy(s, before);
    InitialOk(modulus);
    RunLinearizes(init, [], before);
    TagCounts(init, before);
    var stack := Replay([], Events(init, before));
    var e := LastSteps(s, stack);
    RunAppend(init, before, TryPop(1, true));
    RunAppend(init, before + [TryPop(1, true)], BeginPop(2));
    acts := before + [TryPop(1, true)] + [BeginPop(2)];
    assert Events(init, acts) == Events(init, before) + [Popped(16), FoundEmpty];
    SequentialSplit([], Events(init, before), [Popped(16), FoundEmpty]);
  }

  lemma LastSteps(s: State, stack: seq<Slot>) returns (e: State)
    requires Inv(s, stack) && s.modulus > 0 && s.At(1) == PopCas(Head(Some(16), 1), None) && s.At(2) == Idle
    requires s.head == Head(Some(16), s.modulus + 1) && 16 in s.next && s.next[16] == Some(8)
    ensures Enabled(s, TryPop(1, true)) && e == Step(s, TryPop(1, true)) && EventOf(s, TryPop(1, true)) == Popped(16)
    ensures Enabled(e, BeginPop(2)) && EventOf(e, BeginPop(2)) == FoundEmpty
    ensures !Sequential(stack, [Popped(16), FoundEmpty])
  {
    SameTagAgain(1, s.modulus);
    e := Step(s, TryPop(1, true));
    assert stack != [] && stack[0] == 16 && Spells(s.next[16], s.next, stack[1..]);
    assert stack[1..] != [];
    assert [Popped(16), FoundEmpty][1..] == [FoundEmpty];
  }

  /**
    With at least three tag values, the runs that are sure to linearize are exactly those with at most one swing more
    than tags.
   */
  lemma LinearizesIff(modulus: nat, n: nat)
    requires modulus >= 3
    ensures (forall acts :: EnabledRun(Initial(modulus), acts) && SwingCount(acts) <= n ==>
      Sequential([], Events(Initial(modulus), acts)))
            <==> n <= modulus + 1
  {
    hide EnabledRun, Events, Sequential, SwingCount;
    if n <= modulus + 1 {
      forall acts | EnabledRun(Initial(modulus), acts) && SwingCount(acts) <= n
        ensures Sequential([], Events(Initial(modulus), acts))
      {
        ShortRunsLinearize(modulus, acts);
      }
    } else {
      var acts := LosesSlots(modulus);
    }
  }
}
