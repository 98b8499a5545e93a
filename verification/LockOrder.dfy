/** Lock-order detection: which pairwise inversions a run of lock acquisitions reports. */
module LockOrder {
  type Lock = nat
  type Thread = nat

  /** One acquisition on a thread's stack; the source location is reduced to whether the acquisition may block. */
  datatype Entry = Entry(lock: Lock, blocking: bool)

  type Orders = map<(Lock, Lock), seq<Entry>>

  datatype State = State(orders: Orders, stacks: map<Thread, seq<Entry>>, reported: bool)

  datatype Op = Push(t: Thread, c: Lock, try: bool) | Pop(t: Thread)

  function StackOf(stacks: map<Thread, seq<Entry>>, t: Thread): seq<Entry> {
    if t in stacks then stacks[t] else []
  }

  // ---------------------------------------------------------------- one call

  /** The loop of push_lock from entry `k` on: the orders it leaves, and whether it reports. */
  function Scan(orders: Orders, stack: seq<Entry>, c: Lock, k: nat): (Orders, bool)
    requires k <= |stack|
    decreases |stack| - k
  {
    if k == |stack| || stack[k].lock == c then (orders, false)
    else if (stack[k].lock, c) in orders then Scan(orders, stack, c, k + 1)
    else
      var more := orders[(stack[k].lock, c) := stack];
      if (c, stack[k].lock) in more then (more, true) else Scan(more, stack, c, k + 1)
  }

  function PushLock(s: State, t: Thread, c: Lock, try: bool): State {
    var stack := StackOf(s.stacks, t) + [Entry(c, !try)];
    var stacks := s.stacks[t := stack];
    if try then s.(stacks := stacks)
    else
      var (orders, report) := Scan(s.orders, stack, c, 0);
      State(orders, stacks, s.reported || report)
  }

  /** Popping an empty stack is undefined in the original; here it does nothing. */
  function PopLock(s: State, t: Thread): State {
    var stack := StackOf(s.stacks, t);
    if stack == [] then s else s.(stacks := s.stacks[t := stack[..|stack| - 1]])
  }

  // ---------------------------------------------------------------- whole runs

  function Step(s: State, op: Op): State {
    match op
    case Push(t, c, try) => PushLock(s, t, c, try)
    case Pop(t) => PopLock(s, t)
  }

  const INIT := State(map[], map[], false)

  function Run(ops: seq<Op>): State {
    if ops == [] then INIT else Step(Run(ops[..|ops| - 1]), ops[|ops| - 1])
  }

  /** The locks below the first occurrence of `c`, each paired with `c`. */
  function Below(stack: seq<Entry>, c: Lock): set<(Lock, Lock)> {
    if stack == [] || stack[0].lock == c then {} else {(stack[0].lock, c)} + Below(stack[1..], c)
  }

  /** Pairs (a, b) such that a thread asked for `b`, ready to block, while it held `a` and not yet `b`. */
  function Asked(ops: seq<Op>): set<(Lock, Lock)> {
    if ops == [] then {}
    else
      var before := ops[..|ops| - 1];
      match ops[|ops| - 1]
      case Push(t, c, try) => if try then Asked(before) else Asked(before) + Below(StackOf(Run(before).stacks, t), c)
      case Pop(_) => Asked(before)
  }

  predicate Antisymmetric(pairs: set<(Lock, Lock)>) {
    forall p :: p in pairs ==> (p.1, p.0) !in pairs
  }

  /** What the loop does to the recorded pairs. */
  lemma {:induction false} ScanFacts(orders: Orders, stack: seq<Entry>, c: Lock, k: nat)
    requires k <= |stack|
    ensures var (after, report) := Scan(orders, stack, c, k);
      && orders.Keys <= after.Keys <= orders.Keys + Below(stack[k..], c)
      && (!report ==> after.Keys == orders.Keys + Below(stack[k..], c))
      && (report ==> !Antisymmetric(after.Keys))
      && (!report && Antisymmetric(orders.Keys) ==> Antisymmetric(after.Keys))
    decreases |stack| - k
  {
    if k < |stack| && stack[k].lock != c {
      var a := stack[k].lock;
      assert stack[k..][1..] == stack[k + 1..];
      assert Below(stack[k..], c) == {(a, c)} + Below(stack[k + 1..], c);
      if (a, c) in orders {
        ScanFacts(orders, stack, c, k + 1);
      } else {
        var more := orders[(a, c) := stack];
        assert more.Keys == orders.Keys + {(a, c)};
        if (c, a) in more {
          assert (a, c) in more.Keys;
        } else {
          assert Antisymmetric(orders.Keys) ==> Antisymmetric(more.Keys);
          ScanFacts(more, stack, c, k + 1);
        }
      }
    }
  }

  lemma {:induction false} BelowPushed(stack: seq<Entry>, e: Entry)
    ensures Below(stack + [e], e.lock) == Below(stack, e.lock)
  {
    if stack != [] && stack[0].lock != e.lock {
      assert (stack + [e])[1..] == stack[1..] + [e];
      BelowPushed(stack[1..], e);
    } else if stack == [] {
      assert (stack + [e])[0] == e;
    }
  }

  /**
   Over every run: the recorded pairs were all asked for; while nothing was reported they are exactly the pairs
   asked for and no pair is recorded in both directions; a report means some pair is.
   */
  lemma {:induction false} RecordedPairs(ops: seq<Op>)
    ensures Run(ops).orders.Keys <= Asked(ops)
    ensures !Run(ops).reported ==> Run(ops).orders.Keys == Asked(ops) && Antisymmetric(Asked(ops))
    ensures Run(ops).reported ==> !Antisymmetric(Run(ops).orders.Keys)
  {
    if ops != [] {
      var before := ops[..|ops| - 1];
      RecordedPairs(before);
      match ops[|ops| - 1]
      case Push(t, c, try) =>
        if !try {
          var stack := StackOf(Run(before).stacks, t);
          BelowPushed(stack, Entry(c, true));
          var pushed := stack + [Entry(c, true)];
          ScanFacts(Run(before).orders, pushed, c, 0);
          assert pushed[0..] == pushed;
          Monotone(Run(before).orders.Keys, Run(ops).orders.Keys);
        }
      case Pop(_) =>
    }
  }

  lemma Monotone(p: set<(Lock, Lock)>, q: set<(Lock, Lock)>)
    requires p <= q
    ensures Antisymmetric(q) ==> Antisymmetric(p)
  {
  }

  /** A run reports exactly when some two locks were asked for in both orders. */
  lemma ReportedIffInversion(ops: seq<Op>)
    ensures Run(ops).reported <==> exists a, b :: (a, b) in Asked(ops) && (b, a) in Asked(ops)
  {
    RecordedPairs(ops);
    Monotone(Run(ops).orders.Keys, Asked(ops));
    if !Antisymmetric(Asked(ops)) {
      var p :| p in Asked(ops) && (p.1, p.0) in Asked(ops);
      assert (p.0, p.1) in Asked(ops) && (p.1, p.0) in Asked(ops);
    }
    if a, b :| (a, b) in Asked(ops) && (b, a) in Asked(ops) {
      var p := (a, b);
      assert p in Asked(ops) && (p.1, p.0) in Asked(ops);
      assert !Antisymmetric(Asked(ops));
    }
  }

  /** Entry `q` of the stack is the first acquisition of its lock there, ready to block, above entry `p`. */
  predicate WaitsAbove(stack: seq<Entry>, p: nat, q: nat) {
    p < q < |stack| && stack[q].blocking && forall k :: 0 <= k < q ==> stack[k].lock != stack[q].lock
  }

  lemma {:induction false} BelowHolds(stack: seq<Entry>, c: Lock, p: nat)
    requires p < |stack| && forall k :: 0 <= k < |stack| ==> stack[k].lock != c
    ensures (stack[p].lock, c) in Below(stack, c)
  {
    if p > 0 {
      BelowHolds(stack[1..], c, p - 1);
    }
  }

  /** Whatever a thread's stack shows was asked for at some time in the run. */
  lemma {:induction false} StackWasAsked(ops: seq<Op>, t: Thread, p: nat, q: nat)
    requires WaitsAbove(StackOf(Run(ops).stacks, t), p, q)
    ensures (StackOf(Run(ops).stacks, t)[p].lock, StackOf(Run(ops).stacks, t)[q].lock) in Asked(ops)
  {
    var stack := StackOf(Run(ops).stacks, t);
    var before := ops[..|ops| - 1];
    var prev := StackOf(Run(before).stacks, t);
    if q < |prev| && stack[..q + 1] == prev[..q + 1] {
      assert prev[p] == stack[..q + 1][p] && forall k :: 0 <= k <= q ==> prev[k] == stack[..q + 1][k];
      StackWasAsked(before, t, p, q);
    } else {
      StackGrew(ops, t, q);
      forall k | 0 <= k < q ensures prev[k] == stack[k] {}
      BelowHolds(prev, stack[q].lock, p);
    }
  }

  /** If the last step changed the stack at or below `q`, it pushed entry `q`. */
  lemma StackGrew(ops: seq<Op>, t: Thread, q: nat)
    requires ops != [] && q < |StackOf(Run(ops).stacks, t)|
    ensures var before := ops[..|ops| - 1];
      var stack, prev := StackOf(Run(ops).stacks, t), StackOf(Run(before).stacks, t);
      || (q < |prev| && stack[..q + 1] == prev[..q + 1])
      || (q == |prev| && stack == prev + [stack[q]] && ops[|ops| - 1] == Push(t, stack[q].lock, !stack[q].blocking))
  {
  }

  /** Two threads, each holding a lock that the other one waits for, were reported. */
  lemma DeadlockReported(ops: seq<Op>, t: Thread, p: nat, q: nat, u: Thread, m: nat, n: nat)
    requires WaitsAbove(StackOf(Run(ops).stacks, t), p, q) && WaitsAbove(StackOf(Run(ops).stacks, u), m, n)
    requires StackOf(Run(ops).stacks, t)[p].lock == StackOf(Run(ops).stacks, u)[n].lock
    requires StackOf(Run(ops).stacks, t)[q].lock == StackOf(Run(ops).stacks, u)[m].lock
    ensures Run(ops).reported
  {
    StackWasAsked(ops, t, p, q);
    StackWasAsked(ops, u, m, n);
    ReportedIffInversion(ops);
  }

  /** Cycles of three locks go unreported: each of three threads holds one lock and waits for the next. */
  lemma ThreeCycleUnreported(a: Lock, b: Lock, c: Lock)
    requires a != b && b != c && a != c
    ensures var ops := [Push(0, a, false), Push(1, b, false), Push(2, c, false),
                        Push(0, b, false), Push(1, c, false), Push(2, a, false)];
      && StackOf(Run(ops).stacks, 0) == [Entry(a, true), Entry(b, true)]
      && StackOf(Run(ops).stacks, 1) == [Entry(b, true), Entry(c, true)]
      && StackOf(Run(ops).stacks, 2) == [Entry(c, true), Entry(a, true)]
      && !Run(ops).reported
  {
    hide Run, PushLock;
    RunEmpty();
    FirstLock(INIT, 0, a);
    var o1, s1 := AfterPush([], INIT, 0, a);
    FirstLock(s1, 1, b);
    var o2, s2 := AfterPush(o1, s1, 1, b);
    FirstLock(s2, 2, c);
    var o3, s3 := AfterPush(o2, s2, 2, c);
    RecordsOne(s3, 0, a, b);
    var o4, s4 := AfterPush(o3, s3, 0, b);
    RecordsOne(s4, 1, b, c);
    var o5, s5 := AfterPush(o4, s4, 1, c);
    RecordsOne(s5, 2, c, a);
    var o6, s6 := AfterPush(o5, s5, 2, a);
    assert o6 == [Push(0, a, false), Push(1, b, false), Push(2, c, false),
                  Push(0, b, false), Push(1, c, false), Push(2, a, false)];
  }

  lemma RunEmpty()
    ensures Run([]) == INIT
  {
  }

  lemma AfterPush(ops: seq<Op>, s: State, t: Thread, c: Lock) returns (more: seq<Op>, after: State)
    requires Run(ops) == s
    ensures more == ops + [Push(t, c, false)] && after == PushLock(s, t, c, false) == Run(more)
  {
    more := ops + [Push(t, c, false)];
    assert more[..|ops|] == ops;
    after := PushLock(s, t, c, false);
  }

  /** The first lock of a thread records nothing. */
  lemma FirstLock(s: State, t: Thread, a: Lock)
    requires StackOf(s.stacks, t) == []
    ensures PushLock(s, t, a, false) == s.(stacks := s.stacks[t := [Entry(a, true)]])
  {
    assert StackOf(s.stacks, t) + [Entry(a, true)] == [Entry(a, true)];
  }

  /** The second lock of a thread records one pair, and is silent unless the reverse is recorded. */
  lemma RecordsOne(s: State, t: Thread, a: Lock, b: Lock)
    requires a != b && StackOf(s.stacks, t) == [Entry(a, true)] && (b, a) !in s.orders && !s.reported
    ensures PushLock(s, t, b, false).orders.Keys == s.orders.Keys + {(a, b)} && !PushLock(s, t, b, false).reported
    ensures PushLock(s, t, b, false).stacks == s.stacks[t := [Entry(a, true), Entry(b, true)]]
  {
    var stack := [Entry(a, true)] + [Entry(b, true)];
    assert stack == [Entry(a, true), Entry(b, true)];
    ScanFacts(s.orders, stack, b, 0);
    assert stack[0..] == stack && stack[1..] == [Entry(b, true)];
    assert Below(stack[1..], b) == {};
    assert Below(stack, b) == {(a, b)};
    assert !Scan(s.orders, stack, b, 0).1;
  }

  // ---------------------------------------------------------------- the source's loop

  class LockOrders {
    var lockorders: Orders
    var lockstack: map<Thread, seq<Entry>>
    var reported: bool

    ghost function View(): State
      reads this
    {
      State(lockorders, lockstack, reported)
    }

    constructor ()
      ensures View() == INIT
    {
      lockorders, lockstack, reported := map[], map[], false;
    }

    method EnterCritical(t: Thread, c: Lock, try: bool)
      modifies this
      ensures View() == PushLock(old(View()), t, c, try)
    {
      var stack := StackOf(lockstack, t) + [Entry(c, !try)];
      lockstack := lockstack[t := stack];
      if !try {
        ghost var goal := Scan(lockorders, stack, c, 0);
        var k := 0;
        while k < |stack|
          invariant k <= |stack| && lockstack == old(lockstack)[t := stack] && reported == old(reported)
          invariant Scan(lockorders, stack, c, k) == goal
        {
          if stack[k].lock == c { return; }
          var p1 := (stack[k].lock, c);
          if p1 in lockorders {
            k := k + 1;
            continue;
          }
          lockorders := lockorders[p1 := stack];
          var p2 := (c, stack[k].lock);
          if p2 in lockorders {
            reported := true;
            return;
          }
          k := k + 1;
        }
      }
    }

    method LeaveCritical(t: Thread)
      requires StackOf(lockstack, t) != []
      modifies this
      ensures View() == PopLock(old(View()), t)
    {
      var stack := lockstack[t];
      lockstack := lockstack[t := stack[..|stack| - 1]];
    }

    /** AssertLockHeldInternal: false stands for the abort. */
    method AssertLockHeld(t: Thread, cs: Lock) returns (held: bool)
      ensures held <==> exists k :: 0 <= k < |StackOf(lockstack, t)| && StackOf(lockstack, t)[k].lock == cs
    {
      var stack := StackOf(lockstack, t);
      for k := 0 to |stack|
        invariant forall j :: 0 <= j < k ==> stack[j].lock != cs
      {
        if stack[k].lock == cs { return true; }
      }
      held := false;
    }
  }

  /** Taking a lock again that a thread holds at the bottom of its stack records nothing and reports nothing. */
  lemma RelockSilent(s: State, t: Thread, c: Lock, try: bool)
    requires StackOf(s.stacks, t) != [] && StackOf(s.stacks, t)[0].lock == c
    ensures PushLock(s, t, c, try).orders == s.orders && PushLock(s, t, c, try).reported == s.reported
  {
    assert (StackOf(s.stacks, t) + [Entry(c, !try)])[0] == StackOf(s.stacks, t)[0];
  }
}
