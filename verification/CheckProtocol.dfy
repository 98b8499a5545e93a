/** The protocol the threads of the verification queue form, and what Wait may conclude from it. */
module CheckProtocol {
  // One step per critical section, per executed check, and per wake-up. Thread 0 is the master; any number of workers
  // run beside it. Everything below holds of every state reachable in every interleaving.
  import opened Common
  import opened CheckQueue

  /** Where a thread is. A batch stays with its thread until the thread accounts for it in its next critical section. */
  datatype Thread =
    | Outside                                            // not in Loop
    | Entering                                           // about to take the mutex for the first time
    | Running(batch: seq<Check>, done: nat, ok: bool)    // executing; `done` checks of the batch are behind it
    | Waiting                                            // blocked on its condition variable
    | Woken                                              // notified (or spuriously woken), about to retake the mutex

  /** What has happened in the round so far: checks added, checks accounted for, checks actually run. */
  datatype History = History(added: multiset<Check>, accounted: multiset<Check>, ran: multiset<Check>)

  datatype State = State(shared: Shared, threads: seq<Thread>, h: History, verdict: Option<bool>)

  datatype Event =
    | Add(checks: seq<Check>, wake: nat)   // by the master, outside Wait; `wake` is the worker notify_one picks
    | Enter(t: nat)                        // a thread calls Loop; the master by calling Wait
    | Crit(t: nat)                         // a critical section of Loop
    | Exec(t: nat)                         // one check of a batch
    | Spurious(t: nat)                     // a spurious wake-up

  function Init(batchSize: nat, workers: nat): State {
    State(Shared([], 0, 0, true, 0, false, batchSize), seq(workers + 1, _ => Outside),
          History(multiset{}, multiset{}, multiset{}), None)
  }

  predicate Ready(t: Thread) {
    t.Entering? || t.Woken? || (t.Running? && t.done == |t.batch|)
  }

  function EntryOf(t: Thread): Entry
    requires Ready(t)
  {
    match t
    case Entering => First
    case Woken => AfterWait
    case Running(batch, _, ok) => AfterBatch(|batch|, ok)
  }

  /** notify_one picks a waiting worker if there is one. */
  predicate WakeChoice(threads: seq<Thread>, wake: nat) {
    (exists t :: 1 <= t < |threads| && threads[t].Waiting?) ==> 1 <= wake < |threads| && threads[wake].Waiting?
  }

  predicate Enabled(s: State, e: Event) {
    match e
    case Add(checks, wake) => |s.threads| > 0 && s.threads[0].Outside? && (|checks| == 1 ==> WakeChoice(s.threads, wake))
    case Enter(t) => t < |s.threads| && s.threads[t].Outside?
    case Crit(t) => t < |s.threads| && Ready(s.threads[t])
    case Exec(t) => t < |s.threads| && s.threads[t].Running? && s.threads[t].done < |s.threads[t].batch|
    case Spurious(t) => t < |s.threads| && s.threads[t].Waiting?
  }

  function WakeOne(threads: seq<Thread>, t: nat): seq<Thread> {
    if t < |threads| && threads[t].Waiting? then threads[t := Woken] else threads
  }

  function WakeWorkers(threads: seq<Thread>): (r: seq<Thread>)
    ensures |r| == |threads|
  {
    seq(|threads|, t requires 0 <= t < |threads| => if t > 0 && threads[t].Waiting? then Woken else threads[t])
  }

  function AfterAdd(threads: seq<Thread>, count: nat, wake: nat): seq<Thread> {
    if count == 0 then threads else if count == 1 && wake > 0 then WakeOne(threads, wake)
    else if count == 1 then threads else WakeWorkers(threads)
  }

  function Place(outcome: Outcome): Thread {
    match outcome
    case Return(_) => Outside
    case Wait => Waiting
    case Work(batch, ok) => Running(batch, 0, ok)
  }

  function Accounted(t: Thread): multiset<Check> {
    if t.Running? then multiset(t.batch) else multiset{}
  }

  function Next(s: State, e: Event): State
    requires Inv(s) && Enabled(s, e)
  {
    match e
    case Add(checks, wake) =>
      s.(shared := s.shared.(queue := s.shared.queue + checks, todo := s.shared.todo + |checks|),
         threads := AfterAdd(s.threads, |checks|, wake),
         h := s.h.(added := s.h.added + multiset(checks)))
    case Enter(t) => s.(threads := s.threads[t := Entering])
    case Exec(t) =>
      var Running(batch, done, ok) := s.threads[t];
      s.(threads := s.threads[t := Running(batch, done + 1, ok && batch[done].passes)],
         h := if ok then s.h.(ran := s.h.ran + multiset{batch[done]}) else s.h)
    case Spurious(t) => s.(threads := s.threads[t := Woken])
    case Crit(t) =>
      CritTotals(s, t);
      var turn := Critical(s.shared, t == 0, EntryOf(s.threads[t]));
      var threads := s.threads[t := Place(turn.outcome)];
      var accounted := s.h.accounted + Accounted(s.threads[t]);
      if t == 0 && turn.outcome.Return? then
        State(turn.shared, threads, History(multiset{}, multiset{}, multiset{}), Some(turn.outcome.result))
      else
        State(turn.shared, if turn.notify then WakeOne(threads, 0) else threads, s.h.(accounted := accounted), s.verdict)
  }

  // ---------------------------------------------------------------- sums over threads

  function Sum(ts: seq<Thread>, f: Thread -> int): int {
    if ts == [] then 0 else Sum(ts[..|ts| - 1], f) + f(ts[|ts| - 1])
  }

  function Bag(ts: seq<Thread>, f: Thread -> multiset<Check>): multiset<Check> {
    if ts == [] then multiset{} else Bag(ts[..|ts| - 1], f) + f(ts[|ts| - 1])
  }

  lemma {:induction false} SumUpdate(ts: seq<Thread>, f: Thread -> int, t: nat, x: Thread)
    requires t < |ts|
    ensures Sum(ts[t := x], f) == Sum(ts, f) - f(ts[t]) + f(x)
  {
    var last := |ts| - 1;
    if t < last {
      SumUpdate(ts[..last], f, t, x);
      assert ts[t := x][..last] == ts[..last][t := x];
    } else {
      assert ts[t := x][..last] == ts[..last];
    }
  }

  lemma {:induction false} BagUpdate(ts: seq<Thread>, f: Thread -> multiset<Check>, t: nat, x: Thread)
    requires t < |ts|
    ensures Bag(ts[t := x], f) + f(ts[t]) == Bag(ts, f) + f(x)
    ensures f(x) == f(ts[t]) ==> Bag(ts[t := x], f) == Bag(ts, f)
  {
    var last := |ts| - 1;
    if t < last {
      BagUpdate(ts[..last], f, t, x);
      assert ts[t := x][..last] == ts[..last][t := x];
      var old', new' := Bag(ts[..last], f), Bag(ts[..last][t := x], f);
      assert new' + f(ts[t]) == old' + f(x);
      assert (new' + f(ts[last])) + f(ts[t]) == (new' + f(ts[t])) + f(ts[last]);
      assert (old' + f(ts[last])) + f(x) == (old' + f(x)) + f(ts[last]);
    } else {
      assert ts[t := x][..last] == ts[..last];
      assert (Bag(ts[..last], f) + f(x)) + f(ts[t]) == (Bag(ts[..last], f) + f(ts[t])) + f(x);
    }
  }

  lemma {:induction false} SumSame(ts: seq<Thread>, us: seq<Thread>, f: Thread -> int)
    requires |ts| == |us| && forall t :: 0 <= t < |ts| ==> f(ts[t]) == f(us[t])
    ensures Sum(ts, f) == Sum(us, f)
  {
    if ts != [] {
      SumSame(ts[..|ts| - 1], us[..|us| - 1], f);
    }
  }

  lemma {:induction false} BagSame(ts: seq<Thread>, us: seq<Thread>, f: Thread -> multiset<Check>)
    requires |ts| == |us| && forall t :: 0 <= t < |ts| ==> f(ts[t]) == f(us[t])
    ensures Bag(ts, f) == Bag(us, f)
  {
    if ts != [] {
      BagSame(ts[..|ts| - 1], us[..|us| - 1], f);
    }
  }

  lemma {:induction false} SumBound(ts: seq<Thread>, f: Thread -> int, t: nat)
    requires t < |ts| && forall x :: f(x) >= 0
    ensures Sum(ts, f) >= f(ts[t]) && Sum(ts, f) >= 0
  {
    var last := |ts| - 1;
    SumNonNeg(ts[..last], f);
    if t < last {
      SumBound(ts[..last], f, t);
    }
  }

  lemma {:induction false} SumNonNeg(ts: seq<Thread>, f: Thread -> int)
    requires forall x :: f(x) >= 0
    ensures Sum(ts, f) >= 0
  {
    if ts != [] {
      SumNonNeg(ts[..|ts| - 1], f);
    }
  }

  /** If nothing sums up, no thread contributes; if something does, some thread does. */
  lemma {:induction false} SumWitness(ts: seq<Thread>, f: Thread -> int) returns (t: nat)
    requires Sum(ts, f) > 0
    ensures t < |ts| && f(ts[t]) > 0
  {
    var last := |ts| - 1;
    if f(ts[last]) > 0 {
      t := last;
    } else {
      t := SumWitness(ts[..last], f);
    }
  }

  function IdleOf(t: Thread): int { if t.Waiting? || t.Woken? then 1 else 0 }
  function InsideOf(t: Thread): int { if t.Outside? || t.Entering? then 0 else 1 }
  function HeldOf(t: Thread): int { if t.Running? then |t.batch| else 0 }
  function DoneOf(t: Thread): multiset<Check> {
    if t.Running? && t.done <= |t.batch| then multiset(t.batch[..t.done]) else multiset{}
  }
  function CleanOf(t: Thread): multiset<Check> {
    if t.Running? && t.ok then DoneOf(t) else multiset{}
  }

  // ---------------------------------------------------------------- the invariant

  /** The counters say where the threads are. */
  ghost predicate CountersOk(s: State) {
    s.shared.idle == Sum(s.threads, IdleOf) && s.shared.total == Sum(s.threads, InsideOf)
  }

  /** `todo` counts the queued checks and those in unaccounted batches, and no check is lost or duplicated. */
  ghost predicate WorkOk(s: State) {
    && s.shared.todo == |s.shared.queue| + Sum(s.threads, HeldOf)
    && s.h.added == multiset(s.shared.queue) + Bag(s.threads, Accounted) + s.h.accounted
  }

  ghost predicate BatchesOk(s: State) {
    forall t :: 0 <= t < |s.threads| && s.threads[t].Running? ==> s.threads[t].batch != [] && s.threads[t].done <= |s.threads[t].batch|
  }

  /** A check that fails has been run. */
  ghost predicate FailureSeen(s: State) {
    exists c :: c in s.h.ran && !c.passes
  }

  /** Checks known to have run and passed. */
  function Clean(s: State): multiset<Check> {
    (if s.shared.allOk then s.h.accounted else multiset{}) + Bag(s.threads, CleanOf)
  }

  /** The provisional verdict is justified by what has been run. */
  ghost predicate VerdictOk(s: State) {
    && (!s.shared.allOk ==> FailureSeen(s))
    && (forall t :: 0 <= t < |s.threads| && s.threads[t].Running? && !s.threads[t].ok ==> FailureSeen(s))
    && Clean(s) <= s.h.ran
    && (forall c :: c in Clean(s) ==> c.passes)
    && s.h.ran <= s.h.accounted + Bag(s.threads, DoneOf)
  }

  /** The master blocks only while work is outstanding, none of it queued. */
  ghost predicate MasterOk(s: State) {
    && |s.threads| > 0
    && (s.threads[0].Waiting? ==> s.shared.queue == [] && s.shared.todo > 0)
    && (s.threads[0].Outside? && s.h.added == multiset{} ==> s.shared.allOk)
  }

  ghost predicate Inv(s: State) {
    CountersOk(s) && WorkOk(s) && BatchesOk(s) && VerdictOk(s) && MasterOk(s)
  }

  lemma CritTotals(s: State, t: nat)
    requires CountersOk(s) && t < |s.threads| && Ready(s.threads[t])
    ensures var c := CleanUp(s.shared, t == 0, EntryOf(s.threads[t])).0; c.total + c.idle >= 0
    ensures s.shared.total >= 0 && s.shared.idle >= 0
  {
    SumBound(s.threads, IdleOf, t);
    SumBound(s.threads, InsideOf, t);
  }

  // ---------------------------------------------------------------- steps keep the invariant

  lemma InitInv(batchSize: nat, workers: nat)
    ensures Inv(Init(batchSize, workers))
  {
    var s := Init(batchSize, workers);
    SumZero(s.threads, IdleOf);
    SumZero(s.threads, InsideOf);
    SumZero(s.threads, HeldOf);
    BagEmpty(s.threads, Accounted);
    BagEmpty(s.threads, CleanOf);
    BagEmpty(s.threads, DoneOf);
  }

  lemma {:induction false} SumZero(ts: seq<Thread>, f: Thread -> int)
    requires forall t :: 0 <= t < |ts| ==> f(ts[t]) == 0
    ensures Sum(ts, f) == 0
  {
    if ts != [] {
      SumZero(ts[..|ts| - 1], f);
    }
  }

  lemma {:induction false} BagEmpty(ts: seq<Thread>, f: Thread -> multiset<Check>)
    requires forall t :: 0 <= t < |ts| ==> f(ts[t]) == multiset{}
    ensures Bag(ts, f) == multiset{}
  {
    if ts != [] {
      BagEmpty(ts[..|ts| - 1], f);
    }
  }

  /** Waking up changes nothing but the fact that a thread was waiting. */
  ghost predicate Roused(ts: seq<Thread>, us: seq<Thread>) {
    |ts| == |us| && forall t :: 0 <= t < |ts| ==> us[t] == ts[t] || (ts[t].Waiting? && us[t].Woken?)
  }

  lemma RousedSums(ts: seq<Thread>, us: seq<Thread>)
    requires Roused(ts, us)
    ensures Sum(us, IdleOf) == Sum(ts, IdleOf) && Sum(us, InsideOf) == Sum(ts, InsideOf) && Sum(us, HeldOf) == Sum(ts, HeldOf)
    ensures Bag(us, Accounted) == Bag(ts, Accounted) && Bag(us, CleanOf) == Bag(ts, CleanOf) && Bag(us, DoneOf) == Bag(ts, DoneOf)
  {
    SumSame(ts, us, IdleOf);
    SumSame(ts, us, InsideOf);
    SumSame(ts, us, HeldOf);
    BagSame(ts, us, Accounted);
    BagSame(ts, us, CleanOf);
    BagSame(ts, us, DoneOf);
  }

  lemma RousedInv(s: State, u: State)
    requires Inv(s) && Roused(s.threads, u.threads) && u == s.(threads := u.threads)
    ensures Inv(u)
  {
    hide CountersOk, WorkOk, BatchesOk, VerdictOk;
    RousedParts(s, u);
    RousedThreads(s.threads, u.threads);
  }

  lemma RousedThreads(ts: seq<Thread>, us: seq<Thread>)
    requires Roused(ts, us)
    ensures forall t :: 0 <= t < |ts| && us[t].Running? ==> us[t] == ts[t]
    ensures ts != [] ==> (us[0].Waiting? ==> ts[0].Waiting?) && (us[0].Outside? <==> ts[0].Outside?)
  {
  }

  lemma AddInv(s: State, checks: seq<Check>, wake: nat)
    requires Inv(s) && Enabled(s, Add(checks, wake))
    ensures Inv(Next(s, Add(checks, wake)))
  {
    hide Sum, Bag, Inv, Next, AfterAdd, Roused;
    var threads := AfterAdd(s.threads, |checks|, wake);
    var v := s.(threads := threads);
    AddRouses(s.threads, |checks|, wake);
    RousedThreads(s.threads, threads);
    RousedInv(s, v);
    NextAdd(s, checks, wake);
    AddedInv(v, checks);
  }

  lemma NextAdd(s: State, checks: seq<Check>, wake: nat)
    requires Inv(s) && Enabled(s, Add(checks, wake))
    ensures Next(s, Add(checks, wake))
            == s.(shared := s.shared.(queue := s.shared.queue + checks, todo := s.shared.todo + |checks|),
                  threads := AfterAdd(s.threads, |checks|, wake), h := s.h.(added := s.h.added + multiset(checks)))
  {
    hide Inv, AfterAdd;
  }

  lemma AddRouses(ts: seq<Thread>, count: nat, wake: nat)
    ensures Roused(ts, AfterAdd(ts, count, wake))
  {
  }

  /** More work in the queue while the master is outside. */
  lemma AddedInv(v: State, checks: seq<Check>)
    requires Inv(v) && |v.threads| > 0 && v.threads[0].Outside?
    ensures Inv(v.(shared := v.shared.(queue := v.shared.queue + checks, todo := v.shared.todo + |checks|),
                   h := v.h.(added := v.h.added + multiset(checks))))
  {
    hide Sum, Bag;
    var u := v.(shared := v.shared.(queue := v.shared.queue + checks, todo := v.shared.todo + |checks|),
                h := v.h.(added := v.h.added + multiset(checks)));
    assert Clean(u) == Clean(v);
    assert FailureSeen(u) == FailureSeen(v);
    AddBooks(v.shared.queue, checks, Bag(v.threads, Accounted), v.h.accounted);
    if u.h.added == multiset{} {
      assert v.h.added <= u.h.added;
      assert v.h.added == multiset{};
    }
  }

  lemma AddBooks(queue: seq<Check>, checks: seq<Check>, held: multiset<Check>, accounted: multiset<Check>)
    ensures multiset(queue) + held + accounted + multiset(checks) == multiset(queue + checks) + held + accounted
  {
  }

  lemma EnterInv(s: State, t: nat)
    requires Inv(s) && Enabled(s, Enter(t))
    ensures Inv(Next(s, Enter(t)))
  {
    hide Sum, Bag;
    var u := Next(s, Enter(t));
    SumUpdates(s.threads, t, Entering);
    assert Clean(u) == Clean(s);
    FailureGrows(s, u);
  }

  lemma SumUpdates(ts: seq<Thread>, t: nat, x: Thread)
    requires t < |ts|
    ensures var us := ts[t := x];
            && Sum(us, IdleOf) == Sum(ts, IdleOf) - IdleOf(ts[t]) + IdleOf(x)
            && Sum(us, InsideOf) == Sum(ts, InsideOf) - InsideOf(ts[t]) + InsideOf(x)
            && Sum(us, HeldOf) == Sum(ts, HeldOf) - HeldOf(ts[t]) + HeldOf(x)
            && (Accounted(x) == Accounted(ts[t]) ==> Bag(us, Accounted) == Bag(ts, Accounted))
            && (CleanOf(x) == CleanOf(ts[t]) ==> Bag(us, CleanOf) == Bag(ts, CleanOf))
            && (DoneOf(x) == DoneOf(ts[t]) ==> Bag(us, DoneOf) == Bag(ts, DoneOf))
  {
    hide Sum, Bag, Accounted, CleanOf, DoneOf;
    SumUpdate(ts, IdleOf, t, x);
    SumUpdate(ts, InsideOf, t, x);
    SumUpdate(ts, HeldOf, t, x);
    BagUpdate(ts, Accounted, t, x);
    BagUpdate(ts, CleanOf, t, x);
    BagUpdate(ts, DoneOf, t, x);
  }

  lemma SpuriousInv(s: State, t: nat)
    requires Inv(s) && Enabled(s, Spurious(t))
    ensures Inv(Next(s, Spurious(t)))
  {
    RousedInv(s, Next(s, Spurious(t)));
  }

  lemma DoneExtends(batch: seq<Check>, done: nat)
    requires done < |batch|
    ensures multiset(batch[..done + 1]) == multiset(batch[..done]) + multiset{batch[done]}
  {
    assert batch[..done + 1] == batch[..done] + [batch[done]];
  }

  lemma ExecInv(s: State, t: nat)
    requires Inv(s) && Enabled(s, Exec(t))
    ensures Inv(Next(s, Exec(t)))
  {
    hide Sum, Bag, VerdictOk, Next, CleanOf, DoneOf;
    NextExec(s, t);
    SumUpdates(s.threads, t, Next(s, Exec(t)).threads[t]);
    ExecVerdict(s, t);
  }

  lemma NextExec(s: State, t: nat)
    requires Inv(s) && Enabled(s, Exec(t))
    ensures var Running(batch, done, ok) := s.threads[t];
            Next(s, Exec(t)) == s.(threads := s.threads[t := Running(batch, done + 1, ok && batch[done].passes)],
                                   h := if ok then s.h.(ran := s.h.ran + multiset{batch[done]}) else s.h)
  {
    hide Inv;
  }

  /** The effect of one executed check on what is done. */
  lemma ExecDone(ts: seq<Thread>, t: nat)
    requires t < |ts| && ts[t].Running? && ts[t].done < |ts[t].batch|
    ensures var Running(batch, done, ok) := ts[t];
            var us := ts[t := Running(batch, done + 1, ok && batch[done].passes)];
            Bag(us, DoneOf) == Bag(ts, DoneOf) + multiset{batch[done]}
  {
    hide Bag;
    var Running(batch, done, ok) := ts[t];
    var x := Running(batch, done + 1, ok && batch[done].passes);
    BagUpdate(ts, DoneOf, t, x);
    DoneExtends(batch, done);
    var before, after, c := Bag(ts, DoneOf), Bag(ts[t := x], DoneOf), multiset{batch[done]};
    assert after + DoneOf(ts[t]) == before + (DoneOf(ts[t]) + c);
    assert before + (DoneOf(ts[t]) + c) == (before + c) + DoneOf(ts[t]);
    BagCancel(after, before + c, DoneOf(ts[t]));
  }

  /** The effect of one executed check on what is known to be clean. */
  lemma ExecBags(ts: seq<Thread>, t: nat)
    requires t < |ts| && ts[t].Running? && ts[t].done < |ts[t].batch|
    ensures var Running(batch, done, ok) := ts[t];
            var us := ts[t := Running(batch, done + 1, ok && batch[done].passes)];
            && (ok && batch[done].passes ==> Bag(us, CleanOf) == Bag(ts, CleanOf) + multiset{batch[done]})
            && (!(ok && batch[done].passes) ==> Bag(us, CleanOf) <= Bag(ts, CleanOf))
  {
    hide Bag;
    var Running(batch, done, ok) := ts[t];
    var x := Running(batch, done + 1, ok && batch[done].passes);
    BagUpdate(ts, CleanOf, t, x);
    DoneExtends(batch, done);
    var clean, clean', c := Bag(ts, CleanOf), Bag(ts[t := x], CleanOf), multiset{batch[done]};
    if ok && batch[done].passes {
      assert clean' + DoneOf(ts[t]) == clean + (DoneOf(ts[t]) + c);
      assert clean + (DoneOf(ts[t]) + c) == (clean + c) + DoneOf(ts[t]);
      BagCancel(clean', clean + c, DoneOf(ts[t]));
    } else {
      assert clean' + CleanOf(ts[t]) == clean + multiset{};
      BagLess(clean', clean, CleanOf(ts[t]));
    }
  }

  lemma BagCancel(a: multiset<Check>, b: multiset<Check>, c: multiset<Check>)
    requires a + c == b + c
    ensures a == b
  {
    forall x ensures a[x] == b[x] {
      assert (a + c)[x] == (b + c)[x];
    }
  }

  lemma BagLess(a: multiset<Check>, b: multiset<Check>, c: multiset<Check>)
    requires a + c == b + multiset{}
    ensures a <= b
  {
    forall x ensures a[x] <= b[x] {
      assert (a + c)[x] == (b + multiset{})[x];
    }
  }

  lemma ExecFailures(s: State, t: nat)
    requires Inv(s) && Enabled(s, Exec(t))
    ensures var u := Next(s, Exec(t));
            && (!u.shared.allOk ==> FailureSeen(u))
            && (forall i :: 0 <= i < |u.threads| && u.threads[i].Running? && !u.threads[i].ok ==> FailureSeen(u))
  {
    hide CountersOk, WorkOk, MasterOk, Sum, Bag, CleanOf, DoneOf, Clean, Next;
    var Running(batch, done, ok) := s.threads[t];
    var u := Next(s, Exec(t));
    NextExec(s, t);
    FailureGrows(s, u);
    if ok && !batch[done].passes { assert batch[done] in u.h.ran; }
  }

  lemma ExecClean(s: State, t: nat)
    requires Inv(s) && Enabled(s, Exec(t))
    ensures var u := Next(s, Exec(t));
            && Clean(u) <= u.h.ran && (forall c :: c in Clean(u) ==> c.passes)
            && u.h.ran <= u.h.accounted + Bag(u.threads, DoneOf)
  {
    hide CountersOk, WorkOk, MasterOk, BatchesOk, Sum, Bag, CleanOf, DoneOf, Next;
    var c := s.threads[t].batch[s.threads[t].done];
    var u := Next(s, Exec(t));
    NextExec(s, t);
    ExecDone(s.threads, t);
    ExecBags(s.threads, t);
    if s.threads[t].ok && c.passes {
      assert Clean(u) == Clean(s) + multiset{c};
    } else {
      assert Clean(u) <= Clean(s);
    }
  }

  lemma ExecVerdict(s: State, t: nat)
    requires Inv(s) && Enabled(s, Exec(t))
    ensures VerdictOk(Next(s, Exec(t)))
  {
    hide Inv, Next, Bag, Clean;
    ExecFailures(s, t);
    ExecClean(s, t);
  }

  lemma FailureGrows(s: State, u: State)
    requires s.h.ran <= u.h.ran
    ensures FailureSeen(s) ==> FailureSeen(u)
  {
    if FailureSeen(s) {
      var c :| c in s.h.ran && !c.passes;
      assert c in u.h.ran;
    }
  }

  // ---------------------------------------------------------------- the critical section

  /** A step that leaves through the critical section as far as the bags are concerned. */
  lemma CritBags(ts: seq<Thread>, t: nat, x: Thread)
    requires t < |ts| && Ready(ts[t]) && (x.Running? ==> x.done == 0)
    ensures var us := ts[t := x];
            && Bag(us, Accounted) + Accounted(ts[t]) == Bag(ts, Accounted) + Accounted(x)
            && Bag(us, DoneOf) + Accounted(ts[t]) == Bag(ts, DoneOf)
            && Bag(us, CleanOf) + CleanOf(ts[t]) == Bag(ts, CleanOf)
            && CleanOf(ts[t]) == (if ts[t].Running? && ts[t].ok then Accounted(ts[t]) else multiset{})
  {
    hide Bag;
    BagUpdate(ts, Accounted, t, x);
    BagUpdate(ts, DoneOf, t, x);
    BagUpdate(ts, CleanOf, t, x);
    if ts[t].Running? { assert ts[t].batch[..ts[t].done] == ts[t].batch; }
    if x.Running? { assert x.batch[..0] == []; }
    assert Bag(ts, DoneOf) + multiset{} == Bag(ts, DoneOf);
    assert Bag(ts, CleanOf) + multiset{} == Bag(ts, CleanOf);
  }

  lemma {:induction false} ReversedBag<T>(s: seq<T>)
    ensures multiset(Reversed(s)) == multiset(s) && |Reversed(s)| == |s|
  {
    if s != [] {
      ReversedBag(s[1..]);
      assert s == [s[0]] + s[1..];
    }
  }

  lemma TakenBag(queue: seq<Check>, keep: nat)
    requires keep <= |queue|
    ensures multiset(queue) == multiset(queue[..keep]) + multiset(Reversed(queue[keep..]))
    ensures |Reversed(queue[keep..])| == |queue| - keep
  {
    ReversedBag(queue[keep..]);
    assert queue == queue[..keep] + queue[keep..];
  }

  /** What leaving the critical section does to the shared fields `c` left by the clean-up. */
  lemma TurnFacts(c: Shared, master: bool, notify: bool)
    requires c.total + c.idle >= 0
    ensures var turn := Decide(c, master, notify);
            var x := Place(turn.outcome);
            && multiset(c.queue) == multiset(turn.shared.queue) + Accounted(x)
            && |c.queue| == |turn.shared.queue| + HeldOf(x)
            && (x.Running? ==> x.done == 0 && x.batch != [] && x.ok == turn.shared.allOk)
            && turn.shared.todo == c.todo && turn.shared.idle == c.idle + IdleOf(x)
            && turn.shared.total == c.total - (if turn.outcome.Return? then 1 else 0)
            && (turn.outcome.Return? ==> c.todo == 0 && c.queue == [] && (master ==> turn.outcome.result == c.allOk && turn.shared.allOk))
            && (turn.outcome.Wait? ==> c.queue == [] && (master ==> c.todo != 0))
            && (!(master && turn.outcome.Return?) ==> turn.shared.allOk == c.allOk)
            && turn.notify == notify
            && (c.queue != [] ==> turn.outcome.Work?)
  {
    hide Share, Reversed;
    if c.queue != [] {
      ShareBounds(c);
      TakenBag(c.queue, |c.queue| - Share(c));
    }
  }

  lemma CritTurn(s: State, t: nat)
    requires Inv(s) && Enabled(s, Crit(t))
    ensures var c := CleanUp(s.shared, t == 0, EntryOf(s.threads[t])).0; c.total + c.idle >= 0
    ensures var turn := Critical(s.shared, t == 0, EntryOf(s.threads[t]));
            var x := Place(turn.outcome);
            && multiset(s.shared.queue) == multiset(turn.shared.queue) + Accounted(x)
            && |s.shared.queue| == |turn.shared.queue| + HeldOf(x)
            && (x.Running? ==> x.done == 0 && x.batch != [] && x.ok == turn.shared.allOk)
            && turn.shared.todo == s.shared.todo - HeldOf(s.threads[t])
            && turn.shared.idle == s.shared.idle - IdleOf(s.threads[t]) + IdleOf(x)
            && turn.shared.total == s.shared.total - InsideOf(s.threads[t]) + InsideOf(x)
            && (turn.outcome.Return? ==> turn.shared.todo == 0 && turn.shared.queue == [])
            && (turn.outcome.Wait? ==> turn.shared.queue == [] && (t == 0 ==> turn.shared.todo != 0))
            && (turn.notify <==> s.threads[t].Running? && turn.shared.todo == 0 && t != 0)
            && (var allOk := s.shared.allOk && (s.threads[t].Running? ==> s.threads[t].ok);
                if t == 0 && turn.outcome.Return? then turn.outcome.result == allOk && turn.shared.allOk
                else turn.shared.allOk == allOk)
  {
    hide Sum, Bag, VerdictOk, WorkOk, BatchesOk, MasterOk, Decide, CleanUp;
    CritTotals(s, t);
    var (c, notify) := CleanUp(s.shared, t == 0, EntryOf(s.threads[t]));
    CleanFacts(s.shared, t == 0, s.threads[t]);
    TurnFacts(c, t == 0, notify);
  }

  /** What the clean-up makes of the previous whereabouts of a thread. */
  lemma CleanFacts(s: Shared, master: bool, t: Thread)
    requires Ready(t)
    ensures var (c, notify) := CleanUp(s, master, EntryOf(t));
            && c.queue == s.queue && c.todo == s.todo - HeldOf(t) && c.idle == s.idle - IdleOf(t)
            && c.total == s.total + 1 - InsideOf(t) && c.allOk == (s.allOk && (t.Running? ==> t.ok)) && c.quit == s.quit
            && (notify <==> t.Running? && c.todo == 0 && !master)
  {
  }

  /** The state at the end of a critical section, before the master is woken or the round is closed. */
  function Settled(s: State, t: nat): State
    requires Inv(s) && Enabled(s, Crit(t))
  {
    CritTotals(s, t);
    var turn := Critical(s.shared, t == 0, EntryOf(s.threads[t]));
    var allOk := s.shared.allOk && (s.threads[t].Running? ==> s.threads[t].ok);
    State(turn.shared.(allOk := allOk), s.threads[t := Place(turn.outcome)],
          s.h.(accounted := s.h.accounted + Accounted(s.threads[t])), s.verdict)
  }

  lemma SettledCounters(s: State, t: nat)
    requires Inv(s) && Enabled(s, Crit(t))
    ensures CountersOk(Settled(s, t)) && Settled(s, t).shared.todo == |Settled(s, t).shared.queue| + Sum(Settled(s, t).threads, HeldOf)
    ensures BatchesOk(Settled(s, t)) && Settled(s, t).shared.todo >= 0
  {
    hide Sum, Bag, VerdictOk, MasterOk, Decide, Critical, CleanUp;
    CritTurn(s, t);
    var u := Settled(s, t);
    SumUpdates(s.threads, t, u.threads[t]);
    SumNonNeg(u.threads, HeldOf);
  }

  lemma SettledWork(s: State, t: nat)
    requires Inv(s) && Enabled(s, Crit(t))
    ensures var u := Settled(s, t); u.h.added == multiset(u.shared.queue) + Bag(u.threads, Accounted) + u.h.accounted
  {
    hide Sum, Bag, VerdictOk, MasterOk, BatchesOk, CountersOk, Decide, Critical, CleanUp, Accounted;
    CritTurn(s, t);
    var u := Settled(s, t);
    CritBags(s.threads, t, u.threads[t]);
    WorkBooks(s.h.added, multiset(s.shared.queue), multiset(u.shared.queue), Bag(s.threads, Accounted), Bag(u.threads, Accounted),
              Accounted(s.threads[t]), Accounted(u.threads[t]), s.h.accounted);
  }

  /** Moving checks from the queue to one batch and from another batch to the accounts. */
  lemma WorkBooks(added: multiset<Check>, q: multiset<Check>, q': multiset<Check>, b: multiset<Check>, b': multiset<Check>,
                  out: multiset<Check>, taken: multiset<Check>, acc: multiset<Check>)
    requires added == q + b + acc && q == q' + taken && b' + out == b + taken
    ensures added == q' + b' + (acc + out)
  {
    assert q' + b' + (acc + out) == q' + (b' + out) + acc;
    assert q' + (b + taken) + acc == (q' + taken) + b + acc;
  }

  lemma SettledVerdict(s: State, t: nat)
    requires Inv(s) && Enabled(s, Crit(t))
    ensures VerdictOk(Settled(s, t))
  {
    hide Sum, Bag, WorkOk, MasterOk, CountersOk, Decide, Critical, CleanUp, CleanOf, DoneOf;
    CritTurn(s, t);
    var u := Settled(s, t);
    CritBags(s.threads, t, u.threads[t]);
    assert FailureSeen(s) ==> FailureSeen(u);
    SettledClean(s, u, Accounted(s.threads[t]), CleanOf(s.threads[t]));
  }

  lemma SettledClean(s: State, u: State, out: multiset<Check>, clean: multiset<Check>)
    requires Clean(s) <= s.h.ran && (forall c :: c in Clean(s) ==> c.passes) && s.h.ran <= s.h.accounted + Bag(s.threads, DoneOf)
    requires u.h == s.h.(accounted := s.h.accounted + out)
    requires Bag(u.threads, DoneOf) + out == Bag(s.threads, DoneOf) && Bag(u.threads, CleanOf) + clean == Bag(s.threads, CleanOf)
    requires u.shared.allOk ==> s.shared.allOk && clean == out
    ensures Clean(u) <= u.h.ran && (forall c :: c in Clean(u) ==> c.passes) && u.h.ran <= u.h.accounted + Bag(u.threads, DoneOf)
  {
    hide Bag;
    assert s.h.accounted + out + Bag(u.threads, DoneOf) == s.h.accounted + Bag(s.threads, DoneOf);
    if u.shared.allOk {
      assert Clean(u) == Clean(s);
    } else {
      assert Clean(u) <= Clean(s);
    }
  }

  /** When the work is done no thread holds a batch. */
  lemma Drained(s: State)
    requires WorkOk(s) && BatchesOk(s) && s.shared.todo == 0
    ensures s.shared.queue == [] && forall t :: 0 <= t < |s.threads| ==> !s.threads[t].Running?
    ensures Bag(s.threads, Accounted) == multiset{} && Bag(s.threads, CleanOf) == multiset{} && Bag(s.threads, DoneOf) == multiset{}
    ensures s.h.added == s.h.accounted
  {
    SumNonNeg(s.threads, HeldOf);
    forall t | 0 <= t < |s.threads| ensures !s.threads[t].Running? {
      SumBound(s.threads, HeldOf, t);
    }
    BagEmpty(s.threads, Accounted);
    BagEmpty(s.threads, CleanOf);
    BagEmpty(s.threads, DoneOf);
  }

  /** A worker that empties the books wakes the master; one that does not leaves it work to wait for. */
  lemma SettledMaster(s: State, t: nat)
    requires Inv(s) && Enabled(s, Crit(t)) && t != 0
    ensures MasterOk(Next(s, Crit(t)))
  {
    hide Sum, Bag, VerdictOk, CountersOk, Decide, Critical, CleanUp, Next;
    CritTurn(s, t);
    NextWorker(s, t);
    SettledCounters(s, t);
    if s.threads[0].Waiting? {
      SumBound(s.threads, HeldOf, t);
    }
    if s.h.added == multiset{} && s.threads[t].Running? {
      NothingAdded(s, t);
    }
  }

  /** A worker's critical section, beyond what it settles, may wake the master. */
  lemma NextWorker(s: State, t: nat)
    requires Inv(s) && Enabled(s, Crit(t)) && t != 0
    ensures var mid := Settled(s, t);
            var notify := s.threads[t].Running? && mid.shared.todo == 0;
            Next(s, Crit(t)) == mid.(threads := if notify then WakeOne(mid.threads, 0) else mid.threads)
  {
    hide Sum, Bag, Inv, Decide, Critical, CleanUp;
    CritTurn(s, t);
  }

  lemma NothingAdded(s: State, t: nat)
    requires WorkOk(s) && BatchesOk(s) && t < |s.threads| && s.threads[t].Running?
    ensures s.h.added != multiset{}
  {
    BagHas(s.threads, t);
    assert s.threads[t].batch[0] in s.h.added;
  }

  lemma {:induction false} BagHas(ts: seq<Thread>, t: nat)
    requires t < |ts| && ts[t].Running? && ts[t].batch != []
    ensures ts[t].batch[0] in Bag(ts, Accounted)
  {
    if t < |ts| - 1 {
      BagHas(ts[..|ts| - 1], t);
    } else {
      assert ts[t].batch[0] in multiset(ts[t].batch);
    }
  }

  lemma CritInv(s: State, t: nat)
    requires Inv(s) && Enabled(s, Crit(t))
    ensures Inv(Next(s, Crit(t)))
  {
    hide Sum, Bag, VerdictOk, CountersOk, WorkOk, BatchesOk, MasterOk, Decide, Critical, CleanUp, FailureSeen;
    CritTurn(s, t);
    SettledCounters(s, t);
    SettledWork(s, t);
    SettledVerdict(s, t);
    var mid, u := Settled(s, t), Next(s, Crit(t));
    SettledWorkOk(mid);
    if t == 0 && Critical(s.shared, t == 0, EntryOf(s.threads[t])).outcome.Return? {
      RoundClosed(mid, u);
    } else {
      RousedParts(mid, u);
      if t != 0 { SettledMaster(s, t); } else { MasterTurn(s); }
    }
  }

  lemma SettledWorkOk(s: State)
    requires s.shared.todo == |s.shared.queue| + Sum(s.threads, HeldOf)
    requires s.h.added == multiset(s.shared.queue) + Bag(s.threads, Accounted) + s.h.accounted
    ensures WorkOk(s)
  {
  }

  lemma RousedParts(s: State, u: State)
    requires CountersOk(s) && WorkOk(s) && BatchesOk(s) && VerdictOk(s)
    requires Roused(s.threads, u.threads) && u == s.(threads := u.threads)
    ensures CountersOk(u) && WorkOk(u) && BatchesOk(u) && VerdictOk(u)
  {
    hide Sum, Bag;
    RousedSums(s.threads, u.threads);
  }

  /** The step in which the master's call of Wait returns. */
  predicate WaitReturns(s: State, e: Event)
    requires Inv(s) && Enabled(s, e)
  {
    e == Crit(0) && (CritTotals(s, 0); Critical(s.shared, true, EntryOf(s.threads[0])).outcome.Return?)
  }

  /** The master's own pass, when it does not return. */
  lemma MasterTurn(s: State)
    requires Inv(s) && Enabled(s, Crit(0)) && !WaitReturns(s, Crit(0))
    ensures MasterOk(Next(s, Crit(0)))
  {
    hide Sum, Bag, VerdictOk, Decide, Critical, CleanUp;
    CritTurn(s, 0);
    SettledCounters(s, 0);
  }

  /** Closing the round: nothing is queued or held, and the books start afresh. */
  lemma RoundClosed(mid: State, u: State)
    requires CountersOk(mid) && WorkOk(mid) && BatchesOk(mid) && mid.shared.todo == 0 && |mid.threads| > 0 && mid.threads[0].Outside?
    requires u.shared == mid.shared.(allOk := true) && u.threads == mid.threads && u.h == History(multiset{}, multiset{}, multiset{})
    ensures Inv(u)
  {
    hide Sum, Bag;
    Drained(mid);
  }

  /** Every step of every thread keeps the invariant. */
  lemma NextInv(s: State, e: Event)
    requires Inv(s) && Enabled(s, e)
    ensures Inv(Next(s, e))
  {
    hide Inv, Next;
    match e
    case Add(checks, wake) => AddInv(s, checks, wake);
    case Enter(t) => EnterInv(s, t);
    case Crit(t) => CritInv(s, t);
    case Exec(t) => ExecInv(s, t);
    case Spurious(t) => SpuriousInv(s, t);
  }

  // ---------------------------------------------------------------- runs

  /** `es` can happen from `s`, one event after the other. */
  ghost predicate Possible(s: State, es: seq<Event>)
    requires Inv(s)
    decreases |es|
  {
    es != [] ==> Enabled(s, es[0]) && (NextInv(s, es[0]); Possible(Next(s, es[0]), es[1..]))
  }

  ghost function After(s: State, es: seq<Event>): State
    requires Inv(s) && Possible(s, es)
    decreases |es|
  {
    if es == [] then s
    else
      NextInv(s, es[0]);
      After(Next(s, es[0]), es[1..])
  }

  /** Safety over whole runs: the invariant holds in every reachable state. */
  lemma {:induction false} AfterInv(s: State, es: seq<Event>)
    requires Inv(s) && Possible(s, es)
    ensures Inv(After(s, es))
    decreases |es|
  {
    hide Inv, Next;
    if es != [] {
      NextInv(s, es[0]);
      AfterInv(Next(s, es[0]), es[1..]);
    }
  }

  // ---------------------------------------------------------------- what Wait's result means

  /** A round is over and the queue is as good as new: nothing queued, nothing outstanding, every worker inside idle. */
  ghost predicate CleanSlate(s: State) {
    && s.shared.queue == [] && s.shared.todo == 0 && s.shared.allOk && s.shared.total == s.shared.idle
    && s.h == History(multiset{}, multiset{}, multiset{})
  }

  /**
   Wait returns true exactly when every check added in the round passes, and then each has been run exactly once; it
   returns false exactly when one fails, and then a failing check has been run. All checks of the round have been
   popped and accounted for, each once, and the next round starts from a clean slate.
   */
  lemma WaitVerdict(s: State, e: Event)
    requires Inv(s) && Enabled(s, e) && WaitReturns(s, e)
    ensures var u := Next(s, e);
            && u.verdict.Some?
            && (u.verdict.value <==> forall c :: c in s.h.added ==> c.passes)
            && (u.verdict.value ==> s.h.ran == s.h.added)
            && s.h.ran <= s.h.added
            && (!u.verdict.value ==> exists c :: c in s.h.ran && !c.passes)
            && s.h.accounted + Accounted(s.threads[0]) == s.h.added
            && CleanSlate(u)
  {
    hide Sum, Bag, CountersOk, BatchesOk, MasterOk, VerdictOk, WorkOk, Decide, Critical, CleanUp, Clean;
    CritTurn(s, 0);
    SettledCounters(s, 0);
    SettledWork(s, 0);
    SettledVerdict(s, 0);
    var mid := Settled(s, 0);
    SettledWorkOk(mid);
    Drained(mid);
    VerdictMeaning(mid);
    IdleWhenDrained(mid);
  }

  lemma VerdictMeaning(s: State)
    requires VerdictOk(s) && s.h.added == s.h.accounted && Bag(s.threads, CleanOf) == Bag(s.threads, DoneOf) == multiset{}
    ensures s.h.ran <= s.h.added
    ensures s.shared.allOk ==> s.h.ran == s.h.added && forall c :: c in s.h.added ==> c.passes
    ensures !s.shared.allOk ==> exists c :: c in s.h.ran && c in s.h.added && !c.passes
  {
    hide Bag;
    assert s.h.accounted + multiset{} == s.h.accounted;
    if !s.shared.allOk {
      var c :| c in s.h.ran && !c.passes;
      assert s.h.ran[c] <= s.h.added[c];
      assert c in s.h.added;
    }
  }

  lemma IdleWhenDrained(s: State)
    requires CountersOk(s) && |s.threads| > 0 && s.threads[0].Outside?
    requires forall t :: 0 <= t < |s.threads| ==> !s.threads[t].Running?
    ensures s.shared.total == s.shared.idle
  {
    SumAgree(s.threads, IdleOf, InsideOf);
  }

  lemma {:induction false} SumAgree(ts: seq<Thread>, f: Thread -> int, g: Thread -> int)
    requires forall t :: 0 <= t < |ts| ==> f(ts[t]) == g(ts[t])
    ensures Sum(ts, f) == Sum(ts, g)
  {
    if ts != [] {
      SumAgree(ts[..|ts| - 1], f, g);
    }
  }

  // ---------------------------------------------------------------- progress

  /** The master is inside Wait. */
  predicate InWait(s: State) {
    |s.threads| > 0 && !s.threads[0].Outside?
  }

  /** No lost wake-up: while the master is blocked and not notified, some worker holds checks it has yet to account for. */
  lemma NoLostWakeup(s: State) returns (t: nat)
    requires Inv(s) && s.threads != [] && s.threads[0].Waiting?
    ensures 1 <= t < |s.threads| && s.threads[t].Running? && s.threads[t].batch != []
  {
    hide Sum, Bag, VerdictOk, CountersOk;
    t := SumWitness(s.threads, HeldOf);
  }

  predicate Productive(e: Event) {
    e.Crit? || e.Exec?
  }

  /** Until Wait returns, some thread can take a productive step. */
  lemma SomeoneCanMove(s: State) returns (e: Event)
    requires Inv(s) && InWait(s)
    ensures Productive(e) && Enabled(s, e)
  {
    hide Sum, Bag, VerdictOk, CountersOk, WorkOk;
    var t := 0;
    if s.threads[0].Waiting? {
      t := NoLostWakeup(s);
    }
    if s.threads[t].Running? && s.threads[t].done < |s.threads[t].batch| {
      e := Exec(t);
    } else {
      e := Crit(t);
    }
  }

  function WeightOf(t: Thread): int {
    match t
    case Outside => 0
    case Entering => 1
    case Waiting => 0
    case Woken => 1
    case Running(batch, done, _) => 4 + (if done <= |batch| then |batch| - done else 0)
  }

  /** How much work is left, counted in steps. */
  function Weight(s: State): int {
    10 * |s.shared.queue| + Sum(s.threads, WeightOf)
  }

  lemma WeightNonNeg(s: State)
    ensures Weight(s) >= 0
  {
    SumNonNeg(s.threads, WeightOf);
  }

  /** Productive steps use work up; inside Wait, only a thread entering or waking spuriously adds any, and just one unit. */
  lemma WeightStep(s: State, e: Event)
    requires Inv(s) && InWait(s) && Enabled(s, e)
    ensures Productive(e) ==> Weight(Next(s, e)) < Weight(s)
    ensures !Productive(e) ==> Weight(Next(s, e)) <= Weight(s) + 1
  {
    match e
    case Enter(t) => SumUpdate(s.threads, WeightOf, t, Entering);
    case Spurious(t) => SumUpdate(s.threads, WeightOf, t, Woken);
    case Exec(t) => SumUpdate(s.threads, WeightOf, t, Next(s, e).threads[t]);
    case Crit(t) => WeightCrit(s, t);
  }

  lemma WeightCrit(s: State, t: nat)
    requires Inv(s) && Enabled(s, Crit(t))
    ensures Weight(Next(s, Crit(t))) < Weight(s)
  {
    hide Sum, Bag, VerdictOk, CountersOk, WorkOk, MasterOk, Decide, Critical, CleanUp;
    CritTurn(s, t);
    var mid := Settled(s, t);
    SumUpdate(s.threads, WeightOf, t, mid.threads[t]);
    if 0 < |mid.threads| {
      SumUpdate(mid.threads, WeightOf, 0, Woken);
    }
  }

  function Idles(es: seq<Event>): nat {
    if es == [] then 0 else (if Productive(es[0]) then 0 else 1) + Idles(es[1..])
  }

  /** The master stays inside Wait throughout the run. */
  ghost predicate StaysInWait(s: State, es: seq<Event>)
    requires Inv(s) && Possible(s, es)
    decreases |es|
  {
    InWait(s) && (es != [] ==> (NextInv(s, es[0]); StaysInWait(Next(s, es[0]), es[1..])))
  }

  /**
   Wait cannot go on for ever: a run inside Wait is no longer than the work present at its start plus twice the number
   of times a thread enters or wakes spuriously. With SomeoneCanMove, the master always gets to return.
   */
  lemma {:induction false} WaitIsBounded(s: State, es: seq<Event>)
    requires Inv(s) && Possible(s, es) && StaysInWait(s, es)
    ensures |es| <= Weight(s) + 2 * Idles(es)
    decreases |es|
  {
    hide Inv, Next, Weight, InWait, Enabled;
    if es == [] {
      WeightNonNeg(s);
    } else {
      NextInv(s, es[0]);
      WeightStep(s, es[0]);
      WaitIsBounded(Next(s, es[0]), es[1..]);
    }
  }

  /** From every reachable state inside Wait there is a run of productive steps that ends with Wait returning. */
  lemma {:induction false} WaitCanReturn(s: State) returns (es: seq<Event>)
    requires Inv(s) && InWait(s)
    ensures Possible(s, es) && (forall i :: 0 <= i < |es| ==> Productive(es[i]))
    ensures !InWait(After(s, es))
    decreases Weight(s)
  {
    hide Inv, Next, Weight, InWait, Enabled;
    var e := SomeoneCanMove(s);
    NextInv(s, e);
    WeightStep(s, e);
    WeightNonNeg(s);
    WeightNonNeg(Next(s, e));
    var rest := [];
    if InWait(Next(s, e)) {
      rest := WaitCanReturn(Next(s, e));
    }
    es := [e] + rest;
    assert es[0] == e && es[1..] == rest;
  }

  /** A batch taken from the queue has at least one check and no more than the queue held; it is a fair share of it. */
  lemma BatchSize(s: State, t: nat)
    requires Inv(s) && Enabled(s, Crit(t)) && t < |Next(s, Crit(t)).threads| && Next(s, Crit(t)).threads[t].Running?
    ensures 1 <= |Next(s, Crit(t)).threads[t].batch| <= |s.shared.queue|
    ensures FairShare(|Next(s, Crit(t)).threads[t].batch|, |s.shared.queue|, Sharers(s.shared, EntryOf(s.threads[t])), s.shared.batchSize)
  {
    hide Sum, Bag, VerdictOk, CountersOk, WorkOk, MasterOk, Decide, Critical, CleanUp, FairShare, Sharers;
    CritTurn(s, t);
    BatchIsShare(s.shared, t == 0, EntryOf(s.threads[t]));
  }
}
