/** The verification queue: the code each thread runs under the mutex, and running a batch outside it. */
module CheckQueue {
  import opened Common
  import opened Powers

  /** A unit of work and the verdict it will give when run. */
  datatype Check = Check(id: nat, passes: bool)

  /** The fields protected by the mutex. */
  datatype Shared = Shared(queue: seq<Check>, idle: int, total: int, allOk: bool, todo: int, quit: bool, batchSize: nat)

  /** How a thread comes to hold the mutex inside Loop. */
  datatype Entry = First | AfterBatch(now: nat, ok: bool) | AfterWait

  /** How it leaves the critical section. */
  datatype Outcome = Return(result: bool) | Wait | Work(batch: seq<Check>, ok: bool)

  /** `notify` tells whether the master's condition variable was signalled. */
  datatype Turn = Turn(shared: Shared, outcome: Outcome, notify: bool)

  // ---------------------------------------------------------------- the critical section

  /** How many checks to take: at least one, at most a batch, and a fair share otherwise. */
  function Share(s: Shared): int
    requires s.total + s.idle + 1 > 0
  {
    var fair := |s.queue| / (s.total + s.idle + 1);
    var capped := if s.batchSize < fair then s.batchSize else fair;
    if capped < 1 then 1 else capped
  }

  lemma ShareBounds(s: Shared)
    requires s.queue != [] && s.total + s.idle >= 0
    ensures 1 <= Share(s) <= |s.queue|
    ensures s.batchSize >= 1 ==> Share(s) <= s.batchSize
  {
    var d := s.total + s.idle + 1;
    var fair := |s.queue| / d;
    DivMod(|s.queue|, d);
    if fair >= 1 {
      MulMono(1, d, fair);
    }
  }

  /** The clean-up of the previous round, before the queue is looked at. */
  function CleanUp(s: Shared, master: bool, entry: Entry): (Shared, bool) {
    match entry
    case First => (s.(total := s.total + 1), false)
    case AfterBatch(now, ok) =>
      var t := s.(allOk := s.allOk && ok, todo := s.todo - now);
      (t, t.todo == 0 && !master)
    case AfterWait => (s.(idle := s.idle - 1), false)
  }

  /** Leave the critical section: return, wait, or take a batch from the back of the queue. */
  function Decide(t: Shared, master: bool, notify: bool): Turn
    requires t.total + t.idle >= 0
  {
    if t.queue == [] then
      if (master || t.quit) && t.todo == 0 then
        Turn(t.(total := t.total - 1, allOk := master || t.allOk), Return(t.allOk), notify)
      else Turn(t.(idle := t.idle + 1), Wait, notify)
    else
      ShareBounds(t);
      var keep := |t.queue| - Share(t);
      Turn(t.(queue := t.queue[..keep]), Work(Reversed(t.queue[keep..]), t.allOk), notify)
  }

  function Critical(s: Shared, master: bool, entry: Entry): Turn
    requires CleanUp(s, master, entry).0.total + CleanUp(s, master, entry).0.idle >= 0
  {
    Decide(CleanUp(s, master, entry).0, master, CleanUp(s, master, entry).1)
  }

  /** A fair share of `n` checks among `d` threads, no more than a batch and no less than one. */
  predicate FairShare(k: nat, n: nat, d: int, batchSize: nat) {
    && (k == 1 || (k * d <= n && k <= batchSize))
    && (k >= batchSize || (k + 1) * d > n)
  }

  lemma ShareIsFair(s: Shared)
    requires s.queue != [] && s.total + s.idle >= 0
    ensures Share(s) >= 1 && FairShare(Share(s), |s.queue|, s.total + s.idle + 1, s.batchSize)
  {
    var d := s.total + s.idle + 1;
    var fair := |s.queue| / d;
    ShareBounds(s);
    DivMod(|s.queue|, d);
    MulDist(fair, 1, d);
    if s.batchSize < fair { MulMono(s.batchSize, fair, d); }
    if fair < 1 { MulMono(fair + 1, 2, d); }
  }

  /** How many threads are in the loop, the one at hand included, as the counters have it after the clean-up. */
  function Sharers(s: Shared, entry: Entry): int {
    s.total + s.idle + (match entry case First => 2 case AfterBatch(_, _) => 1 case AfterWait => 0)
  }

  /** A batch is a fair share of the queue taken from its end, the last check first. */
  lemma BatchIsShare(s: Shared, master: bool, entry: Entry)
    requires CleanUp(s, master, entry).0.total + CleanUp(s, master, entry).0.idle >= 0
    ensures var turn := Critical(s, master, entry);
            && (turn.outcome.Work? <==> s.queue != [])
            && (turn.outcome.Work? ==>
                  var batch, n := turn.outcome.batch, |s.queue|;
                  && 1 <= |batch| <= n && FairShare(|batch|, n, Sharers(s, entry), s.batchSize)
                  && turn.shared.queue == s.queue[..n - |batch|]
                  && (forall i: nat :: i < |batch| ==> batch[i] == s.queue[n - 1 - i]))
            && (!turn.outcome.Work? ==> turn.shared.queue == [])
  {
    hide Share, FairShare, Reversed;
    var c := CleanUp(s, master, entry).0;
    if c.queue != [] {
      ShareIsFair(c);
      ShareBounds(c);
      var keep := |c.queue| - Share(c);
      forall i: nat | i < Share(c)
        ensures |Reversed(c.queue[keep..])| == Share(c) && Reversed(c.queue[keep..])[i] == c.queue[|c.queue| - 1 - i]
      {
        ReversedElement(c.queue[keep..], i);
      }
      ReversedElement(c.queue[keep..], 0);
    }
  }

  /** The verdict of a batch: once a check has failed, the rest are skipped. */
  function RunFrom(batch: seq<Check>, ok: bool, n: nat): bool
    requires n <= |batch|
  {
    if n == 0 then ok else RunFrom(batch, ok, n - 1) && batch[n - 1].passes
  }

  /** The queue object: its methods are the code between taking and releasing the mutex. */
  class Queue {
    var queue: seq<Check>
    var idle: int
    var total: int
    var allOk: bool
    var todo: int
    const quit: bool
    const batchSize: nat

    function View(): Shared
      reads this
    {
      Shared(queue, idle, total, allOk, todo, quit, batchSize)
    }

    constructor (batchSize: nat)
      ensures View() == Shared([], 0, 0, true, 0, false, batchSize)
    {
      queue, idle, total, allOk, todo := [], 0, 0, true, 0;
      quit := false;
      this.batchSize := batchSize;
    }

    /** Queues a batch; the result says whether no, one or all workers are notified. */
    method Add(checks: seq<Check>) returns (wake: nat)
      modifies this
      ensures View() == old(View()).(queue := old(queue) + checks, todo := old(todo) + |checks|)
      ensures wake == if |checks| < 2 then |checks| else 2
    {
      var n := 0;
      while n < |checks|
        invariant 0 <= n <= |checks|
        invariant View() == old(View()).(queue := old(queue) + checks[..n])
      {
        queue := queue + [checks[n]];
        n := n + 1;
      }
      todo := todo + |checks|;
      wake := if |checks| == 1 then 1 else if |checks| > 1 then 2 else 0;
    }

    /** One pass through the critical section of Loop, up to waiting, returning or leaving with a batch. */
    method Loop(master: bool, entry: Entry) returns (outcome: Outcome, notify: bool)
      requires CleanUp(View(), master, entry).0.total + CleanUp(View(), master, entry).0.idle >= 0
      modifies this
      ensures Turn(View(), outcome, notify) == Critical(old(View()), master, entry)
      ensures outcome.Work? <==> old(queue) != []
      ensures outcome.Work? ==> FairShare(|outcome.batch|, |old(queue)|, Sharers(old(View()), entry), batchSize)
    {
      hide Decide, CleanUp, FairShare, Sharers;
      BatchIsShare(View(), master, entry);
      notify := Settle(master, entry);
      outcome := Leave(master, notify);
    }

    /** The clean-up of the previous round. */
    method Settle(master: bool, entry: Entry) returns (notify: bool)
      modifies this
      ensures (View(), notify) == CleanUp(old(View()), master, entry)
      ensures notify <==> entry.AfterBatch? && !master && todo == 0
      ensures todo == old(todo) - (if entry.AfterBatch? then entry.now else 0)
      ensures total == old(total) + (if entry.First? then 1 else 0) && idle == old(idle) - (if entry.AfterWait? then 1 else 0)
      ensures queue == old(queue) && (allOk <==> old(allOk) && (entry.AfterBatch? ==> entry.ok))
    {
      notify := false;
      match entry {
        case AfterBatch(now, ok) =>
          allOk := allOk && ok;
          todo := todo - now;
          if todo == 0 && !master {
            notify := true;
          }
        case First =>
          total := total + 1;
        case AfterWait =>
          idle := idle - 1;
      }
    }

    method Leave(master: bool, notify: bool) returns (outcome: Outcome)
      requires View().total + View().idle >= 0
      modifies this
      ensures Turn(View(), outcome, notify) == Decide(old(View()), master, notify)
    {
      hide Share, Reversed;
      if queue == [] {
        if (master || quit) && todo == 0 {
          total := total - 1;
          outcome := Return(allOk);
          if master {
            allOk := true;
          }
        } else {
          idle := idle + 1;
          outcome := Wait;
        }
        return;
      }
      ShareBounds(View());
      var now := Share(View());
      var batch := TakeBatch(now);
      outcome := Work(batch, allOk);
    }

    /** Moves the last `now` checks of the queue into a batch, last one first. */
    method TakeBatch(now: nat) returns (batch: seq<Check>)
      requires now <= |queue|
      modifies this`queue
      ensures queue == old(queue)[..|old(queue)| - now] && batch == Reversed(old(queue)[|old(queue)| - now..])
    {
      ghost var before := queue;
      batch := [];
      var i := 0;
      while i < now
        invariant 0 <= i <= now && |queue| == |before| - i
        invariant queue == before[..|before| - i] && batch == Reversed(before[|before| - i..])
      {
        var last := queue[|queue| - 1];
        assert before[|before| - i - 1..] == [last] + before[|before| - i..];
        batch := batch + [last];
        queue := queue[..|queue| - 1];
        i := i + 1;
      }
    }
  }

  /** Running a batch outside the mutex. */
  method Execute(batch: seq<Check>, start: bool) returns (ok: bool)
    ensures ok == RunFrom(batch, start, |batch|)
    ensures ok <==> start && forall c :: c in batch ==> c.passes
  {
    ok := start;
    var n := 0;
    while n < |batch|
      invariant 0 <= n <= |batch| && ok == RunFrom(batch, start, n)
      invariant ok <==> start && forall k :: 0 <= k < n ==> batch[k].passes
    {
      if ok {
        ok := batch[n].passes;
      }
      n := n + 1;
    }
  }
}
