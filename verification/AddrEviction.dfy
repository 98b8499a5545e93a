/** A run from the empty manager in which a full tried bucket gives up another entry than the oldest it inspected. */
module AddrEviction {
  // Under a constant hash all addresses share one tried bucket and one new bucket. Sixty-five are added and promoted one
  // after the other; the second is the one longest without success. All draws are one.
  import opened Common
  import opened AddrState
  import opened AddrOps
  import opened AddrInv
  import opened AddrEffects
  import opened AddrRuns

  function Svc(i: nat): Service { Service(i, 0) }

  /** When service `i` is marked good; the second before all others. */
  function SuccessTime(i: nat): int { if i == 1 then 1 else 2 }

  function AddOf(i: nat, raw: nat -> nat): Op { OpAdd(Address(Svc(i), {}, 0), 0, 0, 0, raw) }

  function GoodOf(i: nat, raw: nat -> nat): Op { OpGood(Svc(i), SuccessTime(i), raw) }

  /** The first `n` services, each added and promoted. */
  function Promotions(n: nat, raw: nat -> nat): seq<Op> {
    if n == 0 then [] else Promotions(n - 1, raw) + [AddOf(n - 1, raw)] + [GoodOf(n - 1, raw)]
  }

  /** The first `n` services are listed under the ids below `n`, in the order of their promotion in one tried bucket. */
  ghost predicate Promoted(env: Env, key: Key, s: State, k: nat, n: nat)
    requires k < TRIED_BUCKET_COUNT
  {
    Inv(env, s) && s.key == key && Shape(s) && s.idCount == n && (forall j: nat :: j in s.info <==> j < n) && QueuedInOrder(s, k, n)
  }

  ghost predicate QueuedInOrder(s: State, k: nat, n: nat) {
    && (forall j: nat :: j < n ==>
          j in s.info && s.info[j].svc == Svc(j) && s.info[j].inTried && s.info[j].lastSuccess == SuccessTime(j))
    && k < |s.tried| && |s.tried[k]| == n && (forall j: nat :: j < n ==> s.tried[k][j] == j)
  }

  /** The same with service `n` added as a new entry. */
  ghost predicate Added(env: Env, key: Key, s: State, k: nat, n: nat)
    requires k < TRIED_BUCKET_COUNT
  {
    && Inv(env, s) && s.key == key && Shape(s) && s.idCount == n + 1 && (forall j: nat :: j in s.info <==> j <= n)
    && QueuedInOrder(s, k, n) && Lists(s, Svc(n)) && s.addr[n] == n && !s.info[n].inTried
  }

  lemma NothingPromoted(env: Env, key: Key, k: nat)
    requires k < TRIED_BUCKET_COUNT
    ensures Promoted(env, key, InitState(key), k, 0)
  {
    InitInv(env, key);
  }

  /** While all entries are tried the new buckets are empty. */
  lemma NewsEmpty(s: State, b: nat)
    requires Shape(s) && NewOk(s, NONE) && b < NEW_BUCKET_COUNT && forall id :: id in s.info ==> s.info[id].inTried
    ensures s.news[b] == {}
  {
    hide NewOk;
    forall id ensures id !in s.news[b] {
      if id in s.news[b] { NewMember(s, b, id, NONE); }
    }
  }

  /** Adding an unknown address whose bucket is not full. */
  lemma AddWithRoom(env: Env, s: State, a: Address, source: NetAddr, penalty: int, now: int, raw: nat -> nat)
    requires Inv(env, s) && env.routable(a.svc.ip) && a.svc.ip !in s.addr
    requires Shape(s) && |s.news[NewBucket(env, s.key, a.svc.ip, source)]| < NEW_BUCKET_SIZE
    ensures s.idCount !in s.info && s.idCount in CreateNew(s, a, source, penalty).info
    ensures var t, u := Add(env, s, a, source, penalty, now, raw).0, Incref(CreateNew(s, a, source, penalty), s.idCount);
            t == u.(news := t.news)
  {
    hide LinkOk, TriedOk, NewOk, CountOk, Known, CreateNew, Add, NewBucket, ShrinkNew;
    AddFreshIsPlace(env, s, a, source, penalty, now, raw);
    CreateFacts(s, Incref(CreateNew(s, a, source, penalty), s.idCount), a, source, penalty);
  }

  lemma AddOne(env: Env, key: Key, s: State, k: nat, n: nat, raw: nat -> nat)
    requires k < TRIED_BUCKET_COUNT && Promoted(env, key, s, k, n) && env.routable(n)
    ensures Added(env, key, Step(env, s, AddOf(n, raw)), k, n)
  {
    hide LinkOk, TriedOk, NewOk, CountOk, Known, Add, NewBucket, Step, Lists;
    StepInv(env, s, AddOf(n, raw));
    StepIsAdd(env, s, n, raw);
    StepShape(env, Step(env, s, AddOf(n, raw)));
    AddrIndexed(s, n);
    NewsEmpty(s, NewBucket(env, s.key, n, 0));
    AddNext(env, s, Address(Svc(n), {}, 0), raw);
  }

  lemma StepIsAdd(env: Env, s: State, n: nat, raw: nat -> nat)
    requires Inv(env, s)
    ensures Known(s) && Step(env, s, AddOf(n, raw)) == Add(env, s, Address(Svc(n), {}, 0), 0, 0, 0, raw).0
  {
    hide LinkOk, TriedOk, NewOk, CountOk, Known, Add;
  }

  /** The entry an unknown address gets, while no bucket is full. */
  lemma AddNext(env: Env, s: State, a: Address, raw: nat -> nat)
    requires Inv(env, s) && env.routable(a.svc.ip) && a.svc.ip !in s.addr
    requires Shape(s) && |s.news[NewBucket(env, s.key, a.svc.ip, 0)]| < NEW_BUCKET_SIZE
    ensures var t, id := Add(env, s, a, 0, 0, 0, raw).0, s.idCount;
            && t.key == s.key && t.tried == s.tried && t.idCount == id + 1 && id in t.info && t.info == s.info[id := t.info[id]]
            && Lists(t, a.svc) && t.addr[a.svc.ip] == id && !t.info[id].inTried
  {
    hide LinkOk, TriedOk, NewOk, CountOk, Known, CreateNew, Add, NewBucket, Incref;
    AddWithRoom(env, s, a, 0, 0, 0, raw);
    AddInv(env, s, a, 0, 0, 0, raw);
    var t, u := Add(env, s, a, 0, 0, 0, raw).0, Incref(CreateNew(s, a, 0, 0), s.idCount);
    CreateFacts(s, u, a, 0, 0);
    CreateFields(s, a, 0, 0);
    IncrefFields(CreateNew(s, a, 0, 0), s.idCount);
    LinkedBack(t, s.idCount);
  }

  lemma IncrefFields(s: State, id: nat)
    requires id in s.info
    ensures Incref(s, id).idCount == s.idCount && Incref(s, id).info[id].svc == s.info[id].svc
  {
  }

  /** A promotion into a bucket with room appends to it. */
  lemma GoodPushes(env: Env, s: State, svc: Service, time: int, raw: nat -> nat)
    requires Inv(env, s) && Lists(s, svc) && !s.info[s.addr[svc.ip]].inTried && Shape(s)
    requires |s.tried[Home(env, s, s.addr[svc.ip])]| < TRIED_BUCKET_SIZE
    ensures var t, id := Good(env, s, svc, time, raw), s.addr[svc.ip];
            var k := Home(env, s, id);
            t.tried == s.tried[k := s.tried[k] + [id]] && t.key == s.key && t.idCount == s.idCount
  {
    hide LinkOk, TriedOk, NewOk, CountOk, Known, FindBucket, Draw, TriedBucket;
    var id := s.addr[svc.ip];
    var i := MarkGood(s.info[id], time);
    TouchInv(env, s, id, i);
    GoodFindsBucket(env, s.(info := s.info[id := i]), id, Draw(NEW_BUCKET_COUNT, raw(0)));
  }

  lemma PromoteOne(env: Env, key: Key, s: State, k: nat, n: nat, raw: nat -> nat)
    requires n < TRIED_BUCKET_SIZE && k < TRIED_BUCKET_COUNT && Added(env, key, s, k, n) && TriedBucket(env, key, Svc(n)) == k
    ensures Promoted(env, key, Step(env, s, GoodOf(n, raw)), k, n + 1)
  {
    hide LinkOk, TriedOk, NewOk, CountOk, Known, Good, TriedBucket;
    StepInv(env, s, GoodOf(n, raw));
    GoodEffect(env, s, Svc(n), SuccessTime(n), raw);
    GoodPushes(env, s, Svc(n), SuccessTime(n), raw);
    StepShape(env, Step(env, s, GoodOf(n, raw)));
  }

  lemma StepShape(env: Env, s: State)
    requires Inv(env, s)
    ensures Shape(s)
  {
    hide LinkOk, TriedOk, NewOk, CountOk;
  }

  /** The two calls for one service. */
  lemma RoundRun(env: Env, key: Key, n: nat, raw: nat -> nat)
    requires Inv(env, InitState(key))
    ensures var s := Run(env, InitState(key), Promotions(n, raw));
            && Inv(env, s) && Inv(env, Step(env, s, AddOf(n, raw)))
            && Run(env, InitState(key), Promotions(n, raw) + [AddOf(n, raw)]) == Step(env, s, AddOf(n, raw))
            && Run(env, InitState(key), Promotions(n + 1, raw)) == Step(env, Step(env, s, AddOf(n, raw)), GoodOf(n, raw))
  {
    hide Inv, Run, Step;
    RunSnoc(env, InitState(key), Promotions(n, raw), AddOf(n, raw));
    RunSnoc(env, InitState(key), Promotions(n, raw) + [AddOf(n, raw)], GoodOf(n, raw));
    StepInv(env, Run(env, InitState(key), Promotions(n, raw)), AddOf(n, raw));
  }

  lemma {:induction false} PromoteAll(env: Env, key: Key, k: nat, n: nat, raw: nat -> nat)
    requires n <= TRIED_BUCKET_SIZE && k < TRIED_BUCKET_COUNT && Inv(env, InitState(key))
    requires forall i: nat :: i < n ==> env.routable(i) && TriedBucket(env, key, Svc(i)) == k
    ensures Promoted(env, key, Run(env, InitState(key), Promotions(n, raw)), k, n)
  {
    hide Inv, Run, Step, Promoted, Added, TriedBucket;
    if n == 0 {
      NothingPromoted(env, key, k);
      RunNothing(env, InitState(key));
      PromotionsNone(raw);
    } else {
      PromoteAll(env, key, k, n - 1, raw);
      RoundRun(env, key, n - 1, raw);
      var s := Run(env, InitState(key), Promotions(n - 1, raw));
      AddOne(env, key, s, k, n - 1, raw);
      PromoteOne(env, key, Step(env, s, AddOf(n - 1, raw)), k, n - 1, raw);
    }
  }

  lemma PromotionsNone(raw: nat -> nat)
    ensures Promotions(0, raw) == []
  {
  }

  /** The promotion that meets the full bucket: the third entry goes back, although the second is the oldest inspected. */
  lemma LastPromotion(env: Env, key: Key, s: State, k: nat, raw: nat -> nat)
    requires k < TRIED_BUCKET_COUNT && Added(env, key, s, k, TRIED_BUCKET_SIZE) && (forall i: nat :: raw(i) == 1)
    requires TriedBucket(env, key, Svc(TRIED_BUCKET_SIZE)) == k
    ensures forall id :: id in s.tried[k] ==> id in s.info
    ensures Select(s.tried[k], s.info, raw, Rounds(|s.tried[k]|)).oldest == 1
    ensures var t := Good(env, s, Svc(TRIED_BUCKET_SIZE), SuccessTime(TRIED_BUCKET_SIZE), raw);
            t.info.Keys == s.info.Keys && t.info[1].inTried && !t.info[2].inTried && t.info[TRIED_BUCKET_SIZE].inTried
  {
    hide LinkOk, TriedOk, NewOk, CountOk, Known, TriedBucket, Select, FindBucket, Draw, EvictTried;
    var id := TRIED_BUCKET_SIZE;
    var v := s.tried[k];
    var i := MarkGood(s.info[id], SuccessTime(id));
    var s1 := s.(info := s.info[id := i]);
    assert forall x :: x in v ==> x < id;
    TouchInv(env, s, id, i);
    GoodFindsBucket(env, s1, id, Draw(NEW_BUCKET_COUNT, raw(0)));
    var b := FindBucket(s1.news, id, Draw(NEW_BUCKET_COUNT, raw(0)), 0).value;
    var s2 := LeaveNew(s1, id);
    GoodEffect(env, s, Svc(id), SuccessTime(id), raw);
    assert Good(env, s, Svc(id), SuccessTime(id), raw) == EvictTried(env, s2, k, id, b, raw);
    SlotOfUnitDraws(v, s.info, raw);
    SlotOfUnitDraws(v, s2.info, raw);
    EvictedEntry(env, s2, k, id, b, raw, 2);
  }

  /** Only the entry in the selected slot leaves the tried table. */
  lemma EvictedEntry(env: Env, s: State, k: nat, id: nat, origin: nat, raw: nat -> nat, x: nat)
    requires Shape(s) && k < TRIED_BUCKET_COUNT && origin < NEW_BUCKET_COUNT && s.tried[k] != []
    requires forall y :: y in s.tried[k] ==> y in s.info
    requires var sel := Select(s.tried[k], s.info, raw, Rounds(|s.tried[k]|)); sel.bucket[sel.pos] == x
    ensures x in s.info
    ensures EvictTried(env, s, k, id, origin, raw).info == s.info[x := s.info[x].(inTried := false, refCount := 1)]
  {
    hide Select, Refuge;
    var sel := Select(s.tried[k], s.info, raw, Rounds(|s.tried[k]|));
    assert x in sel.bucket;
  }

  /**
   Sixty-four promotions fill the bucket; the sixty-fifth sends back the third entry and leaves the second, which is the
   oldest of those inspected and has been without success longer than every other entry of the bucket.
   */
  lemma OldestSpared(env: Env, key: Key, c: nat, raw: nat -> nat)
    requires (forall q :: env.hash(q) == c) && (forall i: nat :: i <= TRIED_BUCKET_SIZE ==> env.routable(i))
    requires forall i: nat :: raw(i) == 1
    ensures Inv(env, InitState(key))
    ensures var full := Run(env, InitState(key), Promotions(TRIED_BUCKET_SIZE, raw) + [AddOf(TRIED_BUCKET_SIZE, raw)]);
            var k := c % TRIED_BUCKET_COUNT;
            && |full.tried| == TRIED_BUCKET_COUNT && |full.tried[k]| == TRIED_BUCKET_SIZE
            && (forall id :: id in full.tried[k] ==> id in full.info)
            && (forall id :: id in full.tried[k] && id != 1 ==> 1 in full.info && full.info[1].lastSuccess < full.info[id].lastSuccess)
            && Select(full.tried[k], full.info, raw, Rounds(TRIED_BUCKET_SIZE)).oldest == 1
    ensures var after := Run(env, InitState(key), Promotions(TRIED_BUCKET_SIZE + 1, raw));
            && 1 in after.info && 2 in after.info && TRIED_BUCKET_SIZE in after.info
            && after.info[1].inTried && !after.info[2].inTried && after.info[TRIED_BUCKET_SIZE].inTried
  {
    InitInv(env, key);
    hide Inv, Run, Promoted, Added, TriedBucket, Good, Add, Select, Promotions;
    var k := c % TRIED_BUCKET_COUNT;
    forall i: nat ensures TriedBucket(env, key, Svc(i)) == k { ConstantBucket(env, key, Svc(i), c); }
    PromoteAll(env, key, k, TRIED_BUCKET_SIZE, raw);
    RoundRun(env, key, TRIED_BUCKET_SIZE, raw);
    var s := Run(env, InitState(key), Promotions(TRIED_BUCKET_SIZE, raw));
    AddOne(env, key, s, k, TRIED_BUCKET_SIZE, raw);
    var full := Step(env, s, AddOf(TRIED_BUCKET_SIZE, raw));
    AddedFacts(env, key, full, k);
    LastPromotion(env, key, full, k, raw);
  }

  lemma AddedFacts(env: Env, key: Key, s: State, k: nat)
    requires k < TRIED_BUCKET_COUNT && Added(env, key, s, k, TRIED_BUCKET_SIZE)
    ensures Shape(s) && |s.tried[k]| == TRIED_BUCKET_SIZE && (forall id: nat :: id in s.info <==> id <= TRIED_BUCKET_SIZE)
    ensures forall id :: id in s.tried[k] ==> id in s.info
    ensures forall id :: id in s.tried[k] && id != 1 ==> s.info[1].lastSuccess < s.info[id].lastSuccess
  {
    hide Inv, Lists;
    assert forall id :: id in s.tried[k] ==> id < TRIED_BUCKET_SIZE;
  }

  lemma ConstantBucket(env: Env, key: Key, svc: Service, c: nat)
    requires forall q :: env.hash(q) == c
    ensures TriedBucket(env, key, svc) == c % TRIED_BUCKET_COUNT
  {
  }
}
