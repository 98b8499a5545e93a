/** What single operations of the address manager achieve and what they leave alone. */
module AddrEffects {
  import opened Common
  import opened AddrState
  import opened AddrOps
  import opened AddrInv

  // ---------------------------------------------------------------- sizes

  function UnionOf(news: seq<set<nat>>): set<nat> {
    if |news| == 0 then {} else UnionOf(news[..|news| - 1]) + news[|news| - 1]
  }

  lemma {:induction false} UnionHas(news: seq<set<nat>>, b: nat, id: nat)
    requires b < |news| && id in news[b]
    ensures id in UnionOf(news)
  {
    if b < |news| - 1 {
      UnionHas(news[..|news| - 1], b, id);
    }
  }

  lemma {:induction false} UnionBound(news: seq<set<nat>>, limit: nat)
    requires forall b :: 0 <= b < |news| ==> |news[b]| <= limit
    ensures |UnionOf(news)| <= limit * |news|
  {
    if |news| > 0 {
      var front, last := UnionOf(news[..|news| - 1]), news[|news| - 1];
      UnionBound(news[..|news| - 1], limit);
      assert |front + last| + |front * last| == |front| + |last|;
      assert limit * |news| == limit * (|news| - 1) + limit;
    }
  }

  lemma TriedBound(env: Env, s: State)
    requires Shape(s) && TriedOk(env, s)
    ensures |TriedIds(s.info)| <= 64 * 64
  {
    hide TriedOk;
    var slots := seq(|s.tried|, b requires 0 <= b < |s.tried| => Elems(s.tried[b]));
    forall b | 0 <= b < |slots| ensures |slots[b]| <= TRIED_BUCKET_SIZE {
      TriedSize(env, s, b);
      SetFromSeqBound(slots[b], s.tried[b]);
    }
    UnionBound(slots, TRIED_BUCKET_SIZE);
    forall id | id in TriedIds(s.info) ensures id in UnionOf(slots) {
      TriedHome(env, s, id);
      UnionHas(slots, Home(env, s, id), id);
    }
    SubsetCard(TriedIds(s.info), UnionOf(slots));
  }

  lemma NewBound(s: State)
    requires Shape(s) && NewOk(s, NONE)
    ensures |NewIds(s.info)| <= 256 * 64
  {
    hide NewOk;
    forall b | 0 <= b < |s.news| ensures |s.news[b]| <= NEW_BUCKET_SIZE {
      NewSize(s, b, NONE);
    }
    UnionBound(s.news, NEW_BUCKET_SIZE);
    forall id | id in NewIds(s.info) ensures id in UnionOf(s.news) {
      var b := NewHome(s, id);
      UnionHas(s.news, b, id);
    }
    SubsetCard(NewIds(s.info), UnionOf(s.news));
  }

  /** The table never holds more than 64*64 tried and 256*64 new addresses, and nothing else. */
  lemma SizeBound(env: Env, s: State)
    requires Inv(env, s)
    ensures 0 <= s.nTried <= 64 * 64
    ensures 0 <= s.nNew <= 256 * 64
    ensures |s.random| == s.nTried + s.nNew == |s.info| == |s.addr|
  {
    hide LinkOk, TriedOk, NewOk, Known;
    KnownShape(s);
    TriedBound(env, s);
    NewBound(s);
    IndexSizes(s);
    IdsPartition(s.info);
  }

  lemma IdsPartition(m: map<nat, Info>)
    ensures |TriedIds(m)| + |NewIds(m)| == |m|
  {
    assert m.Keys == TriedIds(m) + NewIds(m);
    assert TriedIds(m) * NewIds(m) == {};
    assert |m.Keys| == |m|;
  }

  lemma TriedHome(env: Env, s: State, id: nat)
    requires Shape(s) && TriedOk(env, s) && id in s.info && s.info[id].inTried
    ensures id in s.tried[Home(env, s, id)] && s.info[id].refCount == 0
  {
  }

  lemma NewHome(s: State, id: nat) returns (b: nat)
    requires Shape(s) && NewOk(s, NONE) && id in s.info && !s.info[id].inTried
    ensures b < NEW_BUCKET_COUNT && id in s.news[b]
  {
    assert BucketsOf(s.news, id) != {};
    b :| b in BucketsOf(s.news, id);
  }

  lemma IndexSizes(s: State)
    requires LinkOk(s) && Known(s)
    ensures |s.random| == |s.info| == |s.addr|
  {
    hide LinkOk, Known;
    RandomCovers(s);
    DistinctCard(s.random);
    assert Elems(s.random) == s.info.Keys;
    var ips := RandomAddresses(s);
    DistinctCard(ips);
    assert Elems(ips) == s.addr.Keys;
  }

  /** The address index lists the addresses of the random vector, each once. */
  lemma RandomAddresses(s: State) returns (ips: seq<NetAddr>)
    requires LinkOk(s)
    ensures |ips| == |s.random| && Distinct(ips) && forall x :: x in ips <==> x in s.addr
  {
    ips := seq(|s.random|, i requires 0 <= i < |s.random| => s.info[s.random[i]].svc.ip);
    forall x | x in s.addr ensures x in ips {
      assert ips[s.info[s.addr[x]].randomPos] == x;
    }
    forall i, j | 0 <= i < j < |ips| ensures ips[i] != ips[j] {
      assert s.info[s.random[i]].randomPos == i && s.info[s.random[j]].randomPos == j;
    }
  }

  lemma RandomCovers(s: State)
    requires LinkOk(s)
    ensures Distinct(s.random) && forall x :: x in s.random <==> x in s.info
  {
    forall x | x in s.info ensures x in s.random {
      assert s.random[s.info[x].randomPos] == x;
    }
  }

  // ---------------------------------------------------------------- Good_

  lemma MakeTriedEffect(env: Env, s: State, id: nat, origin: nat, raw: nat -> nat)
    requires Inv(env, s) && id in s.info && !s.info[id].inTried
    requires origin < NEW_BUCKET_COUNT && id in s.news[origin]
    ensures var t := MakeTried(env, s, id, origin, raw);
            && t.info.Keys == s.info.Keys && t.addr == s.addr && t.random == s.random && t.key == s.key && t.idCount == s.idCount
            && t.info[id] == s.info[id].(inTried := true, refCount := 0)
            && (forall x :: x in s.info && x != id ==>
                  t.info[x] == s.info[x]
                  || (s.info[x].inTried && Home(env, s, x) == Home(env, s, id)
                      && |s.tried[Home(env, s, id)]| == TRIED_BUCKET_SIZE
                      && t.info[x] == s.info[x].(inTried := false, refCount := 1)))
  {
    hide LinkOk, NewOk, TriedOk, CountOk, TriedBut, Known, Select;
    KnownShape(s);
    var k := Home(env, s, id);
    TriedSize(env, s, k);
    LeaveNewInv(env, s, id);
    var s1 := LeaveNew(s, id);
    if |s1.tried[k]| == TRIED_BUCKET_SIZE {
      assert k == Home(env, s1, id);
      TriedKnown(s1, k);
      var sel, evicted := SelectedSlot(env, s1, id, raw);
      TriedBucketHome(env, s, k, evicted);
    }
  }

  lemma TriedBucketHome(env: Env, s: State, k: nat, x: nat)
    requires Shape(s) && TriedOk(env, s) && k < TRIED_BUCKET_COUNT && x in s.tried[k]
    ensures x in s.info && s.info[x].inTried && Home(env, s, x) == k
  {
  }

  /**
   Good_ on a known service leaves it in the tried table with its statistics reset. Every other entry is untouched,
   except that an entry of a full home bucket may have gone back to a single new bucket. No address is lost.
   */
  lemma GoodEffect(env: Env, s: State, svc: Service, time: int, raw: nat -> nat)
    requires Inv(env, s) && svc.ip in s.addr && s.addr[svc.ip] in s.info && s.info[s.addr[svc.ip]].svc == svc
    ensures var t := Good(env, s, svc, time, raw);
            var id := s.addr[svc.ip];
            && t.info.Keys == s.info.Keys && t.addr == s.addr
            && t.info[id] == s.info[id].(lastSuccess := time, lastTry := time, time := time % 0x1_0000_0000, attempts := 0,
                                         inTried := true, refCount := 0)
            && (forall x :: x in s.info && x != id ==>
                  t.info[x] == s.info[x]
                  || (s.info[x].inTried && !s.info[id].inTried && Home(env, s, x) == Home(env, s, id)
                      && |s.tried[Home(env, s, id)]| == TRIED_BUCKET_SIZE
                      && t.info[x] == s.info[x].(inTried := false, refCount := 1)))
  {
    hide LinkOk, NewOk, TriedOk, CountOk, Known;
    KnownShape(s);
    var id := s.addr[svc.ip];
    var i := MarkGood(s.info[id], time);
    var s1 := s.(info := s.info[id := i]);
    TouchInv(env, s, id, i);
    if s.info[id].inTried {
      TriedHome(env, s, id);
    } else {
      GoodFindsBucket(env, s1, id, Draw(NEW_BUCKET_COUNT, raw(0)));
      var b := FindBucket(s1.news, id, Draw(NEW_BUCKET_COUNT, raw(0)), 0).value;
      MakeTriedEffect(env, s1, id, b, raw);
      forall x | x in s.info ensures Home(env, s1, x) == Home(env, s, x) {
      }
    }
  }

  // ---------------------------------------------------------------- Add_

  /**
   An unknown routable address is always taken in: after Add_ it is in the table with one reference, in the bucket its
   source selects. Add_ reports "new" in exactly this case.
   */
  lemma AddFreshEffect(env: Env, s: State, a: Address, source: NetAddr, penalty: int, now: int, raw: nat -> nat)
    requires Inv(env, s)
    ensures var (t, isNew) := Add(env, s, a, source, penalty, now, raw);
            && (isNew <==> env.routable(a.svc.ip) && a.svc.ip !in s.addr)
            && (isNew ==>
                  && a.svc.ip in t.addr && t.addr[a.svc.ip] in t.info
                  && var i := t.info[t.addr[a.svc.ip]];
                  && i.svc == a.svc && i.refCount == 1 && !i.inTried && i.source == source
                  && exists b :: b == NewBucket(env, s.key, a.svc.ip, source) && b < |t.news| && t.addr[a.svc.ip] in t.news[b])
  {
    hide LinkOk, NewOk, TriedOk, CountOk, Known, CreateNew, Place, Add;
    AddIsNew(env, s, a, source, penalty, now, raw);
    if env.routable(a.svc.ip) && a.svc.ip !in s.addr {
      AddFreshIsPlace(env, s, a, source, penalty, now, raw);
      var u := Incref(CreateNew(s, a, source, penalty), s.idCount);
      var b := NewBucket(env, s.key, a.svc.ip, source);
      CreateFacts(s, u, a, source, penalty);
      PlaceEffect(env, u, b, s.idCount, now, raw);
      PlaceInv(env, u, b, s.idCount, now, raw);
      LinkedBack(Place(u, b, s.idCount, now, raw), s.idCount);
    }
  }

  lemma AddIsNew(env: Env, s: State, a: Address, source: NetAddr, penalty: int, now: int, raw: nat -> nat)
    requires Inv(env, s)
    ensures Add(env, s, a, source, penalty, now, raw).1 <==> env.routable(a.svc.ip) && a.svc.ip !in s.addr
  {
    hide NewOk, TriedOk, CountOk, LinkOk, PutInNew, CreateNew;
    AddrIndexed(s, a.svc.ip);
  }

  /** Placing a pending entry keeps every tried entry and the services and standing of all that remain. */
  lemma PlaceEffect(env: Env, s: State, b: nat, id: nat, now: int, raw: nat -> nat)
    requires InvPending(env, s, id) && id in s.info && !s.info[id].inTried
    requires b < NEW_BUCKET_COUNT && id !in s.news[b]
    ensures forall x :: x in s.news[b] ==> x in s.info
    ensures var t := Place(s, b, id, now, raw);
            && id in t.info && b < |t.news| && id in t.news[b] && t.info[id] == s.info[id].(randomPos := t.info[id].randomPos)
            && t.tried == s.tried
            && (forall x :: x in s.info && s.info[x].inTried ==> x in t.info)
            && (forall x :: x in t.info ==> x in s.info && t.info[x].svc == s.info[x].svc && t.info[x].inTried == s.info[x].inTried)
            && (forall x :: x in s.info && x !in t.info ==>
                  |s.news[b]| == NEW_BUCKET_SIZE && x == Victim(s.info, s.news[b], now, raw) && s.info[x].refCount == 1)
  {
    hide LinkOk, NewOk, TriedOk, CountOk, Known, Unref, Victim;
    KnownShape(s);
    NewKnown(s, b);
    if |s.news[b]| == NEW_BUCKET_SIZE {
      var v := Victim(s.info, s.news[b], now, raw);
      NewMember(s, b, v, id);
      UnrefBuckets(s, b, v);
    }
  }

  lemma LinkedBack(s: State, id: nat)
    requires LinkOk(s) && id in s.info
    ensures s.info[id].svc.ip in s.addr && s.addr[s.info[id].svc.ip] == id
  {
  }

  /** Giving a known address one more reference is placing it, with the reference counted. */
  lemma AddKnownIsPlace(env: Env, s: State, id: nat, a: Address, source: NetAddr, penalty: int, now: int, raw: nat -> nat)
    requires Inv(env, s) && env.routable(a.svc.ip) && Find(s, a.svc.ip) == Some(id)
    requires var i := Refresh(s.info[id], a, penalty, now);
             WantsReference(i, a, raw) && id !in s.news[NewBucket(env, s.key, i.svc.ip, source)]
    ensures var i := Refresh(s.info[id], a, penalty, now);
            var u := Incref(s.(info := s.info[id := i]), id);
            var b := NewBucket(env, s.key, i.svc.ip, source);
            && InvPending(env, u, id) && !u.info[id].inTried && id !in u.news[b]
            && Add(env, s, a, source, penalty, now, raw) == (Place(u, b, id, now, raw), false)
  {
    hide LinkOk, TriedOk, NewOk, CountOk, Known, ShrinkNew;
    KnownShape(s);
    var i := Refresh(s.info[id], a, penalty, now);
    NewRef(s, id, NONE);
    TouchInv(env, s, id, i);
    IncrefInv(env, s.(info := s.info[id := i]), id);
    PutInNewIsPlace(env, s.(info := s.info[id := i]), id, source, now, raw);
  }

  /** An entry that Add_ throws out: unreferenced elsewhere, chosen from the full bucket the new address goes to. */
  ghost predicate ThrownOut(env: Env, s: State, a: Address, source: NetAddr, x: nat)
    requires Shape(s) && x in s.info
  {
    var b := NewBucket(env, s.key, a.svc.ip, source);
    |s.news[b]| == NEW_BUCKET_SIZE && x in s.news[b] && s.info[x].refCount == 1 && !s.info[x].inTried
  }

  /**
   Add_ never touches the tried table, the services of surviving entries or their standing. Tried entries survive, and
   an entry that does not was thrown out of the full bucket with its last reference.
   */
  lemma AddKeeps(env: Env, s: State, a: Address, source: NetAddr, penalty: int, now: int, raw: nat -> nat, x: nat)
    requires Inv(env, s) && x in s.info
    ensures var t := Add(env, s, a, source, penalty, now, raw).0;
            && t.tried == s.tried
            && (x !in t.info ==> ThrownOut(env, s, a, source, x))
            && (x in t.info ==> t.info[x].svc == s.info[x].svc && t.info[x].inTried == s.info[x].inTried)
  {
    hide LinkOk, NewOk, TriedOk, CountOk, Known, Refresh, PutInNew, CreateNew;
    KnownShape(s);
    if env.routable(a.svc.ip) {
      match Find(s, a.svc.ip)
      case Some(id) => AddKnownKeeps(env, s, id, a, source, penalty, now, raw, x);
      case None => AddFreshKeeps(env, s, a, source, penalty, now, raw, x);
    }
  }

  lemma RefreshStanding(i: Info, a: Address, penalty: int, now: int)
    ensures SameStanding(i, Refresh(i, a, penalty, now))
  {
  }

  lemma AddKnownKeeps(env: Env, s: State, id: nat, a: Address, source: NetAddr, penalty: int, now: int, raw: nat -> nat, x: nat)
    requires Inv(env, s) && x in s.info && env.routable(a.svc.ip) && Find(s, a.svc.ip) == Some(id)
    ensures var t := Add(env, s, a, source, penalty, now, raw).0;
            && t.tried == s.tried
            && (x !in t.info ==> ThrownOut(env, s, a, source, x))
            && (x in t.info ==> t.info[x].svc == s.info[x].svc && t.info[x].inTried == s.info[x].inTried)
  {
    hide LinkOk, NewOk, TriedOk, CountOk, Known, Refresh, Place, WantsReference;
    KnownShape(s);
    AddrIndexed(s, a.svc.ip);
    var i := Refresh(s.info[id], a, penalty, now);
    RefreshStanding(s.info[id], a, penalty, now);
    TouchInv(env, s, id, i);
    if WantsReference(i, a, raw) && id !in s.news[NewBucket(env, s.key, i.svc.ip, source)] {
      var b := NewBucket(env, s.key, i.svc.ip, source);
      AddKnownIsPlace(env, s, id, a, source, penalty, now, raw);
      var u := Incref(s.(info := s.info[id := i]), id);
      PlaceEffect(env, u, b, id, now, raw);
      if x !in Place(u, b, id, now, raw).info { NewMember(s, b, x, NONE); }
    }
  }

  lemma AddFreshKeeps(env: Env, s: State, a: Address, source: NetAddr, penalty: int, now: int, raw: nat -> nat, x: nat)
    requires Inv(env, s) && x in s.info && env.routable(a.svc.ip) && Find(s, a.svc.ip) == None
    ensures var t := Add(env, s, a, source, penalty, now, raw).0;
            && t.tried == s.tried
            && (x !in t.info ==> ThrownOut(env, s, a, source, x))
            && (x in t.info ==> t.info[x].svc == s.info[x].svc && t.info[x].inTried == s.info[x].inTried)
  {
    hide LinkOk, NewOk, TriedOk, CountOk, Known, CreateNew, Place, Add;
    KnownShape(s);
    AddFreshIsPlace(env, s, a, source, penalty, now, raw);
    var u := Incref(CreateNew(s, a, source, penalty), s.idCount);
    var b := NewBucket(env, s.key, a.svc.ip, source);
    CreateFacts(s, u, a, source, penalty);
    PlaceEffect(env, u, b, s.idCount, now, raw);
    if x !in Place(u, b, s.idCount, now, raw).info { NewMember(s, b, x, NONE); }
  }

  /** Add_ deletes at most one entry. */
  lemma AddDeletesOne(env: Env, s: State, a: Address, source: NetAddr, penalty: int, now: int, raw: nat -> nat, x: nat, y: nat)
    requires Inv(env, s) && x in s.info && y in s.info
    requires var t := Add(env, s, a, source, penalty, now, raw).0; x !in t.info && y !in t.info
    ensures x == y
  {
    hide LinkOk, NewOk, TriedOk, CountOk, Known, Refresh, Place, WantsReference, CreateNew;
    KnownShape(s);
    AddrIndexed(s, a.svc.ip);
    match Find(s, a.svc.ip)
    case Some(id) =>
      var i := Refresh(s.info[id], a, penalty, now);
      RefreshStanding(s.info[id], a, penalty, now);
      TouchInv(env, s, id, i);
      AddKnownIsPlace(env, s, id, a, source, penalty, now, raw);
      PlaceEffect(env, Incref(s.(info := s.info[id := i]), id), NewBucket(env, s.key, i.svc.ip, source), id, now, raw);
    case None =>
      AddFreshIsPlace(env, s, a, source, penalty, now, raw);
      var u := Incref(CreateNew(s, a, source, penalty), s.idCount);
      CreateFacts(s, u, a, source, penalty);
      PlaceEffect(env, u, NewBucket(env, s.key, a.svc.ip, source), s.idCount, now, raw);
  }

  // ---------------------------------------------------------------- SelectTried

  /** Among the entries inspected, the one taken for the oldest has the least last-success time. */
  lemma {:induction false} SelectOldest(v: seq<nat>, info: map<nat, Info>, raw: nat -> nat, n: nat)
    requires 0 < n <= |v| && forall id :: id in v ==> id in info
    ensures var sel := Select(v, info, raw, n);
            && (exists i: nat :: i < n && sel.bucket[i] == sel.oldest && sel.pos == DrawnPos(|v|, raw, i) && FirstOldest(sel.bucket, info, i))
            && forall i :: 0 <= i < n ==> sel.bucket[i] in info && info[sel.oldest].lastSuccess <= info[sel.bucket[i]].lastSuccess
  {
    hide Select, DrawnPos, SwapSeq;
    var sel := Select(v, info, raw, n);
    var pos := DrawnPos(|v|, raw, n - 1);
    var prev := Select(v, info, raw, n - 1);
    SelectStep(v, info, raw, n);
    SwapSeqAt(prev.bucket, n - 1, pos);
    if n > 1 {
      SelectOldest(v, info, raw, n - 1);
      assert forall i :: 0 <= i < n - 1 ==> sel.bucket[i] == prev.bucket[i];
      var i: nat :| i < n - 1 && prev.bucket[i] == prev.oldest && prev.pos == DrawnPos(|v|, raw, i) && FirstOldest(prev.bucket, info, i);
      assert sel.bucket[i] == prev.oldest;
      assert FirstOldest(sel.bucket, info, i);
      if sel.oldest != prev.oldest { assert FirstOldest(sel.bucket, info, n - 1); }
    }
  }

  /** All entries before place `i` were successful later than that at place `i`. */
  predicate FirstOldest(bucket: seq<nat>, info: map<nat, Info>, i: nat)
    requires i < |bucket|
  {
    && bucket[i] in info
    && forall j: nat :: j < i ==> bucket[j] in info && info[bucket[j]].lastSuccess > info[bucket[i]].lastSuccess
  }

  /**
   SelectTried reports the slot an entry was drawn from, although it has just moved it to the front. The reported slot
   therefore holds the entry found oldest if and only if that entry was drawn from its own place, that is, the round
   that found it drew the first slot of its range.
   */
  lemma SelectedSlotHoldsOldest(v: seq<nat>, info: map<nat, Info>, raw: nat -> nat, i: nat)
    requires v != [] && Distinct(v) && forall id :: id in v ==> id in info
    requires i < Rounds(|v|) && Select(v, info, raw, Rounds(|v|)).bucket[i] == Select(v, info, raw, Rounds(|v|)).oldest
    ensures var sel := Select(v, info, raw, Rounds(|v|));
            sel.pos == DrawnPos(|v|, raw, i) && (sel.bucket[sel.pos] == sel.oldest <==> Draw(|v| - i, raw(1 + i)) == 0)
  {
    assert DrawnPos(|v|, raw, i) == Draw(|v| - i, raw(1 + i)) + i;
    hide Select, DrawnPos, Draw, Distinct;
    var n := Rounds(|v|);
    var sel := Select(v, info, raw, n);
    SelectPermutes(v, info, raw, n);
    SelectOldest(v, info, raw, n);
    var k :| 0 <= k < n && sel.bucket[k] == sel.oldest && sel.pos == DrawnPos(|v|, raw, k);
    DistinctAt(sel.bucket, k, i);
    DistinctAt(sel.bucket, sel.pos, i);
  }

  lemma DistinctAt(q: seq<nat>, i: nat, j: nat)
    requires Distinct(q) && i < |q| && j < |q|
    ensures q[i] == q[j] <==> i == j
  {
  }

  /** The draw of round `i` over a full bucket. */
  function RoundDraw(raw: nat -> nat, i: nat): nat
    requires i < TRIED_ENTRIES_INSPECT_ON_EVICT
  {
    Draw(TRIED_BUCKET_SIZE - i, raw(1 + i))
  }

  /** No draw of the four rounds is zero; all of them are. */
  predicate NoZeroDraw(raw: nat -> nat) {
    forall i: nat :: i < TRIED_ENTRIES_INSPECT_ON_EVICT ==> RoundDraw(raw, i) != 0
  }

  predicate AllZeroDraws(raw: nat -> nat) {
    forall i: nat :: i < TRIED_ENTRIES_INSPECT_ON_EVICT ==> RoundDraw(raw, i) == 0
  }

  /**
   What the draws alone decide, for every full bucket, which is what MakeTried passes: with no zero among them the slot
   reported holds another entry than the one found oldest, with only zeroes it holds that one.
   */
  lemma SlotByDraws(v: seq<nat>, info: map<nat, Info>, raw: nat -> nat)
    requires |v| == TRIED_BUCKET_SIZE && Distinct(v) && forall id :: id in v ==> id in info
    ensures var sel := Select(v, info, raw, Rounds(|v|));
            && (NoZeroDraw(raw) ==> sel.bucket[sel.pos] != sel.oldest)
            && (AllZeroDraws(raw) ==> sel.bucket[sel.pos] == sel.oldest)
  {
    hide Select, DrawnPos, Draw;
    var n := Rounds(|v|);
    var sel := Select(v, info, raw, n);
    SelectOldest(v, info, raw, n);
    var i :| 0 <= i < n && sel.bucket[i] == sel.oldest && sel.pos == DrawnPos(|v|, raw, i);
    SelectedSlotHoldsOldest(v, info, raw, i);
    assert RoundDraw(raw, i) == Draw(|v| - i, raw(1 + i));
  }

  /** The front entry of `v` moved along to place `n`. */
  predicate Shifted(v: seq<nat>, w: seq<nat>, n: nat) {
    && |w| == |v| && n < |v| && w[n] == v[0]
    && (forall j :: 0 <= j < n ==> w[j] == v[j + 1])
    && (forall j :: n < j < |v| ==> w[j] == v[j])
  }

  lemma ShiftedStart(v: seq<nat>)
    requires v != []
    ensures Shifted(v, v, 0)
  {
  }

  lemma ShiftedStep(v: seq<nat>, w: seq<nat>, n: nat)
    requires 0 < n < |v| && Shifted(v, w, n - 1)
    ensures |w| == |v| && w[n] == v[n] && Shifted(v, SwapSeq(w, n - 1, n), n)
  {
    SwapSeqAt(w, n - 1, n);
    hide SwapSeq;
  }

  lemma UnitPos(size: nat, raw: nat -> nat, i: nat)
    requires i + 1 < size && raw(1 + i) == 1
    ensures DrawnPos(size, raw, i) == i + 1
  {
  }

  /** Rounds in which every draw is one move the front entry along, past the next `n`. */
  lemma {:induction false} UnitRounds(v: seq<nat>, info: map<nat, Info>, raw: nat -> nat, n: nat)
    requires 1 <= n < |v| && (forall id :: id in v ==> id in info) && forall k: nat :: raw(k) == 1
    requires forall j :: 0 <= j < |v| && j != 1 ==> info[v[1]].lastSuccess < info[v[j]].lastSuccess
    ensures var sel := Select(v, info, raw, n); sel.oldest == v[1] && sel.pos == 1 && Shifted(v, sel.bucket, n)
  {
    hide Select, SwapSeq, DrawnPos, Shifted;
    UnitPos(|v|, raw, n - 1);
    SelectStep(v, info, raw, n);
    var prev := Select(v, info, raw, n - 1);
    if n == 1 {
      SelectStart(v, info, raw);
      ShiftedStart(v);
      ShiftedStep(v, v, 1);
      assert prev.bucket[1] == v[1];
    } else {
      UnitRounds(v, info, raw, n - 1);
      ShiftedStep(v, prev.bucket, n);
      assert prev.oldest == v[1] && prev.bucket[n] == v[n];
      assert !(info[v[n]].lastSuccess < info[v[1]].lastSuccess);
    }
  }

  /** An instance for every full bucket whose second entry is older than all others: with draws of one, the third goes. */
  lemma SlotOfUnitDraws(v: seq<nat>, info: map<nat, Info>, raw: nat -> nat)
    requires |v| == TRIED_BUCKET_SIZE && (forall id :: id in v ==> id in info) && forall k: nat :: raw(k) == 1
    requires forall j :: 0 <= j < |v| && j != 1 ==> info[v[1]].lastSuccess < info[v[j]].lastSuccess
    ensures var sel := Select(v, info, raw, Rounds(|v|)); sel.oldest == v[1] && sel.bucket[sel.pos] == v[2]
  {
    hide Select;
    UnitRounds(v, info, raw, Rounds(|v|));
    assert Select(v, info, raw, Rounds(|v|)).bucket[1] == v[2];
  }

  /** The entry a full bucket gives up, by the draws: never the oldest inspected one, or always that one. */
  lemma EvictedByDraws(env: Env, s: State, id: nat, origin: nat, raw: nat -> nat)
    requires Promoting(env, s, id) && |s.tried[Home(env, s, id)]| == TRIED_BUCKET_SIZE && origin < NEW_BUCKET_COUNT
    ensures var v := s.tried[Home(env, s, id)];
            var sel := Select(v, s.info, raw, Rounds(|v|));
            var t := EvictTried(env, s, Home(env, s, id), id, origin, raw);
            && sel.oldest in v && t.info.Keys == s.info.Keys
            && (forall i :: 0 <= i < Rounds(|v|) ==> sel.bucket[i] in v && s.info[sel.oldest].lastSuccess <= s.info[sel.bucket[i]].lastSuccess)
            && (AllZeroDraws(raw) ==> !t.info[sel.oldest].inTried && forall x :: x in v && x != sel.oldest ==> t.info[x].inTried)
            && (NoZeroDraw(raw) ==> t.info[sel.oldest].inTried && exists x :: x in v && x != sel.oldest && !t.info[x].inTried)
  {
    hide LinkOk, NewOk, TriedBut, Known, Select, NoZeroDraw, AllZeroDraws, Refuge;
    PromotingBucket(env, s, id);
    var v := s.tried[Home(env, s, id)];
    var sel, evicted := SelectedSlot(env, s, id, raw);
    SlotByDraws(v, s.info, raw);
    SelectOldest(v, s.info, raw, Rounds(|v|));
    assert forall i :: 0 <= i < Rounds(|v|) ==> sel.bucket[i] in sel.bucket;
  }

  /** The same for a promotion from an invariant state: which tried entry of the full bucket goes back. */
  lemma PromotionByDraws(env: Env, s: State, id: nat, origin: nat, raw: nat -> nat)
    requires Inv(env, s) && id in s.info && !s.info[id].inTried && origin < NEW_BUCKET_COUNT
    requires |s.tried[Home(env, s, id)]| == TRIED_BUCKET_SIZE
    ensures forall x :: x in s.tried[Home(env, s, id)] ==> x in LeaveNew(s, id).info
    ensures var v := s.tried[Home(env, s, id)];
            var oldest := Select(v, LeaveNew(s, id).info, raw, Rounds(|v|)).oldest;
            var t := MakeTried(env, s, id, origin, raw);
            && oldest in v && oldest in t.info
            && (AllZeroDraws(raw) ==> !t.info[oldest].inTried)
            && (NoZeroDraw(raw) ==> t.info[oldest].inTried)
  {
    hide LinkOk, NewOk, TriedOk, CountOk, TriedBut, Known, Select, NoZeroDraw, AllZeroDraws, EvictTried;
    KnownShape(s);
    LeaveNewInv(env, s, id);
    var s1 := LeaveNew(s, id);
    assert Home(env, s1, id) == Home(env, s, id);
    PromotingBucket(env, s1, id);
    EvictedByDraws(env, s1, id, origin, raw);
    assert MakeTried(env, s, id, origin, raw) == EvictTried(env, s1, Home(env, s, id), id, origin, raw);
  }

  lemma PromotingBucket(env: Env, s: State, id: nat)
    requires Promoting(env, s, id)
    ensures Shape(s) && forall x :: x in s.tried[Home(env, s, id)] ==> x in s.info && s.info[x].inTried
    ensures Distinct(s.tried[Home(env, s, id)])
  {
    hide LinkOk, NewOk, Known, TriedBut, Home;
    KnownShape(s);
    TriedButMembers(env, s, id, Home(env, s, id));
  }
}
