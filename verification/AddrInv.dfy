/** Every operation of the address manager keeps the consistency invariant. */
module AddrInv {
  import opened Common
  import opened AddrState
  import opened AddrOps

  // ---------------------------------------------------------------- deletion

  /** Everything but random positions is as before. */
  ghost predicate SameButPositions(s: State, t: State) {
    && t.key == s.key && t.idCount == s.idCount && t.addr == s.addr && t.tried == s.tried && t.news == s.news
    && t.nTried == s.nTried && t.nNew == s.nNew && t.info.Keys == s.info.Keys && |t.random| == |s.random|
    && (forall id :: id in s.info ==> t.info[id] == s.info[id].(randomPos := t.info[id].randomPos))
  }

  lemma SwapRandomSame(s: State, i: nat, j: nat)
    requires Known(s) && i < |s.random| && j < |s.random|
    ensures SameButPositions(s, SwapRandom(s, i, j))
  {
  }

  lemma SamePositionsInv(env: Env, s: State, t: State, pending: int)
    requires InvPending(env, s, pending) && SameButPositions(s, t) && LinkOk(t) && Known(t)
    ensures InvPending(env, t, pending)
  {
    hide LinkOk, TriedOk, NewOk, CountOk, Known;
    KnownShape(s);
    KnownShape(t);
    TriedFrame(env, s, t);
    NewFrame(s, t, pending);
    CountFrame(s, t);
  }

  /** What deletion leaves behind. */
  lemma DropRest(s: State, v: nat)
    requires Known(s) && v in s.info
    ensures var t := Drop(s, v);
            && t.key == s.key && t.idCount == s.idCount && t.tried == s.tried && t.news == s.news
            && t.nTried == s.nTried && t.nNew == s.nNew - 1
            && t.info.Keys == s.info.Keys - {v} && t.addr == s.addr - {s.info[v].svc.ip}
            && (forall id :: id in t.info ==> t.info[id] == s.info[id].(randomPos := t.info[id].randomPos))
  {
    SwapRandomSame(s, s.info[v].randomPos, |s.random| - 1);
  }

  /** Popping the last position of the random vector together with its entry. */
  lemma PopLink(s1: State, t: State, v: nat)
    requires LinkOk(s1) && v in s1.info && |s1.random| > 0 && s1.random[|s1.random| - 1] == v
    requires t.idCount == s1.idCount && t.info == s1.info - {v} && t.addr == s1.addr - {s1.info[v].svc.ip}
    requires t.random == s1.random[..|s1.random| - 1]
    ensures LinkOk(t)
  {
    var last := |s1.random| - 1;
    forall id | id in t.info
      ensures t.info[id].randomPos < |t.random| && t.random[t.info[id].randomPos] == id
    {
      assert s1.info[id].randomPos != last;
    }
    forall i | 0 <= i < |t.random| ensures t.random[i] in t.info && t.info[t.random[i]].randomPos == i {
      assert s1.random[i] != v;
    }
  }

  lemma DropLink(s: State, v: nat)
    requires Known(s) && LinkOk(s) && v in s.info
    ensures LinkOk(Drop(s, v))
  {
    hide LinkOk, Known, PosOk, SwapRandom, Drop;
    LinkPos(s);
    PosAt(s.random, s.info, v);
    var last, pos := |s.random| - 1, s.info[v].randomPos;
    SwapRandomKnown(s, pos, last);
    SwapRandomLink(s, pos, last);
    SwapRandomSame(s, pos, last);
    SwapToEnd(s, pos, last);
    DropParts(s, v);
    PopLink(SwapRandom(s, pos, last), Drop(s, v), v);
  }

  lemma PosAt(random: seq<nat>, info: map<nat, Info>, v: nat)
    requires PosOk(random, info) && v in info
    ensures info[v].randomPos < |random| && random[info[v].randomPos] == v
  {
  }

  lemma SwapToEnd(s: State, i: nat, j: nat)
    requires i < |s.random| && j < |s.random| && s.random[i] in s.info && s.random[j] in s.info
    ensures |SwapRandom(s, i, j).random| == |s.random| && SwapRandom(s, i, j).random[j] == s.random[i]
  {
  }

  lemma DropParts(s: State, v: nat)
    requires Known(s) && v in s.info
    requires s.info[v].randomPos < |s.random| && s.random[s.info[v].randomPos] in s.info && s.random[|s.random| - 1] in s.info
    ensures var s1, t := SwapRandom(s, s.info[v].randomPos, |s.random| - 1), Drop(s, v);
            && |s1.random| == |s.random| && t.idCount == s1.idCount && t.info == s1.info - {v}
            && t.addr == s1.addr - {s.info[v].svc.ip} && t.random == s1.random[..|s.random| - 1]
  {
    hide Known;
  }

  lemma UnrefBuckets(s: State, b: nat, v: nat)
    requires Known(s) && v in s.info && b < NEW_BUCKET_COUNT
    ensures var t := Unref(s, b, v);
            && t.news == s.news[b := s.news[b] - {v}] && t.tried == s.tried && t.key == s.key && t.idCount == s.idCount
            && t.nTried == s.nTried
            && t.info.Keys == (if s.info[v].refCount == 1 then s.info.Keys - {v} else s.info.Keys)
            && t.nNew == (if s.info[v].refCount == 1 then s.nNew - 1 else s.nNew)
            && (forall id :: id in t.info && id != v ==> t.info[id] == s.info[id].(randomPos := t.info[id].randomPos))
            && (v in t.info ==> t.info[v] == s.info[v].(refCount := s.info[v].refCount - 1))
  {
    var s1 := s.(news := s.news[b := s.news[b] - {v}]);
    DropRest(s1, v);
  }

  /** What the invariant says of a member of a new bucket. */
  lemma NewMember(s: State, b: nat, v: nat, pending: int)
    requires Shape(s) && NewOk(s, pending) && b < NEW_BUCKET_COUNT && v in s.news[b]
    ensures v in s.info && !s.info[v].inTried && 1 <= s.info[v].refCount <= NEW_BUCKETS_PER_ADDRESS
    ensures v != pending ==> s.info[v].refCount == Count(s.news, v)
  {
  }

  lemma NewSize(s: State, b: nat, pending: int)
    requires Shape(s) && NewOk(s, pending) && b < NEW_BUCKET_COUNT
    ensures |s.news[b]| <= NEW_BUCKET_SIZE
  {
  }

  lemma NewRef(s: State, id: nat, pending: int)
    requires Shape(s) && NewOk(s, pending) && id in s.info && !s.info[id].inTried
    ensures 1 <= s.info[id].refCount <= NEW_BUCKETS_PER_ADDRESS
    ensures s.info[id].refCount == Count(s.news, id) + (if id == pending then 1 else 0)
  {
  }

  lemma LinkFresh(s: State)
    requires LinkOk(s)
    ensures s.idCount !in s.info
  {
  }

  lemma NewOkIntro(s: State, pending: int)
    requires Shape(s)
    requires forall id :: id in s.info && !s.info[id].inTried ==>
               1 <= s.info[id].refCount <= NEW_BUCKETS_PER_ADDRESS
               && s.info[id].refCount == Count(s.news, id) + (if id == pending then 1 else 0)
    requires forall b, id :: 0 <= b < NEW_BUCKET_COUNT && id in s.news[b] ==> id in s.info && !s.info[id].inTried
    requires forall b :: 0 <= b < NEW_BUCKET_COUNT ==> |s.news[b]| <= NEW_BUCKET_SIZE
    ensures NewOk(s, pending)
  {
  }

  lemma TriedOkIntro(env: Env, s: State)
    requires Shape(s)
    requires forall id :: id in s.info && s.info[id].inTried ==> s.info[id].refCount == 0 && id in s.tried[Home(env, s, id)]
    requires forall b, id :: 0 <= b < TRIED_BUCKET_COUNT && id in s.tried[b] ==>
               id in s.info && s.info[id].inTried && Home(env, s, id) == b
    requires forall b :: 0 <= b < TRIED_BUCKET_COUNT ==> |s.tried[b]| <= TRIED_BUCKET_SIZE && Distinct(s.tried[b])
    ensures TriedOk(env, s)
  {
  }

  lemma UnrefNew(s: State, t: State, b: nat, v: nat, pending: int)
    requires Known(s) && NewOk(s, pending) && v != pending
    requires b < NEW_BUCKET_COUNT && v in s.news[b] && v in s.info && t == Unref(s, b, v) && Shape(t)
    ensures NewOk(t, pending)
  {
    hide Known, Unref, Drop, NewOk, Count;
    KnownShape(s);
    UnrefBuckets(s, b, v);
    NewMember(s, b, v, pending);
    CountRemove(s.news, b, v, v);
    if s.info[v].refCount == 1 {
      CountZero(t.news, v);
    }
    forall id | id in t.info && !t.info[id].inTried
      ensures 1 <= t.info[id].refCount <= NEW_BUCKETS_PER_ADDRESS
              && t.info[id].refCount == Count(t.news, id) + (if id == pending then 1 else 0)
    {
      NewRef(s, id, pending);
      CountRemove(s.news, b, v, id);
    }
    forall k, id | 0 <= k < NEW_BUCKET_COUNT && id in t.news[k] ensures id in t.info && !t.info[id].inTried {
      NewMember(s, k, id, pending);
    }
    forall k | 0 <= k < NEW_BUCKET_COUNT ensures |t.news[k]| <= NEW_BUCKET_SIZE {
      NewSize(s, k, pending);
      SubsetCard(t.news[k], s.news[k]);
    }
    NewOkIntro(t, pending);
  }

  lemma UnrefLink(s: State, b: nat, v: nat)
    requires Known(s) && LinkOk(s) && b < NEW_BUCKET_COUNT && v in s.info
    ensures LinkOk(Unref(s, b, v))
  {
    var s1 := s.(news := s.news[b := s.news[b] - {v}]);
    assert Known(s1);
    hide LinkOk, Known;
    LinkFrame(s, s1);
    DropLink(s1, v);
    if s.info[v].refCount != 1 { LinkFrame(s, Unref(s, b, v)); }
  }

  /** Known follows from the three index invariants. */
  lemma KnownFrom(env: Env, s: State, pending: int)
    requires Shape(s) && LinkOk(s) && TriedOk(env, s) && NewOk(s, pending)
    ensures Known(s)
  {
  }

  lemma UnrefInv(env: Env, s: State, b: nat, v: nat, pending: int)
    requires InvPending(env, s, pending) && v != pending
    requires b < NEW_BUCKET_COUNT && v in s.news[b]
    ensures v in s.info && !s.info[v].inTried && InvPending(env, Unref(s, b, v), pending)
  {
    hide LinkOk, TriedOk, NewOk, Known, Unref;
    KnownShape(s);
    NewMember(s, b, v, pending);
    var t := Unref(s, b, v);
    UnrefBuckets(s, b, v);
    UnrefLink(s, b, v);
    UnrefNew(s, t, b, v, pending);
    TriedFrame(env, s, t);
    KnownFrom(env, t, pending);
    assert TriedIds(t.info) == TriedIds(s.info);
    if s.info[v].refCount == 1 {
      assert NewIds(t.info) == NewIds(s.info) - {v};
    } else {
      assert NewIds(t.info) == NewIds(s.info);
    }
  }

  lemma NewKnown(s: State, b: nat)
    requires Known(s) && b < NEW_BUCKET_COUNT
    ensures forall x :: x in s.news[b] ==> x in s.info
  {
  }

  /** ShrinkNew frees a place in the bucket, whatever entry outside the bucket is pending. */
  lemma ShrinkInv(env: Env, s: State, b: nat, now: int, raw: nat -> nat, pending: int)
    requires InvPending(env, s, pending) && b < NEW_BUCKET_COUNT && s.news[b] != {}
    requires pending < 0 || pending !in s.news[b]
    ensures InvPending(env, ShrinkNew(s, b, now, raw), pending)
    ensures |ShrinkNew(s, b, now, raw).news[b]| == |s.news[b]| - 1
  {
    hide LinkOk, TriedOk, NewOk, CountOk, Known, Unref, Victim;
    KnownShape(s);
    NewKnown(s, b);
    var v := Victim(s.info, s.news[b], now, raw);
    UnrefInv(env, s, b, v, pending);
    UnrefBuckets(s, b, v);
  }

  // ---------------------------------------------------------------- adding

  function Incref(s: State, id: nat): State
    requires id in s.info
  {
    s.(info := s.info[id := s.info[id].(refCount := s.info[id].refCount + 1)])
  }

  lemma IncrefNew(s: State, id: nat)
    requires Shape(s) && NewOk(s, NONE) && id in s.info && !s.info[id].inTried && s.info[id].refCount < NEW_BUCKETS_PER_ADDRESS
    ensures NewOk(Incref(s, id), id)
  {
  }

  lemma IncrefInv(env: Env, s: State, id: nat)
    requires Inv(env, s) && id in s.info && !s.info[id].inTried && s.info[id].refCount < NEW_BUCKETS_PER_ADDRESS
    ensures InvPending(env, Incref(s, id), id)
  {
    hide LinkOk, TriedOk, NewOk, CountOk, Known;
    var t := Incref(s, id);
    KnownShape(s);
    NewRef(s, id, NONE);
    IncrefNew(s, id);
    LinkFrame(s, t);
    KnownFrame(s, t);
    TriedFrame(env, s, t);
    CountFrame(s, t);
  }

  lemma InsertNew(s: State, t: State, b: nat, id: nat)
    requires Shape(s) && Shape(t) && NewOk(s, id) && id in s.info && !s.info[id].inTried
    requires b < NEW_BUCKET_COUNT && id !in s.news[b] && |s.news[b]| < NEW_BUCKET_SIZE
    requires t.info == s.info && t.news == s.news[b := s.news[b] + {id}]
    ensures NewOk(t, NONE)
  {
    forall x | x in t.info && !t.info[x].inTried
      ensures t.info[x].refCount == Count(t.news, x)
    {
      CountInsert(s.news, b, id, x);
    }
  }

  lemma InsertInv(env: Env, s: State, b: nat, id: nat)
    requires InvPending(env, s, id) && id in s.info && !s.info[id].inTried
    requires b < NEW_BUCKET_COUNT && id !in s.news[b] && |s.news[b]| < NEW_BUCKET_SIZE
    ensures Inv(env, s.(news := s.news[b := s.news[b] + {id}]))
  {
    KnownShape(s);
    hide LinkOk, TriedOk, NewOk, CountOk, Known;
    var t := s.(news := s.news[b := s.news[b] + {id}]);
    InsertNew(s, t, b, id);
    LinkFrame(s, t);
    TriedFrame(env, s, t);
    KnownFrom(env, t, NONE);
    CountFrame(s, t);
  }

  function Place(s: State, b: nat, id: nat, now: int, raw: nat -> nat): State
    requires Known(s) && b < NEW_BUCKET_COUNT
  {
    var s2 := if |s.news[b]| == NEW_BUCKET_SIZE then ShrinkNew(s, b, now, raw) else s;
    if b < |s2.news| then s2.(news := s2.news[b := s2.news[b] + {id}]) else s2
  }

  /** The room-making half of PutInNew, from a state in which the reference is already counted. */
  lemma PlaceInv(env: Env, s: State, b: nat, id: nat, now: int, raw: nat -> nat)
    requires InvPending(env, s, id) && id in s.info && !s.info[id].inTried
    requires b < NEW_BUCKET_COUNT && id !in s.news[b]
    ensures Inv(env, Place(s, b, id, now, raw))
  {
    hide LinkOk, TriedOk, NewOk, CountOk, Known, Unref, Victim;
    KnownShape(s);
    NewSize(s, b, id);
    NewKnown(s, b);
    if |s.news[b]| == NEW_BUCKET_SIZE {
      var v := Victim(s.info, s.news[b], now, raw);
      var s2 := ShrinkNew(s, b, now, raw);
      ShrinkInv(env, s, b, now, raw, id);
      UnrefBuckets(s, b, v);
      InsertInv(env, s2, b, id);
    } else {
      InsertInv(env, s, b, id);
    }
  }

  lemma PutInNewInv(env: Env, s: State, id: nat, source: NetAddr, now: int, raw: nat -> nat)
    requires Inv(env, s) && id in s.info && !s.info[id].inTried && s.info[id].refCount < NEW_BUCKETS_PER_ADDRESS
    ensures Inv(env, PutInNew(env, s, id, source, now, raw))
  {
    hide LinkOk, TriedOk, NewOk, CountOk, Known;
    KnownShape(s);
    var b := NewBucket(env, s.key, s.info[id].svc.ip, source);
    if id !in s.news[b] {
      IncrefInv(env, s, id);
      PlaceInv(env, Incref(s, id), b, id, now, raw);
      PutInNewIsPlace(env, s, id, source, now, raw);
    }
  }

  lemma PutInNewIsPlace(env: Env, s: State, id: nat, source: NetAddr, now: int, raw: nat -> nat)
    requires Known(s) && id in s.info && Known(Incref(s, id))
    requires id !in s.news[NewBucket(env, s.key, s.info[id].svc.ip, source)]
    ensures PutInNew(env, s, id, source, now, raw)
            == Place(Incref(s, id), NewBucket(env, s.key, s.info[id].svc.ip, source), id, now, raw)
  {
  }

  lemma CreateLink(s: State, a: Address, source: NetAddr, penalty: int)
    requires LinkOk(s) && a.svc.ip !in s.addr
    ensures LinkOk(CreateNew(s, a, source, penalty))
  {
    hide CreateNew, LinkOk;
    CreateFields(s, a, source, penalty);
    LinkPush(s, CreateNew(s, a, source, penalty), CreateNew(s, a, source, penalty).info[s.idCount]);
  }

  /** A fresh entry with an address of its own, linked in all three indexes. */
  lemma LinkPush(s: State, t: State, i: Info)
    requires LinkOk(s) && i.svc.ip !in s.addr && i.randomPos == |s.random|
    requires t.idCount == s.idCount + 1 && t.info == s.info[s.idCount := i]
    requires t.addr == s.addr[i.svc.ip := s.idCount] && t.random == s.random + [s.idCount]
    ensures LinkOk(t)
  {
    hide LinkOk, PosOk;
    LinkFresh(s);
    forall x | x in t.info ensures x < t.idCount && t.info[x].svc.ip in t.addr && t.addr[t.info[x].svc.ip] == x {
      if x != s.idCount { InfoIndexed(s, x); }
    }
    forall ip | ip in t.addr ensures t.addr[ip] in t.info && t.info[t.addr[ip]].svc.ip == ip {
      if ip != i.svc.ip { AddrIndexed(s, ip); }
    }
    LinkPos(s);
    PosPush(s.random, s.info, t.info, s.idCount);
    LinkIntro(t);
  }

  lemma CreateFields(s: State, a: Address, source: NetAddr, penalty: int)
    ensures var t := CreateNew(s, a, source, penalty);
            && t.idCount == s.idCount + 1 && t.addr == s.addr[a.svc.ip := s.idCount] && t.random == s.random + [s.idCount]
            && s.idCount in t.info && t.info == s.info[s.idCount := t.info[s.idCount]]
            && t.info[s.idCount].svc == a.svc && t.info[s.idCount].randomPos == |s.random| && t.news == s.news
  {
  }

  /** A fresh entry takes the next random position. */
  lemma PosPush(random: seq<nat>, info: map<nat, Info>, after: map<nat, Info>, id: nat)
    requires PosOk(random, info) && id !in info && after.Keys == info.Keys + {id} && after[id].randomPos == |random|
    requires forall x :: x in info ==> after[x] == info[x]
    ensures PosOk(random + [id], after)
  {
  }

  lemma CreateNewOk(s: State, t: State)
    requires Known(s) && Shape(t) && LinkOk(s) && NewOk(s, NONE) && t.news == s.news
    requires t.info.Keys == s.info.Keys + {s.idCount} && !t.info[s.idCount].inTried && t.info[s.idCount].refCount == 1
    requires forall id :: id in s.info ==> t.info[id] == s.info[id]
    ensures NewOk(t, s.idCount)
  {
    assert BucketsOf(s.news, s.idCount) == {};
    forall id | id in t.info && !t.info[id].inTried
      ensures 1 <= t.info[id].refCount <= NEW_BUCKETS_PER_ADDRESS
              && t.info[id].refCount == Count(t.news, id) + (if id == s.idCount then 1 else 0)
    {
      assert id == s.idCount || id in s.info;
    }
  }

  lemma CreateCount(s: State, t: State, i: Info)
    requires CountOk(s) && s.idCount !in s.info && t.nTried == s.nTried && t.nNew == s.nNew + 1
    requires t.info == s.info[s.idCount := i] && !i.inTried
    ensures CountOk(t)
  {
    hide TriedIds, NewIds;
    IdsUpdate(s.info, s.idCount, i);
    FreshIds(s.info, s.idCount);
  }

  lemma FreshIds(m: map<nat, Info>, id: nat)
    requires id !in m
    ensures id !in TriedIds(m) && id !in NewIds(m)
  {
  }

  /** The state after creation, with the first reference counted, seen from the state before. */
  lemma CreateFacts(s: State, u: State, a: Address, source: NetAddr, penalty: int)
    requires s.idCount !in s.info && u == Incref(CreateNew(s, a, source, penalty), s.idCount)
    ensures u.key == s.key && u.tried == s.tried && u.news == s.news && u.nTried == s.nTried && u.nNew == s.nNew + 1
    ensures u.info.Keys == s.info.Keys + {s.idCount}
    ensures !u.info[s.idCount].inTried && u.info[s.idCount].refCount == 1
    ensures forall id :: id in s.info ==> u.info[id] == s.info[id]
    ensures u.info == s.info[s.idCount := u.info[s.idCount]]
    ensures SameLinks(CreateNew(s, a, source, penalty), u)
  {
  }

  /** A created entry with its first reference counted is pending. */
  lemma CreateInv(env: Env, s: State, a: Address, source: NetAddr, penalty: int)
    requires Inv(env, s) && a.svc.ip !in s.addr
    ensures InvPending(env, Incref(CreateNew(s, a, source, penalty), s.idCount), s.idCount)
  {
    hide LinkOk, TriedOk, NewOk, CountOk, Known, CreateNew, Incref, SameLinks;
    assert s.idCount in CreateNew(s, a, source, penalty).info by { CreateHas(s, a, source, penalty); }
    var t := CreateNew(s, a, source, penalty);
    var u := Incref(t, s.idCount);
    KnownShape(s);
    LinkFresh(s);
    CreateLink(s, a, source, penalty);
    CreateFacts(s, u, a, source, penalty);
    LinkFrame(t, u);
    TriedFrame(env, s, u);
    CreateNewOk(s, u);
    KnownFrom(env, u, s.idCount);
    CreateCount(s, u, u.info[s.idCount]);
  }

  lemma CreateHas(s: State, a: Address, source: NetAddr, penalty: int)
    ensures s.idCount in CreateNew(s, a, source, penalty).info
  {
  }

  lemma CreateKnown(s: State, a: Address, source: NetAddr, penalty: int)
    requires Known(s)
    ensures Known(CreateNew(s, a, source, penalty))
  {
  }

  lemma AddInv(env: Env, s: State, a: Address, source: NetAddr, penalty: int, now: int, raw: nat -> nat)
    requires Inv(env, s)
    ensures Inv(env, Add(env, s, a, source, penalty, now, raw).0)
  {
    if env.routable(a.svc.ip) {
      match Find(s, a.svc.ip)
      case Some(id) => AddKnownInv(env, s, id, a, source, penalty, now, raw);
      case None => AddFreshInv(env, s, a, source, penalty, now, raw);
    }
  }

  lemma AddKnownInv(env: Env, s: State, id: nat, a: Address, source: NetAddr, penalty: int, now: int, raw: nat -> nat)
    requires Inv(env, s) && env.routable(a.svc.ip) && Find(s, a.svc.ip) == Some(id)
    ensures Inv(env, Add(env, s, a, source, penalty, now, raw).0)
  {
    hide LinkOk, TriedOk, NewOk, CountOk, Known;
    KnownShape(s);
    var i := Refresh(s.info[id], a, penalty, now);
    if !s.info[id].inTried { NewRef(s, id, NONE); }
    TouchInv(env, s, id, i);
    if WantsReference(i, a, raw) {
      PutInNewInv(env, s.(info := s.info[id := i]), id, source, now, raw);
    }
  }

  lemma FindNone(s: State, ip: NetAddr)
    requires LinkOk(s) && Find(s, ip) == None
    ensures ip !in s.addr
  {
  }

  /** Adding an unknown address is placing the created entry, whose first reference is counted. */
  lemma AddFreshIsPlace(env: Env, s: State, a: Address, source: NetAddr, penalty: int, now: int, raw: nat -> nat)
    requires Inv(env, s) && env.routable(a.svc.ip) && Find(s, a.svc.ip) == None
    ensures s.idCount !in s.info && s.idCount in CreateNew(s, a, source, penalty).info
    ensures var u := Incref(CreateNew(s, a, source, penalty), s.idCount);
            var b := NewBucket(env, s.key, a.svc.ip, source);
            && InvPending(env, u, s.idCount) && s.idCount !in u.news[b]
            && u.info[s.idCount].svc == a.svc && u.info[s.idCount].source == source
            && Add(env, s, a, source, penalty, now, raw) == (Place(u, b, s.idCount, now, raw), true)
  {
    hide LinkOk, TriedOk, NewOk, CountOk, Known, ShrinkNew;
    FindNone(s, a.svc.ip);
    LinkFresh(s);
    KnownShape(s);
    var t := CreateNew(s, a, source, penalty);
    var b := NewBucket(env, s.key, a.svc.ip, source);
    if s.idCount in s.news[b] { NewMember(s, b, s.idCount, NONE); }
    CreateInv(env, s, a, source, penalty);
    CreateKnown(s, a, source, penalty);
    PutInNewIsPlace(env, t, s.idCount, source, now, raw);
  }

  lemma AddFreshInv(env: Env, s: State, a: Address, source: NetAddr, penalty: int, now: int, raw: nat -> nat)
    requires Inv(env, s) && env.routable(a.svc.ip) && Find(s, a.svc.ip) == None
    ensures Inv(env, Add(env, s, a, source, penalty, now, raw).0)
  {
    hide LinkOk, TriedOk, NewOk, CountOk, Known, CreateNew, Place, Add;
    AddFreshIsPlace(env, s, a, source, penalty, now, raw);
    CreateFacts(s, Incref(CreateNew(s, a, source, penalty), s.idCount), a, source, penalty);
    PlaceInv(env, Incref(CreateNew(s, a, source, penalty), s.idCount), NewBucket(env, s.key, a.svc.ip, source),
             s.idCount, now, raw);
  }

  // ---------------------------------------------------------------- promotion to the tried table

  /** The tried table while `id` is flagged as tried but has no slot yet. */
  ghost predicate TriedBut(env: Env, s: State, id: nat)
    requires Shape(s)
  {
    && (forall x :: x in s.info && s.info[x].inTried && x != id ==> s.info[x].refCount == 0 && x in s.tried[Home(env, s, x)])
    && (forall b, x :: 0 <= b < TRIED_BUCKET_COUNT && x in s.tried[b] ==>
          x in s.info && s.info[x].inTried && Home(env, s, x) == b && x != id)
    && (forall b :: 0 <= b < TRIED_BUCKET_COUNT ==> |s.tried[b]| <= TRIED_BUCKET_SIZE && Distinct(s.tried[b]))
  }

  /** After leaving the new table, an entry is consistent except that it has no tried slot and is not counted. */
  ghost predicate Promoting(env: Env, s: State, id: nat) {
    && Known(s) && LinkOk(s) && NewOk(s, NONE) && TriedBut(env, s, id)
    && id in s.info && s.info[id].inTried && s.info[id].refCount == 0
    && s.nTried + 1 == |TriedIds(s.info)| && s.nNew == |NewIds(s.info)|
  }

  lemma LeaveNewOk(s: State, id: nat)
    requires Known(s) && NewOk(s, NONE) && id in s.info && !s.info[id].inTried
    ensures NewOk(LeaveNew(s, id), NONE)
  {
    hide Known;
    KnownShape(s);
    var t := LeaveNew(s, id);
    forall x | x in t.info && !t.info[x].inTried ensures t.info[x].refCount == Count(t.news, x) {
      assert BucketsOf(t.news, x) == BucketsOf(s.news, x);
    }
    forall b | 0 <= b < NEW_BUCKET_COUNT ensures |t.news[b]| <= NEW_BUCKET_SIZE {
      SubsetCard(t.news[b], s.news[b]);
    }
  }

  lemma LeaveTried(env: Env, s: State, id: nat)
    requires Known(s) && TriedOk(env, s) && id in s.info && !s.info[id].inTried
    ensures TriedBut(env, LeaveNew(s, id), id)
  {
    hide Known;
    KnownShape(s);
  }

  lemma LeaveKnown(s: State, id: nat)
    requires Known(s) && id in s.info
    ensures Known(LeaveNew(s, id))
  {
  }

  lemma IdMember(m: map<nat, Info>, id: nat)
    requires id in m
    ensures id in (if m[id].inTried then TriedIds(m) else NewIds(m))
    ensures id !in (if m[id].inTried then NewIds(m) else TriedIds(m))
  {
  }

  lemma LeaveNewInv(env: Env, s: State, id: nat)
    requires Inv(env, s) && id in s.info && !s.info[id].inTried
    ensures Promoting(env, LeaveNew(s, id), id)
  {
    hide LinkOk, TriedOk, TriedBut, NewOk, Known, TriedIds, NewIds;
    var t := LeaveNew(s, id);
    LeaveNewOk(s, id);
    LeaveTried(env, s, id);
    LeaveKnown(s, id);
    LinkFrame(s, t);
    IdsUpdate(s.info, id, t.info[id]);
    IdMember(s.info, id);
  }

  lemma PushTriedOk(env: Env, s: State, id: nat)
    requires Shape(s) && TriedBut(env, s, id) && id in s.info && s.info[id].inTried && s.info[id].refCount == 0
    requires |s.tried[Home(env, s, id)]| < TRIED_BUCKET_SIZE
    ensures TriedOk(env, PushTried(s, Home(env, s, id), id))
  {
    var k := Home(env, s, id);
    var t := PushTried(s, k, id);
    assert t.tried[k][|s.tried[k]|] == id;
  }

  lemma PushTriedInv(env: Env, s: State, id: nat)
    requires Promoting(env, s, id) && |s.tried[Home(env, s, id)]| < TRIED_BUCKET_SIZE
    ensures Inv(env, PushTried(s, Home(env, s, id), id))
  {
    hide LinkOk, NewOk, TriedOk, TriedBut, Known;
    KnownShape(s);
    var t := PushTried(s, Home(env, s, id), id);
    LinkFrame(s, t);
    PushTriedOk(env, s, id);
    NewFrame(s, t, NONE);
    KnownFrom(env, t, NONE);
  }

  lemma ReplaceSlot(bucket: seq<nat>, pos: nat, id: nat)
    requires pos < |bucket| && Distinct(bucket) && id !in bucket
    ensures var after := bucket[pos := id];
            Distinct(after) && forall x :: x in after <==> x == id || (x in bucket && x != bucket[pos])
  {
    var after := bucket[pos := id];
    assert after[pos] == id;
    forall x | x in after && x != id ensures x in bucket && x != bucket[pos] {
      var j :| 0 <= j < |after| && after[j] == x;
      assert bucket[j] == x;
    }
    forall x | x in bucket && x != bucket[pos] ensures x in after {
      var j :| 0 <= j < |bucket| && bucket[j] == x;
      assert after[j] == x;
    }
  }

  lemma EvictTriedSlots(env: Env, s: State, t: State, id: nat, evicted: nat, after: seq<nat>)
    requires Shape(s) && TriedBut(env, s, id) && id in s.info && s.info[id].inTried && s.info[id].refCount == 0
    requires Shape(t) && t.key == s.key && t.tried == s.tried[Home(env, s, id) := after]
    requires evicted in s.tried[Home(env, s, id)] && evicted in s.info && evicted != id
    requires Distinct(after) && |after| <= TRIED_BUCKET_SIZE
    requires forall x :: x in after <==> x == id || (x in s.tried[Home(env, s, id)] && x != evicted)
    requires t.info == s.info[evicted := s.info[evicted].(inTried := false, refCount := 1)]
    ensures TriedOk(env, t)
  {
  }

  lemma EvictTriedNew(s: State, t: State, b: nat, evicted: nat)
    requires Shape(s) && NewOk(s, NONE) && Shape(t)
    requires evicted in s.info && s.info[evicted].inTried
    requires b < NEW_BUCKET_COUNT && |s.news[b]| < NEW_BUCKET_SIZE
    requires t.news == s.news[b := s.news[b] + {evicted}]
    requires t.info == s.info[evicted := s.info[evicted].(inTried := false, refCount := 1)]
    ensures NewOk(t, NONE)
  {
    assert BucketsOf(s.news, evicted) == {};
    forall x | x in t.info && !t.info[x].inTried
      ensures t.info[x].refCount == Count(t.news, x) && 1 <= t.info[x].refCount <= NEW_BUCKETS_PER_ADDRESS
    {
      CountInsert(s.news, b, evicted, x);
    }
  }

  /** The slot selected in a full bucket, and the entry in it. */
  lemma SelectedSlot(env: Env, s: State, id: nat, raw: nat -> nat) returns (sel: Selection, evicted: nat)
    requires Known(s) && TriedBut(env, s, id) && id in s.info && s.tried[Home(env, s, id)] != []
    ensures var v := s.tried[Home(env, s, id)];
            && sel == Select(v, s.info, raw, Rounds(|v|)) && 0 <= sel.pos < |sel.bucket| == |v| && evicted == sel.bucket[sel.pos]
            && Distinct(sel.bucket) && id !in sel.bucket && evicted in v && evicted in s.info && s.info[evicted].inTried
            && (forall x :: x in sel.bucket <==> x in v)
  {
    hide Known, TriedBut, Select, Home;
    KnownShape(s);
    var v := s.tried[Home(env, s, id)];
    TriedButMembers(env, s, id, Home(env, s, id));
    sel := Select(v, s.info, raw, Rounds(|v|));
    SelectPermutes(v, s.info, raw, Rounds(|v|));
    evicted := sel.bucket[sel.pos];
    assert evicted in sel.bucket;
  }

  lemma TriedButMembers(env: Env, s: State, id: nat, k: nat)
    requires Shape(s) && TriedBut(env, s, id) && k < TRIED_BUCKET_COUNT
    ensures Distinct(s.tried[k]) && forall x :: x in s.tried[k] ==> x in s.info && s.info[x].inTried && x != id
  {
    hide Home;
  }

  lemma TriedKnown(s: State, k: nat)
    requires Known(s) && k < TRIED_BUCKET_COUNT
    ensures forall x :: x in s.tried[k] ==> x in s.info
  {
  }

  /** The bucket an entry came from has room for one more once the entry has left it. */
  lemma EvictTriedInv(env: Env, s: State, id: nat, origin: nat, raw: nat -> nat)
    requires Promoting(env, s, id) && |s.tried[Home(env, s, id)]| == TRIED_BUCKET_SIZE
    requires origin < NEW_BUCKET_COUNT && |s.news[origin]| < NEW_BUCKET_SIZE
    ensures Inv(env, EvictTried(env, s, Home(env, s, id), id, origin, raw))
  {
    hide LinkOk, NewOk, TriedOk, TriedBut, Known, Select, CountOk;
    KnownShape(s);
    var sel, evicted := SelectedSlot(env, s, id, raw);
    TriedKnown(s, Home(env, s, id));
    var t := EvictTried(env, s, Home(env, s, id), id, origin, raw);
    ReplaceSlot(sel.bucket, sel.pos, id);
    EvictTriedSlots(env, s, t, id, evicted, sel.bucket[sel.pos := id]);
    EvictTriedNew(s, t, Refuge(env, s, evicted, origin), evicted);
    LinkFrame(s, t);
    KnownFrom(env, t, NONE);
    EvictCount(s, t, evicted);
  }

  lemma EvictCount(s: State, t: State, evicted: nat)
    requires s.nTried + 1 == |TriedIds(s.info)| && s.nNew == |NewIds(s.info)| && t.nTried == s.nTried && t.nNew == s.nNew + 1
    requires evicted in s.info && s.info[evicted].inTried
    requires t.info == s.info[evicted := s.info[evicted].(inTried := false, refCount := 1)]
    ensures CountOk(t)
  {
    hide TriedIds, NewIds;
    IdsUpdate(s.info, evicted, t.info[evicted]);
    IdMember(s.info, evicted);
  }

  lemma TriedSize(env: Env, s: State, k: nat)
    requires Shape(s) && TriedOk(env, s) && k < TRIED_BUCKET_COUNT
    ensures |s.tried[k]| <= TRIED_BUCKET_SIZE
  {
  }

  lemma MakeTriedInv(env: Env, s: State, id: nat, origin: nat, raw: nat -> nat)
    requires Inv(env, s) && id in s.info && !s.info[id].inTried
    requires origin < NEW_BUCKET_COUNT && id in s.news[origin]
    ensures Inv(env, MakeTried(env, s, id, origin, raw))
  {
    hide LinkOk, NewOk, TriedOk, CountOk, TriedBut, Known;
    KnownShape(s);
    var k := Home(env, s, id);
    NewSize(s, origin, NONE);
    TriedSize(env, s, k);
    LeaveNewInv(env, s, id);
    var s1 := LeaveNew(s, id);
    assert k == Home(env, s1, id);
    if |s1.tried[k]| < TRIED_BUCKET_SIZE {
      PushTriedInv(env, s1, id);
    } else {
      assert s1.news[origin] == s.news[origin] - {id};
      EvictTriedInv(env, s1, id, origin, raw);
    }
  }

  // ---------------------------------------------------------------- Good_

  lemma {:induction false} FindBucketNone(news: seq<set<nat>>, id: nat, start: nat, n: nat, m: nat)
    requires |news| > 0 && n <= m < |news| && FindBucket(news, id, start, n) == None
    ensures id !in news[(m + start) % |news|]
    decreases m - n
  {
    if n < m {
      FindBucketNone(news, id, start, n + 1, m);
    }
  }

  lemma CyclicIndex(b: nat, start: nat, size: nat) returns (m: nat)
    requires b < size && start < size
    ensures m < size && (m + start) % size == b
  {
    m := if b >= start then b - start else b + size - start;
    if b >= start {
      assert m + start == b;
    } else {
      assert m + start == b + size;
    }
  }

  /** The exit of Good_ for "no bucket is found" is unreachable. */
  lemma GoodFindsBucket(env: Env, s: State, id: nat, start: nat)
    requires Inv(env, s) && id in s.info && !s.info[id].inTried && start < NEW_BUCKET_COUNT
    ensures FindBucket(s.news, id, start, 0).Some?
  {
    hide LinkOk, NewOk, TriedOk, CountOk, Known;
    KnownShape(s);
    NewRef(s, id, NONE);
    assert BucketsOf(s.news, id) != {};
    var b :| b in BucketsOf(s.news, id);
    var m := CyclicIndex(b, start, NEW_BUCKET_COUNT);
    if FindBucket(s.news, id, start, 0) == None {
      FindBucketNone(s.news, id, start, 0, m);
      assert false;
    }
  }

  lemma GoodInv(env: Env, s: State, svc: Service, time: int, raw: nat -> nat)
    requires Inv(env, s)
    ensures Inv(env, Good(env, s, svc, time, raw))
  {
    hide LinkOk, NewOk, TriedOk, CountOk, Known;
    match Find(s, svc.ip)
    case None =>
    case Some(id) =>
      if s.info[id].svc == svc {
        TouchInv(env, s, id, MarkGood(s.info[id], time));
        var s1 := s.(info := s.info[id := MarkGood(s.info[id], time)]);
        KnownShape(s1);
        if !s.info[id].inTried {
          match FindBucket(s1.news, id, Draw(NEW_BUCKET_COUNT, raw(0)), 0)
          case None =>
          case Some(b) => MakeTriedInv(env, s1, id, b, raw);
        }
      }
  }

  // ---------------------------------------------------------------- the remaining operations

  lemma AttemptInv(env: Env, s: State, svc: Service, time: int)
    requires Inv(env, s)
    ensures Inv(env, Attempt(s, svc, time))
  {
    hide Inv;
    match Find(s, svc.ip)
    case None =>
    case Some(id) =>
      TouchInv(env, s, id, s.info[id].(lastTry := time, attempts := s.info[id].attempts + 1));
  }

  lemma ConnectedInv(env: Env, s: State, svc: Service, time: int)
    requires Inv(env, s)
    ensures Inv(env, Connected(s, svc, time))
  {
    hide Inv;
    match Find(s, svc.ip)
    case None =>
    case Some(id) => TouchInv(env, s, id, s.info[id].(time := U32(time)));
  }

  lemma {:induction false} ShuffleInv(env: Env, s: State, raw: nat -> nat, n: nat)
    requires Inv(env, s) && n <= |s.random|
    ensures Inv(env, Shuffle(s, raw, n)) && SameButPositions(s, Shuffle(s, raw, n))
  {
    hide Inv, Known, SwapRandom, Draw, SameButPositions, Shuffle;
    InvKnown(env, s);
    if n == 0 {
      ShuffleNone(s, raw);
      SameRefl(s);
    } else {
      ShuffleInv(env, s, raw, n - 1);
      var prev := Shuffle(s, raw, n - 1);
      var pos := Draw(|s.random| - (n - 1), raw(n - 1)) + (n - 1);
      ShuffleNext(s, raw, n);
      SwapRandomInv(env, prev, n - 1, pos);
      SameTrans(s, prev, SwapRandom(prev, n - 1, pos));
    }
  }

  lemma SameRefl(s: State)
    ensures SameButPositions(s, s)
  {
  }

  lemma SameTrans(s: State, t: State, u: State)
    requires SameButPositions(s, t) && SameButPositions(t, u)
    ensures SameButPositions(s, u)
  {
  }

  lemma InvKnown(env: Env, s: State)
    requires Inv(env, s)
    ensures Known(s)
  {
    hide Known;
  }

  lemma RandomKnown(s: State, i: nat)
    requires Known(s) && i < |s.random|
    ensures s.random[i] in s.info
  {
  }

  lemma SwapRandomInv(env: Env, s: State, i: nat, j: nat)
    requires Inv(env, s) && i < |s.random| && j < |s.random|
    ensures s.random[i] in s.info && s.random[j] in s.info
    ensures Inv(env, SwapRandom(s, i, j)) && SameButPositions(s, SwapRandom(s, i, j))
  {
    hide LinkOk, NewOk, TriedOk, CountOk, Known;
    RandomKnown(s, i);
    RandomKnown(s, j);
    SwapRandomLink(s, i, j);
    SwapRandomSame(s, i, j);
    SwapRandomKnown(s, i, j);
    SamePositionsInv(env, s, SwapRandom(s, i, j), NONE);
  }

  lemma GetAddrInv(env: Env, s: State, raw: nat -> nat)
    requires Inv(env, s)
    ensures Inv(env, GetAddr(s, raw).0)
  {
    ShuffleInv(env, s, raw, Sample(|s.random|));
  }

  /** GetAddr_ hands out pairwise different addresses, all of them in the table, with their time stamps and services. */
  lemma GetAddrDistinct(env: Env, s: State, raw: nat -> nat)
    requires Inv(env, s)
    ensures var out := GetAddr(s, raw).1;
            && |out| == Sample(|s.random|)
            && (forall i :: 0 <= i < |out| ==>
                  out[i].svc.ip in s.addr && s.addr[out[i].svc.ip] in s.info
                  && var e := s.info[s.addr[out[i].svc.ip]]; out[i] == Address(e.svc, e.services, e.time))
            && (forall i, j :: 0 <= i < j < |out| ==> out[i].svc.ip != out[j].svc.ip)
  {
    var n := Sample(|s.random|);
    ShuffleInv(env, s, raw, n);
    var t := Shuffle(s, raw, n);
    var out := GetAddr(s, raw).1;
    hide Shuffle, NewOk, TriedOk, CountOk;
    forall i | 0 <= i < n
      ensures out[i].svc.ip in s.addr && s.addr[out[i].svc.ip] == t.random[i] && t.random[i] in s.info
              && AsAddress(s.info[t.random[i]]) == out[i] && t.info[t.random[i]].randomPos == i
    {
      assert t.random[i] in t.info;
    }
  }

  // ---------------------------------------------------------------- the overload that takes a vector

  /** One announced address, with the clock reading and the draws of its call. */
  datatype Arrival = Arrival(a: Address, now: int, raw: nat -> nat)

  /** After the first `n` addresses: the state, and how many were new. */
  ghost function AddSome(env: Env, s: State, list: seq<Arrival>, source: NetAddr, penalty: int, n: nat): (r: (State, nat))
    requires Inv(env, s) && n <= |list|
    ensures Inv(env, r.0)
  {
    if n == 0 then (s, 0)
    else
      var (prev, count) := AddSome(env, s, list, source, penalty, n - 1);
      var x := list[n - 1];
      InvKnown(env, prev);
      AddInv(env, prev, x.a, source, penalty, x.now, x.raw);
      var (t, isNew) := Add(env, prev, x.a, source, penalty, x.now, x.raw);
      (t, if isNew then count + 1 else count)
  }

  lemma AddSomeNone(env: Env, s: State, list: seq<Arrival>, source: NetAddr, penalty: int)
    requires Inv(env, s)
    ensures AddSome(env, s, list, source, penalty, 0) == (s, 0)
  {
    hide Inv;
  }

  lemma AddSomeNext(env: Env, s: State, list: seq<Arrival>, source: NetAddr, penalty: int, n: nat)
    requires Inv(env, s) && n < |list|
    ensures var (prev, count) := AddSome(env, s, list, source, penalty, n);
            && Known(prev)
            && var (t, isNew) := Add(env, prev, list[n].a, source, penalty, list[n].now, list[n].raw);
            AddSome(env, s, list, source, penalty, n + 1) == (t, if isNew then count + 1 else count)
  {
    hide Inv, Known, Add;
    InvKnown(env, AddSome(env, s, list, source, penalty, n).0);
  }
}
