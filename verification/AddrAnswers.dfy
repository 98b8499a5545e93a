/** What the operations of the address manager do to entries and buckets, in plain fields and figures. */
module AddrAnswers {
  // The functions of AddrOps are not named on the right-hand sides here: every statement can be held against the code.
  import opened Common
  import opened AddrState
  import opened AddrOps
  import opened AddrInv
  import opened AddrEffects
  import opened AddrRuns

  // ---------------------------------------------------------------- promotion

  lemma LeaveNewNews(s: State, id: nat)
    requires Shape(s) && id in s.info
    ensures forall c: nat :: c < NEW_BUCKET_COUNT ==> LeaveNew(s, id).news[c] == s.news[c] - {id}
    ensures Shape(LeaveNew(s, id)) && LeaveNew(s, id).tried == s.tried && LeaveNew(s, id).key == s.key
    ensures forall x :: x in s.info && x != id ==> LeaveNew(s, id).info[x] == s.info[x]
  {
  }

  /** A promotion into a bucket with room: the entry leaves every new bucket and joins its home bucket at the end. */
  lemma PromotionWithRoom(env: Env, s: State, id: nat, origin: nat, raw: nat -> nat)
    requires Inv(env, s) && id in s.info && !s.info[id].inTried && origin < NEW_BUCKET_COUNT && id in s.news[origin]
    requires Shape(s) && |s.tried[Home(env, s, id)]| < 64
    ensures var t, k := MakeTried(env, s, id, origin, raw), Home(env, s, id);
            && t.tried == s.tried[k := s.tried[k] + [id]] && |t.news| == 256
            && (forall c: nat :: c < 256 ==> t.news[c] == s.news[c] - {id})
            && t.info == s.info[id := s.info[id].(inTried := true, refCount := 0)]
  {
    hide LinkOk, NewOk, TriedOk, CountOk, Known, EvictTried;
    LeaveNewNews(s, id);
  }

  /**
   Where the entry `x` that leaves the tried table goes: to the new bucket that its own address and source select if that
   has room once `id` is gone, and otherwise to the one `id` came from. No other bucket changes but for losing `id`.
   */
  ghost predicate MovedBack(env: Env, s: State, t: State, id: nat, origin: nat, x: nat)
    requires x in s.info
  {
    var b := NewBucket(env, s.key, s.info[x].svc.ip, s.info[x].source);
    && |s.news| == |t.news| == 256 && origin < 256 && x !in s.news[b] && x !in s.news[origin]
    && (x in t.news[b] <==> |s.news[b] - {id}| < 64 || b == origin)
    && (x !in t.news[b] ==> x in t.news[origin])
    && (forall c: nat :: c < 256 ==> t.news[c] - {x} == s.news[c] - {id})
    && (forall c: nat :: c < 256 && c != b && (c != origin || x in t.news[b]) ==> x !in t.news[c])
  }

  /** A promotion into a full bucket. */
  lemma EvictedGoesHome(env: Env, s: State, id: nat, origin: nat, raw: nat -> nat, x: nat)
    requires Inv(env, s) && id in s.info && !s.info[id].inTried && origin < NEW_BUCKET_COUNT && id in s.news[origin]
    requires x in s.info && s.info[x].inTried && x in MakeTried(env, s, id, origin, raw).info
    requires !MakeTried(env, s, id, origin, raw).info[x].inTried
    ensures MovedBack(env, s, MakeTried(env, s, id, origin, raw), id, origin, x)
  {
    hide LinkOk, NewOk, TriedOk, CountOk, TriedBut, Known, Select, Home, NewBucket, EvictTried, MovedBack, LeaveNew;
    KnownShape(s);
    NotInNew(s, x);
    NewSize(s, origin, NONE);
    LeaveNewInv(env, s, id);
    LeaveNewNews(s, id);
    var s1 := LeaveNew(s, id);
    var k := Home(env, s1, id);
    SameHome(env, s, id);
    TriedSize(env, s, k);
    TriedKnown(s1, k);
    if |s1.tried[k]| == TRIED_BUCKET_SIZE {
      var sel, evicted := SelectedSlot(env, s1, id, raw);
      EvictedTo(env, s1, k, id, origin, raw);
      assert x == evicted;
      MovedBackIntro(env, s, s1.news, MakeTried(env, s, id, origin, raw), id, origin, x);
    }
  }

  lemma EvictedTo(env: Env, s: State, k: nat, id: nat, origin: nat, raw: nat -> nat)
    requires Shape(s) && k < TRIED_BUCKET_COUNT && origin < NEW_BUCKET_COUNT
    requires s.tried[k] != [] && forall x :: x in s.tried[k] ==> x in s.info
    ensures var sel, t := Select(s.tried[k], s.info, raw, Rounds(|s.tried[k]|)), EvictTried(env, s, k, id, origin, raw);
            && 0 <= sel.pos < |sel.bucket| && sel.bucket[sel.pos] in s.info
            && var x := sel.bucket[sel.pos];
            var b := NewBucket(env, s.key, s.info[x].svc.ip, s.info[x].source);
            var d := if |s.news[b]| < 64 then b else origin;
            && t.news == s.news[d := s.news[d] + {x}] && t.info == s.info[x := s.info[x].(inTried := false, refCount := 1)]
  {
    hide Select, NewBucket;
    var sel := Select(s.tried[k], s.info, raw, Rounds(|s.tried[k]|));
    assert sel.bucket[sel.pos] in sel.bucket;
  }

  /** `without` are the new buckets of `s` once `id` has left them. */
  lemma MovedBackIntro(env: Env, s: State, without: seq<set<nat>>, t: State, id: nat, origin: nat, x: nat)
    requires x in s.info && x != id && |s.news| == |without| == 256 && origin < 256
    requires forall c: nat :: c < 256 ==> without[c] == s.news[c] - {id} && x !in s.news[c]
    requires |without[origin]| < 64
    requires var b := NewBucket(env, s.key, s.info[x].svc.ip, s.info[x].source);
             var d := if |without[b]| < 64 then b else origin;
             t.news == without[d := without[d] + {x}]
    ensures MovedBack(env, s, t, id, origin, x)
  {
    hide NewBucket;
  }

  /** A full bucket gives up exactly one entry, `x`, whose place `i` the promoted entry takes; no other bucket changes. */
  lemma FullBucketEvicts(env: Env, s: State, id: nat, origin: nat, raw: nat -> nat) returns (x: nat, i: nat)
    requires Inv(env, s) && id in s.info && !s.info[id].inTried && origin < NEW_BUCKET_COUNT && id in s.news[origin]
    requires Shape(s) && |s.tried[Home(env, s, id)]| == 64
    ensures var t := MakeTried(env, s, id, origin, raw);
            && x in s.tried[Home(env, s, id)] && x in s.info && s.info[x].inTried
            && t.info == s.info[id := s.info[id].(inTried := true, refCount := 0)][x := s.info[x].(inTried := false, refCount := 1)]
    ensures var t, k := MakeTried(env, s, id, origin, raw), Home(env, s, id);
            && |t.tried| == 64 && (forall c: nat :: c < 64 && c != k ==> t.tried[c] == s.tried[c])
            && i < |t.tried[k]| && t.tried[k][i] == id && multiset(t.tried[k][i := x]) == multiset(s.tried[k])
  {
    hide LinkOk, NewOk, TriedOk, CountOk, TriedBut, Known, Select, Home, NewBucket;
    KnownShape(s);
    LeaveNewInv(env, s, id);
    LeaveNewNews(s, id);
    SameHome(env, s, id);
    var s1 := LeaveNew(s, id);
    TriedKnown(s1, Home(env, s1, id));
    var sel, evicted := SelectedSlot(env, s1, id, raw);
    x, i := evicted, sel.pos;
    SelectPermutes(s1.tried[Home(env, s1, id)], s1.info, raw, Rounds(64));
    assert sel.bucket[i := id][i := x] == sel.bucket;
  }

  // ---------------------------------------------------------------- ShrinkNew

  /** The entry a new bucket gives up: the useless one of lowest id, or else the oldest at four drawn places. */
  ghost predicate Chosen(info: map<nat, Info>, bucket: set<nat>, now: int, raw: nat -> nat, v: nat)
    requires bucket != {} && forall id :: id in bucket ==> id in info
  {
    && v in bucket
    && ((exists id :: id in bucket && Useless(info[id], now)) ==>
          Useless(info[v], now) && forall id :: id in bucket && Useless(info[id], now) ==> v <= id)
    && (!(exists id :: id in bucket && Useless(info[id], now)) ==>
          && (exists i: nat :: 1 <= i <= 4 && Drawn(bucket, raw(i)) == v)
          && (forall i: nat :: 1 <= i <= 4 ==> Older(info, v, Drawn(bucket, raw(i)))))
  }

  /** The entry at a drawn place, counted along ascending ids. */
  function Drawn(bucket: set<nat>, draw: nat): (id: nat)
    requires bucket != {}
    ensures id in bucket
  {
    AscendingElements(bucket);
    assert Ascending(bucket)[draw % |bucket|] in Ascending(bucket);
    Ascending(bucket)[draw % |bucket|]
  }

  /** Seen longer ago, or just as long ago with a lower id. */
  predicate Older(info: map<nat, Info>, v: nat, w: nat)
    requires v in info && w in info
  {
    info[v].time < info[w].time || (info[v].time == info[w].time && v <= w)
  }

  lemma VictimChosen(info: map<nat, Info>, bucket: set<nat>, now: int, raw: nat -> nat)
    requires bucket != {} && forall id :: id in bucket ==> id in info
    ensures Chosen(info, bucket, now, raw, Victim(info, bucket, now, raw))
  {
    hide IsTerrible, Useless, Ascending, OldestDrawn, FirstTerrible, Drawn;
    var v := Victim(info, bucket, now, raw);
    forall id | id in bucket ensures IsTerrible(info[id], now) <==> Useless(info[id], now) { TerribleIsUseless(info[id], now); }
    if id :| id in bucket && Useless(info[id], now) {
      forall y | y in bucket && Useless(info[y], now) ensures Useless(info[v], now) && v <= y {
        VictimTerrible(info, bucket, now, raw, y);
      }
    } else {
      VictimDrawn(info, bucket, now, raw, 1);
      forall i: nat | 1 <= i <= 4 ensures Older(info, v, Drawn(bucket, raw(i))) { VictimDrawn(info, bucket, now, raw, i); }
    }
  }

  lemma VictimDrawn(info: map<nat, Info>, bucket: set<nat>, now: int, raw: nat -> nat, i: nat)
    requires bucket != {} && (forall id :: id in bucket ==> id in info) && 1 <= i <= 4
    requires forall id :: id in bucket ==> !IsTerrible(info[id], now)
    ensures Older(info, Victim(info, bucket, now, raw), Drawn(bucket, raw(i)))
    ensures exists j: nat :: 1 <= j <= 4 && Drawn(bucket, raw(j)) == Victim(info, bucket, now, raw)
  {
    hide IsTerrible, Ascending, OldestDrawn, FirstTerrible, Drawn;
    AscendingElements(bucket);
    var order, n := Ascending(bucket), |bucket|;
    FirstTerribleFound(order, info, now);
    var v := Victim(info, bucket, now, raw);
    assert v == OldestDrawn(order, info, Picks(n, raw), n);
    var p := raw(i) % n;
    assert p in Picks(n, raw);
    OldestDrawnFirst(order, info, Picks(n, raw), n, p);
    var k :| k in Picks(n, raw) && k < n && order[k] == v
             && (info[v].time < info[order[p]].time || (info[v].time == info[order[p]].time && k <= p));
    var j: nat :| 1 <= j <= 4 && k == raw(j) % n;
    DrawnIs(bucket, raw(j));
    DrawnIs(bucket, raw(i));
  }

  lemma DrawnIs(bucket: set<nat>, draw: nat)
    requires bucket != {}
    ensures Drawn(bucket, draw) == Ascending(bucket)[draw % |bucket|]
  {
  }

  /** ShrinkNew takes the chosen entry out of the bucket, and out of the table if this was its last reference. */
  lemma ShrinkChooses(s: State, b: nat, now: int, raw: nat -> nat) returns (v: nat)
    requires Known(s) && b < NEW_BUCKET_COUNT && s.news[b] != {}
    ensures forall id :: id in s.news[b] ==> id in s.info
    ensures Chosen(s.info, s.news[b], now, raw, v)
    ensures var t := ShrinkNew(s, b, now, raw);
            && t.news == s.news[b := s.news[b] - {v}] && t.tried == s.tried
            && t.info.Keys == (if s.info[v].refCount == 1 then s.info.Keys - {v} else s.info.Keys)
            && (v in t.info ==> t.info[v] == s.info[v].(refCount := s.info[v].refCount - 1))
            && (forall id :: id in t.info && id != v ==> t.info[id] == s.info[id].(randomPos := t.info[id].randomPos))
            && LastFills(s, t, v, s.info[v].refCount == 1)
  {
    hide Known, Victim, Unref, Chosen, LastFills;
    KnownShape(s);
    NewKnown(s, b);
    v := Victim(s.info, s.news[b], now, raw);
    VictimChosen(s.info, s.news[b], now, raw);
    UnrefBuckets(s, b, v);
    UnrefRandom(s, b, v);
  }

  lemma UnrefRandom(s: State, b: nat, v: nat)
    requires Known(s) && v in s.info && b < NEW_BUCKET_COUNT
    ensures LastFills(s, Unref(s, b, v), v, s.info[v].refCount == 1)
  {
    if s.info[v].refCount != 1 { assert s.addr - {} == s.addr; }
  }

  /** A deleted entry leaves the address map, and the last of the random vector takes its place there. */
  ghost predicate LastFills(s: State, t: State, v: nat, deleted: bool)
    requires v in s.info
  {
    var p, last := s.info[v].randomPos, |s.random| - 1;
    if deleted then
      && t.addr == s.addr - {s.info[v].svc.ip} && |t.random| == last
      && (forall j: nat :: j < last ==> t.random[j] == if j == p then s.random[last] else s.random[j])
    else t.addr == s.addr && t.random == s.random
  }

  // ---------------------------------------------------------------- Good_

  /** Bucket `start + m`, counted cyclically, is the first from `start` on that holds the entry. */
  predicate FirstFrom(news: seq<set<nat>>, id: nat, start: nat, m: nat) {
    |news| == 256 && m < 256 && id in news[Cyclic(start, m)] && forall j: nat :: j < m ==> id !in news[Cyclic(start, j)]
  }

  function Cyclic(start: nat, j: nat): (b: nat)
    ensures b < 256
  {
    (start + j) % 256
  }

  lemma {:induction false} SearchFinds(news: seq<set<nat>>, id: nat, start: nat, m: nat, n: nat)
    requires FirstFrom(news, id, start, m) && n <= m
    ensures FindBucket(news, id, start, n) == Some(Cyclic(start, m))
    decreases m - n
  {
    hide FindBucket;
    FindNext(news, id, start, n);
    assert (n + start) % |news| == Cyclic(start, n);
    if n < m { SearchFinds(news, id, start, m, n + 1); }
  }

  /** The search of Good_ starts at the drawn bucket; the bucket it finds takes what its own bucket has no room for. */
  lemma GoodMoves(env: Env, s: State, svc: Service, time: int, raw: nat -> nat, m: nat)
    requires Inv(env, s) && Lists(s, svc)
    requires !s.info[s.addr[svc.ip]].inTried && FirstFrom(s.news, s.addr[svc.ip], raw(0) % 256, m)
    ensures var t, id := Good(env, s, svc, time, raw), s.addr[svc.ip];
            && Shape(s) && t.info.Keys == s.info.Keys
            && (|s.tried[Home(env, s, id)]| < 64 ==> |t.news| == 256 && forall c: nat :: c < 256 ==> t.news[c] == s.news[c] - {id})
            && (forall x :: x in s.info && s.info[x].inTried && !t.info[x].inTried ==>
                  MovedBack(env, s, t, id, Cyclic(raw(0) % 256, m), x))
  {
    hide LinkOk, NewOk, TriedOk, CountOk, Known, MakeTried, FindBucket, MovedBack, FirstFrom, TriedBucket;
    KnownShape(s);
    var id := s.addr[svc.ip];
    var i := MarkGood(s.info[id], time);
    var s1 := s.(info := s.info[id := i]);
    TouchInv(env, s, id, i);
    SearchFinds(s.news, id, raw(0) % 256, m, 0);
    GoodEffect(env, s, svc, time, raw);
    var b := Cyclic(raw(0) % 256, m);
    FirstHolds(s.news, id, raw(0) % 256, m);
    assert Good(env, s, svc, time, raw) == MakeTried(env, s1, id, b, raw);
    if |s1.tried[Home(env, s1, id)]| < 64 { PromotionWithRoom(env, s1, id, b, raw); }
    forall x | x in s.info && s.info[x].inTried && !Good(env, s, svc, time, raw).info[x].inTried
      ensures MovedBack(env, s, Good(env, s, svc, time, raw), id, b, x)
    {
      EvictedGoesHome(env, s1, id, b, raw, x);
      MarkedMovedBack(env, s, s1, Good(env, s, svc, time, raw), id, b, x);
    }
  }

  /** Good_ of a service that is not listed does nothing; of one already tried it stores the time and clears the attempts. */
  lemma GoodElsewhere(env: Env, s: State, svc: Service, time: int, raw: nat -> nat)
    requires Known(s)
    ensures !Lists(s, svc) ==> Good(env, s, svc, time, raw) == s
    ensures Lists(s, svc) && s.info[s.addr[svc.ip]].inTried ==>
              var t, id := Good(env, s, svc, time, raw), s.addr[svc.ip];
              && id in t.info && t == s.(info := s.info[id := t.info[id]])
              && t.info[id] == s.info[id].(lastSuccess := time, lastTry := time, time := time % 0x1_0000_0000, attempts := 0)
  {
    hide Known, MakeTried, FindBucket;
  }

  lemma FirstHolds(news: seq<set<nat>>, id: nat, start: nat, m: nat)
    requires FirstFrom(news, id, start, m)
    ensures |news| == 256 && id in news[Cyclic(start, m)]
  {
  }

  lemma MarkedMovedBack(env: Env, s: State, s1: State, t: State, id: nat, origin: nat, x: nat)
    requires x in s.info && x in s1.info && s1.info[x] == s.info[x] && s1.news == s.news && s1.key == s.key
    requires MovedBack(env, s1, t, id, origin, x)
    ensures MovedBack(env, s, t, id, origin, x)
  {
  }

  lemma SameHome(env: Env, s: State, id: nat)
    requires id in s.info
    ensures Home(env, LeaveNew(s, id), id) == Home(env, s, id)
  {
  }

  lemma NotInNew(s: State, x: nat)
    requires Shape(s) && NewOk(s, NONE) && x in s.info && s.info[x].inTried
    ensures forall c: nat :: c < NEW_BUCKET_COUNT ==> x !in s.news[c]
  {
  }

  // ---------------------------------------------------------------- Add_

  /** Whether an announcement renews the time stamp of a known entry: hourly while the address is online, else daily. */
  predicate Renews(i: Info, a: Address, penalty: int, now: int) {
    && a.time != 0
    && (i.time == 0 || i.time < a.time - penalty - (if now < a.time + 86400 then 3600 else 86400))
  }

  /** The stored time of an announcement: the penalty taken off, not below zero, in 32 bits. */
  function Stamp(a: Address, penalty: int): nat {
    if a.time <= penalty then 0 else (a.time - penalty) % 0x1_0000_0000
  }

  /** Whether the renewed entry gets a further reference: news, a new entry, fewer than four, and one chance in 2^references. */
  predicate Rereferences(i: Info, a: Address, penalty: int, now: int, draw: nat) {
    && a.time != 0 && !i.inTried
    && (if Renews(i, a, penalty, now) then Stamp(a, penalty) == 0 || Stamp(a, penalty) < a.time
        else i.time == 0 || i.time < a.time)
    && ((i.refCount == 1 && draw % 2 == 0) || (i.refCount == 2 && draw % 4 == 0) || (i.refCount == 3 && draw % 8 == 0))
  }

  lemma RefreshIs(i: Info, a: Address, penalty: int, now: int)
    ensures Refresh(i, a, penalty, now)
            == i.(time := if Renews(i, a, penalty, now) then Stamp(a, penalty) else i.time, services := i.services + a.services)
  {
  }

  lemma WantsIs(i: Info, a: Address, penalty: int, now: int, raw: nat -> nat)
    requires i.inTried || 1 <= i.refCount <= 4
    ensures WantsReference(Refresh(i, a, penalty, now), a, raw) <==> Rereferences(i, a, penalty, now, raw(0))
  {
    hide Renews, Stamp;
    RefreshIs(i, a, penalty, now);
    PowersOfTwo();
  }

  lemma PowersOfTwo()
    ensures Pow2(1) == 2 && Pow2(2) == 4 && Pow2(3) == 8
  {
    assert Pow2(3) == 2 * Pow2(2);
  }

  /**
   What Add_ does to a known routable address: its services are joined, its time is renewed or kept, and it is placed in
   the bucket its announcer selects when the reference test holds and it is not there yet. All else about it is kept.
   */
  lemma AddKnown(env: Env, s: State, a: Address, source: NetAddr, penalty: int, now: int, raw: nat -> nat)
    requires Inv(env, s) && env.routable(a.svc.ip) && a.svc.ip in s.addr
    ensures var t, id, b := Add(env, s, a, source, penalty, now, raw).0, s.addr[a.svc.ip], NewBucket(env, s.key, a.svc.ip, source);
            && id in s.info && id in t.info && |s.news| == |t.news| == 256
            && var more := Rereferences(s.info[id], a, penalty, now, raw(0)) && id !in s.news[b];
            && t.info[id] == s.info[id].(
                 services := s.info[id].services + a.services,
                 time := if Renews(s.info[id], a, penalty, now) then Stamp(a, penalty) else s.info[id].time,
                 refCount := s.info[id].refCount + (if more then 1 else 0), randomPos := t.info[id].randomPos)
            && (id in t.news[b] <==> more || id in s.news[b])
            && (more ==> Known(s) && Placed(s, t, b, id, now, raw))
            && (!more ==> t == s.(info := s.info[id := t.info[id]]))
  {
    hide LinkOk, NewOk, TriedOk, CountOk, Known, Refresh, Place, WantsReference, Renews, Stamp, Rereferences, NewBucket, Incref,
      Placed;
    KnownShape(s);
    AddrIndexed(s, a.svc.ip);
    var id := s.addr[a.svc.ip];
    var i := Refresh(s.info[id], a, penalty, now);
    RefreshIs(s.info[id], a, penalty, now);
    RefreshStanding(s.info[id], a, penalty, now);
    TouchInv(env, s, id, i);
    if !s.info[id].inTried { NewRef(s, id, NONE); }
    WantsIs(s.info[id], a, penalty, now, raw);
    var b := NewBucket(env, s.key, i.svc.ip, source);
    AddKnownCases(env, s, a, source, penalty, now, raw);
    if WantsReference(i, a, raw) && id !in s.news[b] {
      AddKnownIsPlace(env, s, id, a, source, penalty, now, raw);
      var u := Incref(s.(info := s.info[id := i]), id);
      IncrefIs(s.(info := s.info[id := i]), id);
      PlaceEffect(env, u, b, id, now, raw);
      PlaceShape(env, u, b, id, now, raw);
      PlacePlaces(env, s, u, b, id, now, raw);
    }
  }

  /** The bucket `b` gains the entry, at the price of the chosen one if it is full; the others stay as they are. */
  ghost predicate Placed(s: State, t: State, b: nat, id: nat, now: int, raw: nat -> nat)
    requires Known(s) && b < 256
  {
    && |s.news| == |t.news| == 256 && (forall c: nat :: c < 256 && c != b ==> t.news[c] == s.news[c])
    && (|s.news[b]| < 64 ==> t.news[b] == s.news[b] + {id})
    && (|s.news[b]| >= 64 ==>
          exists v :: v in s.news[b] && Chosen(s.info, s.news[b], now, raw, v) && t.news[b] == s.news[b] - {v} + {id})
  }

  lemma PlacePlaces(env: Env, s: State, u: State, b: nat, id: nat, now: int, raw: nat -> nat)
    requires Inv(env, s) && InvPending(env, u, id) && id in u.info && !u.info[id].inTried && b < NEW_BUCKET_COUNT
    requires u.news == s.news && Shape(s) && id !in s.news[b] && forall x :: x in s.info && x != id ==> x in u.info && u.info[x] == s.info[x]
    ensures Placed(s, Place(u, b, id, now, raw), b, id, now, raw)
  {
    hide LinkOk, NewOk, TriedOk, CountOk, Known, Place, ShrinkNew, Chosen;
    NewSize(s, b, NONE);
    if |s.news[b]| == NEW_BUCKET_SIZE {
      var v := PlaceFull(env, s, u, b, id, now, raw);
      assert Place(u, b, id, now, raw).news[b] == s.news[b] - {v} + {id};
    } else {
      KnownShape(u);
      PlaceNews(u, b, id, now, raw);
    }
  }

  lemma PlaceFull(env: Env, s: State, u: State, b: nat, id: nat, now: int, raw: nat -> nat) returns (v: nat)
    requires Known(s) && Known(u) && b < NEW_BUCKET_COUNT && Shape(s) && u.news == s.news && |s.news[b]| == 64 && id !in s.news[b]
    requires forall x :: x in s.info && x != id ==> x in u.info && u.info[x] == s.info[x]
    ensures forall x :: x in s.news[b] ==> x in s.info
    ensures v in s.news[b] && Chosen(s.info, s.news[b], now, raw, v)
    ensures Place(u, b, id, now, raw).news == s.news[b := s.news[b] - {v} + {id}]
  {
    hide Known, Place, ShrinkNew, Chosen;
    KnownShape(u);
    NewKnown(s, b);
    PlaceNews(u, b, id, now, raw);
    v := ShrinkChooses(u, b, now, raw);
    ChosenSame(s.info, u.info, s.news[b], now, raw, v);
  }

  lemma PlaceNews(s: State, b: nat, id: nat, now: int, raw: nat -> nat)
    requires Known(s) && b < NEW_BUCKET_COUNT && Shape(s)
    ensures |s.news[b]| == 64 ==>
              s.news[b] != {} && b < |ShrinkNew(s, b, now, raw).news|
              && Place(s, b, id, now, raw).news
                 == ShrinkNew(s, b, now, raw).news[b := ShrinkNew(s, b, now, raw).news[b] + {id}]
    ensures |s.news[b]| != 64 ==> Place(s, b, id, now, raw).news == s.news[b := s.news[b] + {id}]
  {
    hide Known, Unref, Victim;
    if |s.news[b]| == 64 {
      NewKnown(s, b);
      UnrefBuckets(s, b, Victim(s.info, s.news[b], now, raw));
    }
  }

  /** The choice looks at the members of the bucket only. */
  lemma ChosenSame(info: map<nat, Info>, info': map<nat, Info>, bucket: set<nat>, now: int, raw: nat -> nat, v: nat)
    requires bucket != {} && forall id :: id in bucket ==> id in info && id in info' && info[id] == info'[id]
    requires Chosen(info', bucket, now, raw, v)
    ensures v in bucket && Chosen(info, bucket, now, raw, v)
  {
    hide Useless, Drawn;
    if id :| id in bucket && Useless(info[id], now) {
      assert Useless(info'[id], now);
    } else {
      assert forall id :: id in bucket ==> Useless(info'[id], now) == Useless(info[id], now);
    }
  }

  lemma IncrefIs(s: State, id: nat)
    requires id in s.info
    ensures Incref(s, id) == s.(info := s.info[id := s.info[id].(refCount := s.info[id].refCount + 1)])
  {
  }

  lemma PlaceShape(env: Env, s: State, b: nat, id: nat, now: int, raw: nat -> nat)
    requires InvPending(env, s, id) && id in s.info && !s.info[id].inTried && b < NEW_BUCKET_COUNT && id !in s.news[b]
    ensures Shape(Place(s, b, id, now, raw))
  {
    hide LinkOk, NewOk, TriedOk, CountOk, Known, Place;
    PlaceInv(env, s, b, id, now, raw);
    KnownShape(Place(s, b, id, now, raw));
  }

  /** Without a further reference Add_ ends with the refreshed entry. */
  lemma AddKnownCases(env: Env, s: State, a: Address, source: NetAddr, penalty: int, now: int, raw: nat -> nat)
    requires Inv(env, s) && env.routable(a.svc.ip) && a.svc.ip in s.addr && s.addr[a.svc.ip] in s.info && Shape(s)
    ensures var id := s.addr[a.svc.ip];
            var i := Refresh(s.info[id], a, penalty, now);
            && Find(s, a.svc.ip) == Some(id)
            && (!WantsReference(i, a, raw) || id in s.news[NewBucket(env, s.key, i.svc.ip, source)] ==>
                  Add(env, s, a, source, penalty, now, raw).0 == s.(info := s.info[id := i]))
  {
    hide LinkOk, NewOk, TriedOk, CountOk, Known, Refresh, WantsReference, NewBucket, ShrinkNew;
  }

  /** Add_ refuses an address that is not routable, and counts an address as new exactly when it was unknown. */
  lemma AddVerdict(env: Env, s: State, a: Address, source: NetAddr, penalty: int, now: int, raw: nat -> nat)
    requires Inv(env, s)
    ensures Known(s) && (Add(env, s, a, source, penalty, now, raw).1 <==> env.routable(a.svc.ip) && a.svc.ip !in s.addr)
    ensures !env.routable(a.svc.ip) ==> Add(env, s, a, source, penalty, now, raw).0 == s
  {
    hide LinkOk, NewOk, TriedOk, CountOk, Known, Refresh, WantsReference, PutInNew, CreateNew;
    if a.svc.ip in s.addr { AddrIndexed(s, a.svc.ip); }
  }

  /** Add_ of an unknown routable address: the whole entry it creates. */
  lemma AddUnknown(env: Env, s: State, a: Address, source: NetAddr, penalty: int, now: int, raw: nat -> nat)
    requires Inv(env, s) && env.routable(a.svc.ip) && a.svc.ip !in s.addr
    ensures var t, id := Add(env, s, a, source, penalty, now, raw).0, s.idCount;
            && id !in s.info && id in t.info && Known(s) && Placed(s, t, NewBucket(env, s.key, a.svc.ip, source), id, now, raw)
            && t.info[id] == Info(a.svc, a.services, Stamp(a, penalty), source, 0, 0, 0, 1, false, t.info[id].randomPos)
  {
    hide LinkOk, NewOk, TriedOk, CountOk, Known, CreateNew, Place, Add, Stamp, NewBucket, Incref, Placed;
    KnownShape(s);
    FindUnknown(s, a.svc.ip);
    AddFreshIsPlace(env, s, a, source, penalty, now, raw);
    var c := CreateNew(s, a, source, penalty);
    var u, b := Incref(c, s.idCount), NewBucket(env, s.key, a.svc.ip, source);
    CreatedIs(s, a, source, penalty);
    IncrefIs(c, s.idCount);
    CreateFacts(s, u, a, source, penalty);
    PlaceEffect(env, u, b, s.idCount, now, raw);
    PlacePlaces(env, s, u, b, s.idCount, now, raw);
  }

  lemma FindUnknown(s: State, ip: NetAddr)
    requires ip !in s.addr
    ensures Find(s, ip) == None
  {
  }

  lemma CreatedIs(s: State, a: Address, source: NetAddr, penalty: int)
    ensures var t := CreateNew(s, a, source, penalty);
            && s.idCount in t.info
            && t.info[s.idCount] == Info(a.svc, a.services, Stamp(a, penalty), source, 0, 0, 0, 0, false, |s.random|)
  {
  }

  /** No other entry that stays changes but for its random position, and one reference if it is the bucket's victim. */
  lemma AddOthers(env: Env, s: State, a: Address, source: NetAddr, penalty: int, now: int, raw: nat -> nat, x: nat)
    requires Inv(env, s) && env.routable(a.svc.ip) && x in s.info && s.info[x].svc.ip != a.svc.ip
    requires x in Add(env, s, a, source, penalty, now, raw).0.info
    ensures var i, j := s.info[x], Add(env, s, a, source, penalty, now, raw).0.info[x];
            && j == i.(randomPos := j.randomPos, refCount := j.refCount) && i.refCount - 1 <= j.refCount <= i.refCount
            && Shape(s) && (j.refCount < i.refCount ==> x in s.news[NewBucket(env, s.key, a.svc.ip, source)])
  {
    hide LinkOk, NewOk, TriedOk, CountOk, Known, Refresh, Place, WantsReference, NewBucket, Incref, CreateNew, Add;
    KnownShape(s);
    if a.svc.ip in s.addr {
      AddrIndexed(s, a.svc.ip);
      var id := s.addr[a.svc.ip];
      var i := Refresh(s.info[id], a, penalty, now);
      RefreshStanding(s.info[id], a, penalty, now);
      TouchInv(env, s, id, i);
      AddKnownCases(env, s, a, source, penalty, now, raw);
      var b := NewBucket(env, s.key, i.svc.ip, source);
      if WantsReference(i, a, raw) && id !in s.news[b] {
        AddKnownIsPlace(env, s, id, a, source, penalty, now, raw);
        IncrefIs(s.(info := s.info[id := i]), id);
        PlaceOthers(env, Incref(s.(info := s.info[id := i]), id), b, id, now, raw, x);
      }
    } else {
      FindUnknown(s, a.svc.ip);
      AddFreshIsPlace(env, s, a, source, penalty, now, raw);
      var u, b := Incref(CreateNew(s, a, source, penalty), s.idCount), NewBucket(env, s.key, a.svc.ip, source);
      CreateFacts(s, u, a, source, penalty);
      PlaceOthers(env, u, b, s.idCount, now, raw, x);
    }
  }

  lemma PlaceOthers(env: Env, s: State, b: nat, id: nat, now: int, raw: nat -> nat, x: nat)
    requires InvPending(env, s, id) && id in s.info && !s.info[id].inTried && b < NEW_BUCKET_COUNT && id !in s.news[b]
    requires x in s.info && x != id && x in Place(s, b, id, now, raw).info
    ensures var i, j := s.info[x], Place(s, b, id, now, raw).info[x];
            && j == i.(randomPos := j.randomPos, refCount := j.refCount) && i.refCount - 1 <= j.refCount <= i.refCount
            && Shape(s) && (j.refCount < i.refCount ==> x in s.news[b])
  {
    hide LinkOk, NewOk, TriedOk, CountOk, Known, Unref, Victim;
    KnownShape(s);
    NewKnown(s, b);
    if |s.news[b]| == NEW_BUCKET_SIZE {
      UnrefBuckets(s, b, Victim(s.info, s.news[b], now, raw));
    }
  }

  // ---------------------------------------------------------------- Attempt_ and Connected_

  /** An attempt is counted and dated, for a listed service only. */
  lemma AttemptCounts(s: State, svc: Service, time: int)
    ensures !Lists(s, svc) ==> Attempt(s, svc, time) == s
    ensures Lists(s, svc) ==>
              var t, id := Attempt(s, svc, time), s.addr[svc.ip];
              && id in t.info && t == s.(info := s.info[id := t.info[id]])
              && t.info[id] == s.info[id].(lastTry := time, attempts := s.info[id].attempts + 1)
  {
  }

  /** A connection renews the time stamp of a listed service when that is more than twenty minutes old. */
  lemma ConnectedRenews(s: State, svc: Service, time: int)
    ensures !Lists(s, svc) ==> Connected(s, svc, time) == s
    ensures Lists(s, svc) ==>
              var t, id := Connected(s, svc, time), s.addr[svc.ip];
              && id in t.info && t == s.(info := s.info[id := t.info[id]])
              && t.info[id] == if time > s.info[id].time + 1200 then s.info[id].(time := time % 0x1_0000_0000) else s.info[id]
  {
    if Lists(s, svc) {
      var id := s.addr[svc.ip];
      assert s.info[id := s.info[id]] == s.info;
    }
  }

  // ---------------------------------------------------------------- GetAddr_

  /** Twenty-three per cent of the table, rounded down, and no more than 2500. */
  lemma SampleIs(size: nat)
    ensures var n := Sample(size); n <= 2500 && 100 * n <= 23 * size && (n < 2500 ==> 23 * size < 100 * (n + 1))
  {
  }

  /** The ids at the front of the random vector. */
  ghost predicate Front(s: State, w: seq<nat>) {
    |w| <= |s.random| && forall i: nat :: i < |w| ==> s.random[i] == w[i]
  }

  lemma FrontNone(s: State)
    ensures Front(s, [])
  {
  }

  /** The streams agree on the first `n` draws. */
  ghost predicate SameDraws(raw: nat -> nat, raw': nat -> nat, n: nat) { forall i: nat :: i < n ==> raw(i) == raw'(i) }

  lemma {:induction false} ShuffleSame(s: State, raw: nat -> nat, raw': nat -> nat, n: nat)
    requires Known(s) && n <= |s.random| && SameDraws(raw, raw', n)
    ensures Shuffle(s, raw, n) == Shuffle(s, raw', n)
  {
    hide Known, SwapRandom, Draw, Shuffle;
    if n == 0 {
      ShuffleNone(s, raw);
      ShuffleNone(s, raw');
    } else {
      ShuffleSame(s, raw, raw', n - 1);
      ShuffleNext(s, raw, n);
      ShuffleNext(s, raw', n);
    }
  }

  /** Every choice of entries, in every order, is the outcome of some draws. */
  lemma {:induction false} AnyShuffle(env: Env, s: State, w: seq<nat>) returns (raw: nat -> nat)
    requires Inv(env, s) && |w| <= |s.random| && Distinct(w) && forall i: nat :: i < |w| ==> w[i] in s.info
    ensures Known(s) && Front(Shuffle(s, raw, |w|), w)
    decreases |w|
  {
    hide Inv, Known, SwapRandom, Draw, Shuffle, Front, SameButPositions, SameDraws;
    InvKnown(env, s);
    if w == [] {
      raw := n => 0;
      ShuffleNone(s, raw);
      FrontNone(s);
    } else {
      var m := |w| - 1;
      var before := AnyShuffle(env, s, w[..m]);
      var prev := Shuffle(s, before, m);
      ShuffleInv(env, s, before, m);
      KeysKept(s, prev);
      var pos := PlaceOf(env, s, prev, w, m);
      raw := Extended(before, m, pos - m);
      SwapNext(s, before, raw, m, pos);
      InvKnown(env, prev);
      RandomKnown(prev, m);
      RandomKnown(prev, pos);
      FrontGrows(env, prev, w, m, pos);
      assert w[..m + 1] == w;
    }
  }

  lemma KeysKept(s: State, t: State)
    requires SameButPositions(s, t)
    ensures t.info.Keys == s.info.Keys && |t.random| == |s.random|
  {
  }

  lemma Extended(raw: nat -> nat, m: nat, d: nat) returns (raw': nat -> nat)
    ensures SameDraws(raw, raw', m) && raw'(m) == d
  {
    raw' := n => if n == m then d else raw(n);
  }

  lemma SwapNext(s: State, raw: nat -> nat, raw': nat -> nat, m: nat, pos: nat)
    requires Known(s) && m <= pos < |s.random| && SameDraws(raw, raw', m) && raw'(m) == pos - m
    ensures var prev := Shuffle(s, raw, m);
            && |prev.random| == |s.random| && prev.random[m] in prev.info && prev.random[pos] in prev.info
            && Shuffle(s, raw', m + 1) == SwapRandom(prev, m, pos)
  {
    hide Known, SwapRandom, Draw, Shuffle;
    ShuffleSame(s, raw, raw', m);
    DrawSmall(|s.random| - m, pos - m);
    ShuffleNext(s, raw', m + 1);
  }

  /** An entry not among the first `m` is found further back. */
  lemma PlaceOf(env: Env, s: State, t: State, w: seq<nat>, m: nat) returns (pos: nat)
    requires Inv(env, t) && m < |w| && Distinct(w) && w[m] in s.info && t.info.Keys == s.info.Keys && Front(t, w[..m])
    ensures m <= pos < |t.random| && t.random[pos] == w[m]
  {
    hide Known, TriedOk, NewOk, CountOk;
    pos := t.info[w[m]].randomPos;
    assert forall i: nat :: i < m ==> t.random[i] == w[i];
  }

  lemma DrawSmall(n: nat, raw: nat)
    requires raw < n
    ensures Draw(n, raw) == raw
  {
  }

  lemma FrontGrows(env: Env, s: State, w: seq<nat>, m: nat, pos: nat)
    requires Inv(env, s) && m < |w| && Front(s, w[..m]) && m <= pos < |s.random| && s.random[pos] == w[m]
    requires s.random[m] in s.info && s.random[pos] in s.info
    ensures Front(SwapRandom(s, m, pos), w[..m + 1])
  {
    hide Inv;
    assert forall i: nat :: i < m ==> w[..m + 1][i] == w[..m][i];
  }

  /** GetAddr_ can hand out any addresses of the table in any order, as many as the sample is large. */
  lemma AnySample(env: Env, s: State, w: seq<nat>) returns (raw: nat -> nat)
    requires Inv(env, s) && |w| == Sample(|s.random|) && Distinct(w) && forall i: nat :: i < |w| ==> w[i] in s.info
    ensures Known(s)
    ensures var out := GetAddr(s, raw).1;
            |out| == |w| && forall i: nat :: i < |w| ==> out[i] == Address(s.info[w[i]].svc, s.info[w[i]].services, s.info[w[i]].time)
  {
    hide LinkOk, Known, TriedOk, NewOk, CountOk, Shuffle, Sample;
    raw := AnyShuffle(env, s, w);
    ShuffleInv(env, s, raw, |w|);
  }

  // ---------------------------------------------------------------- SelectTried

  /** Four entries of a full bucket are inspected; round `i` draws among those not yet inspected. The first among equals counts. */
  lemma FourInspected(v: seq<nat>, info: map<nat, Info>, raw: nat -> nat)
    requires |v| == 64 && forall id :: id in v ==> id in info
    ensures var sel := Select(v, info, raw, Rounds(|v|));
            exists i: nat :: i < 4 && sel.bucket[i] == sel.oldest && sel.pos == Spot(raw, i)
                             && (forall j: nat :: j < i ==> sel.bucket[j] in info && info[sel.oldest].lastSuccess < info[sel.bucket[j]].lastSuccess)
                             && (forall j: nat :: j < 4 ==> sel.bucket[j] in info && info[sel.oldest].lastSuccess <= info[sel.bucket[j]].lastSuccess)
  {
    hide Select, DrawnPos;
    var sel := Select(v, info, raw, Rounds(|v|));
    SelectOldest(v, info, raw, 4);
    var i: nat :| i < 4 && sel.bucket[i] == sel.oldest && sel.pos == DrawnPos(|v|, raw, i) && FirstOldest(sel.bucket, info, i);
    SpotIs(raw, i);
  }

  function Spot(raw: nat -> nat, i: nat): nat
    requires i < 4
  {
    i + raw(1 + i) % (64 - i)
  }

  lemma SpotIs(raw: nat -> nat, i: nat)
    requires i < 4
    ensures DrawnPos(64, raw, i) == Spot(raw, i)
  {
  }

  // ---------------------------------------------------------------- buckets

  /** The new bucket comes from two hashes: of key, own group and source group, then of key, source group and a slot below 32. */
  lemma NewBucketIs(env: Env, key: Key, ip: NetAddr, source: NetAddr, slot: nat)
    requires slot == env.hash([DKey(key), DGroup(env.group(ip)), DGroup(env.group(source))]) % 32
    ensures NewBucket(env, key, ip, source) == env.hash([DKey(key), DGroup(env.group(source)), DNum(slot)]) % 256
  {
  }

  /** The tried bucket likewise: of key and service, then of key, own group and a slot below 4. */
  lemma TriedBucketIs(env: Env, key: Key, svc: Service, slot: nat)
    requires slot == env.hash([DKey(key), DService(svc)]) % 4
    ensures TriedBucket(env, key, svc) == env.hash([DKey(key), DGroup(env.group(svc.ip)), DNum(slot)]) % 64
  {
  }
}
