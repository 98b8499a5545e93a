/**
 The state transformers of the address manager. Randomness is a stream of raw 64-bit draws, `raw(0)`, `raw(1)`, ...,
 each reduced to its range by Draw; the clock is a parameter.
 */
module AddrOps {
  import opened Common
  import opened AddrState

  // ---------------------------------------------------------------- the random vector

  function SwapSeq<T>(q: seq<T>, i: nat, j: nat): (r: seq<T>)
    requires i < |q| && j < |q|
    ensures |r| == |q|
  {
    q[i := q[j]][j := q[i]]
  }

  function SwapRandom(s: State, i: nat, j: nat): State
    requires i < |s.random| && j < |s.random|
    requires s.random[i] in s.info && s.random[j] in s.info
  {
    if i == j then s
    else
      var id1, id2 := s.random[i], s.random[j];
      var info1 := s.info[id1 := s.info[id1].(randomPos := j)];
      var info2 := info1[id2 := info1[id2].(randomPos := i)];
      s.(info := info2, random := SwapSeq(s.random, i, j))
  }

  // ---------------------------------------------------------------- creating and deleting entries

  function NewInfo(a: Address, source: NetAddr, pos: nat): Info {
    Info(a.svc, a.services, a.time, source, 0, 0, 0, 0, false, pos)
  }

  function Create(s: State, a: Address, source: NetAddr): State {
    s.(idCount := s.idCount + 1,
       info := s.info[s.idCount := NewInfo(a, source, |s.random|)],
       addr := s.addr[a.svc.ip := s.idCount],
       random := s.random + [s.idCount])
  }

  /** Forget an entry altogether: move it to the end of the random vector, pop it, and erase it from both maps. */
  function Drop(s: State, v: nat): State
    requires Known(s) && v in s.info
  {
    var last := |s.random| - 1;
    var s1 := SwapRandom(s, s.info[v].randomPos, last);
    s1.(info := s1.info - {v}, addr := s1.addr - {s.info[v].svc.ip}, random := s1.random[..last], nNew := s1.nNew - 1)
  }

  /** Take an entry out of one new bucket, deleting it with its last reference. */
  function Unref(s: State, b: nat, v: nat): State
    requires Known(s) && v in s.info && b < NEW_BUCKET_COUNT
  {
    var s1 := s.(news := s.news[b := s.news[b] - {v}]);
    if s.info[v].refCount == 1 then Drop(s1, v)
    else s1.(info := s1.info[v := s1.info[v].(refCount := s1.info[v].refCount - 1)])
  }

  // ---------------------------------------------------------------- ShrinkNew

  predicate IsTerrible(i: Info, now: int) {
    if i.lastTry != 0 && i.lastTry >= now - 60 then false
    else if i.time > now + 10 * 60 then true
    else if i.time == 0 || now - i.time > HORIZON_DAYS * 86400 then true
    else if i.lastSuccess == 0 && i.attempts >= RETRIES then true
    else now - i.lastSuccess > MIN_FAIL_DAYS * 86400 && i.attempts >= MAX_FAILURES
  }

  /** The same in figures: not tried within a minute, and one of the five marks of a useless entry. */
  predicate Useless(i: Info, now: int) {
    && (i.lastTry == 0 || now - i.lastTry > 60)
    && (i.time - now > 600                                            // seen more than ten minutes ahead of the clock
        || i.time == 0 || now - i.time > 2592000                      // never seen, or not for thirty days
        || (i.attempts >= 3 && i.lastSuccess == 0)                    // three attempts without any success
        || (i.attempts >= 10 && now - i.lastSuccess > 604800))        // ten attempts, and no success for a week
  }

  lemma TerribleIsUseless(i: Info, now: int)
    ensures IsTerrible(i, now) <==> Useless(i, now)
  {
  }

  /** The first of the given ids whose entry is terrible. */
  function FirstTerrible(order: seq<nat>, info: map<nat, Info>, now: int): Option<nat>
    requires forall id :: id in order ==> id in info
  {
    if |order| == 0 then None
    else if IsTerrible(info[order[0]], now) then Some(order[0])
    else FirstTerrible(order[1..], info, now)
  }

  /** The running choice of the replacement scan after `n` ids; -1 before any drawn position is met. */
  function OldestDrawn(order: seq<nat>, info: map<nat, Info>, picks: set<nat>, n: nat): (r: int)
    requires n <= |order| && forall id :: id in order ==> id in info
    ensures r != -1 ==> r >= 0 && r in order
  {
    if n == 0 then -1
    else
      var prev := OldestDrawn(order, info, picks, n - 1);
      var id := order[n - 1];
      if n - 1 in picks && (prev == -1 || info[id].time < info[prev].time) then id else prev
  }

  /** The four positions ShrinkNew draws. */
  function Picks(size: nat, raw: nat -> nat): set<nat> {
    {Draw(size, raw(1)), Draw(size, raw(2)), Draw(size, raw(3)), Draw(size, raw(4))}
  }

  lemma {:induction false} OldestDrawnFound(order: seq<nat>, info: map<nat, Info>, picks: set<nat>, n: nat)
    requires n <= |order| && forall id :: id in order ==> id in info
    ensures var r := OldestDrawn(order, info, picks, n);
            if r == -1 then forall k :: k in picks ==> k >= n
            else (exists k :: k in picks && k < n && order[k] == r)
                 && forall k :: k in picks && k < n ==> info[r].time <= info[order[k]].time
  {
    if n > 0 {
      OldestDrawnFound(order, info, picks, n - 1);
      var prev := OldestDrawn(order, info, picks, n - 1);
      var r := OldestDrawn(order, info, picks, n);
      if r == order[n - 1] && n - 1 in picks {
      } else if prev != -1 {
        assert r == prev;
        var k :| k in picks && k < n - 1 && order[k] == prev;
      }
    }
  }

  /** Among equally old entries at drawn positions the first met is kept. */
  lemma {:induction false} OldestDrawnFirst(order: seq<nat>, info: map<nat, Info>, picks: set<nat>, n: nat, p: nat)
    requires p < n <= |order| && p in picks && (forall id :: id in order ==> id in info)
    ensures var r := OldestDrawn(order, info, picks, n);
            && r >= 0 && r in info
            && (exists k :: k in picks && k < n && order[k] == r
                            && (info[r].time < info[order[p]].time || (info[r].time == info[order[p]].time && k <= p)))
  {
    var prev := OldestDrawn(order, info, picks, n - 1);
    var r := OldestDrawn(order, info, picks, n);
    if p < n - 1 {
      OldestDrawnFirst(order, info, picks, n - 1, p);
      var k :| k in picks && k < n - 1 && order[k] == prev
               && (info[prev].time < info[order[p]].time || (info[prev].time == info[order[p]].time && k <= p));
      if r != prev { assert order[n - 1] == r; }
      assert k < n;
    } else {
      OldestDrawnFound(order, info, picks, n - 1);
      if r != order[n - 1] {
        var k :| k in picks && k < n - 1 && order[k] == prev;
        assert k < n;
      } else if prev == r {
        var k :| k in picks && k < n - 1 && order[k] == prev;
        assert k < n;
      }
    }
  }

  /** Which entry a full new bucket gives up. */
  function Victim(info: map<nat, Info>, bucket: set<nat>, now: int, raw: nat -> nat): (v: nat)
    requires bucket != {} && forall id :: id in bucket ==> id in info
    ensures v in bucket
  {
    AscendingElements(bucket);
    var order := Ascending(bucket);
    match FirstTerrible(order, info, now)
    case Some(v) =>
      FirstTerribleFound(order, info, now);
      v
    case None =>
      OldestDrawnFound(order, info, Picks(|bucket|, raw), |order|);
      assert Draw(|bucket|, raw(1)) in Picks(|bucket|, raw);
      OldestDrawn(order, info, Picks(|bucket|, raw), |order|)
  }

  lemma {:induction false} FirstTerribleFound(order: seq<nat>, info: map<nat, Info>, now: int)
    requires forall id :: id in order ==> id in info
    ensures match FirstTerrible(order, info, now)
            case Some(v) => v in order && IsTerrible(info[v], now)
                            && exists k :: 0 <= k < |order| && order[k] == v
                                           && forall j :: 0 <= j < k ==> !IsTerrible(info[order[j]], now)
            case None => forall id :: id in order ==> !IsTerrible(info[id], now)
  {
    if |order| > 0 && !IsTerrible(info[order[0]], now) {
      var rest := order[1..];
      assert order == [order[0]] + rest;
      FirstTerribleFound(rest, info, now);
      match FirstTerrible(rest, info, now)
      case Some(v) =>
        var k :| 0 <= k < |rest| && rest[k] == v && forall j :: 0 <= j < k ==> !IsTerrible(info[rest[j]], now);
        assert order[k + 1] == v;
        forall j | 0 <= j < k + 1 ensures !IsTerrible(info[order[j]], now) {
          if j > 0 { assert order[j] == rest[j - 1]; }
        }
      case None =>
    }
  }

  /** The replacement rule, first half: a terrible entry goes before any other, the one with the lowest id first. */
  lemma VictimTerrible(info: map<nat, Info>, bucket: set<nat>, now: int, raw: nat -> nat, id: nat)
    requires forall x :: x in bucket ==> x in info
    requires id in bucket && IsTerrible(info[id], now)
    ensures var v := Victim(info, bucket, now, raw); IsTerrible(info[v], now) && v <= id
  {
    AscendingElements(bucket);
    var order := Ascending(bucket);
    FirstTerribleFound(order, info, now);
    var v := FirstTerrible(order, info, now).value;
    var k :| 0 <= k < |order| && order[k] == v && forall j :: 0 <= j < k ==> !IsTerrible(info[order[j]], now);
    var j :| 0 <= j < |order| && order[j] == id;
    assert j >= k;
  }

  /** The replacement rule, second half: otherwise the oldest of the four drawn entries goes. */
  lemma VictimOldest(info: map<nat, Info>, bucket: set<nat>, now: int, raw: nat -> nat, k: nat)
    requires bucket != {} && forall x :: x in bucket ==> x in info
    requires forall id :: id in bucket ==> !IsTerrible(info[id], now)
    requires k in Picks(|bucket|, raw)
    ensures var v := Victim(info, bucket, now, raw);
            && (exists j :: j in Picks(|bucket|, raw) && j < |bucket| && Ascending(bucket)[j] == v)
            && k < |bucket| && Ascending(bucket)[k] in info && info[v].time <= info[Ascending(bucket)[k]].time
  {
    hide FirstTerrible, OldestDrawn, IsTerrible, Ascending, Picks;
    AscendingElements(bucket);
    var order := Ascending(bucket);
    FirstTerribleFound(order, info, now);
    assert FirstTerrible(order, info, now) == None;
    PicksInRange(|bucket|, raw, k);
    OldestDrawnFound(order, info, Picks(|bucket|, raw), |bucket|);
  }

  lemma PicksInRange(size: nat, raw: nat -> nat, k: nat)
    requires size > 0 && k in Picks(size, raw)
    ensures k < size
  {
  }

  function ShrinkNew(s: State, b: nat, now: int, raw: nat -> nat): State
    requires Known(s) && b < NEW_BUCKET_COUNT && s.news[b] != {}
  {
    Unref(s, b, Victim(s.info, s.news[b], now, raw))
  }

  // ---------------------------------------------------------------- SelectTried

  /** Shuffled bucket, id taken for the oldest, and the slot reported for it, after `n` rounds. */
  datatype Selection = Selection(bucket: seq<nat>, oldest: int, pos: int)

  function Rounds(size: nat): nat {
    if size < TRIED_ENTRIES_INSPECT_ON_EVICT then size else TRIED_ENTRIES_INSPECT_ON_EVICT
  }

  /** Position drawn in round `i` of SelectTried. */
  function DrawnPos(size: nat, raw: nat -> nat, i: nat): (p: nat)
    requires i < size
    ensures i <= p < size
  {
    Draw(size - i, raw(1 + i)) + i
  }

  /** One round: move the entry at the drawn position to the front, and keep it if it is the oldest met. */
  function Inspect(prev: Selection, info: map<nat, Info>, i: nat, pos: nat): (r: Selection)
    requires i < |prev.bucket| && pos < |prev.bucket| && prev.bucket[pos] in info
    requires prev.oldest == -1 || (prev.oldest >= 0 && prev.oldest in info)
    ensures |r.bucket| == |prev.bucket| && r.bucket == SwapSeq(prev.bucket, i, pos)
  {
    var temp := prev.bucket[pos];
    if prev.oldest == -1 || info[temp].lastSuccess < info[prev.oldest].lastSuccess
    then Selection(SwapSeq(prev.bucket, i, pos), temp, pos)
    else prev.(bucket := SwapSeq(prev.bucket, i, pos))
  }

  function Select(v: seq<nat>, info: map<nat, Info>, raw: nat -> nat, n: nat): (r: Selection)
    requires n <= |v| && forall id :: id in v ==> id in info
    ensures |r.bucket| == |v| && (forall id :: id in r.bucket <==> id in v)
    ensures n == 0 ==> r.oldest == -1
    ensures n > 0 ==> r.oldest >= 0 && r.oldest in v && 0 <= r.pos < |v|
  {
    hide SwapSeq, DrawnPos;
    if n == 0 then Selection(v, -1, -1)
    else
      var prev := Select(v, info, raw, n - 1);
      var pos := DrawnPos(|v|, raw, n - 1);
      SwapSeqElements(prev.bucket, n - 1, pos);
      assert prev.bucket[pos] in v;
      Inspect(prev, info, n - 1, pos)
  }

  lemma SelectStart(v: seq<nat>, info: map<nat, Info>, raw: nat -> nat)
    requires forall id :: id in v ==> id in info
    ensures Select(v, info, raw, 0) == Selection(v, -1, -1)
  {
  }

  lemma SelectInspects(v: seq<nat>, info: map<nat, Info>, raw: nat -> nat, n: nat)
    requires 0 < n <= |v| && forall id :: id in v ==> id in info
    ensures var prev, pos := Select(v, info, raw, n - 1), DrawnPos(|v|, raw, n - 1);
            && prev.bucket[pos] in info && (prev.oldest == -1 || (prev.oldest >= 0 && prev.oldest in info))
            && Select(v, info, raw, n) == Inspect(prev, info, n - 1, pos)
  {
    hide Inspect, DrawnPos, SwapSeq;
    var prev, pos := Select(v, info, raw, n - 1), DrawnPos(|v|, raw, n - 1);
    assert prev.bucket[pos] in prev.bucket;
  }

  lemma SelectStep(v: seq<nat>, info: map<nat, Info>, raw: nat -> nat, n: nat)
    requires 0 < n <= |v| && forall id :: id in v ==> id in info
    ensures var sel, prev := Select(v, info, raw, n), Select(v, info, raw, n - 1);
            var pos := DrawnPos(|v|, raw, n - 1);
            && sel.bucket == SwapSeq(prev.bucket, n - 1, pos)
            && (prev.oldest == -1 || (prev.oldest >= 0 && prev.oldest in info))
            && prev.bucket[pos] in info
            && (if prev.oldest == -1 || info[prev.bucket[pos]].lastSuccess < info[prev.oldest].lastSuccess
                then sel.oldest == prev.bucket[pos] && sel.pos == pos
                else sel.oldest == prev.oldest && sel.pos == prev.pos)
  {
    hide Select, DrawnPos, SwapSeq;
    SelectInspects(v, info, raw, n);
  }

  lemma SwapSeqElements<T>(q: seq<T>, i: nat, j: nat)
    requires i < |q| && j < |q|
    ensures multiset(SwapSeq(q, i, j)) == multiset(q)
    ensures forall x :: x in SwapSeq(q, i, j) <==> x in q
  {
    var r := SwapSeq(q, i, j);
    assert multiset(r) == multiset(q);
    forall x ensures x in r <==> x in q {
      assert x in r <==> x in multiset(r);
      assert x in q <==> x in multiset(q);
    }
  }

  lemma SwapSeqAt<T>(q: seq<T>, i: nat, j: nat)
    requires i < |q| && j < |q|
    ensures var r := SwapSeq(q, i, j);
            r[i] == q[j] && r[j] == q[i] && forall k: nat :: k < |q| && k != i && k != j ==> r[k] == q[k]
  {
  }

  lemma SwapSeqDistinct<T>(q: seq<T>, i: nat, j: nat)
    requires i < |q| && j < |q|
    ensures Distinct(q) ==> Distinct(SwapSeq(q, i, j))
  {
  }

  lemma {:induction false} SelectPermutes(v: seq<nat>, info: map<nat, Info>, raw: nat -> nat, n: nat)
    requires n <= |v| && forall id :: id in v ==> id in info
    ensures multiset(Select(v, info, raw, n).bucket) == multiset(v)
    ensures Distinct(v) ==> Distinct(Select(v, info, raw, n).bucket)
  {
    hide Select, SwapSeq, DrawnPos;
    if n == 0 {
      SelectStart(v, info, raw);
    } else {
      SelectPermutes(v, info, raw, n - 1);
      SelectStep(v, info, raw, n);
      var prev := Select(v, info, raw, n - 1).bucket;
      SwapSeqElements(prev, n - 1, DrawnPos(|v|, raw, n - 1));
      SwapSeqDistinct(prev, n - 1, DrawnPos(|v|, raw, n - 1));
    }
  }

  // ---------------------------------------------------------------- MakeTried

  function WithoutEverywhere(news: seq<set<nat>>, id: nat): (r: seq<set<nat>>)
    ensures |r| == |news|
    ensures forall b :: 0 <= b < |news| ==> r[b] == news[b] - {id}
  {
    seq(|news|, b requires 0 <= b < |news| => news[b] - {id})
  }

  /** Take an entry out of the new table; `inTried` is set although it has no slot yet. */
  function LeaveNew(s: State, id: nat): State
    requires id in s.info
  {
    s.(news := WithoutEverywhere(s.news, id), nNew := s.nNew - 1,
       info := s.info[id := s.info[id].(refCount := 0, inTried := true)])
  }

  /** Append to a tried bucket with room. */
  function PushTried(s: State, k: nat, id: nat): State
    requires k < |s.tried|
  {
    s.(tried := s.tried[k := s.tried[k] + [id]], nTried := s.nTried + 1)
  }

  /** The new bucket that receives an evicted entry. */
  function Refuge(env: Env, s: State, evicted: nat, origin: nat): (b: nat)
    requires evicted in s.info && Shape(s)
    ensures b == origin || b < NEW_BUCKET_COUNT
  {
    var b := NewBucket(env, s.key, s.info[evicted].svc.ip, s.info[evicted].source);
    if |s.news[b]| < NEW_BUCKET_SIZE then b else origin
  }

  /** Overwrite the selected slot of a full tried bucket and move its entry back to the new table. */
  function EvictTried(env: Env, s: State, k: nat, id: nat, origin: nat, raw: nat -> nat): State
    requires Shape(s) && k < TRIED_BUCKET_COUNT && origin < NEW_BUCKET_COUNT
    requires s.tried[k] != [] && forall x :: x in s.tried[k] ==> x in s.info
  {
    var sel := Select(s.tried[k], s.info, raw, Rounds(|s.tried[k]|));
    var evicted := sel.bucket[sel.pos];
    var b := Refuge(env, s, evicted, origin);
    s.(tried := s.tried[k := sel.bucket[sel.pos := id]], nNew := s.nNew + 1,
       news := s.news[b := s.news[b] + {evicted}],
       info := s.info[evicted := s.info[evicted].(inTried := false, refCount := 1)])
  }

  function MakeTried(env: Env, s: State, id: nat, origin: nat, raw: nat -> nat): State
    requires Known(s) && id in s.info && origin < NEW_BUCKET_COUNT
  {
    var s1 := LeaveNew(s, id);
    var k := Home(env, s, id);
    if |s1.tried[k]| < TRIED_BUCKET_SIZE then PushTried(s1, k, id)
    else EvictTried(env, s1, k, id, origin, raw)
  }

  // ---------------------------------------------------------------- public operations

  function Find(s: State, ip: NetAddr): (r: Option<nat>)
    ensures r.Some? ==> r.value in s.info && ip in s.addr && r.value == s.addr[ip]
  {
    if ip in s.addr && s.addr[ip] in s.info then Some(s.addr[ip]) else None
  }

  /** The first new bucket at or after `from`, cyclically, that holds the entry. */
  function FindBucket(news: seq<set<nat>>, id: nat, start: nat, n: nat): (r: Option<nat>)
    requires |news| > 0 && n <= |news|
    ensures r.Some? ==> r.value < |news| && id in news[r.value]
    decreases |news| - n
  {
    if n == |news| then None
    else if id in news[(n + start) % |news|] then Some((n + start) % |news|)
    else FindBucket(news, id, start, n + 1)
  }

  lemma FindNext(news: seq<set<nat>>, id: nat, start: nat, n: nat)
    requires n < |news|
    ensures var nb := (n + start) % |news|;
            FindBucket(news, id, start, n) == if id in news[nb] then Some(nb) else FindBucket(news, id, start, n + 1)
  {
  }

  lemma FindEnd(news: seq<set<nat>>, id: nat, start: nat)
    requires news != []
    ensures FindBucket(news, id, start, |news|) == None
  {
  }

  function MarkGood(i: Info, time: int): Info {
    i.(lastSuccess := time, lastTry := time, time := U32(time), attempts := 0)
  }

  function Good(env: Env, s: State, svc: Service, time: int, raw: nat -> nat): State
    requires Known(s)
  {
    match Find(s, svc.ip)
    case None => s
    case Some(id) =>
      if s.info[id].svc != svc then s
      else
        var s1 := s.(info := s.info[id := MarkGood(s.info[id], time)]);
        if s.info[id].inTried then s1
        else
          match FindBucket(s1.news, id, Draw(NEW_BUCKET_COUNT, raw(0)), 0)
          case None => s1
          case Some(b) =>
            MakeTried(env, s1, id, b, raw)
  }

  function Max(x: int, y: int): int {
    if x < y then y else x
  }

  /** The periodic refresh of time stamp and services of a known address. */
  function Refresh(i: Info, a: Address, penalty: int, now: int): Info {
    var online := now - a.time < 24 * 60 * 60;
    var interval := if online then 60 * 60 else 24 * 60 * 60;
    var time := if a.time != 0 && (i.time == 0 || i.time < a.time - interval - penalty)
                then U32(Max(0, a.time - penalty)) else i.time;
    i.(time := time, services := i.services + a.services)
  }

  function Pow2(n: nat): nat {
    if n == 0 then 1 else 2 * Pow2(n - 1)
  }

  /** Whether a known address, already refreshed, gets a further reference. */
  predicate WantsReference(i: Info, a: Address, raw: nat -> nat)
  {
    && a.time != 0 && (i.time == 0 || a.time > i.time)
    && !i.inTried
    && i.refCount != NEW_BUCKETS_PER_ADDRESS
    && (i.refCount <= 0 || Draw(Pow2(i.refCount), raw(0)) == 0)
  }

  /** Count one more reference, make room in the bucket if it is full, and insert. */
  function PutInNew(env: Env, s: State, id: nat, source: NetAddr, now: int, raw: nat -> nat): State
    requires Known(s) && id in s.info
  {
    var b := NewBucket(env, s.key, s.info[id].svc.ip, source);
    if id in s.news[b] then s
    else
      var s1 := s.(info := s.info[id := s.info[id].(refCount := s.info[id].refCount + 1)]);
      var s2 := if |s1.news[b]| == NEW_BUCKET_SIZE then ShrinkNew(s1, b, now, raw) else s1;
      s2.(news := s2.news[b := s2.news[b] + {id}])
  }

  function CreateNew(s: State, a: Address, source: NetAddr, penalty: int): State {
    var s1 := Create(s, a, source);
    var i := s1.info[s.idCount];
    s1.(info := s1.info[s.idCount := i.(time := U32(Max(0, i.time - penalty)))], nNew := s1.nNew + 1)
  }

  /** The new state and whether the address was new. */
  function Add(env: Env, s: State, a: Address, source: NetAddr, penalty: int, now: int, raw: nat -> nat): (State, bool)
    requires Known(s)
  {
    if !env.routable(a.svc.ip) then (s, false)
    else
      match Find(s, a.svc.ip)
      case Some(id) =>
        var i := Refresh(s.info[id], a, penalty, now);
        var s1 := s.(info := s.info[id := i]);
        if WantsReference(i, a, raw) then (PutInNew(env, s1, id, source, now, raw), false) else (s1, false)
      case None =>
        (PutInNew(env, CreateNew(s, a, source, penalty), s.idCount, source, now, raw), true)
  }

  function Attempt(s: State, svc: Service, time: int): State {
    match Find(s, svc.ip)
    case None => s
    case Some(id) =>
      if s.info[id].svc != svc then s
      else s.(info := s.info[id := s.info[id].(lastTry := time, attempts := s.info[id].attempts + 1)])
  }

  function Connected(s: State, svc: Service, time: int): State {
    match Find(s, svc.ip)
    case None => s
    case Some(id) =>
      if s.info[id].svc != svc || time - s.info[id].time <= 20 * 60 then s
      else s.(info := s.info[id := s.info[id].(time := U32(time))])
  }

  /** How many addresses GetAddr_ returns. */
  function Sample(size: nat): (n: nat)
    ensures n <= size
  {
    var n := GETADDR_MAX_PCT * size / 100;
    if n > GETADDR_MAX then GETADDR_MAX else n
  }

  lemma SwapRandomKnown(s: State, i: nat, j: nat)
    requires Known(s) && i < |s.random| && j < |s.random|
    ensures s.random[i] in s.info && s.random[j] in s.info
    ensures Known(SwapRandom(s, i, j)) && SwapRandom(s, i, j).info.Keys == s.info.Keys
    ensures |SwapRandom(s, i, j).random| == |s.random|
  {
  }

  function Shuffle(s: State, raw: nat -> nat, n: nat): (r: State)
    requires Known(s) && n <= |s.random|
    ensures Known(r) && r.info.Keys == s.info.Keys && |r.random| == |s.random|
  {
    hide Known, SwapRandom;
    if n == 0 then s
    else
      var prev := Shuffle(s, raw, n - 1);
      var pos := Draw(|s.random| - (n - 1), raw(n - 1)) + (n - 1);
      SwapRandomKnown(prev, n - 1, pos);
      SwapRandom(prev, n - 1, pos)
  }

  /** A swap of two different entries, field by field. */
  lemma SwapRandomFields(s: State, i: nat, j: nat)
    requires i < |s.random| && j < |s.random| && i != j
    requires s.random[i] in s.info && s.random[j] in s.info && s.random[i] != s.random[j]
    ensures var t := SwapRandom(s, i, j);
            && t.idCount == s.idCount && t.addr == s.addr && t.info.Keys == s.info.Keys
            && |t.random| == |s.random| && t.random[i] == s.random[j] && t.random[j] == s.random[i]
            && (forall k: nat :: k < |s.random| && k != i && k != j ==> t.random[k] == s.random[k])
            && t.info[s.random[i]] == s.info[s.random[i]].(randomPos := j)
            && t.info[s.random[j]] == s.info[s.random[j]].(randomPos := i)
            && (forall id :: id in s.info && id != s.random[i] && id != s.random[j] ==> t.info[id] == s.info[id])
  {
  }

  /** Positions and the random vector are inverse to each other. */
  ghost predicate PosOk(random: seq<nat>, info: map<nat, Info>) {
    && (forall id :: id in info ==> info[id].randomPos < |random| && random[info[id].randomPos] == id)
    && (forall k :: 0 <= k < |random| ==> random[k] in info && info[random[k]].randomPos == k)
  }

  lemma LinkIntro(s: State)
    requires forall id :: id in s.info ==> id < s.idCount && s.info[id].svc.ip in s.addr && s.addr[s.info[id].svc.ip] == id
    requires forall ip :: ip in s.addr ==> s.addr[ip] in s.info && s.info[s.addr[ip]].svc.ip == ip
    requires PosOk(s.random, s.info)
    ensures LinkOk(s)
  {
  }

  lemma InfoIndexed(s: State, id: nat)
    requires LinkOk(s) && id in s.info
    ensures id < s.idCount && s.info[id].svc.ip in s.addr && s.addr[s.info[id].svc.ip] == id
  {
  }

  lemma AddrIndexed(s: State, ip: NetAddr)
    requires LinkOk(s)
    ensures ip in s.addr ==> s.addr[ip] in s.info && s.info[s.addr[ip]].svc.ip == ip
  {
  }

  lemma LinkPos(s: State)
    requires LinkOk(s)
    ensures PosOk(s.random, s.info)
  {
  }

  lemma SwapRandomPos(s: State, i: nat, j: nat)
    requires PosOk(s.random, s.info) && i < |s.random| && j < |s.random| && i != j
    ensures var t := SwapRandom(s, i, j); PosOk(t.random, t.info)
  {
    SwapRandomFields(s, i, j);
    hide SwapRandom;
    var t := SwapRandom(s, i, j);
    forall k | 0 <= k < |t.random| ensures t.random[k] in t.info && t.info[t.random[k]].randomPos == k {
      assert s.random[k] in s.info && s.info[s.random[k]].randomPos == k;
    }
  }

  lemma PosPair(random: seq<nat>, info: map<nat, Info>, i: nat, j: nat)
    requires PosOk(random, info) && i < |random| && j < |random|
    ensures random[i] in info && random[j] in info && (i != j ==> random[i] != random[j])
  {
  }

  lemma SwapRandomStill(s: State, i: nat)
    requires i < |s.random| && s.random[i] in s.info
    ensures SwapRandom(s, i, i) == s
  {
  }

  lemma SwapRandomLink(s: State, i: nat, j: nat)
    requires LinkOk(s) && i < |s.random| && j < |s.random|
    ensures LinkOk(SwapRandom(s, i, j))
  {
    hide LinkOk, PosOk, SwapRandom;
    LinkPos(s);
    PosPair(s.random, s.info, i, j);
    if i == j {
      SwapRandomStill(s, i);
    } else {
      var t := SwapRandom(s, i, j);
      SwapRandomFields(s, i, j);
      SwapRandomPos(s, i, j);
      assert forall id :: id in s.info ==> t.info[id].svc == s.info[id].svc;
      PosLink(s, t);
    }
  }

  /** A rearrangement of the random vector keeps the bijection. */
  lemma PosLink(s: State, t: State)
    requires LinkOk(s) && PosOk(t.random, t.info)
    requires t.idCount == s.idCount && t.addr == s.addr && t.info.Keys == s.info.Keys
    requires forall id :: id in s.info ==> t.info[id].svc == s.info[id].svc
    ensures LinkOk(t)
  {
  }

  lemma ShuffleNone(s: State, raw: nat -> nat)
    requires Known(s)
    ensures Shuffle(s, raw, 0) == s
  {
  }

  lemma ShuffleNext(s: State, raw: nat -> nat, n: nat)
    requires Known(s) && 0 < n <= |s.random|
    ensures var prev, pos := Shuffle(s, raw, n - 1), Draw(|s.random| - (n - 1), raw(n - 1)) + (n - 1);
            && pos < |s.random| == |prev.random| && prev.random[n - 1] in prev.info && prev.random[pos] in prev.info
            && Shuffle(s, raw, n) == SwapRandom(prev, n - 1, pos)
  {
    hide Known, SwapRandom, Draw;
    SwapRandomKnown(Shuffle(s, raw, n - 1), n - 1, Draw(|s.random| - (n - 1), raw(n - 1)) + (n - 1));
  }

  /** The part of an entry that is an address. */
  function AsAddress(i: Info): Address { Address(i.svc, i.services, i.time) }

  /** The new state and the addresses handed out. */
  function GetAddr(s: State, raw: nat -> nat): (State, seq<Address>)
    requires Known(s)
  {
    var n := Sample(|s.random|);
    var t := Shuffle(s, raw, n);
    (t, seq(n, i requires 0 <= i < n => AsAddress(t.info[t.random[i]])))
  }
}
