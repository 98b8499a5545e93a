/** The data of the address manager and its consistency invariant. */
module AddrState {
  // Entries, the redundant indexes over them, and bucket selection. The invariant is that of the debug routine Check_,
  // strengthened with exact domains and home buckets.
  import opened Common

  const TRIED_BUCKET_COUNT: nat := 64
  const TRIED_BUCKET_SIZE: nat := 64
  const NEW_BUCKET_COUNT: nat := 256
  const NEW_BUCKET_SIZE: nat := 64
  const TRIED_BUCKETS_PER_GROUP: nat := 4
  const NEW_BUCKETS_PER_SOURCE_GROUP: nat := 32
  const NEW_BUCKETS_PER_ADDRESS: nat := 4
  const TRIED_ENTRIES_INSPECT_ON_EVICT: nat := 4
  const HORIZON_DAYS: int := 30
  const RETRIES: int := 3
  const MAX_FAILURES: int := 10
  const MIN_FAIL_DAYS: int := 7
  const GETADDR_MAX_PCT: nat := 23
  const GETADDR_MAX: nat := 2500

  /** A 16-byte network address read as a number. */
  type NetAddr = nat

  type Key = seq<nat>

  datatype Service = Service(ip: NetAddr, port: nat)

  /** CAddress: a service, the bits set in its service mask and its 32-bit time stamp. */
  datatype Address = Address(svc: Service, services: set<nat>, time: nat)

  /** CAddrInfo; `randomPos` is meaningful only for entries of the table. */
  datatype Info = Info(svc: Service, services: set<nat>, time: nat, source: NetAddr, lastSuccess: int,
                       lastTry: int, attempts: int, refCount: int, inTried: bool, randomPos: nat)

  /** What is fed to the bucket hash. */
  datatype Datum = DKey(key: Key) | DService(svc: Service) | DGroup(group: nat) | DNum(n: nat)

  /** The parts of the world the table depends on: the 64-bit cheap hash, address grouping and routability. */
  datatype Env = Env(hash: seq<Datum> -> nat, group: NetAddr -> nat, routable: NetAddr -> bool)

  datatype State = State(
    key: Key,
    idCount: nat,
    info: map<nat, Info>,
    addr: map<NetAddr, nat>,
    random: seq<nat>,
    nTried: int,
    tried: seq<seq<nat>>,
    nNew: int,
    news: seq<set<nat>>)

  function InitState(key: Key): State {
    State(key, 0, map[], map[], [], 0, seq(TRIED_BUCKET_COUNT, _ => []), 0, seq(NEW_BUCKET_COUNT, _ => {}))
  }

  function U32(x: int): (r: nat)
    ensures r < 0x1_0000_0000
  {
    x % 0x1_0000_0000
  }

  // ---------------------------------------------------------------- bucket selection

  function TriedHash(env: Env, key: Key, group: nat, slot: nat): nat {
    env.hash([DKey(key), DGroup(group), DNum(slot)]) % TRIED_BUCKET_COUNT
  }

  function TriedBucket(env: Env, key: Key, svc: Service): (b: nat)
    ensures b < TRIED_BUCKET_COUNT
  {
    var hash1 := env.hash([DKey(key), DService(svc)]);
    TriedHash(env, key, env.group(svc.ip), hash1 % TRIED_BUCKETS_PER_GROUP)
  }

  function NewHash(env: Env, key: Key, sourceGroup: nat, slot: nat): nat {
    env.hash([DKey(key), DGroup(sourceGroup), DNum(slot)]) % NEW_BUCKET_COUNT
  }

  function NewBucket(env: Env, key: Key, ip: NetAddr, source: NetAddr): (b: nat)
    ensures b < NEW_BUCKET_COUNT
  {
    var hash1 := env.hash([DKey(key), DGroup(env.group(ip)), DGroup(env.group(source))]);
    NewHash(env, key, env.group(source), hash1 % NEW_BUCKETS_PER_SOURCE_GROUP)
  }

  /** All addresses of one group land in at most four tried buckets. */
  lemma TriedSpreadOfGroup(env: Env, key: Key, group: nat, svcs: set<Service>)
    requires forall svc :: svc in svcs ==> env.group(svc.ip) == group
    ensures |set svc | svc in svcs :: TriedBucket(env, key, svc)| <= 4
  {
    var q := seq(TRIED_BUCKETS_PER_GROUP, i requires 0 <= i => TriedHash(env, key, group, i));
    forall svc | svc in svcs ensures TriedBucket(env, key, svc) in q {
      var i := env.hash([DKey(key), DService(svc)]) % TRIED_BUCKETS_PER_GROUP;
      assert q[i] == TriedBucket(env, key, svc);
    }
    SetFromSeqBound(set svc | svc in svcs :: TriedBucket(env, key, svc), q);
  }

  /** All addresses announced by one source group land in at most 32 new buckets. */
  lemma NewSpreadOfSourceGroup(env: Env, key: Key, source: NetAddr, ips: set<NetAddr>)
    ensures |set ip | ip in ips :: NewBucket(env, key, ip, source)| <= 32
  {
    var q := seq(NEW_BUCKETS_PER_SOURCE_GROUP, i requires 0 <= i => NewHash(env, key, env.group(source), i));
    forall ip | ip in ips ensures NewBucket(env, key, ip, source) in q {
      var i := env.hash([DKey(key), DGroup(env.group(ip)), DGroup(env.group(source))]) % NEW_BUCKETS_PER_SOURCE_GROUP;
      assert q[i] == NewBucket(env, key, ip, source);
    }
    SetFromSeqBound(set ip | ip in ips :: NewBucket(env, key, ip, source), q);
  }

  // ---------------------------------------------------------------- the invariant

  /** The tried bucket an entry belongs to. */
  function Home(env: Env, s: State, id: nat): (b: nat)
    requires id in s.info
    ensures b < TRIED_BUCKET_COUNT
  {
    TriedBucket(env, s.key, s.info[id].svc)
  }

  function BucketsOf(news: seq<set<nat>>, id: nat): set<nat> {
    set b: nat | b < |news| && id in news[b]
  }

  /** In how many new buckets an entry sits. */
  function Count(news: seq<set<nat>>, id: nat): nat {
    |BucketsOf(news, id)|
  }

  function TriedIds(info: map<nat, Info>): set<nat> {
    set id | id in info && info[id].inTried
  }

  function NewIds(info: map<nat, Info>): set<nat> {
    set id | id in info && !info[id].inTried
  }

  predicate Shape(s: State) {
    |s.tried| == TRIED_BUCKET_COUNT && |s.news| == NEW_BUCKET_COUNT
  }

  /** No dangling ids or positions: what the operations need in order to run without tripping an assertion. */
  predicate Known(s: State) {
    && Shape(s)
    && (forall b, id :: 0 <= b < TRIED_BUCKET_COUNT && id in s.tried[b] ==> id in s.info)
    && (forall b, id :: 0 <= b < NEW_BUCKET_COUNT && id in s.news[b] ==> id in s.info)
    && (forall i :: 0 <= i < |s.random| ==> s.random[i] in s.info)
    && (forall id :: id in s.info ==> s.info[id].randomPos < |s.random|)
  }

  /** Ids, addresses and random positions are in bijection. */
  ghost predicate LinkOk(s: State) {
    && (forall id :: id in s.info ==> id < s.idCount)
    && (forall id :: id in s.info ==> s.info[id].svc.ip in s.addr && s.addr[s.info[id].svc.ip] == id)
    && (forall a :: a in s.addr ==> s.addr[a] in s.info && s.info[s.addr[a]].svc.ip == a)
    && (forall id :: id in s.info ==> s.info[id].randomPos < |s.random| && s.random[s.info[id].randomPos] == id)
    && (forall i :: 0 <= i < |s.random| ==> s.random[i] in s.info && s.info[s.random[i]].randomPos == i)
  }

  /** Every tried entry has no references and occupies exactly one slot, in its home bucket. */
  ghost predicate TriedOk(env: Env, s: State)
    requires Shape(s)
  {
    && (forall id :: id in s.info && s.info[id].inTried ==> s.info[id].refCount == 0 && id in s.tried[Home(env, s, id)])
    && (forall b, id :: 0 <= b < TRIED_BUCKET_COUNT && id in s.tried[b] ==>
          id in s.info && s.info[id].inTried && Home(env, s, id) == b)
    && (forall b :: 0 <= b < TRIED_BUCKET_COUNT ==> |s.tried[b]| <= TRIED_BUCKET_SIZE && Distinct(s.tried[b]))
  }

  /**
   Every new entry sits in exactly `refCount` buckets, one to four. `pending` names an entry whose reference has been
   counted but not yet placed (Add_ counts before it makes room); NONE is -1.
   */
  ghost predicate NewOk(s: State, pending: int)
    requires Shape(s)
  {
    && (forall id :: id in s.info && !s.info[id].inTried ==>
          1 <= s.info[id].refCount <= NEW_BUCKETS_PER_ADDRESS
          && s.info[id].refCount == Count(s.news, id) + (if id == pending then 1 else 0))
    && (forall b, id :: 0 <= b < NEW_BUCKET_COUNT && id in s.news[b] ==> id in s.info && !s.info[id].inTried)
    && (forall b :: 0 <= b < NEW_BUCKET_COUNT ==> |s.news[b]| <= NEW_BUCKET_SIZE)
  }

  ghost predicate CountOk(s: State) {
    s.nTried == |TriedIds(s.info)| && s.nNew == |NewIds(s.info)|
  }

  const NONE := -1

  /** The invariant while one reference of `pending` is counted but not yet placed. */
  ghost predicate InvPending(env: Env, s: State, pending: int) {
    Known(s) && LinkOk(s) && TriedOk(env, s) && NewOk(s, pending) && CountOk(s)
  }

  ghost predicate Inv(env: Env, s: State) {
    InvPending(env, s, NONE)
  }

  lemma InitInv(env: Env, key: Key)
    ensures Inv(env, InitState(key))
  {
  }

  // ---------------------------------------------------------------- framing

  /** `t` has the same entries as `s` as far as the address and random-position indexes can tell. */
  ghost predicate SameLinks(s: State, t: State) {
    && t.idCount == s.idCount && t.addr == s.addr && t.random == s.random && t.info.Keys == s.info.Keys
    && (forall id :: id in s.info ==> t.info[id].svc == s.info[id].svc && t.info[id].randomPos == s.info[id].randomPos)
  }

  lemma LinkFrame(s: State, t: State)
    requires LinkOk(s) && SameLinks(s, t)
    ensures LinkOk(t)
  {
  }

  lemma KnownFrame(s: State, t: State)
    requires Known(s) && SameLinks(s, t) && t.tried == s.tried && t.news == s.news
    ensures Known(t)
  {
  }

  lemma NewFrame(s: State, t: State, pending: int)
    requires Shape(s) && Shape(t) && NewOk(s, pending) && t.news == s.news && t.info.Keys == s.info.Keys
    requires forall id :: id in s.info ==> t.info[id].inTried == s.info[id].inTried && t.info[id].refCount == s.info[id].refCount
    ensures NewOk(t, pending)
  {
  }

  lemma IdsUpdate(m: map<nat, Info>, id: nat, i: Info)
    ensures TriedIds(m[id := i]) == TriedIds(m) - {id} + (if i.inTried then {id} else {})
    ensures NewIds(m[id := i]) == NewIds(m) - {id} + (if i.inTried then {} else {id})
  {
  }

  lemma CountFrame(s: State, t: State)
    requires CountOk(s) && t.info.Keys == s.info.Keys && t.nTried == s.nTried && t.nNew == s.nNew
    requires forall id :: id in s.info ==> t.info[id].inTried == s.info[id].inTried
    ensures CountOk(t)
  {
    assert TriedIds(t.info) == TriedIds(s.info);
    assert NewIds(t.info) == NewIds(s.info);
  }

  /** The tried entries of `t` are those of `s`, with the same services. */
  ghost predicate SameTried(s: State, t: State) {
    && t.key == s.key && t.tried == s.tried
    && (forall id :: id in s.info && s.info[id].inTried ==>
          id in t.info && t.info[id].inTried && t.info[id].refCount == s.info[id].refCount && t.info[id].svc == s.info[id].svc)
    && (forall id :: id in t.info && t.info[id].inTried ==> id in s.info && s.info[id].inTried)
  }

  lemma TriedFrame(env: Env, s: State, t: State)
    requires Shape(s) && Shape(t) && TriedOk(env, s) && SameTried(s, t)
    ensures TriedOk(env, t)
  {
  }

  /** Changing only book-keeping fields (times, services, attempts) of one entry. */
  ghost predicate SameStanding(i: Info, j: Info) {
    i.svc == j.svc && i.randomPos == j.randomPos && i.inTried == j.inTried && i.refCount == j.refCount
  }

  /** Book-keeping updates of one entry keep the whole invariant. */
  lemma TouchInv(env: Env, s: State, id: nat, i: Info)
    requires Inv(env, s) && id in s.info && SameStanding(s.info[id], i)
    ensures Inv(env, s.(info := s.info[id := i]))
  {
    hide Known, LinkOk, TriedOk, NewOk, CountOk;
    var t := s.(info := s.info[id := i]);
    KnownShape(s);
    LinkFrame(s, t);
    KnownFrame(s, t);
    TriedFrame(env, s, t);
    NewFrame(s, t, NONE);
    CountFrame(s, t);
  }

  lemma KnownShape(s: State)
    requires Known(s)
    ensures Shape(s)
  {
  }

  // ---------------------------------------------------------------- reference counts under bucket updates

  lemma CountInsert(news: seq<set<nat>>, b: nat, id: nat, other: nat)
    requires b < |news| && id !in news[b]
    ensures Count(news[b := news[b] + {id}], other) == Count(news, other) + (if other == id then 1 else 0)
  {
    var after := news[b := news[b] + {id}];
    if other == id {
      assert BucketsOf(after, id) == BucketsOf(news, id) + {b};
    } else {
      assert BucketsOf(after, other) == BucketsOf(news, other);
    }
  }

  lemma CountRemove(news: seq<set<nat>>, b: nat, id: nat, other: nat)
    requires b < |news| && id in news[b]
    ensures Count(news[b := news[b] - {id}], other) == Count(news, other) - (if other == id then 1 else 0)
  {
    var after := news[b := news[b] - {id}];
    if other == id {
      assert BucketsOf(after, id) == BucketsOf(news, id) - {b};
    } else {
      assert BucketsOf(after, other) == BucketsOf(news, other);
    }
  }

  lemma CountZero(news: seq<set<nat>>, id: nat)
    requires Count(news, id) == 0
    ensures forall b :: 0 <= b < |news| ==> id !in news[b]
  {
    forall b | 0 <= b < |news| ensures id !in news[b] {
      assert b !in BucketsOf(news, id);
    }
  }
}
