/** Reading a file that was written with another number of new buckets. */
module AddrResize {
  // The stored buckets are then ignored and every new entry goes to the one bucket its address and source select, with
  // no test of that bucket's size.
  import opened Common
  import opened AddrState
  import opened AddrOps
  import opened AddrInv
  import opened AddrEffects
  import opened AddrDisk
  import opened AddrCheck

  function FileInfos(d: Disk): seq<DiskInfo> { d.newInfos + d.triedInfos }

  /** Fewer buckets than now, each address listed once, and stored indices that name new entries. */
  predicate SoundFile(d: Disk) {
    && |d.buckets| < NEW_BUCKET_COUNT
    && (forall i, j :: 0 <= i < j < |FileInfos(d)| ==> FileInfos(d)[i].svc.ip != FileInfos(d)[j].svc.ip)
    && (forall b, i :: 0 <= b < |d.buckets| && 0 <= i < |d.buckets[b]| ==> d.buckets[b][i] < |d.newInfos|)
  }

  /** The bucket selected by a new entry of the file. */
  function BucketFor(env: Env, d: Disk, j: nat): (b: nat)
    requires j < |d.newInfos|
    ensures b < NEW_BUCKET_COUNT
  {
    NewBucket(env, d.key, d.newInfos[j].svc.ip, d.newInfos[j].source)
  }

  /** Which of the first `n` new entries select bucket `b`. */
  function Selecting(env: Env, d: Disk, b: nat, n: nat): set<nat>
    requires n <= |d.newInfos|
  {
    set j: nat | j < n && BucketFor(env, d, j) == b
  }

  // ---------------------------------------------------------------- the new entries

  /** The entries and their buckets after the first `n` new entries have been read. */
  ghost predicate NewStage(env: Env, d: Disk, s: State, n: nat)
    requires n <= |d.newInfos|
  {
    && Shape(s) && LinkOk(s.(idCount := n)) && |s.random| == n && EntriesRead(d, s.info, n) && Selected(env, d, s.news, n)
    && s == Blank(d).(info := s.info, addr := s.addr, random := s.random, news := s.news)
  }

  ghost predicate EntriesRead(d: Disk, info: map<nat, Info>, n: nat)
    requires n <= |d.newInfos|
  {
    && (forall j: nat :: j in info <==> j < n)
    && (forall j: nat :: j < n ==> info[j] == FromDisk(d.newInfos[j], j).(refCount := 1))
  }

  /** Each of the first `n` new entries is in the bucket it selects, and nothing else is in any bucket. */
  ghost predicate Selected(env: Env, d: Disk, news: seq<set<nat>>, n: nat)
    requires n <= |d.newInfos|
  {
    |news| == NEW_BUCKET_COUNT && forall b: nat :: b < NEW_BUCKET_COUNT ==> news[b] == Selecting(env, d, b, n)
  }

  /** One new entry, field by field, when its bucket is selected afresh. */
  lemma WithNewSelected(env: Env, s: State, id: nat, x: DiskInfo, fileBuckets: nat)
    requires Shape(s) && fileBuckets != NEW_BUCKET_COUNT
    ensures var t, b := WithNew(env, s, id, x, fileBuckets), NewBucket(env, s.key, x.svc.ip, x.source);
            && t.info == s.info[id := FromDisk(x, |s.random|).(refCount := 1)]
            && t.addr == s.addr[x.svc.ip := id] && t.random == s.random + [id] && t.news == s.news[b := s.news[b] + {id}]
            && t == s.(info := t.info, addr := t.addr, random := t.random, news := t.news)
  {
    hide NewBucket;
  }

  lemma SelectingNext(env: Env, d: Disk, b: nat, n: nat)
    requires n < |d.newInfos|
    ensures Selecting(env, d, b, n + 1) == Selecting(env, d, b, n) + (if BucketFor(env, d, n) == b then {n} else {})
  {
    hide BucketFor;
  }

  /** An address that no entry read so far has is not in the address map. */
  lemma NewStageFresh(env: Env, d: Disk, s: State, n: nat)
    requires SoundFile(d) && n < |d.newInfos| && NewStage(env, d, s, n)
    ensures d.newInfos[n].svc.ip !in s.addr
  {
    hide LinkOk, Selected, SoundFile;
    var ip := d.newInfos[n].svc.ip;
    if ip in s.addr {
      AddrIndexed(s.(idCount := n), ip);
      AddressOnce(d, s.addr[ip], n);
    }
  }

  /** Entries of a sound file at different places have different addresses. */
  lemma AddressOnce(d: Disk, i: nat, j: nat)
    requires SoundFile(d) && i < j < |FileInfos(d)|
    ensures FileInfos(d)[i].svc.ip != FileInfos(d)[j].svc.ip
    ensures i < |d.newInfos| ==> FileInfos(d)[i] == d.newInfos[i]
    ensures i >= |d.newInfos| ==> FileInfos(d)[i] == d.triedInfos[i - |d.newInfos|]
    ensures j < |d.newInfos| ==> FileInfos(d)[j] == d.newInfos[j]
    ensures j >= |d.newInfos| ==> FileInfos(d)[j] == d.triedInfos[j - |d.newInfos|]
  {
  }

  lemma NewStageStep(env: Env, d: Disk, s: State, n: nat)
    requires SoundFile(d) && n < |d.newInfos| && NewStage(env, d, s, n)
    ensures NewStage(env, d, WithNew(env, s, n, d.newInfos[n], |d.buckets|), n + 1)
  {
    NewStageFresh(env, d, s, n);
    hide LinkOk, WithNew, Selected, EntriesRead, Blank, SoundFile, FromDisk, NewBucket;
    var x := d.newInfos[n];
    var t := WithNew(env, s, n, x, |d.buckets|);
    assert |d.buckets| != NEW_BUCKET_COUNT by { OtherCount(d); }
    WithNewSelected(env, s, n, x, |d.buckets|);
    BlankKey(d);
    FromDiskFields(x, n);
    LinkPush(s.(idCount := n), t.(idCount := n + 1), FromDisk(x, n).(refCount := 1));
    SelectedStep(env, d, s.news, t.news, n);
    EntriesReadStep(d, s.info, n);
  }

  lemma EntriesReadStep(d: Disk, info: map<nat, Info>, n: nat)
    requires n < |d.newInfos| && EntriesRead(d, info, n)
    ensures EntriesRead(d, info[n := FromDisk(d.newInfos[n], n).(refCount := 1)], n + 1)
  {
    hide FromDisk;
  }

  lemma SelectedStep(env: Env, d: Disk, news: seq<set<nat>>, after: seq<set<nat>>, n: nat)
    requires n < |d.newInfos| && Selected(env, d, news, n)
    requires var k := NewBucket(env, d.key, d.newInfos[n].svc.ip, d.newInfos[n].source); after == news[k := news[k] + {n}]
    ensures Selected(env, d, after, n + 1)
  {
    hide Selecting, NewBucket;
    forall b: nat | b < NEW_BUCKET_COUNT
      ensures Selecting(env, d, b, n + 1) == Selecting(env, d, b, n) + (if BucketFor(env, d, n) == b then {n} else {})
    {
      SelectingNext(env, d, b, n);
    }
  }

  lemma FromDiskFields(x: DiskInfo, pos: nat)
    ensures var i := FromDisk(x, pos);
            i.svc == x.svc && i.randomPos == pos && i.lastTry == 0 && i.lastSuccess == x.lastSuccess && !i.inTried
  {
  }

  lemma OtherCount(d: Disk)
    requires SoundFile(d)
    ensures |d.buckets| != NEW_BUCKET_COUNT
  {
  }

  lemma BlankKey(d: Disk)
    ensures Blank(d).key == d.key && Blank(d).nTried == |d.triedInfos| && Blank(d).nNew == |d.newInfos|
  {
  }

  lemma NewStageStart(env: Env, d: Disk)
    ensures NewStage(env, d, Blank(d), 0)
  {
    hide BucketFor;
  }

  lemma {:induction false} NewEntriesRead(env: Env, d: Disk, n: nat)
    requires SoundFile(d) && n <= |d.newInfos|
    ensures NewStage(env, d, LoadNew(env, d, n), n)
  {
    hide SoundFile, NewStage, LoadNew, WithNew;
    if n == 0 {
      LoadNewStart(env, d);
      NewStageStart(env, d);
    } else {
      NewEntriesRead(env, d, n - 1);
      LoadNewNext(env, d, n - 1);
      NewStageStep(env, d, LoadNew(env, d, n - 1), n - 1);
    }
  }

  // ---------------------------------------------------------------- the tried entries

  /** The new entries are as they were read. */
  ghost predicate NewKept(env: Env, d: Disk, s: State) {
    && Shape(s) && s.key == d.key && s.nTried == |d.triedInfos| && s.nNew == |d.newInfos|
    && (forall j: nat :: j < |d.newInfos| ==> j in s.info && s.info[j] == FromDisk(d.newInfos[j], j).(refCount := 1))
    && Selected(env, d, s.news, |d.newInfos|)
  }

  /** Every other entry is one of the first `m` tried entries of the file. */
  ghost predicate TriedKept(d: Disk, s: State, m: nat)
    requires m <= |d.triedInfos|
  {
    && (forall id :: id in s.info ==> s.info[id].lastTry == 0)
    && (forall id :: id in s.info && id >= |d.newInfos| ==> s.info[id].inTried && FromFile(d, s.info[id].svc.ip, m))
  }

  /** The table after the first `m` tried entries have been kept or lost. */
  ghost predicate TriedStage(env: Env, d: Disk, l: Loaded, m: nat)
    requires m <= |d.triedInfos|
  {
    && Shape(l.s) && LinkOk(l.s) && TriedOk(env, l.s) && |l.s.info| + l.lost == |d.newInfos| + m && |d.newInfos| <= l.s.idCount
    && NewKept(env, d, l.s) && TriedKept(d, l.s, m)
  }

  /** Among the first `m` tried entries of the file. */
  ghost predicate FromFile(d: Disk, ip: NetAddr, m: nat)
    requires m <= |d.triedInfos|
  {
    exists i: nat :: i < m && d.triedInfos[i].svc.ip == ip
  }

  lemma TriedStageStart(env: Env, d: Disk, s: State)
    requires NewStage(env, d, s, |d.newInfos|)
    ensures TriedStage(env, d, Loaded(s.(idCount := |d.newInfos|), 0), 0)
  {
    hide LinkOk, Selected;
    BlankTried(d);
    NoTried(env, s.(idCount := |d.newInfos|));
    KeysBelow(s.info, |d.newInfos|);
  }

  lemma NoTried(env: Env, s: State)
    requires Shape(s) && (forall id :: id in s.info ==> !s.info[id].inTried)
    requires forall k :: 0 <= k < TRIED_BUCKET_COUNT ==> s.tried[k] == []
    ensures TriedOk(env, s)
  {
  }

  lemma {:induction false} KeysBelow(m: map<nat, Info>, n: nat)
    requires forall j: nat :: j in m <==> j < n
    ensures |m| == n
  {
    var q := seq(n, i requires 0 <= i < n => i);
    DistinctCard(q);
    forall j: nat ensures j in Elems(q) <==> j in m.Keys {
      if j < n { assert q[j] == j; }
    }
    assert Elems(q) == m.Keys && |m.Keys| == |m|;
  }

  /** A tried entry's address is new to the table. */
  lemma TriedStageFresh(env: Env, d: Disk, l: Loaded, m: nat)
    requires SoundFile(d) && m < |d.triedInfos| && TriedStage(env, d, l, m)
    ensures d.triedInfos[m].svc.ip !in l.s.addr && l.s.idCount !in l.s.info
  {
    hide LinkOk, TriedOk, Selected, SoundFile;
    LinkFresh(l.s);
    var n, ip := |d.newInfos|, d.triedInfos[m].svc.ip;
    if ip in l.s.addr {
      AddrIndexed(l.s, ip);
      var id := l.s.addr[ip];
      if id < n {
        AddressOnce(d, id, n + m);
      } else {
        var i: nat :| i < m && d.triedInfos[i].svc.ip == ip;
        AddressOnce(d, n + i, n + m);
      }
    }
  }

  /** A fresh tried entry in its home bucket. */
  lemma TriedPush(env: Env, s: State, t: State, id: nat, i: Info)
    requires Shape(s) && Shape(t) && TriedOk(env, s) && id !in s.info && i.inTried && i.refCount == 0 && t.key == s.key
    requires t.info == s.info[id := i]
    requires var k := TriedBucket(env, s.key, i.svc);
             |s.tried[k]| < TRIED_BUCKET_SIZE && t.tried == s.tried[k := s.tried[k] + [id]]
    ensures TriedOk(env, t)
  {
    hide TriedOk, TriedBucket;
    var k := TriedBucket(env, s.key, i.svc);
    assert t.tried[k][|s.tried[k]|] == id;
    forall x | x in t.info && t.info[x].inTried ensures t.info[x].refCount == 0 && x in t.tried[Home(env, t, x)] {
      if x != id {
        TriedHome(env, s, x);
        assert Home(env, t, x) == Home(env, s, x);
      }
    }
    forall b, x | 0 <= b < TRIED_BUCKET_COUNT && x in t.tried[b] ensures x in t.info && t.info[x].inTried && Home(env, t, x) == b {
      if x in s.tried[b] { TriedBucketHome(env, s, b, x); }
    }
    forall b | 0 <= b < TRIED_BUCKET_COUNT ensures |t.tried[b]| <= TRIED_BUCKET_SIZE && Distinct(t.tried[b]) {
      TriedBucketSize(env, s, b);
      if id in s.tried[b] { TriedBucketHome(env, s, b, id); }
    }
    TriedOkIntro(env, t);
  }

  lemma WithTriedFields(env: Env, s: State, x: DiskInfo)
    requires Shape(s)
    ensures var t, k, id := WithTried(env, s, x), TriedBucket(env, s.key, x.svc), s.idCount;
            && t.info == s.info[id := FromDisk(x, |s.random|).(inTried := true)] && t.addr == s.addr[x.svc.ip := id]
            && t.random == s.random + [id] && t.tried == s.tried[k := s.tried[k] + [id]]
            && t == s.(idCount := id + 1, info := t.info, addr := t.addr, random := t.random, tried := t.tried)
  {
    hide TriedBucket;
  }

  /** The next tried entry is kept when its bucket has room and lost otherwise. */
  lemma TriedStageKept(env: Env, d: Disk, l: Loaded, m: nat)
    requires SoundFile(d) && m < |d.triedInfos| && TriedStage(env, d, l, m)
    requires |l.s.tried[TriedBucket(env, l.s.key, d.triedInfos[m].svc)]| < TRIED_BUCKET_SIZE
    ensures TriedStage(env, d, Loaded(WithTried(env, l.s, d.triedInfos[m]), l.lost), m + 1)
  {
    TriedStageFresh(env, d, l, m);
    hide LinkOk, TriedOk, WithTried, NewKept, TriedKept, SoundFile, TriedBucket;
    var s, x := l.s, d.triedInfos[m];
    var t := WithTried(env, s, x);
    WithTriedFields(env, s, x);
    var i := FromDisk(x, |s.random|).(inTried := true);
    LinkPush(s, t, i);
    TriedPush(env, s, t, s.idCount, i);
    MapGrown(s.info, s.idCount, i);
    NewKeptStep(env, d, s, t, i);
    TriedKeptStep(d, s, t, m, i);
  }

  lemma NewKeptStep(env: Env, d: Disk, s: State, t: State, i: Info)
    requires NewKept(env, d, s) && s.idCount >= |d.newInfos| && t.info == s.info[s.idCount := i] && t.news == s.news
    requires Shape(t) && t.key == s.key && t.nTried == s.nTried && t.nNew == s.nNew
    ensures NewKept(env, d, t)
  {
    hide Selected;
  }

  lemma TriedKeptStep(d: Disk, s: State, t: State, m: nat, i: Info)
    requires m < |d.triedInfos| && TriedKept(d, s, m) && s.idCount >= |d.newInfos| && t.info == s.info[s.idCount := i]
    requires i.lastTry == 0 && i.inTried && i.svc == d.triedInfos[m].svc
    ensures TriedKept(d, t, m + 1)
  {
    hide FromFile;
    FromFileNext(d, m);
  }

  lemma TriedStageLost(env: Env, d: Disk, l: Loaded, m: nat)
    requires m < |d.triedInfos| && TriedStage(env, d, l, m)
    ensures TriedStage(env, d, Loaded(l.s, l.lost + 1), m + 1)
  {
    hide LinkOk, TriedOk, Selected, FromFile;
    FromFileNext(d, m);
  }

  lemma FromFileNext(d: Disk, m: nat)
    requires m < |d.triedInfos|
    ensures FromFile(d, d.triedInfos[m].svc.ip, m + 1) && forall ip :: FromFile(d, ip, m) ==> FromFile(d, ip, m + 1)
  {
    forall ip | FromFile(d, ip, m) ensures FromFile(d, ip, m + 1) {
      var i: nat :| i < m && d.triedInfos[i].svc.ip == ip;
      assert i < m + 1;
    }
  }

  lemma {:induction false} TriedEntriesRead(env: Env, d: Disk, m: nat)
    requires SoundFile(d) && m <= |d.triedInfos|
    ensures TriedStage(env, d, LoadTried(env, d, m), m)
  {
    hide SoundFile, TriedStage, NewStage, LoadNew, LoadTried, WithTried, TriedBucket;
    if m == 0 {
      LoadTriedStart(env, d);
      NewEntriesRead(env, d, |d.newInfos|);
      TriedStageStart(env, d, LoadNew(env, d, |d.newInfos|));
    } else {
      TriedEntriesRead(env, d, m - 1);
      var l := LoadTried(env, d, m - 1);
      LoadTriedNext(env, d, m - 1);
      if |l.s.tried[TriedBucket(env, l.s.key, d.triedInfos[m - 1].svc)]| < TRIED_BUCKET_SIZE {
        TriedStageKept(env, d, l, m - 1);
      } else {
        TriedStageLost(env, d, l, m - 1);
      }
    }
  }

  // ---------------------------------------------------------------- the stored buckets

  lemma LookUpIdle(s: State, b: nat, id: nat)
    requires Shape(s) && b < NEW_BUCKET_COUNT && id in s.info
    ensures LoadIndex(s, b, id, false) == s
  {
    assert s.info[id := s.info[id]] == s.info;
  }

  lemma {:induction false} BucketIdle(s: State, b: nat, ids: seq<nat>, n: nat)
    requires Shape(s) && b < NEW_BUCKET_COUNT && n <= |ids| && forall i :: 0 <= i < |ids| ==> ids[i] in s.info
    ensures LoadBucket(s, b, ids, false, n) == s
  {
    hide LoadIndex, LoadBucket;
    if n == 0 {
      LoadBucketStart(s, b, ids, false);
    } else {
      BucketIdle(s, b, ids, n - 1);
      LoadBucketNext(s, b, ids, false, n);
      LookUpIdle(s, b, ids[n - 1]);
    }
  }

  /** Indices that name entries change nothing when the buckets are ignored. */
  lemma {:induction false} BucketsIdle(s: State, buckets: seq<seq<nat>>, n: nat)
    requires Shape(s) && n <= |buckets| < NEW_BUCKET_COUNT
    requires forall b, i :: 0 <= b < |buckets| && 0 <= i < |buckets[b]| ==> buckets[b][i] in s.info
    ensures LoadBuckets(s, buckets, n) == s
  {
    hide LoadBucket, LoadBuckets;
    if n == 0 {
      LoadBucketsStart(s, buckets);
    } else {
      BucketsIdle(s, buckets, n - 1);
      LoadBucketsNext(s, buckets, n - 1);
      BucketIdle(s, n - 1, buckets[n - 1], |buckets[n - 1]|);
    }
  }

  // ---------------------------------------------------------------- the table that results

  /** Everything the invariant asks but the sizes of the new buckets, which are those the selection gives. */
  lemma Resized(env: Env, d: Disk) returns (s: State)
    requires SoundFile(d)
    ensures s == Load(env, d) && Shape(s) && LinkOk(s) && TriedOk(env, s) && CountOk(s) && RefsPass(s)
    ensures forall id :: id in s.info && !s.info[id].inTried ==> s.info[id].refCount == 1
    ensures forall b: nat :: b < NEW_BUCKET_COUNT ==> s.news[b] == Selecting(env, d, b, |d.newInfos|)
    ensures forall id :: id in s.info ==> s.info[id].lastTry == 0 && (id < |d.newInfos| <==> !s.info[id].inTried)
    ensures forall id :: id in s.info && s.info[id].inTried ==> FromFile(d, s.info[id].svc.ip, |d.triedInfos|)
    ensures forall j: nat :: j < |d.newInfos| ==> j in s.info && s.info[j].lastSuccess == d.newInfos[j].lastSuccess
  {
    hide LinkOk, TriedOk, CountOk, LoadTried, LoadBuckets, Selecting, FromFile, RefsPass, NewKept, TriedKept, SoundFile;
    var m := |d.triedInfos|;
    TriedEntriesRead(env, d, m);
    var l := LoadTried(env, d, m);
    s := l.s.(nTried := l.s.nTried - l.lost);
    KeptFacts(env, d, l.s);
    StoredIndices(d);
    BucketsIdle(s, d.buckets, |d.buckets|);
    RecountKeeps(env, l.s, l.s.nTried - l.lost);
    ResizedRefs(env, d, s);
    ResizedCount(s, |d.newInfos|);
    assert s == Load(env, d);
  }

  lemma RecountKeeps(env: Env, s: State, n: int)
    requires Shape(s) && LinkOk(s) && TriedOk(env, s)
    ensures var t := s.(nTried := n); Shape(t) && LinkOk(t) && TriedOk(env, t)
  {
    hide LinkOk, TriedOk;
    LinkFrame(s, s.(nTried := n));
    TriedFrame(env, s, s.(nTried := n));
  }

  lemma StoredIndices(d: Disk)
    requires SoundFile(d)
    ensures |d.buckets| < NEW_BUCKET_COUNT
    ensures forall b, i :: 0 <= b < |d.buckets| && 0 <= i < |d.buckets[b]| ==> d.buckets[b][i] < |d.newInfos|
  {
  }

  lemma KeptFacts(env: Env, d: Disk, s: State)
    requires NewKept(env, d, s) && TriedKept(d, s, |d.triedInfos|)
    ensures s.nTried == |d.triedInfos| && s.nNew == |d.newInfos|
    ensures forall b: nat :: b < NEW_BUCKET_COUNT ==> s.news[b] == Selecting(env, d, b, |d.newInfos|)
    ensures forall id :: id in s.info ==> s.info[id].lastTry == 0 && (id < |d.newInfos| <==> !s.info[id].inTried)
    ensures forall id :: id in s.info && s.info[id].inTried ==> FromFile(d, s.info[id].svc.ip, |d.triedInfos|)
    ensures forall j: nat :: j < |d.newInfos| ==>
              j in s.info && s.info[j].refCount == 1 && s.info[j].lastSuccess == d.newInfos[j].lastSuccess
  {
    hide Selecting, FromFile;
  }

  lemma ResizedRefs(env: Env, d: Disk, s: State)
    requires Shape(s)
    requires forall b: nat :: b < NEW_BUCKET_COUNT ==> s.news[b] == Selecting(env, d, b, |d.newInfos|)
    requires forall id :: id in s.info ==> (id < |d.newInfos| <==> !s.info[id].inTried)
    requires forall j: nat :: j < |d.newInfos| ==> j in s.info && s.info[j].refCount == 1
    ensures RefsPass(s)
  {
    hide BucketFor;
    forall id | id in NewIds(s.info) ensures Count(s.news, id) == 1 {
      assert BucketsOf(s.news, id) == {BucketFor(env, d, id)};
    }
  }

  lemma ResizedCount(s: State, n: nat)
    requires s.nNew == n && s.nTried == |s.info| - n
    requires forall j: nat :: j in s.info && !s.info[j].inTried <==> j < n
    ensures CountOk(s)
  {
    IdsPartition(s.info);
    var newOnes := map j | j in s.info && !s.info[j].inTried :: s.info[j];
    KeysBelow(newOnes, n);
    assert newOnes.Keys == NewIds(s.info) && |newOnes.Keys| == |newOnes|;
  }

  /**
   A sound file with another number of buckets is read into a consistent table exactly when no bucket is selected by more
   than 64 of its new entries. The reader does not make sure of that.
   */
  lemma ResizeInv(env: Env, d: Disk)
    requires SoundFile(d)
    ensures Inv(env, Load(env, d)) <==>
            forall b: nat :: b < NEW_BUCKET_COUNT ==> |Selecting(env, d, b, |d.newInfos|)| <= NEW_BUCKET_SIZE
  {
    hide LinkOk, TriedOk, CountOk, Known, Load, Selecting, SoundFile, RefsPass;
    var s := Resized(env, d);
    if forall b: nat :: b < NEW_BUCKET_COUNT ==> |s.news[b]| <= NEW_BUCKET_SIZE {
      SizedNew(s);
      KnownFrom(env, s, NONE);
    }
    if Inv(env, s) {
      forall b: nat | b < NEW_BUCKET_COUNT ensures |s.news[b]| <= NEW_BUCKET_SIZE { NewSize(s, b, NONE); }
    }
  }

  lemma SizedNew(s: State)
    requires Shape(s) && RefsPass(s) && (forall b: nat :: b < NEW_BUCKET_COUNT ==> |s.news[b]| <= NEW_BUCKET_SIZE)
    requires forall id :: id in s.info && !s.info[id].inTried ==> s.info[id].refCount == 1
    ensures NewOk(s, NONE)
  {
    hide Count;
    forall id | id in s.info && !s.info[id].inTried ensures s.info[id].refCount == Count(s.news, id) {
      assert id in NewIds(s.info);
    }
    forall b, id | 0 <= b < NEW_BUCKET_COUNT && id in s.news[b] ensures id in s.info && !s.info[id].inTried {
      assert id in NewIds(s.info);
    }
    NewOkIntro(s, NONE);
  }

  /** The self-check does not notice: it accepts such a table whatever the sizes, if the times in it are sound. */
  lemma ResizePasses(env: Env, d: Disk)
    requires SoundFile(d)
    ensures Passes(Load(env, d)) <==> TimesOk(Load(env, d))
  {
    hide LinkOk, TriedOk, CountOk, Known, Load, Selecting, SoundFile, EntryCode, RefsPass, SlotsPass;
    var s := Resized(env, d);
    TriedSlotsPass(env, s);
    IdsPartition(s.info);
    LinkPos(s);
    PosSize(s.random, s.info);
    CountSum(s);
    forall id | id in s.info ensures EntryCode(s, id) == 0 <==> TimeOk(s.info[id]) {
      if s.info[id].inTried { TriedHome(env, s, id); }
      EntryTimes(s, id);
    }
  }

  lemma PosSize(random: seq<nat>, info: map<nat, Info>)
    requires PosOk(random, info)
    ensures |random| == |info|
  {
    forall id ensures id in Elems(random) <==> id in info.Keys {
    }
    assert Elems(random) == info.Keys && |info.Keys| == |info|;
    DistinctCard(random);
  }

  lemma CountSum(s: State)
    ensures CountOk(s) ==> s.nTried + s.nNew == |TriedIds(s.info)| + |NewIds(s.info)|
  {
  }

  lemma EntryTimes(s: State, id: nat)
    requires LinkOk(s) && id in s.info && s.info[id].refCount == if s.info[id].inTried then 0 else 1
    ensures EntryCode(s, id) == 0 <==> TimeOk(s.info[id])
  {
  }

  // ---------------------------------------------------------------- an over-full bucket

  /** `n` new entries with different addresses, and no stored buckets. */
  function CrowdedFile(key: Key, n: nat): Disk {
    Disk(key, seq(n, i requires 0 <= i < n => DiskInfo(Service(i, 0), {}, 0, 0, 0, 0)), [], [])
  }

  /** Under a constant hash all of them land in one bucket; from 65 on the table is inconsistent, and passes the check. */
  lemma CrowdedBucket(env: Env, key: Key, c: nat, n: nat)
    requires forall q :: env.hash(q) == c
    ensures var s := Load(env, CrowdedFile(key, n));
            |s.news[c % NEW_BUCKET_COUNT]| == n && (Inv(env, s) <==> n <= NEW_BUCKET_SIZE) && Passes(s)
  {
    hide Inv, Load, Passes, Selecting, BucketFor, CountOk, LinkOk, TriedOk, RefsPass, SoundFile, CrowdedFile;
    var d := CrowdedFile(key, n);
    CrowdedFacts(env, key, c, n);
    forall b: nat | b < NEW_BUCKET_COUNT
      ensures |Selecting(env, d, b, n)| == if b == c % NEW_BUCKET_COUNT then n else 0
    {
      CrowdedSelecting(env, d, b, c % NEW_BUCKET_COUNT, n);
    }
    ResizeInv(env, d);
    ResizePasses(env, d);
    var s := Resized(env, d);
    forall id | id in s.info ensures TimeOk(s.info[id]) {
      assert !FromFile(d, s.info[id].svc.ip, |d.triedInfos|);
    }
  }

  lemma CrowdedFacts(env: Env, key: Key, c: nat, n: nat)
    requires forall q :: env.hash(q) == c
    ensures var d := CrowdedFile(key, n);
            && SoundFile(d) && |d.newInfos| == n && d.triedInfos == [] && (forall j: nat :: j < n ==> d.newInfos[j].lastSuccess == 0)
            && forall j: nat :: j < n ==> BucketFor(env, d, j) == c % NEW_BUCKET_COUNT
  {
  }

  lemma CrowdedSelecting(env: Env, d: Disk, b: nat, home: nat, n: nat)
    requires n == |d.newInfos| && forall j: nat :: j < n ==> BucketFor(env, d, j) == home
    ensures |Selecting(env, d, b, n)| == if b == home then n else 0
  {
    hide BucketFor;
    if b == home {
      var q := seq(n, i requires 0 <= i < n => i);
      DistinctCard(q);
      forall j: nat ensures j in Elems(q) <==> j in Selecting(env, d, b, n) {
        if j < n { assert q[j] == j; }
      }
      assert Elems(q) == Selecting(env, d, b, n);
    } else {
      assert Selecting(env, d, b, n) == {};
    }
  }

  /** Adding to a bucket that is over its size makes it larger still: the size is only compared for equality. */
  lemma OverfullGrows(env: Env, s: State, id: nat, source: NetAddr, now: int, raw: nat -> nat)
    requires Known(s) && id in s.info
    requires var b := NewBucket(env, s.key, s.info[id].svc.ip, source); id !in s.news[b] && |s.news[b]| > NEW_BUCKET_SIZE
    ensures var b, t := NewBucket(env, s.key, s.info[id].svc.ip, source), PutInNew(env, s, id, source, now, raw);
            && t.news == s.news[b := s.news[b] + {id}] && |t.news[b]| == |s.news[b]| + 1 && t.info.Keys == s.info.Keys
  {
    hide NewBucket, ShrinkNew;
  }
}
