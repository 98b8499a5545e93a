/** Writing the address manager to disk and reading it back. */
module AddrDisk {
  // Only the entries and the new buckets are stored; ids, both maps, the random vector, the tried buckets and the
  // reference counts are rebuilt on reading.
  import opened Common
  import opened AddrState
  import opened AddrOps
  import opened AddrInv
  import opened AddrEffects

  /** The serialized part of an entry. */
  datatype DiskInfo = DiskInfo(svc: Service, services: set<nat>, time: nat, source: NetAddr, lastSuccess: int, attempts: int)

  /** The file: counts are the lengths of the parts; a bucket lists indices into `newInfos`. */
  datatype Disk = Disk(key: Key, newInfos: seq<DiskInfo>, triedInfos: seq<DiskInfo>, buckets: seq<seq<nat>>)

  function ToDisk(i: Info): DiskInfo {
    DiskInfo(i.svc, i.services, i.time, i.source, i.lastSuccess, i.attempts)
  }

  function FromDisk(x: DiskInfo, pos: nat): Info {
    Info(x.svc, x.services, x.time, x.source, x.lastSuccess, 0, x.attempts, 0, false, pos)
  }

  /** Position of an element. */
  function Index(q: seq<nat>, x: nat): (i: nat)
    requires x in q
    ensures i < |q| && q[i] == x
  {
    if q[0] == x then 0 else 1 + Index(q[1..], x)
  }

  // ---------------------------------------------------------------- writing

  function Infos(info: map<nat, Info>, ids: seq<nat>): seq<DiskInfo>
    requires forall i :: 0 <= i < |ids| ==> ids[i] in info
  {
    seq(|ids|, i requires 0 <= i < |ids| => ToDisk(info[ids[i]]))
  }

  /** New entries in the order in which they are written. */
  function NewList(s: State): seq<nat> { Ascending(NewIds(s.info)) }

  function TriedList(s: State): seq<nat> { Ascending(TriedIds(s.info)) }

  function Indices(list: seq<nat>, ids: seq<nat>): seq<nat>
    requires forall i :: 0 <= i < |ids| ==> ids[i] in list
  {
    seq(|ids|, i requires 0 <= i < |ids| => Index(list, ids[i]))
  }

  lemma ListMembers(s: State)
    ensures forall i :: 0 <= i < |NewList(s)| ==> NewList(s)[i] in s.info && !s.info[NewList(s)[i]].inTried
    ensures forall i :: 0 <= i < |TriedList(s)| ==> TriedList(s)[i] in s.info && s.info[TriedList(s)[i]].inTried
    ensures forall id :: id in s.info ==> id in (if s.info[id].inTried then TriedList(s) else NewList(s))
    ensures Increasing(NewList(s)) && Increasing(TriedList(s))
  {
    hide Ascending;
    AscendingElements(NewIds(s.info));
    AscendingElements(TriedIds(s.info));
    forall i | 0 <= i < |NewList(s)| ensures NewList(s)[i] in NewIds(s.info) {
      assert NewList(s)[i] in NewList(s);
    }
    forall i | 0 <= i < |TriedList(s)| ensures TriedList(s)[i] in TriedIds(s.info) {
      assert TriedList(s)[i] in TriedList(s);
    }
  }

  lemma BucketListed(s: State, b: nat)
    requires Shape(s) && NewOk(s, NONE) && b < NEW_BUCKET_COUNT
    ensures forall i :: 0 <= i < |Ascending(s.news[b])| ==> Ascending(s.news[b])[i] in NewList(s)
  {
    hide NewOk, Ascending;
    AscendingElements(s.news[b]);
    ListMembers(s);
    forall i | 0 <= i < |Ascending(s.news[b])| ensures Ascending(s.news[b])[i] in NewList(s) {
      assert Ascending(s.news[b])[i] in s.news[b];
      NewMember(s, b, Ascending(s.news[b])[i], NONE);
    }
  }

  function BucketIndices(s: State, b: nat): seq<nat>
    requires Shape(s) && NewOk(s, NONE) && b < NEW_BUCKET_COUNT
  {
    BucketListed(s, b);
    Indices(NewList(s), Ascending(s.news[b]))
  }

  function Save(s: State): Disk
    requires Shape(s) && NewOk(s, NONE)
  {
    ListMembers(s);
    Disk(s.key, Infos(s.info, NewList(s)), Infos(s.info, TriedList(s)),
         seq(NEW_BUCKET_COUNT, b requires 0 <= b < NEW_BUCKET_COUNT => BucketIndices(s, b)))
  }

  // ---------------------------------------------------------------- reading

  function Blank(d: Disk): State {
    InitState(d.key).(nTried := |d.triedInfos|, nNew := |d.newInfos|)
  }

  /** One new entry; its bucket is recomputed when the file was written with another number of buckets. */
  function WithNew(env: Env, s: State, id: nat, x: DiskInfo, fileBuckets: nat): (r: State)
    requires Shape(s)
    ensures Shape(r)
  {
    var i := FromDisk(x, |s.random|);
    var s1 := s.(info := s.info[id := i], addr := s.addr[i.svc.ip := id], random := s.random + [id]);
    if fileBuckets == NEW_BUCKET_COUNT then s1
    else
      var b := NewBucket(env, s.key, i.svc.ip, i.source);
      s1.(news := s1.news[b := s1.news[b] + {id}], info := s1.info[id := i.(refCount := i.refCount + 1)])
  }

  /** After `n` new entries have been read. */
  function LoadNew(env: Env, d: Disk, n: nat): (r: State)
    requires n <= |d.newInfos|
    ensures Shape(r)
  {
    if n == 0 then Blank(d) else WithNew(env, LoadNew(env, d, n - 1), n - 1, d.newInfos[n - 1], |d.buckets|)
  }

  datatype Loaded = Loaded(s: State, lost: nat)

  /** One tried entry, put into its bucket. */
  function WithTried(env: Env, s: State, x: DiskInfo): (r: State)
    requires Shape(s)
    ensures Shape(r)
  {
    var i := FromDisk(x, |s.random|).(inTried := true);
    var k := TriedBucket(env, s.key, i.svc);
    s.(idCount := s.idCount + 1, info := s.info[s.idCount := i], addr := s.addr[i.svc.ip := s.idCount],
       random := s.random + [s.idCount], tried := s.tried[k := s.tried[k] + [s.idCount]])
  }

  /** After `n` tried entries have been read; entries whose bucket is full are dropped. */
  function LoadTried(env: Env, d: Disk, n: nat): (r: Loaded)
    requires n <= |d.triedInfos|
    ensures Shape(r.s)
  {
    if n == 0 then Loaded(LoadNew(env, d, |d.newInfos|).(idCount := |d.newInfos|), 0)
    else
      var prev := LoadTried(env, d, n - 1);
      var x := d.triedInfos[n - 1];
      if |prev.s.tried[TriedBucket(env, prev.s.key, x.svc)]| < TRIED_BUCKET_SIZE
      then Loaded(WithTried(env, prev.s, x), prev.lost)
      else Loaded(prev.s, prev.lost + 1)
  }

  function DefaultInfo(): Info {
    Info(Service(0, 0), {}, 0, 0, 0, 0, 0, 0, false, 0)
  }

  /** One index of one bucket: look the entry up (creating a default one if there is none) and reference it. */
  function LoadIndex(s: State, b: nat, id: nat, use: bool): (r: State)
    requires Shape(s) && b < NEW_BUCKET_COUNT
    ensures Shape(r)
  {
    var i := if id in s.info then s.info[id] else DefaultInfo();
    if use && i.refCount < NEW_BUCKETS_PER_ADDRESS then
      s.(info := s.info[id := i.(refCount := i.refCount + 1)], news := s.news[b := s.news[b] + {id}])
    else s.(info := s.info[id := i])
  }

  /** The fields an index leaves alone. */
  lemma LoadIndexFields(s: State, b: nat, id: nat, use: bool)
    requires Shape(s) && b < NEW_BUCKET_COUNT
    ensures var t := LoadIndex(s, b, id, use); t == s.(info := t.info, news := t.news)
  {
    hide DefaultInfo;
  }

  function LoadBucket(s: State, b: nat, ids: seq<nat>, use: bool, n: nat): (r: State)
    requires Shape(s) && b < NEW_BUCKET_COUNT && n <= |ids|
    ensures Shape(r)
  {
    if n == 0 then s else LoadIndex(LoadBucket(s, b, ids, use, n - 1), b, ids[n - 1], use)
  }

  function LoadBuckets(s: State, buckets: seq<seq<nat>>, n: nat): (r: State)
    requires Shape(s) && n <= |buckets| <= NEW_BUCKET_COUNT
    ensures Shape(r)
  {
    if n == 0 then s
    else LoadBucket(LoadBuckets(s, buckets, n - 1), n - 1, buckets[n - 1], |buckets| == NEW_BUCKET_COUNT, |buckets[n - 1]|)
  }

  function Load(env: Env, d: Disk): (r: State)
    requires |d.buckets| <= NEW_BUCKET_COUNT
    ensures Shape(r)
  {
    var l := LoadTried(env, d, |d.triedInfos|);
    LoadBuckets(l.s.(nTried := l.s.nTried - l.lost), d.buckets, |d.buckets|)
  }

  // ---------------------------------------------------------------- reading: one step at a time

  lemma LoadNewStart(env: Env, d: Disk)
    ensures LoadNew(env, d, 0) == Blank(d)
  {
  }

  lemma LoadNewNext(env: Env, d: Disk, n: nat)
    requires n < |d.newInfos|
    ensures LoadNew(env, d, n + 1) == WithNew(env, LoadNew(env, d, n), n, d.newInfos[n], |d.buckets|)
  {
  }

  lemma LoadTriedStart(env: Env, d: Disk)
    ensures LoadTried(env, d, 0) == Loaded(LoadNew(env, d, |d.newInfos|).(idCount := |d.newInfos|), 0)
  {
  }

  lemma LoadTriedNext(env: Env, d: Disk, n: nat)
    requires n < |d.triedInfos|
    ensures var l := LoadTried(env, d, n);
            LoadTried(env, d, n + 1) == if |l.s.tried[TriedBucket(env, l.s.key, d.triedInfos[n].svc)]| < TRIED_BUCKET_SIZE
                                        then Loaded(WithTried(env, l.s, d.triedInfos[n]), l.lost)
                                        else Loaded(l.s, l.lost + 1)
  {
  }

  lemma LoadBucketsStart(s: State, buckets: seq<seq<nat>>)
    requires Shape(s) && |buckets| <= NEW_BUCKET_COUNT
    ensures LoadBuckets(s, buckets, 0) == s
  {
  }

  lemma LoadBucketsNext(s: State, buckets: seq<seq<nat>>, n: nat)
    requires Shape(s) && n < |buckets| <= NEW_BUCKET_COUNT
    ensures LoadBuckets(s, buckets, n + 1)
            == LoadBucket(LoadBuckets(s, buckets, n), n, buckets[n], |buckets| == NEW_BUCKET_COUNT, |buckets[n]|)
  {
  }

  lemma LoadBucketStart(s: State, b: nat, ids: seq<nat>, use: bool)
    requires Shape(s) && b < NEW_BUCKET_COUNT
    ensures LoadBucket(s, b, ids, use, 0) == s
  {
  }

  lemma LoadBucketNext(s: State, b: nat, ids: seq<nat>, use: bool, n: nat)
    requires Shape(s) && b < NEW_BUCKET_COUNT && 0 < n <= |ids|
    ensures LoadBucket(s, b, ids, use, n) == LoadIndex(LoadBucket(s, b, ids, use, n - 1), b, ids[n - 1], use)
  {
  }

  // ---------------------------------------------------------------- the renumbering

  /** `a` lists every id of `s` once; entry `a[j]` of `s` is entry `j` of `t`. */
  ghost predicate Numbering(s: State, a: seq<nat>) {
    Distinct(a) && (forall id :: id in a <==> id in s.info)
  }

  /** Everything `t` must agree on with `s`, up to the renaming `a`, slot order and the unsaved last-try time. */
  ghost predicate Renamed(s: State, t: State, a: seq<nat>) {
    && Shape(s) && Shape(t) && Numbering(s, a)
    && t.key == s.key && t.nTried == s.nTried && t.nNew == s.nNew && t.idCount == |a| && |t.random| == |a|
    && (forall j: nat :: j in t.info <==> j < |a|)
    && (forall j :: 0 <= j < |a| ==> t.info[j] == s.info[a[j]].(lastTry := 0, randomPos := t.info[j].randomPos))
    && t.addr.Keys == s.addr.Keys
    && (forall ip :: ip in t.addr ==> t.addr[ip] < |a| && a[t.addr[ip]] == s.addr[ip])
    && (forall k :: 0 <= k < TRIED_BUCKET_COUNT ==> |t.tried[k]| == |s.tried[k]|)
    && (forall k, j: nat {:trigger j in t.tried[k]} {:trigger a[j] in s.tried[k]} ::
          0 <= k < TRIED_BUCKET_COUNT ==> (j in t.tried[k] <==> j < |a| && a[j] in s.tried[k]))
    && (forall b, j: nat {:trigger j in t.news[b]} {:trigger a[j] in s.news[b]} ::
          0 <= b < NEW_BUCKET_COUNT ==> (j in t.news[b] <==> j < |a| && a[j] in s.news[b]))
  }

  /** New entries first, then tried ones, each in ascending order of their old ids. */
  function FileOrder(s: State): seq<nat> {
    NewList(s) + TriedList(s)
  }

  lemma FileOrderNumbers(s: State)
    ensures Numbering(s, FileOrder(s))
    ensures forall j :: 0 <= j < |FileOrder(s)| ==> FileOrder(s)[j] in s.info
    ensures forall j :: 0 <= j < |FileOrder(s)| ==> (s.info[FileOrder(s)[j]].inTried <==> j >= |NewList(s)|)
  {
    hide NewList, TriedList;
    ListMembers(s);
    var a := FileOrder(s);
    forall j | 0 <= j < |a| ensures a[j] in s.info && (s.info[a[j]].inTried <==> j >= |NewList(s)|) {
      if j < |NewList(s)| { assert a[j] == NewList(s)[j]; } else { assert a[j] == TriedList(s)[j - |NewList(s)|]; }
    }
    forall i, j | 0 <= i < j < |a| ensures a[i] != a[j] {
      if j < |NewList(s)| {
        assert a[i] == NewList(s)[i] && a[j] == NewList(s)[j];
      } else if i >= |NewList(s)| {
        assert a[i] == TriedList(s)[i - |NewList(s)|] && a[j] == TriedList(s)[j - |NewList(s)|];
      }
    }
    forall id | id in s.info ensures id in a {
    }
  }

  lemma ListSizes(s: State)
    requires CountOk(s)
    ensures |NewList(s)| == s.nNew && |TriedList(s)| == s.nTried
  {
  }

  // ---------------------------------------------------------------- reading back the entries

  /** The entries and indexes after the first `n` entries of the file order have been read back. */
  ghost predicate ReadBack(s: State, t: State, a: seq<nat>, n: nat) {
    && n <= |a| && (forall j :: 0 <= j < |a| ==> a[j] in s.info)
    && |t.random| == n && (forall j :: 0 <= j < n ==> t.random[j] == j)
    && (forall j: nat :: j in t.info <==> j < n)
    && (forall j :: 0 <= j < n ==> t.info[j] == s.info[a[j]].(lastTry := 0, refCount := 0, randomPos := j))
    && (forall ip :: ip in t.addr ==> t.addr[ip] < n && s.info[a[t.addr[ip]]].svc.ip == ip)
    && (forall j :: 0 <= j < n ==> s.info[a[j]].svc.ip in t.addr)
  }

  lemma ReadBackCounted(s: State, t: State, a: seq<nat>, n: nat)
    requires ReadBack(s, t, a, n)
    ensures |t.random| == n
  {
  }

  lemma LinkInjective(s: State, a: seq<nat>, i: nat, j: nat)
    requires LinkOk(s) && Numbering(s, a) && i < j < |a| && a[i] in s.info && a[j] in s.info
    ensures s.info[a[i]].svc.ip != s.info[a[j]].svc.ip
  {
  }

  lemma ReadBackStep(s: State, t: State, u: State, a: seq<nat>, n: nat)
    requires LinkOk(s) && Numbering(s, a) && ReadBack(s, t, a, n) && n < |a|
    requires u.info == t.info[n := s.info[a[n]].(lastTry := 0, refCount := 0, randomPos := n)]
    requires u.addr == t.addr[s.info[a[n]].svc.ip := n] && u.random == t.random + [n]
    ensures ReadBack(s, u, a, n + 1)
  {
    hide LinkOk, Numbering;
    forall j | 0 <= j < n ensures s.info[a[j]].svc.ip != s.info[a[n]].svc.ip {
      LinkInjective(s, a, j, n);
    }
  }

  /** What a saved file holds. */
  lemma SavedSizes(s: State)
    requires Shape(s) && NewOk(s, NONE)
    ensures Save(s).key == s.key && |Save(s).buckets| == NEW_BUCKET_COUNT
    ensures |Save(s).newInfos| == |NewList(s)| && |Save(s).triedInfos| == |TriedList(s)|
  {
    hide NewOk, NewList, TriedList, BucketIndices;
  }

  lemma SavedNew(s: State, j: nat)
    requires Shape(s) && NewOk(s, NONE) && j < |NewList(s)|
    ensures j < |FileOrder(s)| && FileOrder(s)[j] in s.info
    ensures j < |Save(s).newInfos| && Save(s).newInfos[j] == ToDisk(s.info[FileOrder(s)[j]])
    ensures !s.info[FileOrder(s)[j]].inTried
  {
    hide NewOk, NewList, TriedList, BucketIndices;
    ListMembers(s);
  }

  lemma SavedTried(s: State, j: nat)
    requires Shape(s) && NewOk(s, NONE) && j < |TriedList(s)|
    ensures |NewList(s)| + j < |FileOrder(s)| && FileOrder(s)[|NewList(s)| + j] in s.info
    ensures j < |Save(s).triedInfos| && Save(s).triedInfos[j] == ToDisk(s.info[FileOrder(s)[|NewList(s)| + j]])
    ensures s.info[FileOrder(s)[|NewList(s)| + j]].inTried
  {
    hide NewOk, NewList, TriedList, BucketIndices;
    ListMembers(s);
  }

  lemma BlankReadBack(s: State, d: Disk, a: seq<nat>)
    requires forall j :: 0 <= j < |a| ==> a[j] in s.info
    ensures ReadBack(s, Blank(d), a, 0)
  {
  }

  /** One new entry read from a file with the current number of buckets. */
  lemma WithNewFields(env: Env, s: State, id: nat, x: DiskInfo)
    requires Shape(s)
    ensures var u := WithNew(env, s, id, x, NEW_BUCKET_COUNT);
            && u.info == s.info[id := FromDisk(x, |s.random|)] && u.addr == s.addr[x.svc.ip := id] && u.random == s.random + [id]
            && u == s.(info := u.info, addr := u.addr, random := u.random)
  {
  }

  /** A new entry comes back from the file as it was, but for its last-try time and its references. */
  lemma FromSaved(i: Info, pos: nat)
    requires !i.inTried
    ensures ToDisk(i).svc == i.svc && FromDisk(ToDisk(i), pos) == i.(lastTry := 0, refCount := 0, randomPos := pos)
  {
  }

  lemma {:induction false} LoadNewBack(env: Env, s: State, n: nat)
    requires Shape(s) && LinkOk(s) && NewOk(s, NONE) && n <= |NewList(s)|
    ensures |Save(s).newInfos| == |NewList(s)|
    ensures var t := LoadNew(env, Save(s), n);
            && ReadBack(s, t, FileOrder(s), n)
            && t == Blank(Save(s)).(info := t.info, addr := t.addr, random := t.random)
  {
    hide LinkOk, NewOk, NewList, TriedList, FileOrder, BucketIndices, Save, Blank, LoadNew, WithNew, Numbering, FromDisk, ToDisk;
    FileOrderNumbers(s);
    SavedSizes(s);
    var d := Save(s);
    var a := FileOrder(s);
    if n == 0 {
      LoadNewStart(env, d);
      BlankReadBack(s, d, a);
    } else {
      LoadNewBack(env, s, n - 1);
      var t := LoadNew(env, d, n - 1);
      SavedNew(s, n - 1);
      LoadNewNext(env, d, n - 1);
      WithNewFields(env, t, n - 1, d.newInfos[n - 1]);
      FromSaved(s.info[a[n - 1]], n - 1);
      ReadBackCounted(s, t, a, n - 1);
      ReadBackStep(s, t, LoadNew(env, d, n), a, n - 1);
    }
  }

  /** The tried buckets after `n` entries of the file order have been read back. */
  ghost predicate SlotsBack(s: State, t: State, a: seq<nat>, n: nat)
    requires Shape(s) && Shape(t) && n <= |a|
  {
    && (forall k, j: nat {:trigger j in t.tried[k]} {:trigger a[j] in s.tried[k]} ::
          0 <= k < TRIED_BUCKET_COUNT ==> (j in t.tried[k] <==> j < n && a[j] in s.tried[k]))
    && (forall k :: 0 <= k < TRIED_BUCKET_COUNT ==> Distinct(t.tried[k]))
  }

  /** Slots read back so far, plus one more of the same bucket, fit where they came from. */
  lemma SlotsFit(s: State, q: seq<nat>, a: seq<nat>, k: nat)
    requires Shape(s) && k < TRIED_BUCKET_COUNT && Distinct(a) && Distinct(q) && Distinct(s.tried[k])
    requires forall j :: j in q ==> j < |a| && a[j] in s.tried[k]
    ensures |q| <= |s.tried[k]|
  {
    var names := seq(|q|, i requires 0 <= i < |q| => assert q[i] in q; a[q[i]]);
    forall i, j | 0 <= i < j < |names| ensures names[i] != names[j] {
      assert q[i] in q && q[j] in q;
    }
    DistinctCard(names);
    forall x | x in Elems(names) ensures x in s.tried[k] {
      var i :| 0 <= i < |names| && names[i] == x;
      assert q[i] in q;
    }
    SetFromSeqBound(Elems(names), s.tried[k]);
  }

  lemma SlotsStep(env: Env, s: State, t: State, u: State, a: seq<nat>, n: nat, k: nat)
    requires Shape(s) && TriedOk(env, s) && Numbering(s, a) && Shape(t) && Shape(u) && n < |a| && a[n] in s.info
    requires s.info[a[n]].inTried && k == Home(env, s, a[n]) && SlotsBack(s, t, a, n)
    requires u.tried == t.tried[k := t.tried[k] + [n]]
    ensures SlotsBack(s, u, a, n + 1)
  {
    hide TriedOk;
    TriedHome(env, s, a[n]);
    forall k', j: nat | 0 <= k' < TRIED_BUCKET_COUNT ensures j in u.tried[k'] <==> j < n + 1 && a[j] in s.tried[k'] {
      if j == n {
        if a[n] in s.tried[k'] { TriedBucketHome(env, s, k', a[n]); }
        if k' == k { assert u.tried[k][|t.tried[k]|] == n; }
        assert a[n] in s.tried[k'] <==> k == k';
        assert n !in t.tried[k'];
        assert n in u.tried[k'] <==> k == k';
      } else {
        assert j in u.tried[k'] <==> j in t.tried[k'];
        assert j in t.tried[k'] <==> j < n && a[j] in s.tried[k'];
      }
    }
    assert Distinct(u.tried[k]) by {
      assert n !in t.tried[k];
    }
  }

  lemma SlotsRoom(env: Env, s: State, t: State, a: seq<nat>, n: nat, k: nat)
    requires Shape(s) && TriedOk(env, s) && Numbering(s, a) && Shape(t) && n < |a| && a[n] in s.info
    requires s.info[a[n]].inTried && k == Home(env, s, a[n]) && SlotsBack(s, t, a, n)
    ensures |t.tried[k]| < TRIED_BUCKET_SIZE
  {
    hide TriedOk;
    TriedHome(env, s, a[n]);
    TriedSize(env, s, k);
    TriedDistinct(env, s, k);
    var q := t.tried[k] + [n];
    assert n !in t.tried[k];
    assert Distinct(q);
    assert a[n] in s.tried[k];
    forall j | j in q ensures j < |a| && a[j] in s.tried[k] {
      assert j == n || j in t.tried[k];
      if j != n {
        assert j in t.tried[k];
        assert j < n;
        assert a[j] in s.tried[k];
      }
    }
    SlotsFit(s, q, a, k);
  }

  lemma TriedDistinct(env: Env, s: State, k: nat)
    requires Shape(s) && TriedOk(env, s) && k < TRIED_BUCKET_COUNT
    ensures Distinct(s.tried[k])
  {
  }

  /** Reading one tried entry back, when all entries before it in the file order are back. */
  lemma LoadTriedStep(env: Env, s: State, d: Disk, a: seq<nat>, n: nat, m: nat)
    requires Shape(s) && LinkOk(s) && TriedOk(env, s) && Numbering(s, a) && m < |a| && a[m] in s.info && s.info[a[m]].inTried
    requires 0 < n <= |d.triedInfos| && d.triedInfos[n - 1] == ToDisk(s.info[a[m]])
    requires var prev := LoadTried(env, d, n - 1);
             ReadBack(s, prev.s, a, m) && SlotsBack(s, prev.s, a, m) && prev.s.idCount == m && prev.s.key == s.key
    ensures var prev, l := LoadTried(env, d, n - 1), LoadTried(env, d, n);
            && l.lost == prev.lost && ReadBack(s, l.s, a, m + 1) && SlotsBack(s, l.s, a, m + 1)
            && l.s == prev.s.(info := l.s.info, addr := l.s.addr, random := l.s.random, tried := l.s.tried, idCount := m + 1)
  {
    hide LinkOk, TriedOk, Numbering, SlotsBack;
    var t := LoadTried(env, d, n - 1).s;
    var k := Home(env, s, a[m]);
    SlotsRoom(env, s, t, a, m, k);
    TriedHome(env, s, a[m]);
    var u := LoadTried(env, d, n).s;
    assert u.tried == t.tried[k := t.tried[k] + [m]];
    ReadBackStep(s, t, u, a, m);
    SlotsStep(env, s, t, u, a, m, k);
  }

  /** No tried entry is lost, and each returns to its bucket. */
  lemma {:induction false} LoadTriedBack(env: Env, s: State, n: nat)
    requires Inv(env, s) && n <= |TriedList(s)|
    ensures |Save(s).triedInfos| == |TriedList(s)|
    ensures var l := LoadTried(env, Save(s), n);
            && l.lost == 0
            && ReadBack(s, l.s, FileOrder(s), |NewList(s)| + n)
            && SlotsBack(s, l.s, FileOrder(s), |NewList(s)| + n)
            && l.s == Blank(Save(s)).(info := l.s.info, addr := l.s.addr, random := l.s.random, tried := l.s.tried,
                                      idCount := |NewList(s)| + n)
  {
    hide LinkOk, TriedOk, NewOk, CountOk, Known, NewList, TriedList, FileOrder, BucketIndices, SlotsBack, ReadBack, Numbering,
      Save, Blank, LoadNew, LoadTried, ToDisk;
    KnownShape(s);
    FileOrderNumbers(s);
    SavedSizes(s);
    var d := Save(s);
    var a := FileOrder(s);
    if n == 0 {
      LoadNewBack(env, s, |NewList(s)|);
      LoadTriedStart(env, d);
      BlankTried(d);
      NoSlotsYet(env, s, LoadTried(env, d, 0).s);
      ReadBackCount(s, LoadNew(env, d, |NewList(s)|), LoadTried(env, d, 0).s, a, |NewList(s)|);
    } else {
      LoadTriedBack(env, s, n - 1);
      SavedTried(s, n - 1);
      BlankTried(d);
      LoadTriedStep(env, s, d, a, n, |NewList(s)| + n - 1);
    }
  }

  lemma BlankTried(d: Disk)
    ensures Blank(d).key == d.key && forall k :: 0 <= k < TRIED_BUCKET_COUNT ==> Blank(d).tried[k] == []
  {
  }

  lemma ReadBackCount(s: State, t: State, u: State, a: seq<nat>, n: nat)
    requires ReadBack(s, t, a, n) && u.info == t.info && u.addr == t.addr && u.random == t.random
    ensures ReadBack(s, u, a, n)
  {
  }

  lemma NoSlotsYet(env: Env, s: State, t: State)
    requires Shape(s) && TriedOk(env, s) && Shape(t) && forall k :: 0 <= k < TRIED_BUCKET_COUNT ==> t.tried[k] == []
    ensures SlotsBack(s, t, FileOrder(s), |NewList(s)|)
  {
    hide TriedOk, NewList, TriedList;
    FileOrderNumbers(s);
    forall k, j | 0 <= k < TRIED_BUCKET_COUNT && 0 <= j < |NewList(s)| ensures FileOrder(s)[j] !in s.tried[k] {
      if FileOrder(s)[j] in s.tried[k] { TriedBucketHome(env, s, k, FileOrder(s)[j]); }
    }
  }

  // ---------------------------------------------------------------- reading back the new buckets

  /** Where an entry stands in the file. */
  function Rebuilt(i: Info, pos: nat, refs: nat): Info {
    i.(lastTry := 0, randomPos := pos, refCount := refs)
  }

  /** Reference counts rebuilt so far equal the number of buckets the entry is already back in. */
  ghost predicate RefsBack(s: State, t: State, a: seq<nat>, w: nat)
    requires Shape(s)
  {
    && Shape(t) && w <= |a| && (forall j :: 0 <= j < |a| ==> a[j] in s.info)
    && (forall j: nat :: j in t.info <==> j < |a|)
    && (forall j :: 0 <= j < |a| ==> t.info[j] == Rebuilt(s.info[a[j]], j, if j < w then Count(t.news, j) else 0))
    && (forall b, j: nat {:trigger j in t.news[b]} :: 0 <= b < NEW_BUCKET_COUNT && j in t.news[b] ==> j < w && a[j] in s.news[b])
  }

  /** An entry still missing from a bucket has a reference to spare. */
  lemma ReferenceToSpare(s: State, t: State, a: seq<nat>, w: nat, b: nat, j: nat)
    requires Shape(s) && NewOk(s, NONE) && RefsBack(s, t, a, w) && b < NEW_BUCKET_COUNT && j < w
    requires a[j] in s.news[b] && j !in t.news[b]
    ensures Count(t.news, j) < NEW_BUCKETS_PER_ADDRESS
  {
    NewMember(s, b, a[j], NONE);
    forall x | x in BucketsOf(t.news, j) + {b} ensures x in BucketsOf(s.news, a[j]) {
    }
    SubsetCard(BucketsOf(t.news, j) + {b}, BucketsOf(s.news, a[j]));
  }

  lemma LoadIndexBack(s: State, t: State, a: seq<nat>, w: nat, b: nat, j: nat)
    requires Shape(s) && NewOk(s, NONE) && RefsBack(s, t, a, w) && b < NEW_BUCKET_COUNT && j < w
    requires a[j] in s.news[b] && j !in t.news[b]
    ensures var u := LoadIndex(t, b, j, true);
            && RefsBack(s, u, a, w) && u.news == t.news[b := t.news[b] + {j}]
            && u == t.(info := u.info, news := u.news)
  {
    hide NewOk, Count, LoadIndex;
    ReferenceToSpare(s, t, a, w, b, j);
    var u := LoadIndex(t, b, j, true);
    LoadIndexAdds(t, b, j);
    forall x | 0 <= x < |a| ensures u.info[x] == Rebuilt(s.info[a[x]], x, if x < w then Count(u.news, x) else 0) {
      CountInsert(t.news, b, j, x);
    }
  }

  lemma LoadIndexAdds(t: State, b: nat, j: nat)
    requires Shape(t) && b < NEW_BUCKET_COUNT && j in t.info && t.info[j].refCount < NEW_BUCKETS_PER_ADDRESS
    ensures LoadIndex(t, b, j, true)
            == t.(info := t.info[j := t.info[j].(refCount := t.info[j].refCount + 1)], news := t.news[b := t.news[b] + {j}])
  {
  }

  lemma BucketIndexNames(s: State, b: nat, i: nat)
    requires Shape(s) && NewOk(s, NONE) && b < NEW_BUCKET_COUNT && i < |Ascending(s.news[b])|
    ensures |BucketIndices(s, b)| == |Ascending(s.news[b])| == |s.news[b]|
    ensures BucketIndices(s, b)[i] < |NewList(s)| && NewList(s)[BucketIndices(s, b)[i]] == Ascending(s.news[b])[i]
    ensures Ascending(s.news[b])[i] in s.news[b]
  {
    hide NewOk, NewList, Ascending;
    BucketListed(s, b);
    AscendingElements(s.news[b]);
    assert Ascending(s.news[b])[i] in Ascending(s.news[b]);
  }

  /** One bucket, index by index; the indices are pairwise different, so each finds a new place. */
  lemma {:induction false} LoadBucketBack(s: State, t: State, b: nat, n: nat)
    requires Shape(s) && NewOk(s, NONE) && b < NEW_BUCKET_COUNT && n <= |s.news[b]|
    requires RefsBack(s, t, FileOrder(s), |NewList(s)|) && t.news[b] == {}
    ensures |BucketIndices(s, b)| == |s.news[b]|
    ensures var u := LoadBucket(t, b, BucketIndices(s, b), true, n);
            && RefsBack(s, u, FileOrder(s), |NewList(s)|)
            && u.news == t.news[b := Elems(BucketIndices(s, b)[..n])]
            && u == t.(info := u.info, news := u.news)
  {
    hide NewOk, NewList, TriedList, Ascending, RefsBack, LoadIndex, BucketIndices;
    var q := BucketIndices(s, b);
    BucketIndicesSize(s, b);
    RefsShape(s, t, FileOrder(s), |NewList(s)|);
    if n == 0 {
      assert Elems(q[..0]) == {};
      assert t.news[b := Elems(q[..0])] == t.news;
    } else {
      LoadBucketBack(s, t, b, n - 1);
      var prev := LoadBucket(t, b, q, true, n - 1);
      var j := q[n - 1];
      BucketIndexNames(s, b, n - 1);
      BucketIndicesDistinct(s, b);
      assert j !in q[..n - 1];
      LoadIndexBack(s, prev, FileOrder(s), |NewList(s)|, b, j);
      assert q[..n] == q[..n - 1] + [j];
      assert Elems(q[..n]) == Elems(q[..n - 1]) + {j};
    }
  }

  lemma BucketIndicesSize(s: State, b: nat)
    requires Shape(s) && NewOk(s, NONE) && b < NEW_BUCKET_COUNT
    ensures |BucketIndices(s, b)| == |s.news[b]|
  {
  }

  lemma BucketIndicesDistinct(s: State, b: nat)
    requires Shape(s) && NewOk(s, NONE) && b < NEW_BUCKET_COUNT
    ensures Distinct(BucketIndices(s, b))
  {
    hide NewOk, NewList, Ascending, BucketIndices;
    BucketIndicesSize(s, b);
    AscendingElements(s.news[b]);
    var q := BucketIndices(s, b);
    forall i, j | 0 <= i < j < |q| ensures q[i] != q[j] {
      BucketIndexNames(s, b, i);
      BucketIndexNames(s, b, j);
    }
  }

  /** The bucket of `t` that stands for bucket `b` of `s`. */
  lemma BucketBack(s: State, b: nat, j: nat)
    requires Shape(s) && NewOk(s, NONE) && b < NEW_BUCKET_COUNT
    ensures j in Elems(BucketIndices(s, b)) <==> j < |FileOrder(s)| && FileOrder(s)[j] in s.news[b]
  {
    hide NewOk, NewList, TriedList, Ascending, BucketIndices;
    var q, a := BucketIndices(s, b), FileOrder(s);
    BucketIndicesSize(s, b);
    AscendingElements(s.news[b]);
    FileOrderNumbers(s);
    if j in Elems(q) {
      var i :| 0 <= i < |q| && q[i] == j;
      BucketIndexNames(s, b, i);
      assert a[j] == NewList(s)[j];
    }
    if j < |a| && a[j] in s.news[b] {
      var i :| 0 <= i < |Ascending(s.news[b])| && Ascending(s.news[b])[i] == a[j];
      BucketIndexNames(s, b, i);
      assert a[q[i]] == NewList(s)[q[i]];
      assert q[i] == j;
    }
  }

  lemma {:induction false} LoadBucketsBack(s: State, t: State, n: nat)
    requires Shape(s) && NewOk(s, NONE) && n <= NEW_BUCKET_COUNT
    requires RefsBack(s, t, FileOrder(s), |NewList(s)|) && forall b :: 0 <= b < NEW_BUCKET_COUNT ==> t.news[b] == {}
    ensures |Save(s).buckets| == NEW_BUCKET_COUNT
    ensures var u := LoadBuckets(t, Save(s).buckets, n);
            && RefsBack(s, u, FileOrder(s), |NewList(s)|)
            && (forall b :: 0 <= b < n ==> u.news[b] == Elems(BucketIndices(s, b)))
            && (forall b :: n <= b < NEW_BUCKET_COUNT ==> u.news[b] == {})
            && u == t.(info := u.info, news := u.news)
  {
    hide NewOk, NewList, TriedList, RefsBack, LoadBucket, BucketIndices;
    RefsShape(s, t, FileOrder(s), |NewList(s)|);
    if n > 0 {
      LoadBucketsBack(s, t, n - 1);
      var prev := LoadBuckets(t, Save(s).buckets, n - 1);
      var q := BucketIndices(s, n - 1);
      RefsShape(s, prev, FileOrder(s), |NewList(s)|);
      LoadBucketBack(s, prev, n - 1, |s.news[n - 1]|);
      assert q[..|s.news[n - 1]|] == q;
    }
  }

  lemma RefsShape(s: State, t: State, a: seq<nat>, w: nat)
    requires Shape(s) && RefsBack(s, t, a, w)
    ensures Shape(t)
  {
  }

  // ---------------------------------------------------------------- the round trip

  lemma ReadBackRefs(s: State, t: State, u: State, a: seq<nat>, w: nat)
    requires Shape(s) && ReadBack(s, t, a, |a|) && w <= |a| && Shape(u) && u.info == t.info
    requires forall b :: 0 <= b < NEW_BUCKET_COUNT ==> u.news[b] == {}
    ensures RefsBack(s, u, a, w)
  {
    forall j: nat ensures BucketsOf(u.news, j) == {} {
    }
  }

  /** Once every bucket is back, the rebuilt reference counts are the old ones. */
  lemma RefsComplete(env: Env, s: State, t: State, a: seq<nat>, w: nat, j: nat)
    requires Shape(s) && TriedOk(env, s) && NewOk(s, NONE) && RefsBack(s, t, a, w) && j < |a|
    requires s.info[a[j]].inTried <==> j >= w
    requires forall b :: 0 <= b < NEW_BUCKET_COUNT ==> (j in t.news[b] <==> a[j] in s.news[b])
    ensures t.info[j] == s.info[a[j]].(lastTry := 0, randomPos := j)
  {
    if j < w {
      NewRef(s, a[j], NONE);
      assert BucketsOf(t.news, j) == BucketsOf(s.news, a[j]);
    } else {
      TriedHome(env, s, a[j]);
    }
  }

  lemma SlotsComplete(s: State, t: State, a: seq<nat>, k: nat)
    requires Shape(s) && Shape(t) && Numbering(s, a) && SlotsBack(s, t, a, |a|) && k < TRIED_BUCKET_COUNT
    requires Distinct(s.tried[k]) && forall id :: id in s.tried[k] ==> id in s.info
    ensures |t.tried[k]| == |s.tried[k]|
  {
    var q := t.tried[k];
    var names := seq(|q|, i requires 0 <= i < |q| => assert q[i] in q; a[q[i]]);
    forall i, j | 0 <= i < j < |names| ensures names[i] != names[j] {
      assert q[i] in q && q[j] in q;
    }
    DistinctCard(names);
    DistinctCard(s.tried[k]);
    forall x ensures x in Elems(names) <==> x in s.tried[k] {
      if x in Elems(names) {
        var i :| 0 <= i < |names| && names[i] == x;
        assert q[i] in q;
      }
      if x in s.tried[k] {
        var j :| 0 <= j < |a| && a[j] == x;
        var i :| 0 <= i < |q| && q[i] == j;
        assert names[i] == x;
      }
    }
    assert Elems(names) == Elems(s.tried[k]);
  }

  /** Positions follow the file order after reading. */
  ghost predicate InOrder(t: State) {
    forall j :: 0 <= j < |t.random| ==> t.random[j] == j && j in t.info && t.info[j].randomPos == j
  }

  lemma AddrRenamed(s: State, t: State, a: seq<nat>)
    requires LinkOk(s) && Numbering(s, a) && ReadBack(s, t, a, |a|)
    ensures t.addr.Keys == s.addr.Keys
    ensures forall ip :: ip in t.addr ==> t.addr[ip] < |a| && ip in s.addr && a[t.addr[ip]] == s.addr[ip]
  {
    hide LinkOk, Numbering, ReadBack;
    forall ip | ip in s.addr ensures ip in t.addr {
      AddrIndexed(s, ip);
      var j := NumberOf(s, a, s.addr[ip]);
      ReadBackHas(s, t, a, j);
    }
    forall ip | ip in t.addr ensures t.addr[ip] < |a| && ip in s.addr && a[t.addr[ip]] == s.addr[ip] {
      ReadBackAddr(s, t, a, ip);
      InfoIndexed(s, a[t.addr[ip]]);
    }
  }

  lemma NumberOf(s: State, a: seq<nat>, id: nat) returns (j: nat)
    requires Numbering(s, a) && id in s.info
    ensures j < |a| && a[j] == id
  {
    assert id in a;
    j :| 0 <= j < |a| && a[j] == id;
  }

  lemma ReadBackHas(s: State, t: State, a: seq<nat>, j: nat)
    requires ReadBack(s, t, a, |a|) && j < |a|
    ensures a[j] in s.info && s.info[a[j]].svc.ip in t.addr
  {
  }

  lemma ReadBackAddr(s: State, t: State, a: seq<nat>, ip: NetAddr)
    requires ReadBack(s, t, a, |a|) && ip in t.addr
    ensures t.addr[ip] < |a| && a[t.addr[ip]] in s.info && s.info[a[t.addr[ip]]].svc.ip == ip
  {
  }

  /** The state before the new buckets are read: every entry, map and tried slot is already back. */
  lemma EntriesBack(env: Env, s: State) returns (t: State)
    requires Inv(env, s)
    ensures t == LoadTried(env, Save(s), |Save(s).triedInfos|).s && |Save(s).triedInfos| == |TriedList(s)|
    ensures LoadTried(env, Save(s), |Save(s).triedInfos|).lost == 0
    ensures |FileOrder(s)| == |NewList(s)| + |TriedList(s)|
    ensures Shape(t) && ReadBack(s, t, FileOrder(s), |FileOrder(s)|) && SlotsBack(s, t, FileOrder(s), |FileOrder(s)|)
    ensures t.key == s.key && t.nTried == s.nTried && t.nNew == s.nNew && t.idCount == |FileOrder(s)|
    ensures forall b :: 0 <= b < NEW_BUCKET_COUNT ==> t.news[b] == {}
  {
    hide LinkOk, TriedOk, NewOk, CountOk, Known, NewList, TriedList, BucketIndices, SlotsBack, ReadBack;
    KnownShape(s);
    LoadTriedBack(env, s, |TriedList(s)|);
    LoadNewBack(env, s, 0);
    ListSizes(s);
    t := LoadTried(env, Save(s), |TriedList(s)|).s;
  }

  /**
   Writing a consistent table and reading the file back with the same key restores it up to renaming ids, the order of
   slots inside tried buckets, the order of the random vector and the unsaved last-try times. No tried entry is lost.
   */
  lemma ReloadRenames(env: Env, s: State)
    requires Inv(env, s)
    ensures |Save(s).buckets| == NEW_BUCKET_COUNT
    ensures Renamed(s, Load(env, Save(s)), FileOrder(s)) && InOrder(Load(env, Save(s)))
    ensures forall k :: 0 <= k < TRIED_BUCKET_COUNT ==> Distinct(Load(env, Save(s)).tried[k])
    ensures LoadTried(env, Save(s), |Save(s).triedInfos|).lost == 0
  {
    hide LinkOk, TriedOk, NewOk, CountOk, Known, NewList, TriedList, BucketIndices, SlotsBack, ReadBack, RefsBack, Numbering,
      LoadTried, LoadBuckets;
    KnownShape(s);
    FileOrderNumbers(s);
    var a, w := FileOrder(s), |NewList(s)|;
    var t := EntriesBack(env, s);
    ReadBackRefs(s, t, t, a, w);
    LoadBucketsBack(s, t, NEW_BUCKET_COUNT);
    var u := Load(env, Save(s));
    assert u == LoadBuckets(t, Save(s).buckets, NEW_BUCKET_COUNT);
    RefsKeys(s, u, a, w);
    AddrRenamed(s, t, a);
    SlotsBackOn(s, t, u, a);
    forall k | 0 <= k < TRIED_BUCKET_COUNT ensures |u.tried[k]| == |s.tried[k]| {
      TriedDistinct(env, s, k);
      TriedKnown(s, k);
      SlotsComplete(s, t, a, k);
    }
    NewsBackOn(s, u);
    forall j | 0 <= j < |a| ensures j in u.info && u.info[j] == s.info[a[j]].(lastTry := 0, randomPos := j) {
      RefsComplete(env, s, u, a, w, j);
    }
    RandomInOrder(s, t, a);
  }

  lemma SlotsBackOn(s: State, t: State, u: State, a: seq<nat>)
    requires Shape(s) && Shape(t) && SlotsBack(s, t, a, |a|) && Shape(u) && u.tried == t.tried
    ensures forall k, j: nat {:trigger j in u.tried[k]} {:trigger a[j] in s.tried[k]} ::
              0 <= k < TRIED_BUCKET_COUNT ==> (j in u.tried[k] <==> j < |a| && a[j] in s.tried[k])
    ensures forall k :: 0 <= k < TRIED_BUCKET_COUNT ==> Distinct(u.tried[k])
  {
  }

  lemma NewsBackOn(s: State, u: State)
    requires Shape(s) && NewOk(s, NONE) && Shape(u)
    requires forall b :: 0 <= b < NEW_BUCKET_COUNT ==> u.news[b] == Elems(BucketIndices(s, b))
    ensures var a := FileOrder(s);
            forall b, j: nat {:trigger j in u.news[b]} {:trigger a[j] in s.news[b]} ::
              0 <= b < NEW_BUCKET_COUNT ==> (j in u.news[b] <==> j < |a| && a[j] in s.news[b])
  {
    hide NewOk, BucketIndices, FileOrder;
    forall b, j: nat | 0 <= b < NEW_BUCKET_COUNT
      ensures j in u.news[b] <==> j < |FileOrder(s)| && FileOrder(s)[j] in s.news[b]
    {
      BucketBack(s, b, j);
    }
  }

  lemma RandomInOrder(s: State, t: State, a: seq<nat>)
    requires ReadBack(s, t, a, |a|)
    ensures |t.random| == |a| && forall j :: 0 <= j < |a| ==> t.random[j] == j
  {
  }

  lemma RefsKeys(s: State, t: State, a: seq<nat>, w: nat)
    requires Shape(s) && RefsBack(s, t, a, w)
    ensures Shape(t) && (forall j: nat :: j in t.info <==> j < |a|)
  {
  }

  // ---------------------------------------------------------------- the reloaded table is consistent

  lemma RenamedLink(s: State, t: State, a: seq<nat>)
    requires LinkOk(s) && Renamed(s, t, a) && InOrder(t)
    ensures LinkOk(t)
  {
    hide LinkOk, Renamed, InOrder, PosOk;
    RenamedShape(s, t, a);
    RenamedDistinct(s, t, a);
    forall j | j in t.info ensures j < t.idCount && t.info[j].svc.ip in t.addr && t.addr[t.info[j].svc.ip] == j {
      RenamedInfo(s, t, a, j);
      InfoIndexed(s, a[j]);
      RenamedAddr(s, t, a, t.info[j].svc.ip);
    }
    forall ip | ip in t.addr ensures t.addr[ip] in t.info && t.info[t.addr[ip]].svc.ip == ip {
      RenamedAddr(s, t, a, ip);
      AddrIndexed(s, ip);
      RenamedInfo(s, t, a, t.addr[ip]);
    }
    RenamedPos(s, t, a);
    LinkIntro(t);
  }

  lemma RenamedAddr(s: State, t: State, a: seq<nat>, ip: NetAddr)
    requires Renamed(s, t, a)
    ensures ip in t.addr <==> ip in s.addr
    ensures ip in t.addr ==> t.addr[ip] < |a| && a[t.addr[ip]] == s.addr[ip]
    ensures t.idCount == |a|
  {
  }

  lemma RenamedPos(s: State, t: State, a: seq<nat>)
    requires Renamed(s, t, a) && InOrder(t)
    ensures PosOk(t.random, t.info)
  {
  }

  lemma RenamedInfo(s: State, t: State, a: seq<nat>, j: nat)
    requires Renamed(s, t, a) && j < |a|
    ensures j in t.info && a[j] in s.info && t.info[j] == s.info[a[j]].(lastTry := 0, randomPos := t.info[j].randomPos)
  {
    assert a[j] in a;
  }

  lemma RenamedTried(env: Env, s: State, t: State, a: seq<nat>)
    requires Shape(s) && TriedOk(env, s) && Renamed(s, t, a)
    requires forall k :: 0 <= k < TRIED_BUCKET_COUNT ==> Distinct(t.tried[k])
    ensures TriedOk(env, t)
  {
    hide TriedOk, Renamed;
    RenamedShape(s, t, a);
    forall j | j in t.info && t.info[j].inTried ensures t.info[j].refCount == 0 && j in t.tried[Home(env, t, j)] {
      RenamedInfo(s, t, a, j);
      TriedHome(env, s, a[j]);
      RenamedSlots(s, t, a, Home(env, t, j), j);
    }
    forall k, j | 0 <= k < TRIED_BUCKET_COUNT && j in t.tried[k]
      ensures j in t.info && t.info[j].inTried && Home(env, t, j) == k
    {
      RenamedSlots(s, t, a, k, j);
      RenamedInfo(s, t, a, j);
      TriedBucketHome(env, s, k, a[j]);
    }
    forall k | 0 <= k < TRIED_BUCKET_COUNT ensures |t.tried[k]| <= TRIED_BUCKET_SIZE {
      RenamedSlots(s, t, a, k, 0);
      TriedSize(env, s, k);
    }
    assert TriedOk(env, t) by { TriedOkIntro(env, t); }
  }

  lemma RenamedShape(s: State, t: State, a: seq<nat>)
    requires Renamed(s, t, a)
    ensures Shape(s) && Shape(t) && t.key == s.key && forall j: nat :: j in t.info <==> j < |a|
  {
  }

  lemma RenamedSlots(s: State, t: State, a: seq<nat>, k: nat, j: nat)
    requires Renamed(s, t, a) && k < TRIED_BUCKET_COUNT
    ensures |t.tried[k]| == |s.tried[k]|
    ensures j in t.tried[k] <==> j < |a| && a[j] in s.tried[k]
  {
  }

  lemma RenamedNews(s: State, t: State, a: seq<nat>, b: nat, j: nat)
    requires Renamed(s, t, a) && b < NEW_BUCKET_COUNT
    ensures j in t.news[b] <==> j < |a| && a[j] in s.news[b]
  {
  }

  lemma RenamedNewOk(s: State, t: State, a: seq<nat>)
    requires Shape(s) && NewOk(s, NONE) && Renamed(s, t, a)
    ensures NewOk(t, NONE)
  {
    hide NewOk, Renamed;
    RenamedShape(s, t, a);
    forall j | j in t.info && !t.info[j].inTried
      ensures 1 <= t.info[j].refCount <= NEW_BUCKETS_PER_ADDRESS && t.info[j].refCount == Count(t.news, j)
    {
      RenamedInfo(s, t, a, j);
      NewRef(s, a[j], NONE);
      forall b: nat | b < NEW_BUCKET_COUNT ensures j in t.news[b] <==> a[j] in s.news[b] {
        RenamedNews(s, t, a, b, j);
      }
      assert BucketsOf(t.news, j) == BucketsOf(s.news, a[j]);
    }
    forall b, j | 0 <= b < NEW_BUCKET_COUNT && j in t.news[b] ensures j in t.info && !t.info[j].inTried {
      RenamedNews(s, t, a, b, j);
      RenamedInfo(s, t, a, j);
      NewMember(s, b, a[j], NONE);
    }
    forall b | 0 <= b < NEW_BUCKET_COUNT ensures |t.news[b]| <= NEW_BUCKET_SIZE {
      NewSize(s, b, NONE);
      RenamedBucketSize(s, t, a, b);
    }
    assert NewOk(t, NONE) by { NewOkIntro(t, NONE); }
  }

  lemma RenamedBucketSize(s: State, t: State, a: seq<nat>, b: nat)
    requires Renamed(s, t, a) && b < NEW_BUCKET_COUNT
    ensures |t.news[b]| <= |s.news[b]|
  {
    hide Renamed;
    RenamedShape(s, t, a);
    RenamedDistinct(s, t, a);
    forall j | j in t.news[b] ensures j < |a| && a[j] in s.news[b] {
      RenamedNews(s, t, a, b, j);
    }
    ImageCard(t.news[b], s.news[b], a);
  }

  lemma RenamedDistinct(s: State, t: State, a: seq<nat>)
    requires Renamed(s, t, a)
    ensures Distinct(a) && (forall id :: id in a <==> id in s.info)
  {
  }

  lemma {:induction false} ImageCard(x: set<nat>, y: set<nat>, a: seq<nat>)
    requires Distinct(a) && forall j :: j in x ==> j < |a| && a[j] in y
    ensures |x| <= |y|
    decreases |x|
  {
    if x != {} {
      var j :| j in x;
      ImageCard(x - {j}, y - {a[j]}, a);
    }
  }

  lemma RenamedCount(s: State, t: State, a: seq<nat>)
    requires CountOk(s) && Renamed(s, t, a)
    ensures CountOk(t)
  {
    hide Renamed;
    RenamedShape(s, t, a);
    RenamedDistinct(s, t, a);
    RenamedTotals(s, t, a);
    forall j | j in t.info ensures j < |a| && a[j] in s.info && t.info[j].inTried == s.info[a[j]].inTried {
      RenamedInfo(s, t, a, j);
    }
    ImageCard(TriedIds(t.info), TriedIds(s.info), a);
    ImageCard(NewIds(t.info), NewIds(s.info), a);
    hide TriedIds, NewIds;
    IdsPartition(t.info);
    IdsPartition(s.info);
    RenamedSize(s, t, a);
  }

  lemma RenamedSize(s: State, t: State, a: seq<nat>)
    requires Distinct(a) && (forall id :: id in a <==> id in s.info) && (forall j: nat :: j in t.info <==> j < |a|)
    ensures |t.info| == |s.info|
  {
    DistinctCard(a);
    assert Elems(a) == s.info.Keys;
    var b := seq(|a|, i requires 0 <= i < |a| => i);
    DistinctCard(b);
    forall j: nat ensures j in Elems(b) <==> j in t.info.Keys {
      if j < |a| { assert b[j] == j; }
    }
    assert Elems(b) == t.info.Keys;
  }

  lemma RenamedTotals(s: State, t: State, a: seq<nat>)
    requires Renamed(s, t, a)
    ensures t.nTried == s.nTried && t.nNew == s.nNew
  {
  }

  /** A reloaded table satisfies the whole invariant again. */
  lemma ReloadInv(env: Env, s: State)
    requires Inv(env, s)
    ensures Inv(env, Load(env, Save(s)))
  {
    hide LinkOk, TriedOk, NewOk, CountOk, Known, Renamed, InOrder, Load, Save;
    KnownShape(s);
    ReloadRenames(env, s);
    var t, a := Load(env, Save(s)), FileOrder(s);
    RenamedShape(s, t, a);
    RenamedLink(s, t, a);
    RenamedTried(env, s, t, a);
    RenamedNewOk(s, t, a);
    RenamedCount(s, t, a);
    KnownFrom(env, t, NONE);
  }
}
