/** The address manager as an object whose methods update the indexes in place. */
module AddrManager {
  import opened Common
  import opened AddrState
  import Ops = AddrOps
  import opened AddrInv
  import opened AddrEffects
  import opened AddrDisk

  class AddrMan {
    const env: Env
    var key: Key
    var idCount: nat
    var info: map<nat, Info>
    var addr: map<NetAddr, nat>
    var random: seq<nat>
    var nTried: int
    var tried: seq<seq<nat>>
    var nNew: int
    var news: seq<set<nat>>

    function View(): State
      reads this
    {
      State(key, idCount, info, addr, random, nTried, tried, nNew, news)
    }

    constructor (env: Env, key: Key)
      ensures this.env == env && View() == InitState(key) && Inv(env, View())
    {
      this.env := env;
      this.key := key;
      idCount, info, addr, random := 0, map[], map[], [];
      nTried, nNew := 0, 0;
      tried := seq(TRIED_BUCKET_COUNT, _ => []);
      news := seq(NEW_BUCKET_COUNT, _ => {});
      new;
      InitInv(env, key);
    }

    /** The id of an address, or -1. */
    method Find(ip: NetAddr) returns (id: int)
      ensures Ops.Find(View(), ip) == if id < 0 then None else Some(id)
      ensures Inv(env, View()) ==> (id >= 0 <==> ip in addr) && (id >= 0 ==> id in info && info[id].svc.ip == ip)
    {
      hide NewOk, TriedOk, CountOk;
      id := if ip in addr && addr[ip] in info then addr[ip] else -1;
    }

    method Create(a: Address, source: NetAddr) returns (id: nat)
      modifies this
      ensures id == old(idCount) && View() == Ops.Create(old(View()), a, source)
    {
      id := idCount;
      idCount := idCount + 1;
      info := info[id := Ops.NewInfo(a, source, 0)];
      addr := addr[a.svc.ip := id];
      info := info[id := info[id].(randomPos := |random|)];
      random := random + [id];
    }

    method SwapRandom(pos1: nat, pos2: nat)
      requires Known(View()) && pos1 < |random| && pos2 < |random|
      modifies this`info, this`random
      ensures View() == Ops.SwapRandom(old(View()), pos1, pos2)
    {
      if pos1 == pos2 {
        return;
      }
      var id1, id2 := random[pos1], random[pos2];
      assert id1 in info && id2 in info;
      info := info[id1 := info[id1].(randomPos := pos2)];
      info := info[id2 := info[id2].(randomPos := pos1)];
      random := random[pos1 := id2];
      random := random[pos2 := id1];
    }

    method SelectTried(k: nat, raw: nat -> nat) returns (slot: int)
      requires Known(View()) && k < TRIED_BUCKET_COUNT
      modifies this`tried
      ensures var sel := Ops.Select(old(tried)[k], info, raw, Ops.Rounds(|old(tried)[k]|));
              tried == old(tried)[k := sel.bucket] && slot == sel.pos
    {
      hide Ops.Select, Ops.SwapSeq, Ops.DrawnPos, Known, Draw;
      KnownShape(View());
      TriedKnown(View(), k);
      ghost var v := tried[k];
      var oldest: int := -1;
      slot := -1;
      var i := 0;
      assert Ops.Select(v, info, raw, 0) == Ops.Selection(v, -1, -1) by { Ops.SelectStart(v, info, raw); }
      var bucket := tried[k];
      while i < TRIED_ENTRIES_INSPECT_ON_EVICT && i < |bucket|
        invariant |bucket| == |v| && i <= Ops.Rounds(|v|) && tried == old(tried)[k := bucket]
        invariant Ops.Selection(bucket, oldest, slot) == Ops.Select(v, info, raw, i)
      {
        var pos := Draw(|bucket| - i, raw(1 + i)) + i;
        SelectRound(v, info, raw, i, Ops.Selection(bucket, oldest, slot));
        SwapInBucket(bucket, i, raw);
        ghost var swapped := Ops.SwapSeq(bucket, i, pos);
        var temp := bucket[pos];
        bucket := bucket[pos := bucket[i]];
        bucket := bucket[i := temp];
        assert bucket == swapped;
        tried := tried[k := bucket];
        assert tried == old(tried)[k := bucket];
        if oldest == -1 || info[temp].lastSuccess < info[oldest].lastSuccess {
          oldest := temp;
          slot := pos;
        }
        i := i + 1;
      }
    }

    /** The shared tail of both deletion paths of ShrinkNew. */
    method Unref(b: nat, id: nat)
      requires Known(View()) && b < NEW_BUCKET_COUNT && id in info
      modifies this
      ensures View() == Ops.Unref(old(View()), b, id)
    {
      hide Known, Ops.SwapRandom, Ops.Unref;
      ghost var s := View();
      KnownShape(s);
      KnownPosition(s, id);
      UnrefCases(s, b, id);
      var refs := info[id].refCount - 1;
      if refs == 0 {
        var entry := info[id];
        SwapRandom(entry.randomPos, |random| - 1);
        random := random[..|random| - 1];
        addr := addr - {entry.svc.ip};
        info := info - {id};
        nNew := nNew - 1;
      } else {
        info := info[id := info[id].(refCount := refs)];
      }
      news := news[b := news[b] - {id}];
    }

    /** First scan of ShrinkNew: the first terrible entry of a bucket, or -1. */
    method FindTerrible(order: seq<nat>, now: int) returns (id: int)
      requires forall x :: x in order ==> x in info
      ensures Ops.FirstTerrible(order, info, now) == if id < 0 then None else Some(id)
    {
      hide Ops.IsTerrible;
      var i := 0;
      while i < |order|
        invariant 0 <= i <= |order|
        invariant Ops.FirstTerrible(order, info, now) == Ops.FirstTerrible(order[i..], info, now)
      {
        assert order[i] in order;
        if Ops.IsTerrible(info[order[i]], now) {
          return order[i];
        }
        i := i + 1;
      }
      return -1;
    }

    /** Second scan of ShrinkNew: the oldest entry at one of the drawn positions, or -1. */
    method FindOldest(order: seq<nat>, picks: set<nat>) returns (oldest: int)
      requires forall x :: x in order ==> x in info
      ensures oldest == Ops.OldestDrawn(order, info, picks, |order|)
    {
      oldest := -1;
      var value := 0;
      while value < |order|
        invariant 0 <= value <= |order|
        invariant oldest == Ops.OldestDrawn(order, info, picks, value)
      {
        assert order[value] in order;
        if value in picks && (oldest == -1 || info[order[value]].time < info[oldest].time) {
          oldest := order[value];
        }
        value := value + 1;
      }
    }

    /** Returns 0 after removing a terrible entry, 1 after removing a drawn one. */
    method ShrinkNew(b: nat, now: int, raw: nat -> nat) returns (code: int)
      requires Known(View()) && b < NEW_BUCKET_COUNT && news[b] != {}
      modifies this
      ensures View() == Ops.ShrinkNew(old(View()), b, now, raw) && |news| == NEW_BUCKET_COUNT
      ensures code == 0 || code == 1
      ensures code == 0 <==> exists id :: id in old(news)[b] && id in old(info) && Ops.Useless(old(info)[id], now)
    {
      hide Known, Ops.Unref, Ops.IsTerrible, Ops.Useless, Ops.FirstTerrible, Ops.OldestDrawn, Ops.Picks, Ascending;
      KnownShape(View());
      NewKnown(View(), b);
      AscendingElements(news[b]);
      var order := Ascending(news[b]);
      Ops.FirstTerribleFound(order, info, now);
      var victim := FindTerrible(order, now);
      code := 0;
      if victim < 0 {
        victim := FindOldest(order, Ops.Picks(|news[b]|, raw));
        code := 1;
      }
      assert victim == Ops.Victim(info, news[b], now, raw);
      forall id | id in news[b] ensures Ops.IsTerrible(info[id], now) <==> Ops.Useless(info[id], now) {
        Ops.TerribleIsUseless(info[id], now);
      }
      UnrefBuckets(View(), b, victim);
      Unref(b, victim);
    }

    /** Takes the entry out of every new bucket, counting its references down to zero. */
    method LeaveBuckets(id: nat)
      requires Inv(env, View()) && id in info && !info[id].inTried
      modifies this`news, this`info
      ensures news == Ops.WithoutEverywhere(old(news), id)
      ensures info == old(info)[id := old(info)[id].(refCount := 0)]
    {
      hide Known, LinkOk, TriedOk, NewOk, CountOk;
      KnownShape(View());
      NewRef(View(), id, NONE);
      var b := 0;
      while b < |news|
        invariant 0 <= b <= |news| == |old(news)|
        invariant forall c :: 0 <= c < |news| ==> news[c] == if c < b then old(news)[c] - {id} else old(news)[c]
        invariant id in info && info == old(info)[id := old(info)[id].(refCount := info[id].refCount)]
        invariant info[id].refCount == Count(news, id)
      {
        if id in news[b] {
          CountRemove(news, b, id, id);
          news := news[b := news[b] - {id}];
          info := info[id := info[id].(refCount := info[id].refCount - 1)];
        }
        b := b + 1;
      }
      assert BucketsOf(news, id) == {};
    }

    method MakeTried(id: nat, origin: nat, raw: nat -> nat)
      requires Inv(env, View()) && id in info && !info[id].inTried
      requires origin < NEW_BUCKET_COUNT && id in news[origin]
      modifies this
      ensures View() == Ops.MakeTried(env, old(View()), id, origin, raw)
      ensures Inv(env, View())
    {
      hide Known, LinkOk, TriedOk, NewOk, CountOk, TriedBut, Ops.EvictTried, TriedIds, NewIds;
      ghost var s := View();
      ghost var s1 := Ops.LeaveNew(s, id);
      KnownShape(s);
      MakeTriedInv(env, s, id, origin, raw);
      LeaveNewInv(env, s, id);
      LeaveBuckets(id);
      nNew := nNew - 1;
      assert info[id].refCount == 0;
      // The flag is raised here rather than after the slot is filled: nothing below looks at it.
      info := info[id := info[id].(inTried := true)];
      assert View() == s1;
      var k := TriedBucket(env, key, info[id].svc);
      assert k == Home(env, s1, id);
      TriedSize(env, s, k);
      if |tried[k]| < TRIED_BUCKET_SIZE {
        tried := tried[k := tried[k] + [id]];
        nTried := nTried + 1;
      } else {
        TriedKnown(s1, k);
        EvictTried(k, id, origin, raw);
      }
    }

    /** Hand the slot of a selected entry to `id` and return that entry to the new table. */
    method EvictTried(k: nat, id: nat, origin: nat, raw: nat -> nat)
      requires Promoting(env, View(), id) && k == Home(env, View(), id) && tried[k] != [] && origin < NEW_BUCKET_COUNT
      requires forall x :: x in tried[k] ==> x in info
      modifies this
      ensures View() == Ops.EvictTried(env, old(View()), k, id, origin, raw)
    {
      hide Known, LinkOk, TriedOk, NewOk, CountOk, TriedBut, Ops.Select, Promoting, NewBucket, Home;
      ghost var s := View();
      PromotingParts(env, s, id);
      KnownShape(s);
      ghost var sel, out := SelectedSlot(env, s, id, raw);
      var pos := SelectTried(k, raw);
      var bucket: seq<nat> := tried[k];
      assert bucket == sel.bucket && pos == sel.pos;
      var evicted := bucket[pos];
      assert evicted == out && evicted in info;
      var b := NewBucket(env, key, info[evicted].svc.ip, info[evicted].source);
      info := info[evicted := info[evicted].(inTried := false)];
      info := info[evicted := info[evicted].(refCount := 1)];
      assert info == s.info[evicted := s.info[evicted].(inTried := false, refCount := 1)];
      ghost var refuge := Ops.Refuge(env, s, evicted, origin);
      if |news[b]| < NEW_BUCKET_SIZE {
        assert refuge == b;
        news := news[b := news[b] + {evicted}];
      } else {
        assert refuge == origin;
        news := news[origin := news[origin] + {evicted}];
      }
      assert news == s.news[refuge := s.news[refuge] + {evicted}];
      nNew := nNew + 1;
      tried := tried[k := bucket[pos := id]];
    }

    method Good(svc: Service, time: int, raw: nat -> nat)
      requires Inv(env, View())
      modifies this
      ensures Known(old(View())) && View() == Ops.Good(env, old(View()), svc, time, raw)
      ensures Inv(env, View())
    {
      hide Known, LinkOk, TriedOk, NewOk, CountOk, Ops.MakeTried, Ops.FindBucket, Draw;
      ghost var s := View();
      GoodInv(env, s, svc, time, raw);
      var id := Find(svc.ip);
      if id < 0 || info[id].svc != svc {
        return;
      }
      TouchInv(env, s, id, Ops.MarkGood(info[id], time));
      info := info[id := info[id].(lastSuccess := time)];
      info := info[id := info[id].(lastTry := time)];
      info := info[id := info[id].(time := U32(time))];
      info := info[id := info[id].(attempts := 0)];
      assert View() == s.(info := s.info[id := Ops.MarkGood(s.info[id], time)]);
      if info[id].inTried {
        return;
      }
      KnownShape(View());
      var start := Draw(|news|, raw(0));
      GoodFindsBucket(env, View(), id, start);
      var b := SearchNew(id, start);
      FoundIn(news, id, start, b);
      MakeTried(id, b, raw);
    }

    /** The search of Good_: the new buckets in cyclic order from `start` on, or -1. */
    method SearchNew(id: nat, start: nat) returns (b: int)
      requires news != []
      ensures Ops.FindBucket(news, id, start, 0) == if b == -1 then None else Some(b)
      ensures b == -1 || b >= 0
    {
      hide Ops.FindBucket;
      b := -1;
      var n := 0;
      while n < |news| && b == -1
        invariant 0 <= n <= |news|
        invariant b == -1 ==> Ops.FindBucket(news, id, start, n) == Ops.FindBucket(news, id, start, 0)
        invariant b != -1 ==> b >= 0 && Ops.FindBucket(news, id, start, 0) == Some(b)
        decreases |news| - n + (if b == -1 then 1 else 0)
      {
        Ops.FindNext(news, id, start, n);
        var nb := (n + start) % |news|;
        if id in news[nb] {
          b := nb;
        } else {
          n := n + 1;
        }
      }
      Ops.FindEnd(news, id, start);
    }

    /** Counts a further reference and places it, making room first when the bucket is full. */
    method PutInNew(id: nat, source: NetAddr, now: int, raw: nat -> nat)
      requires Known(View()) && id in info && |news| == NEW_BUCKET_COUNT
      requires id !in news[NewBucket(env, key, info[id].svc.ip, source)] ==> Known(Incref(View(), id))
      modifies this
      ensures View() == Ops.PutInNew(env, old(View()), id, source, now, raw)
    {
      hide Known, Ops.ShrinkNew, NewBucket;
      ghost var s := View();
      KnownShape(s);
      var b := NewBucket(env, key, info[id].svc.ip, source);
      if id !in news[b] {
        info := info[id := info[id].(refCount := info[id].refCount + 1)];
        assert View() == Incref(s, id);
        if |news[b]| == NEW_BUCKET_SIZE {
          var _ := ShrinkNew(b, now, raw);
        }
        news := news[b := news[b] + {id}];
      }
    }

    /** Returns whether the address was new. */
    method Add(a: Address, source: NetAddr, penalty: int, now: int, raw: nat -> nat) returns (isNew: bool)
      requires Inv(env, View())
      modifies this
      ensures Known(old(View())) && (View(), isNew) == Ops.Add(env, old(View()), a, source, penalty, now, raw)
      ensures Inv(env, View())
    {
      hide Known, LinkOk, TriedOk, NewOk, CountOk, Ops.PutInNew, Ops.Add, Ops.CreateNew, Ops.Refresh, Ops.WantsReference, Ops.Pow2,
        Draw, NewBucket;
      ghost var s := View();
      KnownShape(s);
      AddInv(env, s, a, source, penalty, now, raw);
      AddCases(env, s, a, source, penalty, now, raw);
      if !env.routable(a.svc.ip) {
        return false;
      }
      isNew := false;
      var id := Find(a.svc.ip);
      if id >= 0 {
        RefreshEntry(id, a, penalty, now);
        RefreshStanding(s.info[id], a, penalty, now);
        TouchInv(env, s, id, info[id]);
        var entry := info[id];
        WantsCases(entry, a, raw);
        if a.time == 0 || (entry.time != 0 && a.time <= entry.time) {
          return;
        }
        if entry.inTried {
          return;
        }
        if entry.refCount == NEW_BUCKETS_PER_ADDRESS {
          return;
        }
        var factor := DoublingFactor(entry.refCount);
        if factor > 1 && Draw(factor, raw(0)) != 0 {
          return;
        }
        NewRef(View(), id, NONE);
        IncrefInv(env, View(), id);
        PutInNew(id, source, now, raw);
      } else {
        FindNone(s, a.svc.ip);
        LinkFresh(s);
        CreateKnown(s, a, source, penalty);
        CreateInv(env, s, a, source, penalty);
        CreateFields(s, a, source, penalty);
        var newId := CreateFresh(a, source, penalty);
        isNew := true;
        PutInNew(newId, source, now, raw);
      }
    }

    /** The overload that takes a vector: one Add_ after the other; true when any address was new. */
    method AddAll(list: seq<Arrival>, source: NetAddr, penalty: int) returns (anyNew: bool)
      requires Inv(env, View())
      modifies this
      ensures View() == AddSome(env, old(View()), list, source, penalty, |list|).0 && Inv(env, View())
      ensures anyNew <==> AddSome(env, old(View()), list, source, penalty, |list|).1 > 0
    {
      hide Inv, Known, AddSome, Ops.Add;
      ghost var s := View();
      var added: nat := 0;
      AddSomeNone(env, s, list, source, penalty);
      var n := 0;
      while n < |list|
        invariant 0 <= n <= |list| && Inv(env, View())
        invariant (View(), added) == AddSome(env, s, list, source, penalty, n)
      {
        AddSomeNext(env, s, list, source, penalty, n);
        var isNew := Add(list[n].a, source, penalty, list[n].now, list[n].raw);
        if isNew { added := added + 1; }
        n := n + 1;
      }
      anyNew := added > 0;
    }

    /** The branch of Add_ for an unknown address, up to the choice of a bucket. */
    method CreateFresh(a: Address, source: NetAddr, penalty: int) returns (id: nat)
      modifies this
      ensures id == old(idCount) && View() == Ops.CreateNew(old(View()), a, source, penalty)
    {
      id := Create(a, source);
      info := info[id := info[id].(time := U32(Ops.Max(0, info[id].time - penalty)))];
      nNew := nNew + 1;
    }

    /** Time stamp and services of a known address. */
    method RefreshEntry(id: nat, a: Address, penalty: int, now: int)
      requires id in info
      modifies this`info
      ensures info == old(info)[id := Ops.Refresh(old(info)[id], a, penalty, now)]
    {
      var online := now - a.time < 24 * 60 * 60;
      var interval := if online then 60 * 60 else 24 * 60 * 60;
      if a.time != 0 && (info[id].time == 0 || info[id].time < a.time - interval - penalty) {
        info := info[id := info[id].(time := U32(Ops.Max(0, a.time - penalty)))];
      }
      info := info[id := info[id].(services := info[id].services + a.services)];
    }

    /** Two to the power of the reference count, by repeated doubling. */
    method DoublingFactor(refs: int) returns (factor: nat)
      ensures factor == if refs <= 0 then 1 else Ops.Pow2(refs)
    {
      factor := 1;
      var n := 0;
      while n < refs
        invariant 0 <= n && (n <= refs || n == 0)
        invariant factor == Ops.Pow2(n)
      {
        factor := factor * 2;
        n := n + 1;
      }
    }

    method Attempt(svc: Service, time: int)
      requires Inv(env, View())
      modifies this`info
      ensures View() == Ops.Attempt(old(View()), svc, time) && Inv(env, View())
    {
      hide Inv;
      AttemptInv(env, View(), svc, time);
      var id := Find(svc.ip);
      if id < 0 || info[id].svc != svc {
        return;
      }
      info := info[id := info[id].(lastTry := time)];
      info := info[id := info[id].(attempts := info[id].attempts + 1)];
    }

    method Connected(svc: Service, time: int)
      requires Inv(env, View())
      modifies this`info
      ensures View() == Ops.Connected(old(View()), svc, time) && Inv(env, View())
    {
      hide Inv;
      ConnectedInv(env, View(), svc, time);
      var id := Find(svc.ip);
      if id < 0 || info[id].svc != svc {
        return;
      }
      if time - info[id].time > 20 * 60 {
        info := info[id := info[id].(time := U32(time))];
      }
    }

    method GetAddr(raw: nat -> nat) returns (out: seq<Address>)
      requires Inv(env, View())
      modifies this`info, this`random
      ensures Known(old(View())) && (View(), out) == Ops.GetAddr(old(View()), raw) && Inv(env, View())
    {
      hide Known, Inv, Ops.SwapRandom, Ops.Shuffle, Ops.GetAddr, Ops.Sample, Draw, HandedOut;
      ghost var s := View();
      InvKnown(env, s);
      GetAddrInv(env, s, raw);
      var nodes := GETADDR_MAX_PCT * |random| / 100;
      if nodes > GETADDR_MAX {
        nodes := GETADDR_MAX;
      }
      SampleCases(|random|);
      out := [];
      var n := 0;
      Ops.ShuffleNone(s, raw);
      NothingHanded(s);
      while n < nodes
        invariant 0 <= n <= nodes == Ops.Sample(|s.random|) && |random| == |s.random|
        invariant View() == Ops.Shuffle(s, raw, n)
        invariant HandedOut(View(), out, n)
      {
        HandOutNext(s, raw, n, out);
        var pos := Draw(|random| - n, raw(n)) + n;
        SwapRandom(n, pos);
        out := out + [Ops.AsAddress(info[random[n]])];
        n := n + 1;
      }
      HandedOutAll(s, View(), raw, out);
    }

    /** New entries in id order, and the index each gets in the file. */
    method WriteNew() returns (out: seq<DiskInfo>, ids: map<nat, nat>)
      requires Inv(env, View())
      ensures ListsIn(View(), NewList(View())) && out == Infos(info, NewList(View()))
      ensures forall k :: 0 <= k < |NewList(View())| ==> NewList(View())[k] in ids && ids[NewList(View())[k]] == k
    {
      hide Inv, NewList, TriedList, Ascending, Merged, Written, Numbered, ListsIn, ToDisk;
      ghost var s := View();
      ghost var list := NewList(s);
      InvListSizes(env, s);
      var order := Ascending(info.Keys);
      WriteStart(s, list);
      out, ids := [], map[];
      var n := 0;
      var i := 0;
      while i < |order| && n != nNew
        invariant 0 <= i <= |order| && 0 <= n <= |list|
        invariant Merged(order, list, i, n) && Written(info, list, out, n) && Numbered(list, ids, n)
      {
        NewListed(env, s, i);
        MergeStep(order, list, i, n);
        NumberedStep(list, ids, n, order[i]);
        ids := ids[order[i] := n];
        if info[order[i]].refCount != 0 {
          WrittenStep(info, list, out, n);
          out := out + [ToDisk(info[order[i]])];
          n := n + 1;
        }
        i := i + 1;
      }
      MergeDone(order, list, i, n);
      WrittenAll(info, list, out, ids);
    }

    /** Tried entries in id order. */
    method WriteTried() returns (out: seq<DiskInfo>)
      requires Inv(env, View())
      ensures ListsIn(View(), TriedList(View())) && out == Infos(info, TriedList(View()))
    {
      hide Inv, NewList, TriedList, Ascending, Merged, Written, Numbered, ListsIn, ToDisk;
      ghost var s := View();
      ghost var list := TriedList(s);
      InvListSizes(env, s);
      var order := Ascending(info.Keys);
      WriteStart(s, list);
      out := [];
      var n := 0;
      var i := 0;
      while i < |order| && n != nTried
        invariant 0 <= i <= |order| && 0 <= n <= |list|
        invariant Merged(order, list, i, n) && Written(info, list, out, n)
      {
        EntryListed(s, i);
        MergeStep(order, list, i, n);
        if info[order[i]].inTried {
          WrittenStep(info, list, out, n);
          out := out + [ToDisk(info[order[i]])];
          n := n + 1;
        }
        i := i + 1;
      }
      MergeDone(order, list, i, n);
      WrittenOut(info, list, out);
    }

    /** The file indices of one new bucket. */
    method WriteBucket(b: nat, ids: map<nat, nat>) returns (out: seq<nat>)
      requires Shape(View()) && NewOk(View(), NONE) && b < NEW_BUCKET_COUNT
      requires forall k :: 0 <= k < |NewList(View())| ==> NewList(View())[k] in ids && ids[NewList(View())[k]] == k
      ensures out == BucketIndices(View(), b)
    {
      hide NewOk, NewList, Ascending, BucketIndices;
      var order := Ascending(news[b]);
      BucketIndicesSize(View(), b);
      out := [];
      var i := 0;
      while i < |order|
        invariant 0 <= i <= |order| && |out| == i
        invariant forall j :: 0 <= j < i ==> out[j] == BucketIndices(View(), b)[j]
      {
        BucketIndexNames(View(), b, i);
        out := out + [ids[order[i]]];
        i := i + 1;
      }
    }

    method WriteOut() returns (d: Disk)
      requires Inv(env, View())
      ensures Shape(View()) && NewOk(View(), NONE) && d == Save(View())
    {
      hide Known, LinkOk, TriedOk, NewOk, CountOk, NewList, TriedList, BucketIndices;
      KnownShape(View());
      var newInfos, ids := WriteNew();
      var triedInfos := WriteTried();
      var buckets: seq<seq<nat>> := [];
      var b := 0;
      while b < |news|
        invariant 0 <= b <= |news| && |buckets| == b
        invariant forall c :: 0 <= c < b ==> buckets[c] == BucketIndices(View(), c)
      {
        var indices := WriteBucket(b, ids);
        buckets := buckets + [indices];
        b := b + 1;
      }
      d := Disk(key, newInfos, triedInfos, buckets);
    }

    method ReadIn(d: Disk)
      requires |d.buckets| <= NEW_BUCKET_COUNT
      modifies this
      ensures View() == Load(env, d)
    {
      hide LoadNew, LoadTried, LoadBuckets;
      key, nNew, nTried := d.key, |d.newInfos|, |d.triedInfos|;
      idCount, info, addr, random := 0, map[], map[], [];
      tried := seq(TRIED_BUCKET_COUNT, _ => []);
      news := seq(NEW_BUCKET_COUNT, _ => {});
      assert View() == Blank(d);
      ReadAllNew(d);
      idCount := |d.newInfos|;
      LoadTriedStart(env, d);
      var lost := ReadAllTried(d);
      nTried := nTried - lost;
      ReadAllBuckets(d);
    }

    method ReadAllNew(d: Disk)
      requires View() == Blank(d)
      modifies this
      ensures View() == LoadNew(env, d, |d.newInfos|)
    {
      hide LoadNew, WithNew;
      LoadNewStart(env, d);
      var n := 0;
      while n < |d.newInfos|
        invariant 0 <= n <= |d.newInfos| && View() == LoadNew(env, d, n)
      {
        LoadNewNext(env, d, n);
        ReadNew(n, d.newInfos[n], |d.buckets|);
        n := n + 1;
      }
    }

    method ReadAllTried(d: Disk) returns (lost: nat)
      requires Loaded(View(), 0) == LoadTried(env, d, 0)
      modifies this
      ensures Loaded(View(), lost) == LoadTried(env, d, |d.triedInfos|)
    {
      hide LoadTried, WithTried;
      lost := 0;
      var n := 0;
      while n < |d.triedInfos|
        invariant 0 <= n <= |d.triedInfos| && Loaded(View(), lost) == LoadTried(env, d, n)
      {
        LoadTriedNext(env, d, n);
        var kept := ReadTried(d.triedInfos[n]);
        lost := if kept then lost else lost + 1;
        n := n + 1;
      }
    }

    method ReadAllBuckets(d: Disk)
      requires Shape(View()) && |d.buckets| <= NEW_BUCKET_COUNT
      modifies this`info, this`news
      ensures View() == LoadBuckets(old(View()), d.buckets, |d.buckets|)
    {
      hide LoadBuckets, LoadBucket;
      ghost var s := View();
      LoadBucketsStart(s, d.buckets);
      var b := 0;
      while b < |d.buckets|
        invariant 0 <= b <= |d.buckets| && View() == LoadBuckets(s, d.buckets, b)
      {
        LoadBucketsNext(s, d.buckets, b);
        ReadBucket(b, d.buckets[b], |d.buckets| == NEW_BUCKET_COUNT);
        b := b + 1;
      }
    }

    /** One new entry; its buckets are recomputed when the file was written with another number of buckets. */
    method ReadNew(id: nat, x: DiskInfo, fileBuckets: nat)
      requires Shape(View())
      modifies this
      ensures View() == WithNew(env, old(View()), id, x, fileBuckets)
    {
      hide NewBucket;
      info := info[id := FromDisk(x, 0)];
      addr := addr[info[id].svc.ip := id];
      info := info[id := info[id].(randomPos := |random|)];
      assert info == old(info)[id := FromDisk(x, |random|)];
      random := random + [id];
      if fileBuckets != NEW_BUCKET_COUNT {
        var b := NewBucket(env, key, info[id].svc.ip, info[id].source);
        news := news[b := news[b] + {id}];
        info := info[id := info[id].(refCount := info[id].refCount + 1)];
      }
    }

    /** One tried entry, unless its bucket is full. */
    method ReadTried(x: DiskInfo) returns (kept: bool)
      requires Shape(View())
      modifies this
      ensures kept == (|old(tried)[TriedBucket(env, old(key), x.svc)]| < TRIED_BUCKET_SIZE)
      ensures View() == if kept then WithTried(env, old(View()), x) else old(View())
    {
      var k := TriedBucket(env, key, x.svc);
      kept := |tried[k]| < TRIED_BUCKET_SIZE;
      if kept {
        var i := FromDisk(x, |random|).(inTried := true);
        random := random + [idCount];
        info := info[idCount := i];
        addr := addr[i.svc.ip := idCount];
        tried := tried[k := tried[k] + [idCount]];
        idCount := idCount + 1;
      }
    }

    method ReadBucket(b: nat, ids: seq<nat>, use: bool)
      requires Shape(View()) && b < NEW_BUCKET_COUNT
      modifies this`info, this`news
      ensures View() == LoadBucket(old(View()), b, ids, use, |ids|)
    {
      hide LoadBucket, DefaultInfo;
      ghost var s := View();
      LoadBucketStart(s, b, ids, use);
      var n := 0;
      while n < |ids|
        invariant 0 <= n <= |ids| && View() == LoadBucket(s, b, ids, use, n)
      {
        ghost var prev := View();
        var id := ids[n];
        if id !in info {
          info := info[id := DefaultInfo()];
        }
        if use && info[id].refCount < NEW_BUCKETS_PER_ADDRESS {
          info := info[id := info[id].(refCount := info[id].refCount + 1)];
          news := news[b := news[b] + {id}];
        }
        LoadIndexFields(prev, b, id, use);
        assert info == LoadIndex(prev, b, id, use).info;
        n := n + 1;
        LoadBucketNext(s, b, ids, use, n);
      }
    }
  }

  lemma FoundIn(news: seq<set<nat>>, id: nat, start: nat, b: nat)
    requires news != [] && Ops.FindBucket(news, id, start, 0) == Some(b)
    ensures b < |news| && id in news[b]
  {
  }

  lemma KnownPosition(s: State, id: nat)
    requires Known(s) && id in s.info
    ensures s.info[id].randomPos < |s.random| && s.random[s.info[id].randomPos] in s.info && s.random[|s.random| - 1] in s.info
  {
  }

  /** Dropping one reference, case by case. */
  lemma UnrefCases(s: State, b: nat, id: nat)
    requires Known(s) && b < NEW_BUCKET_COUNT && id in s.info
    requires s.info[id].randomPos < |s.random| && s.random[s.info[id].randomPos] in s.info && s.random[|s.random| - 1] in s.info
    ensures var news := s.news[b := s.news[b] - {id}];
            if s.info[id].refCount == 1 then
              var r := Ops.SwapRandom(s, s.info[id].randomPos, |s.random| - 1);
              |r.random| == |s.random|
              && Ops.Unref(s, b, id) == r.(info := r.info - {id}, addr := r.addr - {s.info[id].svc.ip},
                                           random := r.random[..|r.random| - 1], nNew := r.nNew - 1, news := news)
            else Ops.Unref(s, b, id) == s.(info := s.info[id := s.info[id].(refCount := s.info[id].refCount - 1)], news := news)
  {
  }

  /** The branches of Add_. */
  lemma AddCases(env: Env, s: State, a: Address, source: NetAddr, penalty: int, now: int, raw: nat -> nat)
    requires Known(s)
    ensures !env.routable(a.svc.ip) ==> Ops.Add(env, s, a, source, penalty, now, raw) == (s, false)
    ensures env.routable(a.svc.ip) && Ops.Find(s, a.svc.ip).Some? ==>
              var id := Ops.Find(s, a.svc.ip).value;
              var s1 := s.(info := s.info[id := Ops.Refresh(s.info[id], a, penalty, now)]);
              Known(s1)
              && Ops.Add(env, s, a, source, penalty, now, raw)
                 == (if Ops.WantsReference(s1.info[id], a, raw) then Ops.PutInNew(env, s1, id, source, now, raw) else s1, false)
    ensures env.routable(a.svc.ip) && Ops.Find(s, a.svc.ip) == None ==>
              var t := Ops.CreateNew(s, a, source, penalty);
              && Known(t) && s.idCount in t.info
              && Ops.Add(env, s, a, source, penalty, now, raw) == (Ops.PutInNew(env, t, s.idCount, source, now, raw), true)
  {
    hide Ops.PutInNew, Ops.WantsReference;
  }

  /** The early exits of Add_ for a known address. */
  lemma WantsCases(i: Info, a: Address, raw: nat -> nat)
    ensures Ops.WantsReference(i, a, raw)
            <==> !(a.time == 0 || (i.time != 0 && a.time <= i.time)) && !i.inTried && i.refCount != NEW_BUCKETS_PER_ADDRESS
                 && (i.refCount <= 0 || Draw(Ops.Pow2(i.refCount), raw(0)) == 0)
  {
    hide Draw;
  }

  /** The first `n` addresses handed out are those at the front of the random vector. */
  ghost predicate HandedOut(s: State, out: seq<Address>, n: nat) {
    n <= |s.random| && |out| == n && forall i :: 0 <= i < n ==> s.random[i] in s.info && out[i] == Ops.AsAddress(s.info[s.random[i]])
  }

  lemma HandedOutStep(s: State, out: seq<Address>, n: nat)
    requires n < |s.random| && HandedOut(s, out, n) && s.random[n] in s.info
    ensures HandedOut(s, out + [Ops.AsAddress(s.info[s.random[n]])], n + 1)
  {
  }

  lemma SampleCases(size: nat)
    ensures var n := GETADDR_MAX_PCT * size / 100; Ops.Sample(size) == if n > GETADDR_MAX then GETADDR_MAX else n
  {
  }

  lemma NothingHanded(s: State)
    ensures HandedOut(s, [], 0)
  {
  }

  /** One more swap of GetAddr_ and one more address handed out. */
  lemma HandOutNext(s: State, raw: nat -> nat, n: nat, out: seq<Address>)
    requires Known(s) && n < |s.random| && HandedOut(Ops.Shuffle(s, raw, n), out, n)
    ensures var prev, t := Ops.Shuffle(s, raw, n), Ops.Shuffle(s, raw, n + 1);
            var pos := Draw(|s.random| - n, raw(n)) + n;
            && pos < |prev.random| == |s.random| == |t.random| && prev.random[n] in prev.info && prev.random[pos] in prev.info
            && t == Ops.SwapRandom(prev, n, pos) && t.random[n] in t.info
            && HandedOut(t, out + [Ops.AsAddress(t.info[t.random[n]])], n + 1)
  {
    hide Known, Ops.Shuffle, Ops.SwapRandom, Draw, HandedOut;
    Ops.ShuffleNext(s, raw, n + 1);
    SwapFront(Ops.Shuffle(s, raw, n), n, Draw(|s.random| - n, raw(n)) + n, out);
    HandedOutStep(Ops.Shuffle(s, raw, n + 1), out, n);
  }

  lemma HandedOutAll(s: State, t: State, raw: nat -> nat, out: seq<Address>)
    requires Known(s) && t == Ops.Shuffle(s, raw, Ops.Sample(|s.random|)) && HandedOut(t, out, Ops.Sample(|s.random|))
    ensures (t, out) == Ops.GetAddr(s, raw)
  {
    hide Ops.Shuffle, Ops.Sample, Known;
    var expected := Ops.GetAddr(s, raw).1;
    forall i | 0 <= i < |out| ensures out[i] == expected[i] {}
    assert out == expected;
  }

  /** A swap at `n` or later leaves what was handed out before `n` in place. */
  lemma SwapFront(s: State, n: nat, pos: nat, out: seq<Address>)
    requires Known(s) && n <= pos < |s.random| && HandedOut(s, out, n)
    ensures s.random[n] in s.info && s.random[pos] in s.info
    ensures var t := Ops.SwapRandom(s, n, pos);
            Known(t) && |t.random| == |s.random| && HandedOut(t, out, n) && t.random[n] in t.info
  {
  }

  /** One round of SelectTried, from what the loop holds to what it holds next. */
  lemma SelectRound(v: seq<nat>, info: map<nat, Info>, raw: nat -> nat, i: nat, now: Ops.Selection)
    requires i < |v| && (forall id :: id in v ==> id in info) && now == Ops.Select(v, info, raw, i)
    ensures var pos := Ops.DrawnPos(|v|, raw, i);
            && |now.bucket| == |v| && now.bucket[pos] in info && (now.oldest == -1 || (now.oldest >= 0 && now.oldest in info))
            && Ops.Select(v, info, raw, i + 1)
               == (if now.oldest == -1 || info[now.bucket[pos]].lastSuccess < info[now.oldest].lastSuccess
                   then Ops.Selection(Ops.SwapSeq(now.bucket, i, pos), now.bucket[pos], pos)
                   else now.(bucket := Ops.SwapSeq(now.bucket, i, pos)))
  {
    hide Ops.Select, Ops.SwapSeq, Ops.DrawnPos;
    Ops.SelectStep(v, info, raw, i + 1);
  }

  /** The two assignments of SelectTried, at the position drawn for index `i`. */
  lemma SwapInBucket(q: seq<nat>, i: nat, raw: nat -> nat)
    requires i < |q|
    ensures var pos := Draw(|q| - i, raw(1 + i)) + i;
            pos < |q| && pos == Ops.DrawnPos(|q|, raw, i) && q[pos := q[i]][i := q[pos]] == Ops.SwapSeq(q, i, pos)
  {
  }

  lemma PromotingParts(env: Env, s: State, id: nat)
    requires Promoting(env, s, id)
    ensures Known(s) && TriedBut(env, s, id) && id in s.info
  {
    hide Known, TriedBut;
  }

  // ---------------------------------------------------------------- writing: filtering an ascending list

  ghost predicate ListsIn(s: State, ids: seq<nat>) {
    forall i :: 0 <= i < |ids| ==> ids[i] in s.info
  }

  lemma InvListSizes(env: Env, s: State)
    requires Inv(env, s)
    ensures |NewList(s)| == s.nNew && |TriedList(s)| == s.nTried
  {
    hide NewList, TriedList;
    ListSizes(s);
  }

  /** The first `n` entries of `list` have been written. */
  ghost predicate Written(info: map<nat, Info>, list: seq<nat>, out: seq<DiskInfo>, n: nat) {
    && n <= |list| && |out| == n && (forall k :: 0 <= k < |list| ==> list[k] in info)
    && (forall k :: 0 <= k < n ==> out[k] == ToDisk(info[list[k]]))
  }

  /** The first `n` entries of `list` know their index; `list` is increasing. */
  ghost predicate Numbered(list: seq<nat>, ids: map<nat, nat>, n: nat) {
    n <= |list| && forall k :: 0 <= k < n ==> list[k] in ids && ids[list[k]] == k
  }

  lemma WrittenStart(info: map<nat, Info>, list: seq<nat>, ids: map<nat, nat>)
    requires forall k :: 0 <= k < |list| ==> list[k] in info
    ensures Written(info, list, [], 0) && Numbered(list, ids, 0)
  {
  }

  /** Nothing has been written yet. */
  lemma WriteStart(s: State, list: seq<nat>)
    requires list == NewList(s) || list == TriedList(s)
    ensures ListsIn(s, list) && Merged(Ascending(s.info.Keys), list, 0, 0)
    ensures Written(s.info, list, [], 0) && Numbered(list, map[], 0)
  {
    hide NewList, TriedList, Ascending, Merged;
    ListMembers(s);
    AscendingElements(s.info.Keys);
    forall x | x in list ensures x in Ascending(s.info.Keys) {
      assert x in s.info;
    }
    MergeStart(Ascending(s.info.Keys), list);
    WrittenStart(s.info, list, map[]);
  }

  /** Every entry met in the id map is in one of the two lists. */
  lemma EntryListed(s: State, i: nat)
    requires i < |Ascending(s.info.Keys)|
    ensures var id := Ascending(s.info.Keys)[i];
            id in s.info && (id in NewList(s) <==> !s.info[id].inTried) && (id in TriedList(s) <==> s.info[id].inTried)
  {
    hide NewList, TriedList, Ascending;
    ListMembers(s);
    AscendingElements(s.info.Keys);
    var id := Ascending(s.info.Keys)[i];
    assert id in Ascending(s.info.Keys);
    if id in NewList(s) {
      var k :| 0 <= k < |NewList(s)| && NewList(s)[k] == id;
    }
    if id in TriedList(s) {
      var k :| 0 <= k < |TriedList(s)| && TriedList(s)[k] == id;
    }
  }

  lemma NewListed(env: Env, s: State, i: nat)
    requires Inv(env, s) && i < |Ascending(s.info.Keys)|
    ensures var id := Ascending(s.info.Keys)[i];
            id in s.info && (id in NewList(s) <==> s.info[id].refCount != 0)
  {
    hide Inv, NewList, TriedList, Ascending;
    EntryListed(s, i);
    RefsTell(env, s, Ascending(s.info.Keys)[i]);
  }

  lemma WrittenStep(info: map<nat, Info>, list: seq<nat>, out: seq<DiskInfo>, n: nat)
    requires Written(info, list, out, n) && n < |list|
    ensures list[n] in info && Written(info, list, out + [ToDisk(info[list[n]])], n + 1)
  {
  }

  /** Numbering an id that is not among the first `n` keeps them; if it is the next one, it is numbered too. */
  lemma NumberedStep(list: seq<nat>, ids: map<nat, nat>, n: nat, id: nat)
    requires Numbered(list, ids, n) && forall k :: 0 <= k < n ==> list[k] != id
    ensures Numbered(list, ids[id := n], n)
    ensures n < |list| && list[n] == id ==> Numbered(list, ids[id := n], n + 1)
  {
  }

  lemma WrittenOut(info: map<nat, Info>, list: seq<nat>, out: seq<DiskInfo>)
    requires Written(info, list, out, |list|)
    ensures (forall k :: 0 <= k < |list| ==> list[k] in info) && out == Infos(info, list)
  {
  }

  lemma WrittenAll(info: map<nat, Info>, list: seq<nat>, out: seq<DiskInfo>, ids: map<nat, nat>)
    requires Written(info, list, out, |list|) && Numbered(list, ids, |list|)
    ensures (forall k :: 0 <= k < |list| ==> list[k] in info) && out == Infos(info, list)
    ensures forall k :: 0 <= k < |list| ==> list[k] in ids && ids[list[k]] == k
  {
    WrittenOut(info, list, out);
  }

  /** The first `n` elements of `list` are exactly those met among the first `i` of `order`; later ones are larger. */
  ghost predicate Merged(order: seq<nat>, list: seq<nat>, i: nat, n: nat) {
    && i <= |order| && n <= |list| && Increasing(order) && Increasing(list) && (forall x :: x in list ==> x in order)
    && (forall j :: 0 <= j < i && order[j] in list ==> order[j] in list[..n])
    && (forall k, j :: 0 <= k < n && i <= j < |order| ==> list[k] < order[j])
  }

  lemma MergeStart(order: seq<nat>, list: seq<nat>)
    requires Increasing(order) && Increasing(list) && forall x :: x in list ==> x in order
    ensures Merged(order, list, 0, 0)
  {
  }

  /** The next element of `list` is still ahead in `order`. */
  lemma MergeNext(order: seq<nat>, list: seq<nat>, i: nat, n: nat) returns (j: nat)
    requires Merged(order, list, i, n) && n < |list|
    ensures i <= j < |order| && order[j] == list[n]
  {
    assert list[n] !in list[..n];
    assert list[n] in order;
    j :| 0 <= j < |order| && order[j] == list[n];
  }

  lemma MergeStep(order: seq<nat>, list: seq<nat>, i: nat, n: nat)
    requires Merged(order, list, i, n) && i < |order|
    ensures if order[i] in list then n < |list| && list[n] == order[i] && Merged(order, list, i + 1, n + 1)
            else Merged(order, list, i + 1, n)
    ensures forall k :: 0 <= k < n ==> list[k] != order[i]
  {
    if order[i] in list {
      var k :| 0 <= k < |list| && list[k] == order[i];
      assert n <= k;
      var j := MergeNext(order, list, i, n);
      assert list[n] == order[i];
      assert list[..n + 1] == list[..n] + [order[i]];
    }
  }

  lemma MergeDone(order: seq<nat>, list: seq<nat>, i: nat, n: nat)
    requires Merged(order, list, i, n) && (i == |order| || n == |list|)
    ensures n == |list|
  {
    if n < |list| {
      var j := MergeNext(order, list, i, n);
    }
  }

  /** A nonzero reference count is what marks an entry as new. */
  lemma RefsTell(env: Env, s: State, id: nat)
    requires Inv(env, s) && id in s.info
    ensures s.info[id].refCount != 0 <==> !s.info[id].inTried
  {
    hide Known, LinkOk, TriedOk, NewOk, CountOk;
    KnownShape(s);
    if s.info[id].inTried { TriedHome(env, s, id); } else { NewRef(s, id, NONE); }
  }
}
