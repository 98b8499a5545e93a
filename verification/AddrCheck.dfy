/** The consistency check of the address manager: how much of the invariant it sees, and when operations upset it. */
module AddrCheck {
  import opened Common
  import opened AddrState
  import opened AddrOps
  import opened AddrInv
  import opened AddrEffects
  import opened AddrRuns

  /** What Check_ asks of the time fields; no index can vouch for these. */
  predicate TimeOk(i: Info) {
    (i.inTried ==> i.lastSuccess != 0) && i.lastTry >= 0 && i.lastSuccess >= 0
  }

  ghost predicate TimesOk(s: State) {
    forall id :: id in s.info ==> TimeOk(s.info[id])
  }

  /** The per-entry tests, 0 when all pass. */
  function EntryCode(s: State, id: nat): int
    requires id in s.info
  {
    var i := s.info[id];
    if i.inTried && i.lastSuccess == 0 then -1
    else if i.inTried && i.refCount != 0 then -2
    else if !i.inTried && (i.refCount < 0 || i.refCount > NEW_BUCKETS_PER_ADDRESS) then -3
    else if !i.inTried && i.refCount == 0 then -4
    else if (if i.svc.ip in s.addr then s.addr[i.svc.ip] else 0) != id then -5
    else if i.randomPos >= |s.random| || s.random[i.randomPos] != id then -14
    else if i.lastTry < 0 then -6
    else if i.lastSuccess < 0 then -8
    else 0
  }

  /** What each code says of the entry. */
  lemma CodeSays(s: State, id: nat)
    requires id in s.info
    ensures var i, code := s.info[id], EntryCode(s, id);
            && code in {0, -1, -2, -3, -4, -5, -6, -8, -14}
            && (code == -1 ==> i.inTried && i.lastSuccess == 0)
            && (code == -2 ==> i.inTried && i.refCount != 0)
            && (code == -3 ==> !i.inTried && !(0 <= i.refCount <= 4))
            && (code == -4 ==> !i.inTried && i.refCount == 0)
            && (code == -5 ==> i.svc.ip in s.addr ==> s.addr[i.svc.ip] != id)
            && (code == -14 ==> !(i.randomPos < |s.random| && s.random[i.randomPos] == id))
            && (code == -6 ==> i.lastTry < 0)
            && (code == -8 ==> i.lastSuccess < 0)
  {
  }

  lemma EntryCodeMeaning(env: Env, s: State, id: nat)
    requires Inv(env, s) && id in s.info
    ensures EntryCode(s, id) == 0 <==> TimeOk(s.info[id])
    ensures EntryCode(s, id) in {0, -1, -6, -8}
  {
    hide TriedOk, NewOk, Known, CountOk;
    KnownShape(s);
    if s.info[id].inTried { TriedHome(env, s, id); } else { NewRef(s, id, NONE); }
  }

  // ---------------------------------------------------------------- what a silent check vouches for

  ghost predicate EntriesPass(s: State) {
    forall id :: id in s.info ==> EntryCode(s, id) == 0
  }

  /** The slots of the first `b` buckets, one after the other. */
  function Slots(tried: seq<seq<nat>>, b: nat): seq<nat>
    requires b <= |tried|
  {
    if b == 0 then [] else Slots(tried, b - 1) + tried[b - 1]
  }

  /** Every tried entry has exactly one slot, in whatever bucket, and nothing else has one. */
  ghost predicate SlotsPass(s: State) {
    Distinct(Slots(s.tried, |s.tried|)) && Elems(Slots(s.tried, |s.tried|)) == TriedIds(s.info)
  }

  /** The new buckets hold new entries only, each in as many buckets as it has references. */
  ghost predicate RefsPass(s: State) {
    && (forall b, id :: 0 <= b < |s.news| && id in s.news[b] ==> id in NewIds(s.info))
    && (forall id :: id in NewIds(s.info) ==> s.info[id].refCount == Count(s.news, id))
  }

  ghost predicate Passes(s: State) {
    |s.random| == s.nTried + s.nNew && EntriesPass(s) && CountOk(s) && SlotsPass(s) && RefsPass(s)
  }

  // ---------------------------------------------------------------- the first pass

  function RefsOf(info: map<nat, Info>, ids: set<nat>): map<nat, int>
    requires ids <= info.Keys
  {
    map id | id in ids && !info[id].inTried :: info[id].refCount
  }

  /** The entries met so far pass; their tried ids and the references of the new ones have been collected. */
  ghost predicate Collected(s: State, ids: set<nat>, setTried: set<nat>, mapNew: map<nat, int>) {
    && ids <= s.info.Keys && (forall id :: id in ids ==> EntryCode(s, id) == 0)
    && setTried == (set id | id in ids && s.info[id].inTried) && mapNew == RefsOf(s.info, ids)
  }

  lemma CollectedStep(s: State, ids: set<nat>, setTried: set<nat>, mapNew: map<nat, int>, id: nat)
    requires Collected(s, ids, setTried, mapNew) && id in s.info && EntryCode(s, id) == 0
    ensures if s.info[id].inTried then Collected(s, ids + {id}, setTried + {id}, mapNew)
            else Collected(s, ids + {id}, setTried, mapNew[id := s.info[id].refCount])
  {
    hide EntryCode;
  }

  lemma CollectedNone(s: State)
    ensures Collected(s, {}, {}, map[])
  {
  }

  lemma CollectedAll(s: State, setTried: set<nat>, mapNew: map<nat, int>)
    requires Collected(s, s.info.Keys, setTried, mapNew)
    ensures EntriesPass(s) && setTried == TriedIds(s.info) && mapNew == RefsOf(s.info, s.info.Keys)
  {
    hide EntryCode;
  }

  /** First pass: test every entry and collect the tried ids and the reference counts of the new ones. */
  method CheckEntries(s: State) returns (code: int, setTried: set<nat>, mapNew: map<nat, int>)
    ensures code == 0 <==> EntriesPass(s)
    ensures code != 0 ==> exists id :: id in s.info && EntryCode(s, id) == code
    ensures code == 0 ==> setTried == TriedIds(s.info) && mapNew == RefsOf(s.info, s.info.Keys)
  {
    hide Ascending, EntryCode, Collected, RefsOf;
    var order := Ascending(s.info.Keys);
    code, setTried, mapNew := 0, {}, map[];
    CollectedNone(s);
    assert Elems(order[..0]) == {};
    var n := 0;
    while n < |order|
      invariant 0 <= n <= |order| && code == 0
      invariant Collected(s, Elems(order[..n]), setTried, mapNew)
    {
      var id := order[n];
      NextInOrder(s, n);
      code := EntryCode(s, id);
      if code != 0 {
        return;
      }
      CollectedStep(s, Elems(order[..n]), setTried, mapNew, id);
      if s.info[id].inTried {
        setTried := setTried + {id};
      } else {
        mapNew := mapNew[id := s.info[id].refCount];
      }
      n := n + 1;
    }
    AllInOrder(s);
    CollectedAll(s, setTried, mapNew);
  }

  lemma NextInOrder(s: State, n: nat)
    requires n < |Ascending(s.info.Keys)|
    ensures var order := Ascending(s.info.Keys); order[n] in s.info && Elems(order[..n + 1]) == Elems(order[..n]) + {order[n]}
  {
    hide Ascending;
    AscendingElements(s.info.Keys);
    var order := Ascending(s.info.Keys);
    assert order[n] in order;
    assert order[..n + 1] == order[..n] + [order[n]];
  }

  lemma AllInOrder(s: State)
    ensures var order := Ascending(s.info.Keys); Elems(order[..|order|]) == s.info.Keys
  {
    hide Ascending;
    AscendingElements(s.info.Keys);
    var order := Ascending(s.info.Keys);
    assert order[..|order|] == order;
  }

  // ---------------------------------------------------------------- the tried buckets

  /** One tried bucket: every slot must name a tried entry not met before, and is crossed off. */
  method CheckTriedBucket(q: seq<nat>, setTried: set<nat>) returns (code: int, rest: set<nat>)
    ensures code in {0, -11} && (code == 0 <==> Distinct(q) && Elems(q) <= setTried)
    ensures code == 0 ==> rest == setTried - Elems(q)
  {
    rest := setTried;
    var n := 0;
    assert q[..0] == [];
    while n < |q|
      invariant 0 <= n <= |q| && Distinct(q[..n]) && Elems(q[..n]) <= setTried
      invariant rest == setTried - Elems(q[..n])
    {
      SlotStep(q, n, setTried);
      if q[n] !in rest {
        return -11, rest;
      }
      rest := rest - {q[n]};
      n := n + 1;
    }
    assert q[..|q|] == q;
    return 0, rest;
  }

  /** The next slot is fine when it names a listed id not among the slots before; otherwise the bucket fails. */
  lemma SlotStep(q: seq<nat>, n: nat, listed: set<nat>)
    requires n < |q| && Distinct(q[..n]) && Elems(q[..n]) <= listed
    ensures Elems(q[..n + 1]) == Elems(q[..n]) + {q[n]}
    ensures if q[n] in listed - Elems(q[..n]) then Distinct(q[..n + 1]) && Elems(q[..n + 1]) <= listed
            else !(Distinct(q) && Elems(q) <= listed)
  {
    assert q[..n + 1] == q[..n] + [q[n]];
    if q[n] in q[..n] {
      var i :| 0 <= i < n && q[..n][i] == q[n];
      assert q[i] == q[n];
    }
    assert q[n] in Elems(q);
  }

  /** The slots of the first `b` buckets are pairwise different ids of `listed`. */
  ghost predicate SlotsFine(tried: seq<seq<nat>>, b: nat, listed: set<nat>)
    requires b <= |tried|
  {
    Distinct(Slots(tried, b)) && Elems(Slots(tried, b)) <= listed
  }

  lemma ConcatFine(p: seq<nat>, q: seq<nat>, listed: set<nat>)
    ensures Distinct(p + q) && Elems(p + q) <= listed
            <==> Distinct(p) && Elems(p) <= listed && Distinct(q) && Elems(q) <= listed - Elems(p)
    ensures Elems(p + q) == Elems(p) + Elems(q)
  {
    ElemsConcat(p, q);
    if Distinct(p + q) {
      forall i, j | 0 <= i < j < |p| ensures p[i] != p[j] { assert (p + q)[i] == p[i] && (p + q)[j] == p[j]; }
      forall i, j | 0 <= i < j < |q| ensures q[i] != q[j] { assert (p + q)[|p| + i] == q[i] && (p + q)[|p| + j] == q[j]; }
      forall i, j | 0 <= i < |p| && 0 <= j < |q| ensures p[i] != q[j] { assert (p + q)[i] == p[i] && (p + q)[|p| + j] == q[j]; }
    }
    if Distinct(p) && Distinct(q) && Elems(q) <= listed - Elems(p) {
      forall i, j | 0 <= i < j < |p + q| ensures (p + q)[i] != (p + q)[j] {
        if i < |p| <= j { assert q[j - |p|] in Elems(q) && p[i] in Elems(p); }
      }
    }
  }

  lemma ElemsConcat(p: seq<nat>, q: seq<nat>)
    ensures Elems(p + q) == Elems(p) + Elems(q)
  {
  }

  lemma SlotsNext(tried: seq<seq<nat>>, b: nat, listed: set<nat>)
    requires b < |tried|
    ensures Elems(Slots(tried, b + 1)) == Elems(Slots(tried, b)) + Elems(tried[b])
    ensures SlotsFine(tried, b + 1, listed)
            <==> SlotsFine(tried, b, listed) && Distinct(tried[b]) && Elems(tried[b]) <= listed - Elems(Slots(tried, b))
  {
    hide Distinct, Elems;
    ConcatFine(Slots(tried, b), tried[b], listed);
  }

  /** Once the slots fail, more buckets do not mend them. */
  lemma {:induction false} SlotsStayBad(tried: seq<seq<nat>>, b: nat, c: nat, listed: set<nat>)
    requires b <= c <= |tried| && SlotsFine(tried, c, listed)
    ensures SlotsFine(tried, b, listed)
  {
    hide SlotsFine;
    if b < c {
      SlotsNext(tried, c - 1, listed);
      SlotsStayBad(tried, b, c - 1, listed);
    }
  }

  /** All tried buckets in turn; what is left over are the tried entries without a slot. */
  method CheckTried(tried: seq<seq<nat>>, setTried: set<nat>) returns (code: int, rest: set<nat>)
    ensures code in {0, -11} && (code == 0 <==> SlotsFine(tried, |tried|, setTried))
    ensures code == 0 ==> rest == setTried - Elems(Slots(tried, |tried|))
  {
    hide SlotsFine, Slots, Distinct;
    rest := setTried;
    SlotsNone(tried, setTried);
    var b := 0;
    while b < |tried|
      invariant 0 <= b <= |tried| && SlotsFine(tried, b, setTried) && rest == setTried - Elems(Slots(tried, b))
    {
      SlotsNext(tried, b, setTried);
      code, rest := CheckTriedBucket(tried[b], rest);
      if code != 0 {
        if SlotsFine(tried, |tried|, setTried) { SlotsStayBad(tried, b + 1, |tried|, setTried); }
        return;
      }
      b := b + 1;
    }
    code := 0;
  }

  lemma SlotsNone(tried: seq<seq<nat>>, listed: set<nat>)
    ensures SlotsFine(tried, 0, listed) && Elems(Slots(tried, 0)) == {}
  {
  }

  // ---------------------------------------------------------------- the new buckets

  /** The outstanding references after one of each member of `bucket` has been crossed off. */
  function CrossedOff(m: map<nat, int>, bucket: set<nat>): map<nat, int> {
    map id | id in m && (id in bucket ==> m[id] != 1) :: if id in bucket then m[id] - 1 else m[id]
  }

  /** One new bucket: every member must have a reference outstanding. */
  method CheckNewBucket(bucket: set<nat>, mapNew: map<nat, int>) returns (code: int, rest: map<nat, int>)
    ensures code in {0, -12} && (code == 0 <==> bucket <= mapNew.Keys)
    ensures code == 0 ==> rest == CrossedOff(mapNew, bucket)
  {
    hide Ascending, CrossedOff;
    var order := Ascending(bucket);
    rest := mapNew;
    CrossedNone(mapNew);
    assert Elems(order[..0]) == {};
    var n := 0;
    while n < |order|
      invariant 0 <= n <= |order| && Elems(order[..n]) <= mapNew.Keys && rest == CrossedOff(mapNew, Elems(order[..n]))
    {
      var id := order[n];
      CrossedStep(mapNew, bucket, n);
      if id !in rest {
        return -12, rest;
      }
      rest := rest[id := rest[id] - 1];
      if rest[id] == 0 {
        rest := rest - {id};
      }
      n := n + 1;
    }
    BucketInOrder(bucket);
    return 0, rest;
  }

  lemma CrossedNone(m: map<nat, int>)
    ensures CrossedOff(m, {}) == m
  {
  }

  lemma CrossedStep(m: map<nat, int>, bucket: set<nat>, n: nat)
    requires n < |Ascending(bucket)|
    ensures var order := Ascending(bucket);
            var id, rest := order[n], CrossedOff(m, Elems(order[..n]));
            && id in bucket && Elems(order[..n + 1]) == Elems(order[..n]) + {id}
            && (id in rest <==> id in m)
            && (id in rest ==>
                 CrossedOff(m, Elems(order[..n + 1])) == if rest[id] == 1 then rest - {id} else rest[id := rest[id] - 1])
  {
    hide Ascending;
    AscendingElements(bucket);
    var order := Ascending(bucket);
    assert order[n] in order && order[n] !in order[..n];
    assert order[..n + 1] == order[..n] + [order[n]];
    CrossedOne(m, Elems(order[..n]), order[n]);
  }

  lemma CrossedOne(m: map<nat, int>, met: set<nat>, id: nat)
    requires id !in met
    ensures var rest := CrossedOff(m, met);
            && (id in rest <==> id in m)
            && (id in rest ==>
                 CrossedOff(m, met + {id}) == if rest[id] == 1 then rest - {id} else rest[id := rest[id] - 1])
  {
  }

  lemma BucketInOrder(bucket: set<nat>)
    ensures var order := Ascending(bucket); Elems(order[..|order|]) == bucket
  {
    hide Ascending;
    AscendingElements(bucket);
    assert Ascending(bucket)[..|Ascending(bucket)|] == Ascending(bucket);
  }

  /** The outstanding references once the first `b` buckets have been crossed off. */
  function Outstanding(m: map<nat, int>, news: seq<set<nat>>, b: nat): map<nat, int>
    requires b <= |news|
  {
    map id | id in m && m[id] > Count(news[..b], id) :: m[id] - Count(news[..b], id)
  }

  /** Members of the first `b` buckets are in the map, with at least as many references as buckets. */
  ghost predicate RefsFine(m: map<nat, int>, news: seq<set<nat>>, b: nat)
    requires b <= |news|
  {
    forall c, id :: 0 <= c < b && id in news[c] ==> id in m && m[id] >= Count(news[..b], id)
  }

  lemma CountNext(news: seq<set<nat>>, b: nat, id: nat)
    requires b < |news|
    ensures Count(news[..b + 1], id) == Count(news[..b], id) + (if id in news[b] then 1 else 0)
  {
    var now, next := BucketsOf(news[..b], id), BucketsOf(news[..b + 1], id);
    assert next == if id in news[b] then now + {b} else now;
  }

  lemma CountNone(news: seq<set<nat>>, b: nat, id: nat)
    requires b <= |news| && forall c :: 0 <= c < b ==> id !in news[c]
    ensures Count(news[..b], id) == 0
  {
    assert BucketsOf(news[..b], id) == {};
  }

  lemma OutstandingNext(m: map<nat, int>, news: seq<set<nat>>, b: nat)
    requires b < |news|
    ensures Outstanding(m, news, b + 1) == CrossedOff(Outstanding(m, news, b), news[b])
  {
    hide Count;
    forall id ensures Count(news[..b + 1], id) == Count(news[..b], id) + (if id in news[b] then 1 else 0) {
      CountNext(news, b, id);
    }
  }

  lemma RefsNext(m: map<nat, int>, news: seq<set<nat>>, b: nat)
    requires b < |news|
    ensures RefsFine(m, news, b + 1) <==> RefsFine(m, news, b) && news[b] <= Outstanding(m, news, b).Keys
  {
    hide Count;
    forall id ensures Count(news[..b + 1], id) == Count(news[..b], id) + (if id in news[b] then 1 else 0) {
      CountNext(news, b, id);
    }
    if RefsFine(m, news, b) && news[b] <= Outstanding(m, news, b).Keys {
      forall c, id | 0 <= c < b + 1 && id in news[c] ensures id in m && m[id] >= Count(news[..b + 1], id) {
        if id in news[b] { assert id in Outstanding(m, news, b); }
      }
    }
    if RefsFine(m, news, b + 1) {
      assert forall id :: id in news[b] ==> m[id] >= Count(news[..b + 1], id);
    }
  }

  /** Once the references fail, more buckets do not mend them. */
  lemma {:induction false} RefsStayBad(m: map<nat, int>, news: seq<set<nat>>, b: nat, c: nat)
    requires b <= c <= |news| && RefsFine(m, news, c)
    ensures RefsFine(m, news, b)
  {
    hide RefsFine, Outstanding;
    if b < c {
      RefsNext(m, news, c - 1);
      RefsStayBad(m, news, b, c - 1);
    }
  }

  /** All new buckets in turn; what is left over are references without a bucket. */
  method CheckNew(news: seq<set<nat>>, mapNew: map<nat, int>) returns (code: int, rest: map<nat, int>)
    requires forall id :: id in mapNew ==> mapNew[id] > 0
    ensures code in {0, -12} && (code == 0 <==> RefsFine(mapNew, news, |news|))
    ensures code == 0 ==> rest == Outstanding(mapNew, news, |news|)
  {
    hide RefsFine, Outstanding, CrossedOff;
    rest := mapNew;
    RefsNone(mapNew, news);
    var b := 0;
    while b < |news|
      invariant 0 <= b <= |news| && RefsFine(mapNew, news, b) && rest == Outstanding(mapNew, news, b)
    {
      RefsNext(mapNew, news, b);
      OutstandingNext(mapNew, news, b);
      code, rest := CheckNewBucket(news[b], rest);
      if code != 0 {
        if RefsFine(mapNew, news, |news|) { RefsStayBad(mapNew, news, b + 1, |news|); }
        return;
      }
      b := b + 1;
    }
    code := 0;
  }

  lemma RefsNone(m: map<nat, int>, news: seq<set<nat>>)
    requires forall id :: id in m ==> m[id] > 0
    ensures RefsFine(m, news, 0) && Outstanding(m, news, 0) == m
  {
    hide Count;
    forall id: nat ensures Count(news[..0], id) == 0 { CountNone(news, 0, id); }
  }

  // ---------------------------------------------------------------- the whole check

  /** Tried slots in order, up to the tried entries without one. */
  ghost predicate SlotsFit(s: State) { SlotsFine(s.tried, |s.tried|, TriedIds(s.info)) }

  /** References in order, up to those without a bucket. */
  ghost predicate RefsFit(s: State) { RefsFine(RefsOf(s.info, s.info.Keys), s.news, |s.news|) }

  lemma SlotsPassIff(s: State)
    ensures SlotsPass(s) <==> SlotsFit(s) && TriedIds(s.info) - Elems(Slots(s.tried, |s.tried|)) == {}
  {
    hide TriedIds, Elems, Slots, Distinct;
    var slots, listed := Elems(Slots(s.tried, |s.tried|)), TriedIds(s.info);
    assert slots == listed <==> slots <= listed && listed <= slots;
    if listed - slots == {} {
      forall x | x in listed ensures x in slots { assert x !in listed - slots; }
    }
  }

  lemma RefsPassIff(s: State)
    requires EntriesPass(s)
    ensures RefsPass(s) <==> RefsFit(s) && Outstanding(RefsOf(s.info, s.info.Keys), s.news, |s.news|) == map[]
  {
    hide Count, EntryCode, EntriesPass;
    var m := RefsOf(s.info, s.info.Keys);
    assert m.Keys == NewIds(s.info);
    assert s.news[..|s.news|] == s.news;
    if RefsFit(s) && Outstanding(m, s.news, |s.news|) == map[] {
      forall id | id in NewIds(s.info) ensures s.info[id].refCount == Count(s.news, id) {
        assert id !in Outstanding(m, s.news, |s.news|);
        PassingRefs(s, id);
        var c := CountBucket(s.news, id);
      }
    }
  }

  lemma PassingRefs(s: State, id: nat)
    requires EntriesPass(s) && id in s.info && !s.info[id].inTried
    ensures 1 <= s.info[id].refCount <= NEW_BUCKETS_PER_ADDRESS
  {
    assert EntryCode(s, id) == 0;
  }

  /** An entry counted in some bucket is in one. */
  lemma CountBucket(news: seq<set<nat>>, id: nat) returns (c: nat)
    requires Count(news, id) > 0
    ensures c < |news| && id in news[c]
  {
    assert BucketsOf(news, id) != {};
    c :| c in BucketsOf(news, id);
  }

  /** What the code says: the first of the tests, in their order, that does not hold; 0 when all do. */
  ghost predicate Explains(s: State, code: int) {
    if |s.random| != s.nTried + s.nNew then code == -7
    else if !EntriesPass(s) then code != 0 && exists id :: id in s.info && EntryCode(s, id) == code
    else if s.nTried != |TriedIds(s.info)| then code == -9
    else if s.nNew != |NewIds(s.info)| then code == -10
    else if !SlotsFit(s) then code == -11
    else if !RefsFit(s) then code == -12
    else if !SlotsPass(s) then code == -13
    else if !RefsPass(s) then code == -15
    else code == 0
  }

  /** The check, on any state whatever. */
  method Check(s: State) returns (code: int)
    ensures Explains(s, code) && (code == 0 <==> Passes(s))
  {
    hide EntriesPass, EntryCode, SlotsPass, RefsPass, SlotsFine, RefsFine, RefsOf, Outstanding, Slots, TriedIds, NewIds;
    if |s.random| != s.nTried + s.nNew {
      return -7;
    }
    var entries, setTried, mapNew := CheckEntries(s);
    if entries != 0 {
      return entries;
    }
    RefsPositive(s);
    SlotsPassIff(s);
    RefsPassIff(s);
    if |setTried| != s.nTried {
      return -9;
    }
    if |mapNew| != s.nNew {
      return -10;
    }
    code, setTried := CheckTried(s.tried, setTried);
    if code != 0 {
      return;
    }
    code, mapNew := CheckNew(s.news, mapNew);
    if code != 0 {
      return;
    }
    if setTried != {} {
      return -13;
    }
    MapEmpty(mapNew);
    if |mapNew| != 0 {
      return -15;
    }
    return 0;
  }

  lemma RefsPositive(s: State)
    requires EntriesPass(s)
    ensures var m := RefsOf(s.info, s.info.Keys);
            m.Keys == NewIds(s.info) && |m| == |NewIds(s.info)| && forall id :: id in m ==> m[id] > 0
  {
    hide EntriesPass;
    var m := RefsOf(s.info, s.info.Keys);
    assert m.Keys == NewIds(s.info);
    assert |m| == |m.Keys|;
    forall id | id in m ensures m[id] > 0 { PassingRefs(s, id); }
  }

  // ---------------------------------------------------------------- what the check does not see

  /** Entries of the tried table are in their home buckets. */
  ghost predicate HomesOk(env: Env, s: State) {
    forall b, id :: 0 <= b < |s.tried| && id in s.tried[b] && id in s.info ==> Home(env, s, id) == b
  }

  ghost predicate SizesOk(s: State) {
    && (forall b :: 0 <= b < |s.tried| ==> |s.tried[b]| <= TRIED_BUCKET_SIZE)
    && (forall b :: 0 <= b < |s.news| ==> |s.news[b]| <= NEW_BUCKET_SIZE)
  }

  /** Nothing stray in the address map, and new ids ahead; a look-up that fails counts as finding entry 0. */
  ghost predicate AddressesOk(s: State) {
    && (forall ip :: ip in s.addr ==> s.addr[ip] in s.info && s.info[s.addr[ip]].svc.ip == ip)
    && (0 in s.info ==> s.info[0].svc.ip in s.addr)
    && (forall id :: id in s.info ==> id < s.idCount)
  }

  /**
   Of a table of the right shape the check sees everything the invariant asks but three things: home buckets, bucket
   sizes, and the addresses and ids that no entry vouches for.
   */
  lemma CheckExact(env: Env, s: State)
    requires Shape(s)
    ensures Inv(env, s) && TimesOk(s) <==> Passes(s) && HomesOk(env, s) && SizesOk(s) && AddressesOk(s)
  {
    hide Inv, TimesOk, EntriesPass, CountOk, SlotsPass, RefsPass, HomesOk, SizesOk, AddressesOk;
    if Inv(env, s) && TimesOk(s) {
      InvPasses(env, s);
      InvUnseen(env, s);
    }
    if Passes(s) && HomesOk(env, s) && SizesOk(s) && AddressesOk(s) {
      PassesInv(env, s);
    }
  }

  lemma InvPasses(env: Env, s: State)
    requires Inv(env, s)
    ensures |s.random| == s.nTried + s.nNew && CountOk(s) && SlotsPass(s) && RefsPass(s)
    ensures EntriesPass(s) <==> TimesOk(s)
    ensures forall id :: id in s.info ==> EntryCode(s, id) in {0, -1, -6, -8}
  {
    hide Known, LinkOk, TriedOk, NewOk, CountOk, EntryCode, SlotsPass, RefsPass;
    KnownShape(s);
    SizeBound(env, s);
    forall id | id in s.info
      ensures (EntryCode(s, id) == 0 <==> TimeOk(s.info[id])) && EntryCode(s, id) in {0, -1, -6, -8}
    {
      EntryCodeMeaning(env, s, id);
    }
    TriedSlotsPass(env, s);
    NewRefsPass(s);
  }

  lemma NewRefsPass(s: State)
    requires Shape(s) && NewOk(s, NONE)
    ensures RefsPass(s)
  {
    hide Count;
  }

  /** Homes keep the slots of different buckets apart. */
  lemma {:induction false} HomeSlots(env: Env, s: State, b: nat)
    requires Shape(s) && TriedOk(env, s) && b <= TRIED_BUCKET_COUNT
    ensures Distinct(Slots(s.tried, b))
    ensures forall id :: id in Elems(Slots(s.tried, b)) <==> id in TriedIds(s.info) && Home(env, s, id) < b
  {
    hide TriedOk, Slots, Distinct, Home;
    if b == 0 {
      SlotsNone(s.tried, {});
      assert SlotsFine(s.tried, 0, {});
    } else {
      HomeSlots(env, s, b - 1);
      var p, q := Slots(s.tried, b - 1), s.tried[b - 1];
      SlotsSplit(s.tried, b);
      TriedBucketSize(env, s, b - 1);
      forall id ensures id in Elems(q) <==> id in TriedIds(s.info) && Home(env, s, id) == b - 1 {
        if id in q { TriedBucketHome(env, s, b - 1, id); }
        if id in TriedIds(s.info) { TriedHome(env, s, id); }
      }
      ConcatFine(p, q, Elems(p) + Elems(q));
      assert Elems(q) <= Elems(p) + Elems(q) - Elems(p);
    }
  }

  lemma SlotsSplit(tried: seq<seq<nat>>, b: nat)
    requires 0 < b <= |tried|
    ensures Slots(tried, b) == Slots(tried, b - 1) + tried[b - 1]
  {
  }

  lemma TriedBucketSize(env: Env, s: State, b: nat)
    requires Shape(s) && TriedOk(env, s) && b < TRIED_BUCKET_COUNT
    ensures Distinct(s.tried[b]) && |s.tried[b]| <= TRIED_BUCKET_SIZE
  {
  }

  lemma TriedSlotsPass(env: Env, s: State)
    requires Shape(s) && TriedOk(env, s)
    ensures SlotsPass(s)
  {
    hide TriedOk, Slots, Distinct;
    HomeSlots(env, s, TRIED_BUCKET_COUNT);
    forall id ensures id in Elems(Slots(s.tried, |s.tried|)) <==> id in TriedIds(s.info) {
    }
  }

  lemma InvUnseen(env: Env, s: State)
    requires Inv(env, s)
    ensures HomesOk(env, s) && SizesOk(s) && AddressesOk(s)
  {
    hide Known, LinkOk, TriedOk, NewOk, CountOk, Home;
    KnownShape(s);
    forall b, id | 0 <= b < |s.tried| && id in s.tried[b] && id in s.info ensures Home(env, s, id) == b {
      TriedBucketHome(env, s, b, id);
    }
    forall b | 0 <= b < |s.tried| ensures |s.tried[b]| <= TRIED_BUCKET_SIZE { TriedBucketSize(env, s, b); }
    forall b | 0 <= b < |s.news| ensures |s.news[b]| <= NEW_BUCKET_SIZE { NewSize(s, b, NONE); }
    forall ip | ip in s.addr ensures s.addr[ip] in s.info && s.info[s.addr[ip]].svc.ip == ip { AddrIndexed(s, ip); }
    forall id | id in s.info ensures id < s.idCount && s.info[id].svc.ip in s.addr { InfoIndexed(s, id); }
  }

  lemma PassesInv(env: Env, s: State)
    requires Shape(s) && Passes(s) && HomesOk(env, s) && SizesOk(s) && AddressesOk(s)
    ensures Inv(env, s) && TimesOk(s)
  {
    hide EntryCode, EntriesPass, SlotsPass, RefsPass, HomesOk, SizesOk, AddressesOk, TimesOk, LinkOk, TriedOk, NewOk, CountOk, Known;
    PassingTimes(s);
    PassingLink(s);
    PassingTried(env, s);
    PassingNew(s);
    KnownFrom(env, s, NONE);
  }

  lemma PassingEntry(s: State, id: nat)
    requires EntriesPass(s) && id in s.info
    ensures TimeOk(s.info[id]) && (s.info[id].inTried ==> s.info[id].refCount == 0)
    ensures s.info[id].randomPos < |s.random| && s.random[s.info[id].randomPos] == id
    ensures if s.info[id].svc.ip in s.addr then s.addr[s.info[id].svc.ip] == id else id == 0
  {
    assert EntryCode(s, id) == 0;
  }

  lemma PassingTimes(s: State)
    requires EntriesPass(s)
    ensures TimesOk(s)
  {
    hide EntriesPass;
    forall id | id in s.info ensures TimeOk(s.info[id]) { PassingEntry(s, id); }
  }

  /** As many positions as entries, each entry at its own: the random vector has no room for anything else. */
  lemma PassingPos(s: State)
    requires EntriesPass(s) && CountOk(s) && |s.random| == s.nTried + s.nNew
    ensures PosOk(s.random, s.info)
  {
    hide EntriesPass, Distinct, TriedIds, NewIds;
    IdsPartition(s.info);
    forall id | id in s.info.Keys
      ensures id in Elems(s.random) && s.info[id].randomPos < |s.random| && s.random[s.info[id].randomPos] == id
    {
      PassingEntry(s, id);
    }
    assert |s.info.Keys| == |s.info|;
    SetFromSeqBound(Elems(s.random), s.random);
    SubsetCard(s.info.Keys, Elems(s.random));
    SubsetFull(s.info.Keys, Elems(s.random));
    FullDistinct(s.random);
    forall k | 0 <= k < |s.random| ensures s.random[k] in s.info && s.info[s.random[k]].randomPos == k {
      assert s.random[k] in Elems(s.random);
      DistinctAt(s.random, s.info[s.random[k]].randomPos, k);
    }
  }

  /** A sequence with as many elements as places repeats none. */
  lemma {:induction false} FullDistinct(q: seq<nat>)
    requires |Elems(q)| >= |q|
    ensures Distinct(q)
  {
    if q != [] {
      var last := q[|q| - 1];
      var rest := q[..|q| - 1];
      assert q == rest + [last];
      assert Elems(q) == Elems(rest) + {last};
      SetFromSeqBound(Elems(rest), rest);
      FullDistinct(rest);
    }
  }

  lemma PassingLink(s: State)
    requires Passes(s) && AddressesOk(s)
    ensures LinkOk(s)
  {
    hide EntryCode, EntriesPass, SlotsPass, RefsPass, CountOk, PosOk;
    PassingPos(s);
    forall id | id in s.info ensures id < s.idCount && s.info[id].svc.ip in s.addr && s.addr[s.info[id].svc.ip] == id {
      PassingEntry(s, id);
    }
    LinkIntro(s);
  }

  lemma {:induction false} SlotBucket(tried: seq<seq<nat>>, b: nat, id: nat) returns (k: nat)
    requires b <= |tried| && id in Slots(tried, b)
    ensures k < b && id in tried[k]
  {
    if id in tried[b - 1] {
      k := b - 1;
    } else {
      k := SlotBucket(tried, b - 1, id);
    }
  }

  lemma {:induction false} BucketSlot(tried: seq<seq<nat>>, b: nat, k: nat, id: nat)
    requires k < b <= |tried| && id in tried[k]
    ensures id in Slots(tried, b)
  {
    if k < b - 1 { BucketSlot(tried, b - 1, k, id); }
  }

  lemma PassingTried(env: Env, s: State)
    requires Shape(s) && EntriesPass(s) && SlotsPass(s) && HomesOk(env, s) && SizesOk(s)
    ensures TriedOk(env, s)
  {
    hide EntryCode, EntriesPass, Slots, Distinct, Home;
    var all := Slots(s.tried, |s.tried|);
    forall id | id in s.info && s.info[id].inTried ensures s.info[id].refCount == 0 && id in s.tried[Home(env, s, id)] {
      PassingEntry(s, id);
      assert id in Elems(all);
      var k := SlotBucket(s.tried, |s.tried|, id);
    }
    forall b, id | 0 <= b < TRIED_BUCKET_COUNT && id in s.tried[b]
      ensures id in s.info && s.info[id].inTried && Home(env, s, id) == b
    {
      BucketSlot(s.tried, |s.tried|, b, id);
      assert id in Elems(all);
    }
    forall b | 0 <= b < TRIED_BUCKET_COUNT ensures |s.tried[b]| <= TRIED_BUCKET_SIZE && Distinct(s.tried[b]) {
      SlotsStayBad(s.tried, b + 1, |s.tried|, TriedIds(s.info));
      SlotsNext(s.tried, b, TriedIds(s.info));
    }
    TriedOkIntro(env, s);
  }

  lemma PassingNew(s: State)
    requires Shape(s) && EntriesPass(s) && RefsPass(s) && SizesOk(s)
    ensures NewOk(s, NONE)
  {
    hide EntryCode, EntriesPass, Count;
    forall id | id in s.info && !s.info[id].inTried
      ensures 1 <= s.info[id].refCount <= NEW_BUCKETS_PER_ADDRESS && s.info[id].refCount == Count(s.news, id)
    {
      PassingRefs(s, id);
      assert id in NewIds(s.info);
    }
    forall b, id | 0 <= b < NEW_BUCKET_COUNT && id in s.news[b] ensures id in s.info && !s.info[id].inTried {
      assert id in NewIds(s.info);
    }
    NewOkIntro(s, NONE);
  }

  /** On a consistent table only the time fields can make the check complain. */
  lemma CodesOnInv(env: Env, s: State, code: int)
    requires Inv(env, s) && Explains(s, code)
    ensures code in {0, -1, -6, -8} && (code == 0 <==> TimesOk(s))
  {
    hide Inv, EntryCode, EntriesPass, SlotsPass, RefsPass, TimesOk, TriedIds, NewIds, SlotsFine, RefsFine, RefsOf, Outstanding, Slots;
    InvPasses(env, s);
    if EntriesPass(s) {
      SlotsPassIff(s);
      RefsPassIff(s);
    }
  }

  // ---------------------------------------------------------------- three tables it accepts

  /** A stray address passes: the map of an empty table is never looked at. */
  lemma StrayAddressPasses(env: Env, key: Key, ip: NetAddr, id: nat)
    ensures var s := InitState(key).(addr := map[ip := id]); Shape(s) && Passes(s) && !Inv(env, s)
  {
    var s := InitState(key).(addr := map[ip := id]);
    EmptySlots(s.tried, |s.tried|);
    assert ip in s.addr && s.addr[ip] !in s.info;
  }

  lemma {:induction false} EmptySlots(tried: seq<seq<nat>>, b: nat)
    requires b <= |tried| && forall k :: 0 <= k < |tried| ==> tried[k] == []
    ensures Slots(tried, b) == []
  {
    if b > 0 { EmptySlots(tried, b - 1); }
  }

  /** A table of one tried entry, in bucket `k`. */
  function OneTried(key: Key, svc: Service, time: int, k: nat): State
    requires k < TRIED_BUCKET_COUNT
  {
    var i := Info(svc, {}, 0, 0, time, time, 0, 0, true, 0);
    InitState(key).(idCount := 1, info := map[0 := i], addr := map[svc.ip := 0], random := [0], nTried := 1,
                    tried := InitState(key).tried[k := [0]])
  }

  lemma {:induction false} OneSlot(tried: seq<seq<nat>>, b: nat, k: nat, id: nat)
    requires b <= |tried| && k < |tried| && forall j :: 0 <= j < |tried| ==> tried[j] == if j == k then [id] else []
    ensures Slots(tried, b) == if k < b then [id] else []
  {
    if b > 0 { OneSlot(tried, b - 1, k, id); }
  }

  /** The check never asks for the bucket: an entry passes in any of the 64, though only one is its home. */
  lemma AnyBucketPasses(env: Env, key: Key, svc: Service, time: int, k: nat)
    requires k < TRIED_BUCKET_COUNT && time > 0
    ensures var s := OneTried(key, svc, time, k); Shape(s) && Passes(s) && (Inv(env, s) <==> k == TriedBucket(env, key, svc))
  {
    hide Inv, Passes, TimesOk, SizesOk, AddressesOk, TriedBucket;
    var s := OneTried(key, svc, time, k);
    OneTriedPasses(key, svc, time, k);
    OneTriedTimes(key, svc, time, k);
    CheckExact(env, s);
    assert HomesOk(env, s) <==> k == TriedBucket(env, key, svc) by {
      assert 0 in s.tried[k] && 0 in s.info && Home(env, s, 0) == TriedBucket(env, key, svc);
    }
  }

  lemma OneTriedTimes(key: Key, svc: Service, time: int, k: nat)
    requires k < TRIED_BUCKET_COUNT && time > 0
    ensures TimesOk(OneTried(key, svc, time, k))
  {
  }

  lemma OneTriedPasses(key: Key, svc: Service, time: int, k: nat)
    requires k < TRIED_BUCKET_COUNT && time > 0
    ensures var s := OneTried(key, svc, time, k); Shape(s) && Passes(s) && SizesOk(s) && AddressesOk(s)
  {
    var s := OneTried(key, svc, time, k);
    OneSlot(s.tried, |s.tried|, k, 0);
    hide Slots;
    assert TriedIds(s.info) == {0} && NewIds(s.info) == {};
    assert Elems([0]) == {0};
  }

  // ---------------------------------------------------------------- which calls upset the check

  /**
   Good_ keeps the check quiet exactly when the service is not listed or the time passed in is positive; the callers'
   default, the adjusted clock, is.
   */
  lemma GoodTimes(env: Env, s: State, svc: Service, time: int, raw: nat -> nat)
    requires Inv(env, s) && TimesOk(s)
    ensures Known(s)
    ensures TimesOk(Good(env, s, svc, time, raw)) <==> !Lists(s, svc) || time > 0
  {
    hide LinkOk, NewOk, TriedOk, CountOk, Known, MakeTried, FindBucket;
    if Lists(s, svc) {
      GoodEffect(env, s, svc, time, raw);
    }
  }

  lemma AttemptTimes(s: State, svc: Service, time: int)
    requires TimesOk(s)
    ensures TimesOk(Attempt(s, svc, time)) <==> !Lists(s, svc) || time >= 0
  {
    if Lists(s, svc) {
      var t := Attempt(s, svc, time);
      assert t.info[s.addr[svc.ip]].lastTry == time;
    }
  }
}
