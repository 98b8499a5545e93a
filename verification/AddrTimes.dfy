/** Which runs keep the time fields as the consistency check wants them. */
module AddrTimes {
  import opened Common
  import opened AddrState
  import opened AddrOps
  import opened AddrInv
  import opened AddrEffects
  import opened AddrDisk
  import opened AddrRuns
  import opened AddrCheck

  /** All entries of `t` are entries of `s` with the same table and the same last-try and last-success times. */
  ghost predicate SameHistory(s: State, t: State) {
    forall x :: x in t.info ==>
      && x in s.info && t.info[x].inTried == s.info[x].inTried
      && t.info[x].lastSuccess == s.info[x].lastSuccess && t.info[x].lastTry == s.info[x].lastTry
  }

  lemma HistoryTimes(s: State, t: State)
    requires SameHistory(s, t) && TimesOk(s)
    ensures TimesOk(t)
  {
  }

  lemma UnrefHistory(s: State, b: nat, v: nat)
    requires Known(s) && v in s.info && b < NEW_BUCKET_COUNT
    ensures SameHistory(s, Unref(s, b, v))
  {
    hide Unref, Known;
    KnownShape(s);
    UnrefBuckets(s, b, v);
  }

  lemma ShrinkHistory(s: State, b: nat, now: int, raw: nat -> nat)
    requires Known(s) && b < NEW_BUCKET_COUNT && s.news[b] != {}
    ensures SameHistory(s, ShrinkNew(s, b, now, raw))
  {
    hide Unref, Victim, Known, SameHistory;
    KnownShape(s);
    NewKnown(s, b);
    UnrefHistory(s, b, Victim(s.info, s.news[b], now, raw));
  }

  lemma IncrefHistory(s: State, id: nat)
    requires Known(s) && id in s.info
    ensures Known(Incref(s, id)) && SameHistory(s, Incref(s, id))
  {
  }

  lemma PutInNewHistory(env: Env, s: State, id: nat, source: NetAddr, now: int, raw: nat -> nat)
    requires Known(s) && id in s.info
    ensures SameHistory(s, PutInNew(env, s, id, source, now, raw))
  {
    hide ShrinkNew, Known;
    KnownShape(s);
    var b := NewBucket(env, s.key, s.info[id].svc.ip, source);
    if id !in s.news[b] {
      IncrefHistory(s, id);
      if |s.news[b]| == NEW_BUCKET_SIZE {
        assert s.news[b] != {};
        ShrinkHistory(Incref(s, id), b, now, raw);
      }
    }
  }

  lemma AddTimes(env: Env, s: State, a: Address, source: NetAddr, penalty: int, now: int, raw: nat -> nat)
    requires Inv(env, s) && TimesOk(s)
    ensures TimesOk(Add(env, s, a, source, penalty, now, raw).0)
  {
    hide LinkOk, TriedOk, NewOk, CountOk, PutInNew;
    if env.routable(a.svc.ip) {
      match Find(s, a.svc.ip)
      case Some(id) =>
        var i := Refresh(s.info[id], a, penalty, now);
        var s1 := s.(info := s.info[id := i]);
        assert SameHistory(s, s1);
        if WantsReference(i, a, raw) {
          PutInNewHistory(env, s1, id, source, now, raw);
          HistoryTimes(s1, PutInNew(env, s1, id, source, now, raw));
        }
      case None =>
        var s1 := CreateNew(s, a, source, penalty);
        PutInNewHistory(env, s1, s.idCount, source, now, raw);
        HistoryTimes(s1, PutInNew(env, s1, s.idCount, source, now, raw));
    }
  }

  lemma ConnectedTimes(s: State, svc: Service, time: int)
    requires TimesOk(s)
    ensures TimesOk(Connected(s, svc, time))
  {
  }

  lemma GetAddrTimes(env: Env, s: State, raw: nat -> nat)
    requires Inv(env, s) && TimesOk(s)
    ensures TimesOk(GetAddr(s, raw).0)
  {
    hide LinkOk, TriedOk, NewOk, CountOk, Known, Shuffle;
    ShuffleInv(env, s, raw, Sample(|s.random|));
  }

  /** Reading back forgets the last tries and nothing else that the check looks at. */
  lemma ReloadTimes(env: Env, s: State)
    requires Inv(env, s) && TimesOk(s)
    ensures TimesOk(Load(env, Save(s)))
  {
    hide LinkOk, TriedOk, NewOk, CountOk, Known, Save, Load;
    ReloadRenames(env, s);
    var t, a := Load(env, Save(s)), FileOrder(s);
    forall j | j in t.info ensures TimeOk(t.info[j]) {
      RenamedInfo(s, t, a, j);
      assert a[j] in s.info;
    }
  }

  /** The times passed to a call are ones the check accepts, or the call does not store them. */
  ghost predicate SoundTimes(s: State, op: Op) {
    match op
    case OpGood(svc, time, _) => !Lists(s, svc) || time > 0
    case OpAttempt(svc, time) => !Lists(s, svc) || time >= 0
    case _ => true
  }

  /** One step leaves the time fields sound exactly when the times passed to it are. */
  lemma StepTimes(env: Env, s: State, op: Op)
    requires Inv(env, s) && TimesOk(s)
    ensures TimesOk(Step(env, s, op)) <==> SoundTimes(s, op)
  {
    hide Inv, TimesOk, Lists, Add, Good, GetAddr, Load, Save, Attempt, Connected;
    match op
    case OpAdd(a, source, penalty, now, raw) => AddTimes(env, s, a, source, penalty, now, raw);
    case OpGood(svc, time, raw) => GoodTimes(env, s, svc, time, raw);
    case OpAttempt(svc, time) => AttemptTimes(s, svc, time);
    case OpConnected(svc, time) => ConnectedTimes(s, svc, time);
    case OpGetAddr(raw) => GetAddrTimes(env, s, raw);
    case OpSelect =>
    case OpReload => ReloadTimes(env, s);
  }

  /** A clock that has started: Good_ gets positive times and Attempt_ non-negative ones. */
  predicate ClockStarted(ops: seq<Op>) {
    forall i :: 0 <= i < |ops| ==>
      match ops[i]
      case OpGood(_, time, _) => time > 0
      case OpAttempt(_, time) => time >= 0
      case _ => true
  }

  /** Once the clock has started, no run upsets the time fields. */
  lemma {:induction false} RunTimes(env: Env, s: State, ops: seq<Op>)
    requires Inv(env, s) && TimesOk(s) && ClockStarted(ops)
    ensures TimesOk(Run(env, s, ops))
    decreases |ops|
  {
    hide Inv, TimesOk, Step;
    if ops != [] {
      StepInv(env, s, ops[0]);
      StepTimes(env, s, ops[0]);
      RunTimes(env, Step(env, s, ops[0]), ops[1..]);
    }
  }

  lemma InitTimes(key: Key)
    ensures TimesOk(InitState(key))
  {
  }

  /** So the check is silent in every state that such a run reaches from the empty manager. */
  method CheckAfterRun(ghost env: Env, ghost key: Key, ghost ops: seq<Op>, s: State) returns (code: int)
    requires ClockStarted(ops) && Inv(env, InitState(key)) && s == Run(env, InitState(key), ops)
    ensures code == 0
  {
    hide Inv, Run, Explains, TimesOk, Passes;
    RunFromEmpty(env, key, ops);
    InitTimes(key);
    RunTimes(env, InitState(key), ops);
    code := Check(s);
    CodesOnInv(env, s, code);
  }
}
