/** Whole runs of the address manager, including writing it out and reading it back. */
module AddrRuns {
  import opened Common
  import opened AddrState
  import opened AddrOps
  import opened AddrInv
  import opened AddrEffects
  import opened AddrDisk

  datatype Op =
    | OpAdd(a: Address, source: NetAddr, penalty: int, now: int, raw: nat -> nat)
    | OpGood(svc: Service, time: int, raw: nat -> nat)
    | OpAttempt(svc: Service, time: int)
    | OpConnected(svc: Service, time: int)
    | OpGetAddr(raw: nat -> nat)
    | OpSelect   // Select_ only reads
    | OpReload

  ghost function Step(env: Env, s: State, op: Op): State
    requires Inv(env, s)
  {
    match op
    case OpAdd(a, source, penalty, now, raw) => Add(env, s, a, source, penalty, now, raw).0
    case OpGood(svc, time, raw) => Good(env, s, svc, time, raw)
    case OpAttempt(svc, time) => Attempt(s, svc, time)
    case OpConnected(svc, time) => Connected(s, svc, time)
    case OpGetAddr(raw) => GetAddr(s, raw).0
    case OpSelect => s
    case OpReload => Load(env, Save(s))
  }

  /** Every operation keeps the full invariant, whatever the draws, the clock and the hash. */
  lemma StepInv(env: Env, s: State, op: Op)
    requires Inv(env, s)
    ensures Inv(env, Step(env, s, op))
  {
    hide LinkOk, NewOk, TriedOk, CountOk, Known, Add, Good, GetAddr, Load, Save, Attempt, Connected;
    match op
    case OpAdd(a, source, penalty, now, raw) => AddInv(env, s, a, source, penalty, now, raw);
    case OpGood(svc, time, raw) => GoodInv(env, s, svc, time, raw);
    case OpAttempt(svc, time) => AttemptInv(env, s, svc, time);
    case OpConnected(svc, time) => ConnectedInv(env, s, svc, time);
    case OpGetAddr(raw) => GetAddrInv(env, s, raw);
    case OpSelect =>
    case OpReload => ReloadInv(env, s);
  }

  ghost function Run(env: Env, s: State, ops: seq<Op>): State
    requires Inv(env, s)
    decreases |ops|
  {
    if ops == [] then s
    else
      StepInv(env, s, ops[0]);
      Run(env, Step(env, s, ops[0]), ops[1..])
  }

  function AddOps(list: seq<Arrival>, source: NetAddr, penalty: int): seq<Op> {
    seq(|list|, i requires 0 <= i < |list| => OpAdd(list[i].a, source, penalty, list[i].now, list[i].raw))
  }

  lemma {:induction false} RunSnoc(env: Env, s: State, ops: seq<Op>, op: Op)
    requires Inv(env, s)
    ensures Inv(env, Run(env, s, ops)) && Run(env, s, ops + [op]) == Step(env, Run(env, s, ops), op)
    decreases |ops|
  {
    hide Inv, Step;
    if ops == [] {
      StepInv(env, s, op);
      assert ([] + [op])[0] == op && ([] + [op])[1..] == [];
    } else {
      StepInv(env, s, ops[0]);
      RunSnoc(env, Step(env, s, ops[0]), ops[1..], op);
      assert (ops + [op])[1..] == ops[1..] + [op];
    }
  }

  /** Adding a vector of addresses is a run of single additions, so everything said of runs covers it. */
  lemma {:induction false} VectorAddIsRun(env: Env, s: State, list: seq<Arrival>, source: NetAddr, penalty: int, n: nat)
    requires Inv(env, s) && n <= |list|
    ensures AddSome(env, s, list, source, penalty, n).0 == Run(env, s, AddOps(list[..n], source, penalty))
  {
    hide Inv, Run, Add;
    if n == 0 {
      RunNothing(env, s);
    } else {
      VectorAddIsRun(env, s, list, source, penalty, n - 1);
      var x := list[n - 1];
      var op := OpAdd(x.a, source, penalty, x.now, x.raw);
      RunSnoc(env, s, AddOps(list[..n - 1], source, penalty), op);
      assert AddOps(list[..n], source, penalty) == AddOps(list[..n - 1], source, penalty) + [op];
    }
  }

  lemma RunNothing(env: Env, s: State)
    requires Inv(env, s)
    ensures Run(env, s, []) == s
  {
    hide Inv;
  }

  /** In every reachable state the indexes agree and the table is within its size bounds. */
  lemma {:induction false} RunInv(env: Env, s: State, ops: seq<Op>)
    requires Inv(env, s)
    ensures var t := Run(env, s, ops);
            && Inv(env, t)
            && t.nTried <= 64 * 64 && t.nNew <= 256 * 64
            && |t.random| == |t.info| == |t.addr| == t.nTried + t.nNew
    decreases |ops|
  {
    hide Inv, Step;
    if ops == [] {
      SizeBound(env, s);
    } else {
      StepInv(env, s, ops[0]);
      RunInv(env, Step(env, s, ops[0]), ops[1..]);
    }
  }

  lemma RunFromEmpty(env: Env, key: Key, ops: seq<Op>)
    ensures Inv(env, InitState(key)) && Inv(env, Run(env, InitState(key), ops))
  {
    hide Inv;
    InitInv(env, key);
    RunInv(env, InitState(key), ops);
  }

  /** The table knows this very service. */
  ghost predicate Lists(s: State, svc: Service) {
    svc.ip in s.addr && s.addr[svc.ip] in s.info && s.info[s.addr[svc.ip]].svc == svc
  }

  ghost predicate ListsTried(s: State, svc: Service) {
    Lists(s, svc) && s.info[s.addr[svc.ip]].inTried
  }

  lemma EntryListed(s: State, id: nat)
    requires LinkOk(s) && id in s.info
    ensures Lists(s, s.info[id].svc) && s.addr[s.info[id].svc.ip] == id
  {
  }

  lemma ListedEntry(s: State, svc: Service)
    requires Lists(s, svc)
    ensures svc.ip in s.addr && s.addr[svc.ip] in s.info && s.info[s.addr[svc.ip]].svc == svc
  {
  }

  /**
   Only Add_ can make the table forget a service, and then only one that has never been tried and had its single
   reference in the full bucket the added address goes to.
   */
  lemma StepForgets(env: Env, s: State, op: Op, svc: Service)
    requires Inv(env, s) && Lists(s, svc) && !Lists(Step(env, s, op), svc)
    ensures op.OpAdd? && ThrownOut(env, s, op.a, op.source, s.addr[svc.ip])
  {
    hide LinkOk, NewOk, TriedOk, CountOk, Known, Add, Good, GetAddr, Load, Save, Attempt, Connected, Lists, ThrownOut;
    ListedEntry(s, svc);
    KnownShape(s);
    var id := s.addr[svc.ip];
    StepInv(env, s, op);
    var t := Step(env, s, op);
    match op
    case OpAdd(a, source, penalty, now, raw) =>
      AddKeeps(env, s, a, source, penalty, now, raw, id);
      if id in t.info { EntryListed(t, id); }
    case OpGood(g, time, raw) =>
      GoodKeeps(env, s, g, time, raw, id);
      EntryListed(t, id);
    case OpAttempt(g, time) =>
      AttemptKeeps(s, g, time, id);
      EntryListed(t, id);
    case OpConnected(g, time) =>
      ConnectedKeeps(s, g, time, id);
      EntryListed(t, id);
    case OpGetAddr(raw) =>
      GetAddrKeeps(env, s, raw, id);
      EntryListed(t, id);
    case OpSelect =>
    case OpReload =>
      var j := ReloadKeeps(env, s, id);
      EntryListed(t, j);
  }

  lemma GoodKeeps(env: Env, s: State, svc: Service, time: int, raw: nat -> nat, id: nat)
    requires Inv(env, s) && id in s.info
    ensures id in Good(env, s, svc, time, raw).info && Good(env, s, svc, time, raw).info[id].svc == s.info[id].svc
  {
    hide LinkOk, NewOk, TriedOk, CountOk, Known, MakeTried, FindBucket;
    if svc.ip in s.addr && s.addr[svc.ip] in s.info && s.info[s.addr[svc.ip]].svc == svc {
      GoodEffect(env, s, svc, time, raw);
    }
  }

  lemma AttemptKeeps(s: State, svc: Service, time: int, id: nat)
    requires id in s.info
    ensures id in Attempt(s, svc, time).info && Attempt(s, svc, time).info[id].svc == s.info[id].svc
  {
  }

  lemma ConnectedKeeps(s: State, svc: Service, time: int, id: nat)
    requires id in s.info
    ensures id in Connected(s, svc, time).info && Connected(s, svc, time).info[id].svc == s.info[id].svc
  {
  }

  lemma GetAddrKeeps(env: Env, s: State, raw: nat -> nat, id: nat)
    requires Inv(env, s) && id in s.info
    ensures id in GetAddr(s, raw).0.info && GetAddr(s, raw).0.info[id].svc == s.info[id].svc
  {
    hide LinkOk, NewOk, TriedOk, CountOk, Known, Shuffle;
    ShuffleInv(env, s, raw, Sample(|s.random|));
  }

  lemma ReloadKeeps(env: Env, s: State, id: nat) returns (j: nat)
    requires Inv(env, s) && id in s.info
    ensures j in Load(env, Save(s)).info && Load(env, Save(s)).info[j].svc == s.info[id].svc
    ensures Load(env, Save(s)).info[j].inTried == s.info[id].inTried
  {
    hide LinkOk, NewOk, TriedOk, CountOk, Known, Renamed, Load, Save;
    KnownShape(s);
    ReloadRenames(env, s);
    RenamedDistinct(s, Load(env, Save(s)), FileOrder(s));
    j :| 0 <= j < |FileOrder(s)| && FileOrder(s)[j] == id;
    RenamedInfo(s, Load(env, Save(s)), FileOrder(s), j);
  }

  /** A service in the tried table is still listed after any one step. */
  lemma TriedSurvivesStep(env: Env, s: State, op: Op, svc: Service)
    requires Inv(env, s) && ListsTried(s, svc)
    ensures Lists(Step(env, s, op), svc)
  {
    hide Inv, Step;
    if !Lists(Step(env, s, op), svc) {
      StepForgets(env, s, op, svc);
      InvKnown(env, s);
      KnownShape(s);
      assert false;
    }
  }

  /** A tried service stays tried through any run that marks nothing good: only a promotion can evict. */
  lemma {:induction false} TriedUntilGood(env: Env, s: State, svc: Service, ops: seq<Op>)
    requires Inv(env, s) && ListsTried(s, svc)
    requires forall i :: 0 <= i < |ops| ==> !ops[i].OpGood?
    ensures ListsTried(Run(env, s, ops), svc)
    decreases |ops|
  {
    hide Inv, Step, ListsTried;
    if ops != [] {
      StepInv(env, s, ops[0]);
      TriedStays(env, s, ops[0], svc);
      TriedUntilGood(env, Step(env, s, ops[0]), svc, ops[1..]);
    }
  }

  lemma TriedStays(env: Env, s: State, op: Op, svc: Service)
    requires Inv(env, s) && ListsTried(s, svc) && !op.OpGood?
    ensures ListsTried(Step(env, s, op), svc)
  {
    hide LinkOk, NewOk, TriedOk, CountOk, Known, Add, GetAddr, Load, Save, Attempt, Connected, ThrownOut;
    KnownShape(s);
    var id := s.addr[svc.ip];
    StepInv(env, s, op);
    TriedSurvivesStep(env, s, op, svc);
    var t := Step(env, s, op);
    match op
    case OpAdd(a, source, penalty, now, raw) =>
      AddKeeps(env, s, a, source, penalty, now, raw, id);
      NotThrownOut(env, s, a, source, id);
      EntryListed(t, id);
    case OpAttempt(g, time) =>
      AttemptStanding(s, g, time, id);
      EntryListed(t, id);
    case OpConnected(g, time) =>
      ConnectedStanding(s, g, time, id);
      EntryListed(t, id);
    case OpGetAddr(raw) =>
      GetAddrStanding(env, s, raw, id);
      EntryListed(t, id);
    case OpSelect =>
    case OpReload =>
      var j := ReloadKeeps(env, s, id);
      EntryListed(t, j);
  }

  lemma NotThrownOut(env: Env, s: State, a: Address, source: NetAddr, id: nat)
    requires Shape(s) && id in s.info && s.info[id].inTried
    ensures !ThrownOut(env, s, a, source, id)
  {
  }

  lemma AttemptStanding(s: State, svc: Service, time: int, id: nat)
    requires id in s.info
    ensures id in Attempt(s, svc, time).info && SameStanding(s.info[id], Attempt(s, svc, time).info[id])
  {
  }

  lemma ConnectedStanding(s: State, svc: Service, time: int, id: nat)
    requires id in s.info
    ensures id in Connected(s, svc, time).info && SameStanding(s.info[id], Connected(s, svc, time).info[id])
  {
  }

  lemma GetAddrStanding(env: Env, s: State, raw: nat -> nat, id: nat)
    requires Inv(env, s) && id in s.info
    ensures id in GetAddr(s, raw).0.info && GetAddr(s, raw).0.info[id].inTried == s.info[id].inTried
    ensures GetAddr(s, raw).0.info[id].svc == s.info[id].svc
  {
    hide LinkOk, NewOk, TriedOk, CountOk, Known, Shuffle;
    ShuffleInv(env, s, raw, Sample(|s.random|));
  }
}
