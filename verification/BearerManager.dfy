/**
 The bearer manager: EPS bearers by identity, an index of them by logical channel, one such
 pair of maps per user.
 */
module BearerManager {

  datatype Rat = Lte | Nr | NullType

  datatype RadioBearer = RadioBearer(rat: Rat, lcid: nat, epsBearerId: nat, fiveQi: nat)

  const INVALID_RB := RadioBearer(NullType, 0, 0, 0)

  /** The state of one user: bearers by EPS bearer identity, and the LCID index. */
  datatype UeBearers = UeBearers(bearers: map<nat, RadioBearer>, lcidToEps: map<nat, nat>) {

    /** Each index entry names a live bearer with that LCID. */
    ghost predicate Linked() {
      && (forall l | l in lcidToEps :: lcidToEps[l] in bearers && bearers[lcidToEps[l]].lcid == l)
      && (forall id | id in bearers :: bearers[id].epsBearerId == id)
    }

    /** The index is the exact inverse of the bearers' LCIDs. */
    ghost predicate Exact() {
      && Linked()
      && (forall id | id in bearers :: bearers[id].lcid in lcidToEps && lcidToEps[bearers[id].lcid] == id)
    }

    ghost predicate LcidInUse(lcid: nat) {
      exists id | id in bearers :: bearers[id].lcid == lcid
    }

    function Added(id: nat, rat: Rat, lcid: nat): UeBearers {
      if id in bearers then this
      else UeBearers(bearers[id := RadioBearer(rat, lcid, id, 0)],
                     if lcid in lcidToEps then lcidToEps else lcidToEps[lcid := id])
    }

    function Removed(id: nat): UeBearers {
      if id !in bearers then this
      else UeBearers(bearers - {id}, lcidToEps - {bearers[id].lcid})
    }

    function WithFiveQi(id: nat, fiveQi: nat): UeBearers {
      if id !in bearers then this
      else this.(bearers := bearers[id := bearers[id].(fiveQi := fiveQi)])
    }

    function RadioBearerOf(id: nat): RadioBearer {
      if id in bearers then bearers[id] else INVALID_RB
    }

    /** The lookup of the source takes the index entry's bearer without checking for it. */
    function LcidBearer(lcid: nat): RadioBearer
      requires Linked()
    {
      if lcid in lcidToEps then bearers[lcidToEps[lcid]] else INVALID_RB
    }
  }

  const EMPTY := UeBearers(map[], map[])

  // ------------------------------------------------------------------------
  // The implementation for one user
  // ------------------------------------------------------------------------

  class UeBearerManager {
    var bearers: map<nat, RadioBearer>
    var lcidToEps: map<nat, nat>

    ghost function State(): UeBearers
      reads this
    {
      UeBearers(bearers, lcidToEps)
    }

    constructor ()
      ensures State() == EMPTY
    {
      bearers, lcidToEps := map[], map[];
    }

    method AddEpsBearer(id: nat, rat: Rat, lcid: nat) returns (ok: bool)
      requires State().Linked()
      modifies this
      ensures State() == old(State()).Added(id, rat, lcid) && State().Linked()
      ensures ok <==> id !in old(bearers)
    {
      AddLinked(State(), id, rat, lcid);
      if id in bearers {
        return false;
      }
      bearers := bearers[id := RadioBearer(rat, lcid, id, 0)];
      if lcid !in lcidToEps {
        lcidToEps := lcidToEps[lcid := id];
      }
      return true;
    }

    method RemoveEpsBearer(id: nat) returns (ok: bool)
      requires State().Linked()
      modifies this
      ensures State() == old(State()).Removed(id) && State().Linked()
      ensures ok <==> id in old(bearers)
    {
      RemoveLinked(State(), id);
      if id !in bearers {
        return false;
      }
      var lcid := bearers[id].lcid;
      bearers := bearers - {id};
      lcidToEps := lcidToEps - {lcid};
      return true;
    }

    method Reset()
      modifies this
      ensures State() == EMPTY
    {
      lcidToEps := map[];
      bearers := map[];
    }

    method SetFiveQi(id: nat, fiveQi: nat) returns (ok: bool)
      requires State().Linked()
      modifies this
      ensures State() == old(State()).WithFiveQi(id, fiveQi) && State().Linked()
      ensures ok <==> id in old(bearers)
    {
      if id !in bearers {
        return false;
      }
      bearers := bearers[id := bearers[id].(fiveQi := fiveQi)];
      return true;
    }

    /** The lookup never misses, and what it finds has the LCID asked for. */
    method GetEpsBearerForLcid(lcid: nat) returns (rb: RadioBearer)
      requires State().Linked()
      ensures rb == State().LcidBearer(lcid)
      ensures lcid in lcidToEps ==> rb.lcid == lcid && rb.epsBearerId in bearers && bearers[rb.epsBearerId] == rb
      ensures lcid !in lcidToEps ==> rb == RadioBearer(NullType, 0, 0, 0)
      ensures State().Exact() ==> forall id | id in bearers && bearers[id].lcid == lcid :: rb == bearers[id]
    {
      rb := if lcid in lcidToEps then bearers[lcidToEps[lcid]] else INVALID_RB;
    }
  }

  lemma AddLinked(u: UeBearers, id: nat, rat: Rat, lcid: nat)
    requires u.Linked()
    ensures u.Added(id, rat, lcid).Linked()
  {
  }

  lemma RemoveLinked(u: UeBearers, id: nat)
    requires u.Linked()
    ensures u.Removed(id).Linked()
  {
    if id in u.bearers {
      var r := u.Removed(id);
      forall l | l in r.lcidToEps
        ensures r.lcidToEps[l] in r.bearers && r.bearers[r.lcidToEps[l]].lcid == l
      {
        assert u.bearers[u.lcidToEps[l]].lcid == l;
      }
    }
  }

  /** Adding keeps the index exact precisely when the LCID is not in use by another bearer. */
  lemma AddExact(u: UeBearers, id: nat, rat: Rat, lcid: nat)
    requires u.Exact()
    ensures u.Added(id, rat, lcid).Exact() <==> id in u.bearers || !u.LcidInUse(lcid)
  {
    var r := u.Added(id, rat, lcid);
    if id !in u.bearers {
      if u.LcidInUse(lcid) {
        var other :| other in u.bearers && u.bearers[other].lcid == lcid;
        assert r.lcidToEps[lcid] == other;
        assert r.bearers[id].lcid == lcid;
      } else {
        assert lcid !in u.lcidToEps;
        AddLinked(u, id, rat, lcid);
        forall i | i in r.bearers
          ensures r.bearers[i].lcid in r.lcidToEps && r.lcidToEps[r.bearers[i].lcid] == i
        {
          assert i != id ==> u.bearers[i].lcid != lcid;
        }
      }
    }
  }

  lemma RemoveExact(u: UeBearers, id: nat)
    requires u.Exact()
    ensures u.Removed(id).Exact()
  {
    RemoveLinked(u, id);
  }

  /** With an LCID in use by two bearers the index loses one of them, and removing either
      leaves the other without an entry. */
  lemma SharedLcidIsLost(u: UeBearers, a: nat, b: nat, lcid: nat, rat: Rat)
    requires u.Exact() && a != b && a !in u.bearers && b !in u.bearers && !u.LcidInUse(lcid)
    ensures var r := u.Added(a, rat, lcid).Added(b, rat, lcid);
            && r.Linked() && r.LcidBearer(lcid).epsBearerId == a
            && r.Removed(a).Linked() && b in r.Removed(a).bearers && r.Removed(a).LcidBearer(lcid) == INVALID_RB
            && r.Removed(b).Linked() && a in r.Removed(b).bearers && r.Removed(b).LcidBearer(lcid) == INVALID_RB
  {
    assert lcid !in u.lcidToEps;
    var s := u.Added(a, rat, lcid);
    var r := s.Added(b, rat, lcid);
    AddLinked(u, a, rat, lcid);
    AddLinked(s, b, rat, lcid);
    RemoveLinked(r, a);
    RemoveLinked(r, b);
  }

  // ------------------------------------------------------------------------
  // All users of the base station
  // ------------------------------------------------------------------------

  type Users = map<nat, UeBearers>

  ghost predicate AllLinked(users: Users) {
    forall rnti | rnti in users :: users[rnti].Linked()
  }

  ghost predicate AllExact(users: Users) {
    forall rnti | rnti in users :: users[rnti].Exact()
  }

  function BearersOf(users: Users, rnti: nat): UeBearers {
    if rnti in users then users[rnti] else EMPTY
  }

  datatype Op =
    | Add(rnti: nat, id: nat, rat: Rat, lcid: nat)
    | Remove(rnti: nat, id: nat)
    | RemUser(rnti: nat)
    | SetFiveQi(rnti: nat, id: nat, fiveQi: nat)

  function Step(users: Users, op: Op): Users {
    match op
    case Add(rnti, id, rat, lcid) => users[rnti := BearersOf(users, rnti).Added(id, rat, lcid)]
    case Remove(rnti, id) => if rnti in users then users[rnti := users[rnti].Removed(id)] else users
    case RemUser(rnti) => users - {rnti}
    case SetFiveQi(rnti, id, fiveQi) =>
      if rnti in users then users[rnti := users[rnti].WithFiveQi(id, fiveQi)] else users
  }

  function Run(users: Users, ops: seq<Op>): Users
    decreases |ops|
  {
    if ops == [] then users else Run(Step(users, ops[0]), ops[1..])
  }

  /** Everything that is known about the users is what the calls so far have made of it;
      `history` is the list of those calls. */
  class EnbBearerManager {
    var users: Users
    ghost var history: seq<Op>

    ghost predicate Valid()
      reads this
    {
      users == Run(map[], history)
    }

    constructor ()
      ensures Valid() && history == []
    {
      users, history := map[], [];
    }

    method AddEpsBearer(rnti: nat, id: nat, rat: Rat, lcid: nat)
      requires Valid()
      modifies this
      ensures Valid() && history == old(history) + [Add(rnti, id, rat, lcid)]
    {
      RunAppend(map[], history, Add(rnti, id, rat, lcid));
      history := history + [Add(rnti, id, rat, lcid)];
      if rnti !in users {
        users := users[rnti := EMPTY];
      }
      users := users[rnti := users[rnti].Added(id, rat, lcid)];
    }

    method RemoveEpsBearer(rnti: nat, id: nat)
      requires Valid()
      modifies this
      ensures Valid() && history == old(history) + [Remove(rnti, id)]
    {
      RunAppend(map[], history, Remove(rnti, id));
      history := history + [Remove(rnti, id)];
      if rnti !in users {
        return;
      }
      users := users[rnti := users[rnti].Removed(id)];
    }

    method RemUser(rnti: nat)
      requires Valid()
      modifies this
      ensures Valid() && history == old(history) + [Op.RemUser(rnti)]
    {
      RunAppend(map[], history, Op.RemUser(rnti));
      history := history + [Op.RemUser(rnti)];
      if rnti !in users {
        return;
      }
      users := users - {rnti};
    }

    method SetFiveQi(rnti: nat, id: nat, fiveQi: nat) returns (ok: bool)
      requires Valid()
      modifies this
      ensures Valid() && history == old(history) + [Op.SetFiveQi(rnti, id, fiveQi)]
      ensures ok <==> Active(old(history), rnti, id)
    {
      RunAppend(map[], history, Op.SetFiveQi(rnti, id, fiveQi));
      ActiveExactly(history, rnti, id);
      history := history + [Op.SetFiveQi(rnti, id, fiveQi)];
      if rnti !in users {
        return false;
      }
      ok := id in users[rnti].bearers;
      users := users[rnti := users[rnti].WithFiveQi(id, fiveQi)];
    }

    /** Whether the bearer was added and has not been removed since, by itself or with its user. */
    method HasActiveRadioBearer(rnti: nat, id: nat) returns (r: bool)
      requires Valid()
      ensures r <==> Active(history, rnti, id)
    {
      ActiveExactly(history, rnti, id);
      r := rnti in users && id in users[rnti].bearers;
    }

    /** The bearer as it was established, with the 5QI that was set last since then. */
    method GetRadioBearer(rnti: nat, id: nat) returns (rb: RadioBearer)
      requires Valid()
      ensures !Active(history, rnti, id) ==> rb == RadioBearer(NullType, 0, 0, 0)
      ensures forall i | 0 <= i < |history| && Established(history, rnti, id, i) ::
                rb == RadioBearer(history[i].rat, history[i].lcid, id, FiveQiSince(history, rnti, id, i + 1))
    {
      ActiveExactly(history, rnti, id);
      forall i | 0 <= i < |history| && Established(history, rnti, id, i)
        ensures id in BearersOf(users, rnti).bearers
        ensures BearersOf(users, rnti).bearers[id]
             == RadioBearer(history[i].rat, history[i].lcid, id, FiveQiSince(history, rnti, id, i + 1))
      {
        EstablishedBearer(history, rnti, id, i);
      }
      rb := if rnti in users then users[rnti].RadioBearerOf(id) else INVALID_RB;
    }

    /** The lookup through the index never misses: an entry leads to a bearer of the user that
        is active and has the LCID asked for. */
    method GetLcidBearer(rnti: nat, lcid: nat) returns (rb: RadioBearer)
      requires Valid()
      ensures BearersOf(users, rnti).Linked() && rb == BearersOf(users, rnti).LcidBearer(lcid)
      ensures lcid in BearersOf(users, rnti).lcidToEps ==>
                rb.lcid == lcid && Active(history, rnti, rb.epsBearerId)
      ensures lcid !in BearersOf(users, rnti).lcidToEps ==> rb == RadioBearer(NullType, 0, 0, 0)
      ensures NeverShares(map[], history) ==>
                forall id | id in BearersOf(users, rnti).bearers && BearersOf(users, rnti).bearers[id].lcid == lcid ::
                  rb == BearersOf(users, rnti).bearers[id]
    {
      RunLinked(map[], history);
      if NeverShares(map[], history) {
        RunExact(map[], history);
      }
      rb := if rnti in users then users[rnti].LcidBearer(lcid) else INVALID_RB;
      ActiveExactly(history, rnti, rb.epsBearerId);
    }
  }

  // ------------------------------------------------------------------------
  // What the answers say about the calls made so far
  // ------------------------------------------------------------------------

  lemma {:induction false} RunAppend(users: Users, ops: seq<Op>, op: Op)
    ensures Run(users, ops + [op]) == Step(Run(users, ops), op)
    decreases |ops|
  {
    if ops == [] {
      assert [op][1..] == [];
    } else {
      RunAppend(Step(users, ops[0]), ops[1..], op);
      assert (ops + [op])[1..] == ops[1..] + [op];
    }
  }

  ghost predicate Adds(op: Op, rnti: nat, id: nat) {
    op.Add? && op.rnti == rnti && op.id == id
  }

  ghost predicate Erases(op: Op, rnti: nat, id: nat) {
    op == Remove(rnti, id) || op == Op.RemUser(rnti)
  }

  ghost predicate NotErasedAfter(ops: seq<Op>, rnti: nat, id: nat, i: int) {
    forall j | 0 <= j < |ops| && i < j :: !Erases(ops[j], rnti, id)
  }

  /** Some call added the bearer and no later one erased it. */
  ghost predicate Active(ops: seq<Op>, rnti: nat, id: nat) {
    exists i | 0 <= i < |ops| :: Adds(ops[i], rnti, id) && NotErasedAfter(ops, rnti, id, i)
  }

  /** The `i`-th call is the one that made the bearer that is there at the end. */
  ghost predicate Established(ops: seq<Op>, rnti: nat, id: nat, i: nat)
    requires i < |ops|
  {
    Adds(ops[i], rnti, id) && NotErasedAfter(ops, rnti, id, i) && !Active(ops[..i], rnti, id)
  }

  /** The last 5QI given to the bearer from the `k`-th call on, or the initial one. */
  ghost function FiveQiSince(ops: seq<Op>, rnti: nat, id: nat, k: nat): nat
    decreases |ops|
  {
    if |ops| <= k then 0
    else
      var last := ops[|ops| - 1];
      if last.SetFiveQi? && last.rnti == rnti && last.id == id then last.fiveQi
      else FiveQiSince(ops[..|ops| - 1], rnti, id, k)
  }

  ghost predicate SetsFiveQi(op: Op, rnti: nat, id: nat) {
    op.SetFiveQi? && op.rnti == rnti && op.id == id
  }

  /** That is the value of the last call that sets it, and zero if no call does. */
  lemma {:induction false} FiveQiExactly(ops: seq<Op>, rnti: nat, id: nat, k: nat)
    ensures (forall j | k <= j < |ops| :: !SetsFiveQi(ops[j], rnti, id)) ==> FiveQiSince(ops, rnti, id, k) == 0
    ensures forall j | k <= j < |ops| && SetsFiveQi(ops[j], rnti, id)
                       && forall l | j < l < |ops| :: !SetsFiveQi(ops[l], rnti, id) ::
              FiveQiSince(ops, rnti, id, k) == ops[j].fiveQi
    decreases |ops|
  {
    if |ops| > k && !SetsFiveQi(ops[|ops| - 1], rnti, id) {
      FiveQiExactly(ops[..|ops| - 1], rnti, id, k);
    }
  }

  lemma ActiveStep(ops: seq<Op>, op: Op, rnti: nat, id: nat)
    ensures Active(ops + [op], rnti, id)
       <==> Adds(op, rnti, id) || (Active(ops, rnti, id) && !Erases(op, rnti, id))
  {
    var all := ops + [op];
    assert all[|ops|] == op && forall j | 0 <= j < |ops| :: all[j] == ops[j];
    if Active(all, rnti, id) {
      var i :| 0 <= i < |all| && Adds(all[i], rnti, id) && NotErasedAfter(all, rnti, id, i);
      assert i < |ops| ==> Adds(ops[i], rnti, id) && NotErasedAfter(ops, rnti, id, i);
    }
    if Adds(op, rnti, id) {
      assert NotErasedAfter(all, rnti, id, |ops|);
    } else if Active(ops, rnti, id) && !Erases(op, rnti, id) {
      var i :| 0 <= i < |ops| && Adds(ops[i], rnti, id) && NotErasedAfter(ops, rnti, id, i);
      assert Adds(all[i], rnti, id) && NotErasedAfter(all, rnti, id, i);
    }
  }

  /** The map holds exactly the bearers that were added and not erased since. */
  lemma {:induction false} ActiveExactly(ops: seq<Op>, rnti: nat, id: nat)
    ensures id in BearersOf(Run(map[], ops), rnti).bearers <==> Active(ops, rnti, id)
    decreases |ops|
  {
    if ops != [] {
      var init, op := ops[..|ops| - 1], ops[|ops| - 1];
      assert ops == init + [op];
      ActiveExactly(init, rnti, id);
      ActiveStep(init, op, rnti, id);
      RunAppend(map[], init, op);
    }
  }

  /** The bearer is the one of the call that established it; later additions under the same
      identity change nothing, and only its 5QI follows later calls. */
  lemma {:induction false} EstablishedBearer(ops: seq<Op>, rnti: nat, id: nat, i: nat)
    requires i < |ops| && Established(ops, rnti, id, i)
    ensures var u := BearersOf(Run(map[], ops), rnti);
            && id in u.bearers
            && u.bearers[id] == RadioBearer(ops[i].rat, ops[i].lcid, id, FiveQiSince(ops, rnti, id, i + 1))
    decreases |ops|
  {
    var init, op := ops[..|ops| - 1], ops[|ops| - 1];
    assert ops == init + [op];
    RunAppend(map[], init, op);
    if i == |init| {
      ActiveExactly(init, rnti, id);
    } else {
      assert init[..i] == ops[..i];
      assert !Erases(op, rnti, id);
      EstablishedBearer(init, rnti, id, i);
    }
  }

  /** Every active bearer was established by some call, so `EstablishedBearer` speaks of it. */
  lemma {:induction false} ActiveIsEstablished(ops: seq<Op>, rnti: nat, id: nat) returns (i: nat)
    requires Active(ops, rnti, id)
    ensures i < |ops| && Established(ops, rnti, id, i)
    decreases |ops|
  {
    i :| i < |ops| && Adds(ops[i], rnti, id) && NotErasedAfter(ops, rnti, id, i);
    if Active(ops[..i], rnti, id) {
      var k := ActiveIsEstablished(ops[..i], rnti, id);
      assert ops[..i][..k] == ops[..k] && ops[..i][k] == ops[k];
      assert forall j | 0 <= j < i :: ops[..i][j] == ops[j];
      i := k;
    }
  }

  lemma StepLinked(users: Users, op: Op)
    requires AllLinked(users)
    ensures AllLinked(Step(users, op))
  {
    match op {
      case Add(rnti, id, rat, lcid) => AddLinked(BearersOf(users, rnti), id, rat, lcid);
      case Remove(rnti, id) => RemoveLinked(BearersOf(users, rnti), id);
      case _ =>
    }
  }

  /** On every run, every index entry names a live bearer with that LCID. */
  lemma {:induction false} RunLinked(users: Users, ops: seq<Op>)
    requires AllLinked(users)
    ensures AllLinked(Run(users, ops))
    decreases |ops|
  {
    if ops != [] {
      StepLinked(users, ops[0]);
      RunLinked(Step(users, ops[0]), ops[1..]);
    }
  }

  /** The operation adds a bearer under an LCID that another bearer of the user has. */
  ghost predicate Shares(users: Users, op: Op) {
    op.Add? &&
    var u := BearersOf(users, op.rnti);
    op.id !in u.bearers && u.LcidInUse(op.lcid)
  }

  ghost predicate NeverShares(users: Users, ops: seq<Op>)
    decreases |ops|
  {
    ops != [] ==> !Shares(users, ops[0]) && NeverShares(Step(users, ops[0]), ops[1..])
  }

  ghost predicate ExactThroughout(users: Users, ops: seq<Op>) {
    forall k | 0 <= k <= |ops| :: AllExact(Run(users, ops[..k]))
  }

  /** A step keeps the index exact precisely when it does not share an LCID. */
  lemma StepExact(users: Users, op: Op)
    requires AllExact(users)
    ensures AllExact(Step(users, op)) <==> !Shares(users, op)
  {
    match op {
      case Add(rnti, id, rat, lcid) =>
        AddExact(BearersOf(users, rnti), id, rat, lcid);
        var next := Step(users, op);
        assert next[rnti] == BearersOf(users, rnti).Added(id, rat, lcid);
      case Remove(rnti, id) => RemoveExact(BearersOf(users, rnti), id);
      case _ =>
    }
  }

  /** The index is the exact inverse after every operation of a run if and only if no operation
      adds a bearer under an LCID that another bearer of the user has. */
  lemma {:induction false} RunExact(users: Users, ops: seq<Op>)
    requires AllExact(users)
    ensures ExactThroughout(users, ops) <==> NeverShares(users, ops)
    ensures NeverShares(users, ops) ==> AllExact(Run(users, ops))
    decreases |ops|
  {
    if ops != [] {
      StepExact(users, ops[0]);
      ThroughoutUnfold(users, ops);
      if !Shares(users, ops[0]) {
        RunExact(Step(users, ops[0]), ops[1..]);
      }
    }
  }

  lemma ThroughoutUnfold(users: Users, ops: seq<Op>)
    requires ops != [] && AllExact(users)
    ensures ExactThroughout(users, ops)
       <==> AllExact(Step(users, ops[0])) && ExactThroughout(Step(users, ops[0]), ops[1..])
  {
    hide AllExact, Step;
    var next, rest := Step(users, ops[0]), ops[1..];
    assert forall k | 0 <= k <= |rest| :: Run(users, ops[..k + 1]) == Run(next, rest[..k]) by {
      forall k | 0 <= k <= |rest|
        ensures Run(users, ops[..k + 1]) == Run(next, rest[..k])
      {
        assert ops[..k + 1][1..] == rest[..k];
      }
    }
    assert Run(users, ops[..0]) == users && Run(next, rest[..0]) == next;
    if ExactThroughout(next, rest) {
      forall k | 0 <= k <= |ops|
        ensures AllExact(Run(users, ops[..k]))
      {
        assert k > 0 ==> Run(users, ops[..k]) == Run(next, rest[..k - 1]);
      }
    }
    if ExactThroughout(users, ops) {
      forall k | 0 <= k <= |rest|
        ensures AllExact(Run(next, rest[..k]))
      {
        assert Run(users, ops[..k + 1]) == Run(next, rest[..k]);
      }
    }
  }

  /** What an operation on this user does to it. */
  function StepUser(u: UeBearers, op: Op): UeBearers {
    match op
    case Add(_, id, rat, lcid) => u.Added(id, rat, lcid)
    case Remove(_, id) => u.Removed(id)
    case RemUser(_) => EMPTY
    case SetFiveQi(_, id, fiveQi) => u.WithFiveQi(id, fiveQi)
  }

  /** The history of one user: the operations that name it, and no others. */
  function RunUser(u: UeBearers, ops: seq<Op>, rnti: nat): UeBearers
    decreases |ops|
  {
    if ops == [] then u
    else RunUser(if ops[0].rnti == rnti then StepUser(u, ops[0]) else u, ops[1..], rnti)
  }

  /** Every answer about a user is determined by that user's own operations, however they are
      interleaved with operations on others. */
  lemma {:induction false} RunProjects(users: Users, ops: seq<Op>, rnti: nat)
    ensures BearersOf(Run(users, ops), rnti) == RunUser(BearersOf(users, rnti), ops, rnti)
    decreases |ops|
  {
    if ops != [] {
      var next := Step(users, ops[0]);
      assert BearersOf(next, rnti)
          == if ops[0].rnti == rnti then StepUser(BearersOf(users, rnti), ops[0]) else BearersOf(users, rnti);
      RunProjects(next, ops[1..], rnti);
    }
  }
}
