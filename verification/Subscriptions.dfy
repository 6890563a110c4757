/**
 * apps/api/src/subscriptions/subscriptions.service.ts: subscription rows as time intervals, in
 * milliseconds, under a clock that does not run backwards.
 *
 * The operations are functions on the subscription table; SubscriptionsService is the stateful
 * service and each of its methods is proved against its function.
 */
module Subscriptions {
  import opened Results
  import opened Sets

  type SubId = nat
  type UserId = string
  type TariffId = string

  const DAY: int := 86_400_000

  datatype Status = Active | Expired | Cancelled

  datatype Source = ByPayment | ByAdmin

  datatype Subscription = Subscription(
    userId: UserId, tariffId: TariffId, status: Status, source: Source, startsAt: int, endsAt: int)

  type Rows = map<SubId, Subscription>

  datatype Tariff = Tariff(
    durationDays: int, priceCents: int, currency: string, isActive: bool, isPublic: bool, isArchived: bool)

  /** The tariff and user tables a call reads. */
  datatype Catalog = Catalog(tariffs: map<TariffId, Tariff>, users: set<UserId>)

  datatype SubError = TariffNotFound | UserNotFound | SubscriptionNotFound

  datatype Request = Request(userId: UserId, tariffId: TariffId, durationDays: Option<int>, source: Source)

  /** The two clock readings of a grant, and the id its row gets if it creates one. */
  datatype Supply = Supply(first: int, second: int, newId: SubId)

  // ---------------------------------------------------------------- operations

  predicate Live(s: Subscription, userId: UserId, now: int) {
    s.userId == userId && s.status == Active && s.endsAt > now
  }

  function LiveIds(rows: Rows, userId: UserId, now: int): (ids: set<SubId>) {
    set id | id in rows && Live(rows[id], userId, now)
  }

  /** The rows that findFirst may return: live ones with the latest end. */
  ghost function Candidates(rows: Rows, userId: UserId, now: int): (ids: set<SubId>) {
    set id | id in LiveIds(rows, userId, now) && EndsLast(rows, userId, now, id)
  }

  ghost predicate EndsLast(rows: Rows, userId: UserId, now: int, id: SubId)
    requires id in rows
  {
    forall other :: other in LiveIds(rows, userId, now) ==> rows[other].endsAt <= rows[id].endsAt
  }

  ghost function GetActive(rows: Rows, userId: UserId, now: int): (r: Option<SubId>)
    ensures r.Some? ==> r.value in LiveIds(rows, userId, now)
  {
    var ids := Candidates(rows, userId, now);
    if ids == {} then None else Some(Pick(ids))
  }

  /** r is what findFirst may return. */
  ghost predicate Answers(rows: Rows, userId: UserId, now: int, r: Option<SubId>) {
    match r
    case None => LiveIds(rows, userId, now) == {}
    case Some(id) => id in LiveIds(rows, userId, now) && EndsLast(rows, userId, now, id)
  }

  function Days(cat: Catalog, req: Request): (days: int)
    requires req.tariffId in cat.tariffs
  {
    if req.durationDays.Some? then req.durationDays.value else cat.tariffs[req.tariffId].durationDays
  }

  /** Extend the active subscription found from its end, or start one now. */
  function GrantOn(rows: Rows, cat: Catalog, req: Request, supply: Supply, active: Option<SubId>)
    : (r: (Rows, Result<SubId, SubError>))
    requires active.Some? ==> active.value in rows
  {
    if req.tariffId !in cat.tariffs then (rows, Err(TariffNotFound))
    else if req.userId !in cat.users then (rows, Err(UserNotFound))
    else
      var period := Days(cat, req) * DAY;
      match active
      case Some(id) =>
        var s := rows[id];
        (rows[id := s.(endsAt := s.endsAt + period, tariffId := req.tariffId, source := req.source)], Ok(id))
      case None =>
        (rows[supply.newId :=
           Subscription(req.userId, req.tariffId, Active, req.source, supply.second, supply.second + period)],
         Ok(supply.newId))
  }

  ghost function Grant(rows: Rows, cat: Catalog, req: Request, supply: Supply): (r: (Rows, Result<SubId, SubError>)) {
    GrantOn(rows, cat, req, supply, GetActive(rows, req.userId, supply.first))
  }

  function Cancel(rows: Rows, id: SubId): (r: (Rows, Result<(), SubError>)) {
    if id in rows then (rows[id := rows[id].(status := Cancelled)], Ok(())) else (rows, Err(SubscriptionNotFound))
  }

  predicate Due(s: Subscription, now: int) {
    s.status == Active && s.endsAt <= now
  }

  function Swept(s: Subscription, now: int): (t: Subscription) {
    if Due(s, now) then s.(status := Expired) else s
  }

  /** The table after a sweep. */
  function ExpireDue(rows: Rows, now: int): (after: Rows) {
    map id | id in rows :: Swept(rows[id], now)
  }

  // ---------------------------------------------------------------- what each operation does

  /**
   * A grant needs the tariff, then the user. It gives the days requested, or else the tariff's, to the
   * active row found, from its end, or to a new row that starts now; no other row changes.
   */
  lemma GrantMeans(rows: Rows, cat: Catalog, req: Request, supply: Supply, active: Option<SubId>)
    requires active.Some? ==> active.value in rows
    ensures var (after, r) := GrantOn(rows, cat, req, supply, active);
            && (req.tariffId !in cat.tariffs ==> r == Err(TariffNotFound) && after == rows)
            && (req.tariffId in cat.tariffs && req.userId !in cat.users ==> r == Err(UserNotFound) && after == rows)
            && (req.tariffId in cat.tariffs && req.userId in cat.users ==>
                  var days :=
                    match req.durationDays case Some(d) => d case None => cat.tariffs[req.tariffId].durationDays;
                  match active
                  case Some(id) =>
                    var was := rows[id];
                    && r == Ok(id)
                    && after == rows[id := Subscription(was.userId, req.tariffId, was.status, req.source,
                                                        was.startsAt, was.endsAt + days * 86_400_000)]
                  case None =>
                    && r == Ok(supply.newId)
                    && after == rows[supply.newId :=
                                       Subscription(req.userId, req.tariffId, Active, req.source,
                                                    supply.second, supply.second + days * 86_400_000)])
  {
  }

  /** Cancelling marks the row, whatever its status, and changes nothing else; an unknown id is an error. */
  lemma CancelMeans(rows: Rows, id: SubId)
    ensures var (after, r) := Cancel(rows, id);
            && (id !in rows ==> r == Err(SubscriptionNotFound) && after == rows)
            && (id in rows ==>
                  && r == Ok(())
                  && after.Keys == rows.Keys
                  && after[id].status == Cancelled
                  && after[id].(status := rows[id].status) == rows[id]
                  && forall other :: other in rows && other != id ==> after[other] == rows[other])
  {
  }

  /** A sweep marks exactly the active rows that have ended, and changes nothing else. */
  lemma ExpireMeans(rows: Rows, now: int)
    ensures var after := ExpireDue(rows, now);
            && after.Keys == rows.Keys
            && forall id :: id in rows ==>
                 if rows[id].status == Active && rows[id].endsAt <= now then
                   after[id].status == Expired && after[id].(status := Active) == rows[id]
                 else
                   after[id] == rows[id]
  {
  }

  // ---------------------------------------------------------------- intervals

  /** A started interval; what the sweep marked expired has ended. */
  predicate RowOk(s: Subscription, clock: int) {
    && s.startsAt <= clock
    && s.startsAt < s.endsAt
    && (s.status == Expired ==> s.endsAt <= clock)
  }

  predicate Apart(s: Subscription, t: Subscription) {
    s.userId == t.userId && s.status != Cancelled && t.status != Cancelled
    ==> s.endsAt <= t.startsAt || t.endsAt <= s.startsAt
  }

  ghost predicate Sound(rows: Rows, clock: int) {
    && (forall id :: id in rows ==> RowOk(rows[id], clock))
    && (forall id, other :: id in rows && other in rows && id != other ==> Apart(rows[id], rows[other]))
  }

  /** A user never has two live subscriptions. */
  lemma AtMostOneLive(rows: Rows, clock: int, userId: UserId, now: int)
    requires Sound(rows, clock) && clock <= now
    ensures forall id, other :: id in LiveIds(rows, userId, now) && other in LiveIds(rows, userId, now) ==> id == other
  {
    forall id, other | id in rows && other in rows && id != other
      ensures !(Live(rows[id], userId, now) && Live(rows[other], userId, now))
    {
      assert Apart(rows[id], rows[other]);
    }
  }

  /** getActive finds a subscription exactly when one is live. */
  lemma GetActiveFinds(rows: Rows, clock: int, userId: UserId, now: int)
    requires Sound(rows, clock) && clock <= now
    ensures forall id :: GetActive(rows, userId, now) == Some(id) <==> id in LiveIds(rows, userId, now)
  {
    AtMostOneLive(rows, clock, userId, now);
    forall id | id in LiveIds(rows, userId, now)
      ensures id in Candidates(rows, userId, now)
    {
      assert EndsLast(rows, userId, now, id);
    }
  }

  /** Where no rows of a user overlap, findFirst has one answer. */
  lemma OneAnswer(rows: Rows, clock: int, userId: UserId, now: int, r: Option<SubId>)
    requires Sound(rows, clock) && clock <= now && Answers(rows, userId, now, r)
    ensures r == GetActive(rows, userId, now)
  {
    hide Sound, Candidates;
    GetActiveFinds(rows, clock, userId, now);
  }

  /** A grant succeeds exactly when the tariff and the user exist. */
  lemma GrantSucceedsIff(rows: Rows, cat: Catalog, req: Request, supply: Supply)
    ensures Grant(rows, cat, req, supply).1.Ok? <==> req.tariffId in cat.tariffs && req.userId in cat.users
    ensures Grant(rows, cat, req, supply).1.Err? ==> Grant(rows, cat, req, supply).0 == rows
  {
    hide GetActive;
  }

  /** A grant on whichever row findFirst returned is the grant. */
  lemma GrantOnAnswer(rows: Rows, clock: int, cat: Catalog, req: Request, supply: Supply, active: Option<SubId>)
    requires Sound(rows, clock) && clock <= supply.first && (active.Some? ==> active.value in rows)
    requires GrantOn(rows, cat, req, supply, active).1.Ok? ==> Answers(rows, req.userId, supply.first, active)
    ensures GrantOn(rows, cat, req, supply, active) == Grant(rows, cat, req, supply)
  {
    hide GetActive, Sound, Answers;
    if GrantOn(rows, cat, req, supply, active).1.Ok? {
      OneAnswer(rows, clock, req.userId, supply.first, active);
    }
  }

  /** Durations are at least one day, the clock does not run backwards and the generated id is new. */
  predicate GrantAllowed(rows: Rows, clock: int, cat: Catalog, req: Request, supply: Supply) {
    && clock <= supply.first <= supply.second
    && supply.newId !in rows
    && (req.tariffId in cat.tariffs ==> Days(cat, req) >= 1)
  }

  lemma GrantSound(rows: Rows, clock: int, cat: Catalog, req: Request, supply: Supply)
    requires Sound(rows, clock) && GrantAllowed(rows, clock, cat, req, supply)
    ensures Sound(Grant(rows, cat, req, supply).0, supply.second)
  {
    hide Candidates;
    GetActiveFinds(rows, clock, req.userId, supply.first);
    var active := GetActive(rows, req.userId, supply.first);
    var after := Grant(rows, cat, req, supply).0;
    if Grant(rows, cat, req, supply).1.Ok? {
      var changed := Grant(rows, cat, req, supply).1.value;
      forall other | other in rows && other != changed
        ensures Apart(after[changed], rows[other]) && Apart(rows[other], after[changed])
      {
        assert RowOk(rows[other], clock);
        if active.Some? {
          assert Apart(rows[changed], rows[other]);
        } else {
          assert other !in LiveIds(rows, req.userId, supply.first);
        }
      }
    }
  }

  lemma ExpireSound(rows: Rows, clock: int, now: int)
    requires Sound(rows, clock) && clock <= now
    ensures Sound(ExpireDue(rows, now), now)
  {
    forall id, other | id in rows && other in rows && id != other
      ensures Apart(Swept(rows[id], now), Swept(rows[other], now))
    {
      assert Apart(rows[id], rows[other]);
    }
  }

  lemma CancelSound(rows: Rows, clock: int, id: SubId)
    requires Sound(rows, clock)
    ensures Sound(Cancel(rows, id).0, clock)
  {
  }

  /**
   * A grant takes effect: its row is the active one until its end, which lies the granted days after
   * the previous end, or after now; and no other row changes.
   */
  lemma GrantTakesEffect(rows: Rows, clock: int, cat: Catalog, req: Request, supply: Supply, now: int)
    requires Sound(rows, clock) && GrantAllowed(rows, clock, cat, req, supply)
    requires Grant(rows, cat, req, supply).1.Ok? && supply.second <= now
    ensures var (after, r) := Grant(rows, cat, req, supply);
            var was := GetActive(rows, req.userId, supply.first);
            && r.value in after
            && (now < after[r.value].endsAt ==> GetActive(after, req.userId, now) == Some(r.value))
            && after[r.value].tariffId == req.tariffId && after[r.value].source == req.source
            && after[r.value].endsAt ==
               (if was.Some? then rows[was.value].endsAt else supply.second) + Days(cat, req) * DAY
            && r.value == (if was.Some? then was.value else supply.newId)
            && after[r.value].userId == req.userId
            && after.Keys == rows.Keys + {r.value}
            && (forall id :: id in rows && id != r.value ==> after[id] == rows[id])
  {
    hide Candidates, Sound;
    GrantSound(rows, clock, cat, req, supply);
    GetActiveFinds(Grant(rows, cat, req, supply).0, supply.second, req.userId, now);
  }

  /** Cancelling the active subscription leaves the user without one, now and later. */
  lemma CancelTakesEffect(rows: Rows, clock: int, userId: UserId, now: int, later: int)
    requires Sound(rows, clock) && clock <= now <= later && GetActive(rows, userId, now).Some?
    ensures GetActive(Cancel(rows, GetActive(rows, userId, now).value).0, userId, later) == None
  {
    hide Candidates, Sound;
    var id := GetActive(rows, userId, now).value;
    var after := Cancel(rows, id).0;
    AtMostOneLive(rows, clock, userId, now);
    forall other | other in LiveIds(after, userId, later)
      ensures other in LiveIds(rows, userId, now) && other != id
    {
    }
  }

  // ---------------------------------------------------------------- runs

  datatype Op =
    | GrantOp(cat: Catalog, req: Request, supply: Supply)
    | CancelOp(id: SubId)
    | ExpireOp(now: int)

  ghost function Step(rows: Rows, op: Op): (after: Rows) {
    match op
    case GrantOp(cat, req, supply) => Grant(rows, cat, req, supply).0
    case CancelOp(id) => Cancel(rows, id).0
    case ExpireOp(now) => ExpireDue(rows, now)
  }

  ghost function Run(rows: Rows, ops: seq<Op>): (after: Rows) {
    if ops == [] then rows else Step(Run(rows, ops[..|ops| - 1]), ops[|ops| - 1])
  }

  /** The last clock reading. */
  function ClockAfter(clock: int, ops: seq<Op>): (now: int) {
    if ops == [] then clock
    else
      match ops[|ops| - 1]
      case GrantOp(_, _, supply) => supply.second
      case CancelOp(_) => ClockAfter(clock, ops[..|ops| - 1])
      case ExpireOp(now) => now
  }

  predicate Allowed(rows: Rows, clock: int, op: Op) {
    match op
    case GrantOp(cat, req, supply) => GrantAllowed(rows, clock, cat, req, supply)
    case CancelOp(_) => true
    case ExpireOp(now) => clock <= now
  }

  ghost predicate AllowedRun(rows: Rows, clock: int, ops: seq<Op>) {
    ops != [] ==>
      var n := |ops| - 1;
      AllowedRun(rows, clock, ops[..n]) && Allowed(Run(rows, ops[..n]), ClockAfter(clock, ops[..n]), ops[n])
  }

  /** In every run a user's subscriptions that were not cancelled do not overlap. */
  lemma {:induction false} RunSound(rows: Rows, clock: int, ops: seq<Op>)
    requires Sound(rows, clock) && AllowedRun(rows, clock, ops)
    ensures Sound(Run(rows, ops), ClockAfter(clock, ops))
  {
    hide Sound, Grant, Cancel, ExpireDue;
    if ops != [] {
      var n := |ops| - 1;
      RunSound(rows, clock, ops[..n]);
      var before, now := Run(rows, ops[..n]), ClockAfter(clock, ops[..n]);
      match ops[n]
      case GrantOp(cat, req, supply) => GrantSound(before, now, cat, req, supply);
      case CancelOp(id) => CancelSound(before, now, id);
      case ExpireOp(t) => ExpireSound(before, now, t);
    }
  }

  // ---------------------------------------------------------------- conservation

  function Length(s: Subscription): (ms: int) {
    s.endsAt - s.startsAt
  }

  function LengthOf(rows: Rows, id: SubId): (ms: int) {
    if id in rows then Length(rows[id]) else 0
  }

  ghost function TotalLength(rows: Rows, ids: set<SubId>): (ms: int) {
    if ids == {} then 0
    else
      var id := Pick(ids);
      LengthOf(rows, id) + TotalLength(rows, ids - {id})
  }

  /** All rows of a user. */
  function Owned(rows: Rows, userId: UserId): (ids: set<SubId>) {
    set id | id in rows && rows[id].userId == userId
  }

  function CancelledOf(rows: Rows, userId: UserId): (ids: set<SubId>) {
    set id | id in rows && rows[id].userId == userId && rows[id].status == Cancelled
  }

  function KeptOf(rows: Rows, userId: UserId): (ids: set<SubId>) {
    set id | id in rows && rows[id].userId == userId && rows[id].status != Cancelled
  }

  /** The milliseconds at which one of the rows runs. */
  function Instants(rows: Rows, ids: set<SubId>): (ts: set<int>) {
    set id, t | id in ids && id in rows && t in Interval(rows[id].startsAt, rows[id].endsAt) :: t
  }

  /** The milliseconds a user is entitled to. */
  function Entitled(rows: Rows, userId: UserId): (ts: set<int>) {
    Instants(rows, KeptOf(rows, userId))
  }

  /** The row a step credits, and with how many days. */
  ghost function Credited(rows: Rows, op: Op): (r: Option<(SubId, int)>) {
    if op.GrantOp? && Grant(rows, op.cat, op.req, op.supply).1.Ok?
    then Some((Grant(rows, op.cat, op.req, op.supply).1.value, Days(op.cat, op.req)))
    else None
  }

  /** The days all the grants of a run credited to a row. */
  ghost function DaysTo(rows: Rows, ops: seq<Op>, id: SubId): (days: int) {
    if ops == [] then 0
    else
      var n := |ops| - 1;
      var credit := Credited(Run(rows, ops[..n]), ops[n]);
      DaysTo(rows, ops[..n], id) + if credit.Some? && credit.value.0 == id then credit.value.1 else 0
  }

  /** The days a run granted to a user. */
  ghost function DaysGranted(rows: Rows, ops: seq<Op>, userId: UserId): (days: int) {
    if ops == [] then 0
    else
      var n := |ops| - 1;
      var credit := Credited(Run(rows, ops[..n]), ops[n]);
      DaysGranted(rows, ops[..n], userId) + if credit.Some? && ops[n].req.userId == userId then credit.value.1 else 0
  }

  lemma {:induction false} TotalOf(rows: Rows, ids: set<SubId>, id: SubId)
    requires id in ids
    ensures TotalLength(rows, ids) == LengthOf(rows, id) + TotalLength(rows, ids - {id})
  {
    var first := Pick(ids);
    if first != id {
      TotalOf(rows, ids - {first}, id);
      TotalOf(rows, ids - {id}, first);
      assert ids - {first} - {id} == ids - {id} - {first};
    }
  }

  lemma {:induction false} TotalSame(rows: Rows, others: Rows, ids: set<SubId>)
    requires forall id :: id in ids ==> LengthOf(rows, id) == LengthOf(others, id)
    ensures TotalLength(rows, ids) == TotalLength(others, ids)
  {
    if ids != {} {
      TotalSame(rows, others, ids - {Pick(ids)});
    }
  }

  lemma {:induction false} TotalSplit(rows: Rows, ids: set<SubId>, more: set<SubId>)
    requires ids !! more
    ensures TotalLength(rows, ids + more) == TotalLength(rows, ids) + TotalLength(rows, more)
  {
    if ids == {} {
      assert ids + more == more;
    } else {
      var id := Pick(ids);
      TotalOf(rows, ids + more, id);
      assert ids + more - {id} == (ids - {id}) + more;
      TotalSplit(rows, ids - {id}, more);
    }
  }

  /** Intervals that do not overlap hold as many instants as the sum of their lengths. */
  lemma {:induction false} InstantsSize(rows: Rows, clock: int, userId: UserId, ids: set<SubId>)
    requires Sound(rows, clock) && ids <= KeptOf(rows, userId)
    ensures |Instants(rows, ids)| == TotalLength(rows, ids)
  {
    if ids == {} {
      assert Instants(rows, ids) == {};
    } else {
      var id := Pick(ids);
      var rest := ids - {id};
      InstantsSize(rows, clock, userId, rest);
      InstantsSplit(rows, clock, userId, rest, id);
      assert rest + {id} == ids;
    }
  }

  lemma InstantsSplit(rows: Rows, clock: int, userId: UserId, rest: set<SubId>, id: SubId)
    requires Sound(rows, clock) && rest <= KeptOf(rows, userId) && id in KeptOf(rows, userId) && id !in rest
    ensures |Instants(rows, rest + {id})| == |Instants(rows, rest)| + Length(rows[id])
  {
    hide Instants;
    var own := Interval(rows[id].startsAt, rows[id].endsAt);
    InstantsApart(rows, clock, userId, rest, id);
    InstantsAdd(rows, rest, id);
    assert RowOk(rows[id], clock);
  }

  lemma InstantsApart(rows: Rows, clock: int, userId: UserId, rest: set<SubId>, id: SubId)
    requires Sound(rows, clock) && rest <= KeptOf(rows, userId) && id in KeptOf(rows, userId) && id !in rest
    ensures Instants(rows, rest) !! Interval(rows[id].startsAt, rows[id].endsAt)
  {
    forall t | t in Instants(rows, rest)
      ensures t !in Interval(rows[id].startsAt, rows[id].endsAt)
    {
      var other :| other in rest && other in rows && t in Interval(rows[other].startsAt, rows[other].endsAt);
      assert Apart(rows[id], rows[other]);
    }
  }

  lemma InstantsAdd(rows: Rows, rest: set<SubId>, id: SubId)
    requires id in rows
    ensures Instants(rows, rest + {id}) == Instants(rows, rest) + Interval(rows[id].startsAt, rows[id].endsAt)
  {
    hide Interval;
    var own := Interval(rows[id].startsAt, rows[id].endsAt);
    forall t
      ensures t in Instants(rows, rest + {id}) <==> t in Instants(rows, rest) || t in own
    {
    }
  }

  /** A step lengthens the credited row by the days granted and no other. */
  lemma StepCredits(rows: Rows, clock: int, op: Op, id: SubId)
    requires Allowed(rows, clock, op)
    ensures var credit := Credited(rows, op);
            LengthOf(Step(rows, op), id) ==
            LengthOf(rows, id) + if credit.Some? && credit.value.0 == id then DAY * credit.value.1 else 0
  {
    hide Candidates;
  }

  lemma StepOwners(rows: Rows, clock: int, op: Op, userId: UserId)
    requires Allowed(rows, clock, op)
    ensures Owned(Step(rows, op), userId) ==
            Owned(rows, userId) +
            (if Credited(rows, op).Some? && op.req.userId == userId then {Credited(rows, op).value.0} else {})
    ensures Credited(rows, op).Some? && op.req.userId != userId ==> Credited(rows, op).value.0 !in Owned(rows, userId)
  {
    hide Candidates;
  }

  lemma StepTotal(rows: Rows, clock: int, op: Op, userId: UserId)
    requires Allowed(rows, clock, op)
    ensures var credit := Credited(rows, op);
            TotalLength(Step(rows, op), Owned(Step(rows, op), userId)) ==
            TotalLength(rows, Owned(rows, userId))
            + if credit.Some? && op.req.userId == userId then DAY * credit.value.1 else 0
  {
    hide Step, Credited, Owned, LengthOf, Allowed;
    var after, credit := Step(rows, op), Credited(rows, op);
    forall id
      ensures LengthOf(after, id) ==
              LengthOf(rows, id) + if credit.Some? && credit.value.0 == id then DAY * credit.value.1 else 0
    {
      StepCredits(rows, clock, op, id);
    }
    StepOwners(rows, clock, op, userId);
    CreditedOnlyByGrant(rows, op);
    if credit.Some? && op.req.userId == userId {
      var id := credit.value.0;
      TotalOf(after, Owned(after, userId), id);
      TotalSame(rows, after, Owned(after, userId) - {id});
      if id in Owned(rows, userId) {
        TotalOf(rows, Owned(rows, userId), id);
        assert Owned(after, userId) - {id} == Owned(rows, userId) - {id};
      } else {
        assert Owned(after, userId) - {id} == Owned(rows, userId);
        NewHasNoLength(rows, clock, op, userId);
      }
    } else {
      assert Owned(after, userId) == Owned(rows, userId);
      TotalSame(rows, after, Owned(rows, userId));
    }
  }

  /** A grant adds exactly the days granted to the user's total. */
  lemma GrantAdds(rows: Rows, clock: int, cat: Catalog, req: Request, supply: Supply)
    requires Sound(rows, clock) && GrantAllowed(rows, clock, cat, req, supply)
    requires req.tariffId in cat.tariffs && req.userId in cat.users
    ensures var (after, r) := Grant(rows, cat, req, supply);
            && r.Ok?
            && Sound(after, supply.second)
            && TotalLength(after, Owned(after, req.userId)) ==
               TotalLength(rows, Owned(rows, req.userId)) + DAY * Days(cat, req)
  {
    hide Sound, TotalLength, Owned, GetActive;
    GrantSound(rows, clock, cat, req, supply);
    GrantSucceedsIff(rows, cat, req, supply);
    StepTotal(rows, clock, GrantOp(cat, req, supply), req.userId);
  }

  lemma CreditedOnlyByGrant(rows: Rows, op: Op)
    ensures Credited(rows, op).Some? ==> op.GrantOp?
  {
  }

  lemma NewHasNoLength(rows: Rows, clock: int, op: Op, userId: UserId)
    requires Allowed(rows, clock, op) && Credited(rows, op).Some? && op.req.userId == userId
    requires Credited(rows, op).value.0 !in Owned(rows, userId)
    ensures LengthOf(rows, Credited(rows, op).value.0) == 0
  {
    hide Candidates;
  }

  lemma {:induction false} RunCredits(rows: Rows, clock: int, ops: seq<Op>, id: SubId)
    requires AllowedRun(rows, clock, ops)
    ensures LengthOf(Run(rows, ops), id) == LengthOf(rows, id) + DAY * DaysTo(rows, ops, id)
  {
    hide Step, Credited, LengthOf, Allowed;
    if ops != [] {
      var n := |ops| - 1;
      RunCredits(rows, clock, ops[..n], id);
      StepCredits(Run(rows, ops[..n]), ClockAfter(clock, ops[..n]), ops[n], id);
    }
  }

  lemma {:induction false} RunTotal(rows: Rows, clock: int, ops: seq<Op>, userId: UserId)
    requires AllowedRun(rows, clock, ops)
    ensures TotalLength(Run(rows, ops), Owned(Run(rows, ops), userId)) ==
            TotalLength(rows, Owned(rows, userId)) + DAY * DaysGranted(rows, ops, userId)
  {
    hide Step, Credited, LengthOf, Allowed, Owned, TotalLength;
    if ops != [] {
      var n := |ops| - 1;
      RunTotal(rows, clock, ops[..n], userId);
      StepTotal(Run(rows, ops[..n]), ClockAfter(clock, ops[..n]), ops[n], userId);
    }
  }

  /**
   * Over every run that starts without subscriptions: the milliseconds a user is entitled to, and
   * those of the subscriptions cancelled, add up to exactly the days granted; and each row's length
   * is exactly the days granted to it.
   */
  lemma EntitlementConserved(clock: int, ops: seq<Op>, userId: UserId)
    requires AllowedRun(map[], clock, ops)
    ensures var rows := Run(map[], ops);
            && |Entitled(rows, userId)| + TotalLength(rows, CancelledOf(rows, userId))
               == DAY * DaysGranted(map[], ops, userId)
            && forall id :: id in rows ==> rows[id].endsAt - rows[id].startsAt == DAY * DaysTo(map[], ops, id)
  {
    hide Step, Allowed, TotalLength, Instants;
    var rows := Run(map[], ops);
    NothingSound(clock);
    RunSound(map[], clock, ops);
    RunTotal(map[], clock, ops, userId);
    NothingOwned(userId);
    InstantsSize(rows, ClockAfter(clock, ops), userId, KeptOf(rows, userId));
    TotalSplit(rows, KeptOf(rows, userId), CancelledOf(rows, userId));
    assert Owned(rows, userId) == KeptOf(rows, userId) + CancelledOf(rows, userId);
    forall id | id in rows
      ensures Length(rows[id]) == DAY * DaysTo(map[], ops, id)
    {
      RunCredits(map[], clock, ops, id);
    }
  }

  lemma NothingSound(clock: int)
    ensures Sound(map[], clock)
  {
  }

  lemma NothingOwned(userId: UserId)
    ensures TotalLength(map[], Owned(map[], userId)) == 0
  {
    assert Owned(map[], userId) == {};
  }

  // ---------------------------------------------------------------- the sweep is invisible

  /** The run without its sweeps. */
  function Unswept(ops: seq<Op>): (rest: seq<Op>) {
    if ops == [] then []
    else
      var n := |ops| - 1;
      Unswept(ops[..n]) + if ops[n].ExpireOp? then [] else [ops[n]]
  }

  /** The tables agree except that one may call expired what the other will sweep by now. */
  predicate Alike(rows: Rows, others: Rows, now: int) {
    ExpireDue(rows, now) == ExpireDue(others, now)
  }

  lemma AlikeRows(rows: Rows, others: Rows, now: int)
    ensures Alike(rows, others, now) <==>
            rows.Keys == others.Keys && forall id :: id in rows ==> Swept(rows[id], now) == Swept(others[id], now)
  {
    assert ExpireDue(rows, now).Keys == rows.Keys && ExpireDue(others, now).Keys == others.Keys;
    assert forall id :: id in rows ==> ExpireDue(rows, now)[id] == Swept(rows[id], now);
    assert forall id :: id in others ==> ExpireDue(others, now)[id] == Swept(others[id], now);
  }

  lemma AlikeLater(rows: Rows, others: Rows, now: int, later: int)
    requires Alike(rows, others, now) && now <= later
    ensures Alike(rows, others, later)
  {
    hide Alike;
    AlikeRows(rows, others, now);
    AlikeRows(rows, others, later);
  }

  /** Tables that are alike give the same active subscription. */
  lemma AlikeActive(rows: Rows, others: Rows, now: int, userId: UserId)
    requires Alike(rows, others, now)
    ensures GetActive(rows, userId, now) == GetActive(others, userId, now)
    ensures forall id :: id in LiveIds(rows, userId, now) ==> id in others && rows[id] == others[id]
  {
    hide Alike;
    AlikeRows(rows, others, now);
    forall id
      ensures id in LiveIds(rows, userId, now) <==> id in LiveIds(others, userId, now)
      ensures id in LiveIds(rows, userId, now) ==> rows[id] == others[id]
    {
      if id in rows {
        assert Swept(rows[id], now) == Swept(others[id], now);
      }
    }
    assert LiveIds(rows, userId, now) == LiveIds(others, userId, now);
    forall id | id in LiveIds(rows, userId, now)
      ensures EndsLast(rows, userId, now, id) <==> EndsLast(others, userId, now, id)
    {
    }
    assert Candidates(rows, userId, now) == Candidates(others, userId, now);
  }

  lemma GrantAlike(rows: Rows, others: Rows, clock: int, cat: Catalog, req: Request, supply: Supply)
    requires Alike(rows, others, clock) && clock <= supply.first <= supply.second
    ensures Alike(Grant(rows, cat, req, supply).0, Grant(others, cat, req, supply).0, supply.second)
    ensures Grant(rows, cat, req, supply).1 == Grant(others, cat, req, supply).1
  {
    hide Alike, Candidates;
    AlikeLater(rows, others, clock, supply.first);
    AlikeActive(rows, others, supply.first, req.userId);
    AlikeLater(rows, others, clock, supply.second);
    AlikeRows(rows, others, supply.second);
    AlikeRows(Grant(rows, cat, req, supply).0, Grant(others, cat, req, supply).0, supply.second);
  }

  lemma CancelAlike(rows: Rows, others: Rows, clock: int, id: SubId)
    requires Alike(rows, others, clock)
    ensures Alike(Cancel(rows, id).0, Cancel(others, id).0, clock)
  {
    hide Alike;
    AlikeRows(rows, others, clock);
    AlikeRows(Cancel(rows, id).0, Cancel(others, id).0, clock);
  }

  lemma SweepAlike(rows: Rows, others: Rows, clock: int, now: int)
    requires Alike(rows, others, clock) && clock <= now
    ensures Alike(ExpireDue(rows, now), others, now)
  {
    hide Alike;
    AlikeLater(rows, others, clock, now);
    AlikeRows(rows, others, now);
    AlikeRows(ExpireDue(rows, now), others, now);
  }

  lemma {:induction false} UnsweptAlike(rows: Rows, clock: int, ops: seq<Op>)
    requires AllowedRun(rows, clock, ops)
    ensures Alike(Run(rows, ops), Run(rows, Unswept(ops)), ClockAfter(clock, ops))
  {
    hide Alike, Grant, Cancel, ExpireDue;
    if ops != [] {
      var n := |ops| - 1;
      UnsweptAlike(rows, clock, ops[..n]);
      var before, bare, now := Run(rows, ops[..n]), Run(rows, Unswept(ops[..n])), ClockAfter(clock, ops[..n]);
      assert (Unswept(ops[..n]) + [ops[n]])[..|Unswept(ops[..n])|] == Unswept(ops[..n]);
      match ops[n]
      case GrantOp(cat, req, supply) => GrantAlike(before, bare, now, cat, req, supply);
      case CancelOp(id) => CancelAlike(before, bare, now, id);
      case ExpireOp(t) => SweepAlike(before, bare, now, t); assert Unswept(ops) == Unswept(ops[..n]);
    } else {
      SelfAlike(rows, clock);
    }
  }

  lemma AlikeTrans(rows: Rows, bare: Rows, others: Rows, now: int)
    requires Alike(rows, bare, now) && Alike(others, bare, now)
    ensures Alike(rows, others, now)
  {
  }

  lemma SelfAlike(rows: Rows, now: int)
    ensures Alike(rows, rows, now)
  {
  }

  /**
   * Runs that differ only in where sweeps happen, if at all, give the same active subscription to
   * every user at every later time, tariff and source included, and rows that agree once swept.
   */
  lemma SweepInvisible(rows: Rows, clock: int, ops: seq<Op>, others: seq<Op>, userId: UserId, now: int)
    requires AllowedRun(rows, clock, ops) && AllowedRun(rows, clock, others) && Unswept(ops) == Unswept(others)
    requires ClockAfter(clock, ops) <= now && ClockAfter(clock, others) <= now
    ensures GetActive(Run(rows, ops), userId, now) == GetActive(Run(rows, others), userId, now)
    ensures GetActive(Run(rows, ops), userId, now).Some? ==>
              var id := GetActive(Run(rows, ops), userId, now).value;
              id in Run(rows, ops) && id in Run(rows, others) && Run(rows, ops)[id] == Run(rows, others)[id]
    ensures Alike(Run(rows, ops), Run(rows, others), now)
    ensures Run(rows, ops).Keys == Run(rows, others).Keys
    ensures forall id :: id in Run(rows, ops) ==>
              && Run(rows, ops)[id].startsAt == Run(rows, others)[id].startsAt
              && Run(rows, ops)[id].endsAt == Run(rows, others)[id].endsAt
  {
    hide Alike, AllowedRun, Run, Unswept, GetActive;
    UnsweptAlike(rows, clock, ops);
    UnsweptAlike(rows, clock, others);
    var bare := Run(rows, Unswept(ops));
    AlikeLater(Run(rows, ops), bare, ClockAfter(clock, ops), now);
    AlikeLater(Run(rows, others), bare, ClockAfter(clock, others), now);
    AlikeTrans(Run(rows, ops), bare, Run(rows, others), now);
    AlikeActive(Run(rows, ops), Run(rows, others), now, userId);
    AlikeRows(Run(rows, ops), Run(rows, others), now);
    forall id | id in Run(rows, ops)
      ensures Swept(Run(rows, ops)[id], now) == Swept(Run(rows, others)[id], now)
    {
    }
  }
}
