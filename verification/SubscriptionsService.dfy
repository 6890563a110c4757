/** The stateful subscription service; each method is proved against its function in Subscriptions. */
module SubscriptionsService {
  import opened Results
  import opened Sets
  import opened Subscriptions

  class Service {
    var rows: Rows

    constructor ()
      ensures rows == map[]
    {
      rows := map[];
    }

    /** findFirst of the user's live subscriptions, latest end first. */
    method GetActive(userId: UserId, now: int) returns (r: Option<SubId>)
      ensures Answers(rows, userId, now, r)
      ensures r.None? ==>
                forall id :: id in rows && rows[id].userId == userId && rows[id].status == Active ==> rows[id].endsAt <= now
      ensures r.Some? ==>
                && r.value in rows && rows[r.value].userId == userId
                && rows[r.value].status == Active && rows[r.value].endsAt > now
                && forall id :: id in rows && rows[id].userId == userId && rows[id].status == Active
                     ==> rows[id].endsAt <= rows[r.value].endsAt
    {
      hide LiveIds;
      var live := LiveIds(rows, userId, now);
      LiveExist(rows, userId, now);
      r := None;
      ghost var seen: set<SubId> := {};
      while live != {}
        invariant live + seen == LiveIds(rows, userId, now)
        invariant r.None? <==> seen == {}
        invariant r.Some? ==> r.value in seen && forall other :: other in seen ==> rows[other].endsAt <= rows[r.value].endsAt
        decreases |live|
      {
        var id :| id in live;
        live := live - {id};
        seen := seen + {id};
        if r.None? || rows[id].endsAt > rows[r.value].endsAt {
          r := Some(id);
        }
      }
      assert seen == LiveIds(rows, userId, now);
      LiveMeans(rows, userId, now);
    }

    /** active is the row that findFirst returned, if the call got that far. */
    method GrantOrExtend(cat: Catalog, req: Request, supply: Supply)
      returns (r: Result<SubId, SubError>, ghost active: Option<SubId>)
      modifies this
      ensures r.Ok? ==> Answers(old(rows), req.userId, supply.first, active)
      ensures active.Some? ==> active.value in old(rows)
      ensures (rows, r) == GrantOn(old(rows), cat, req, supply, active)
    {
      hide LiveIds, EndsLast;
      if req.tariffId !in cat.tariffs {
        return Err(TariffNotFound), None;
      }
      if req.userId !in cat.users {
        return Err(UserNotFound), None;
      }
      var days := if req.durationDays.Some? then req.durationDays.value else cat.tariffs[req.tariffId].durationDays;
      var found := GetActive(req.userId, supply.first);
      active := found;
      LiveExist(rows, req.userId, supply.first);
      if found.Some? {
        var s := rows[found.value];
        var newEnd := s.endsAt + days * 86_400_000;
        rows := rows[found.value := s.(endsAt := newEnd, tariffId := req.tariffId, source := req.source)];
        return Ok(found.value), active;
      }
      var now := supply.second;
      rows := rows[supply.newId :=
        Subscription(req.userId, req.tariffId, Active, req.source, now, now + days * 86_400_000)];
      return Ok(supply.newId), active;
    }

    method Cancel(id: SubId) returns (r: Result<(), SubError>)
      modifies this
      ensures (rows, r) == Subscriptions.Cancel(old(rows), id)
    {
      if id !in rows {
        return Err(SubscriptionNotFound);
      }
      rows := rows[id := rows[id].(status := Cancelled)];
      return Ok(());
    }

    /** updateMany of the active rows that have ended; how many there were. */
    method ExpireDue(now: int) returns (count: nat)
      modifies this
      ensures rows == Subscriptions.ExpireDue(old(rows), now)
      ensures count == |set id | id in old(rows) && old(rows)[id].status == Active && old(rows)[id].endsAt <= now|
    {
      var due := set id | id in rows && rows[id].status == Active && rows[id].endsAt <= now;
      count := |due|;
      rows := map id | id in rows :: if id in due then rows[id].(status := Expired) else rows[id];
    }
  }

  lemma LiveExist(rows: Rows, userId: UserId, now: int)
    ensures LiveIds(rows, userId, now) <= rows.Keys
  {
  }

  lemma LiveMeans(rows: Rows, userId: UserId, now: int)
    ensures forall id :: id in LiveIds(rows, userId, now) <==>
              id in rows && rows[id].userId == userId && rows[id].status == Active && rows[id].endsAt > now
  {
  }
}
