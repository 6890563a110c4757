/**
 * What runs of the payment service do to subscriptions: which requests grant, how often a payment
 * grants, that repeated settlements change nothing, and what users end up entitled to.
 */
module Settlements {
  import opened Results
  import opened Sets
  import opened Payments
  import Subscriptions

  type UserId = Subscriptions.UserId
  type Rows = Subscriptions.Rows

  // ---------------------------------------------------------------- requests

  /** What a step asks of a payment; worth is the days a grant would then give, if it can give any. */
  datatype Event = Settles(worth: Option<int>) | MarksPaid(worth: Option<int>) | Fails

  datatype Effect = Effect(id: PaymentId, event: Event)

  /** The days of the payment's tariff, provided that the tariff and the user exist. */
  function Worth(p: Payment, cat: Subscriptions.Catalog): (worth: Option<int>) {
    if Present(p.tariffId) && p.tariffId.value in cat.tariffs && p.userId in cat.users
    then Some(cat.tariffs[p.tariffId.value].durationDays)
    else None
  }

  /** The payment a step addresses, and how. */
  ghost function EffectOf(st: PayState, op: Op): (e: Option<Effect>) {
    match op
    case CheckoutOp(userId, tariffId, newId, charge, m) =>
      if Purchasable(m.cat, tariffId) && charge.Some? && charge.value.settled
      then Some(Effect(newId, Settles(Worth(NewPayment(m.cat, userId, tariffId, None), m.cat))))
      else None
    case WebhookOp(verdict, m) =>
      if verdict.IgnoredVerdict? then None
      else
        (match FindByTxnOrId(st.payments, verdict.providerTxnId, verdict.paymentId)
         case None => None
         case Some(id) =>
           Some(Effect(id, if verdict.SucceededVerdict? then Settles(Worth(st.payments[id], m.cat)) else Fails)))
    case ManualOp(id, m) =>
      if id in st.payments then Some(Effect(id, MarksPaid(Worth(st.payments[id], m.cat)))) else None
    case SubscriptionOp(_) => None
  }

  ghost predicate Asks(st: PayState, op: Op, id: PaymentId) {
    EffectOf(st, op).Some? && EffectOf(st, op).value.id == id
  }

  /** A payment for a tariff that is not SUCCEEDED. */
  predicate Unpaid(st: PayState, id: PaymentId) {
    id in st.payments && st.payments[id].status != Succeeded && Present(st.payments[id].tariffId)
  }

  /** The call to grantOrExtend, if any, that a step makes for a payment; it may fail. */
  ghost function CallFor(st: PayState, op: Op): (g: Option<(PaymentId, Subscriptions.Op)>) {
    match op
    case CheckoutOp(userId, tariffId, newId, charge, m) =>
      if Purchasable(m.cat, tariffId) && charge.Some? && charge.value.settled && tariffId != ""
      then
        var req := Subscriptions.Request(userId, tariffId, None, Subscriptions.ByPayment);
        Some((newId, Subscriptions.GrantOp(m.cat, req, m.supply)))
      else None
    case WebhookOp(verdict, m) =>
      var e := EffectOf(st, op);
      if e.Some? && e.value.event.Settles? && Unpaid(st, e.value.id)
      then
        var req := Purchase(st.payments[e.value.id], Subscriptions.ByPayment);
        Some((e.value.id, Subscriptions.GrantOp(m.cat, req, m.supply)))
      else None
    case ManualOp(id, m) =>
      if Unpaid(st, id)
      then Some((id, Subscriptions.GrantOp(m.cat, Purchase(st.payments[id], Subscriptions.ByAdmin), m.supply)))
      else None
    case SubscriptionOp(_) => None
  }

  /** The days a step has the subscriptions credit for a payment; None if no row is credited. */
  ghost function Granted(st: PayState, op: Op, id: PaymentId): (days: Option<int>) {
    var call := CallFor(st, op);
    if call.Some? && call.value.0 == id && Subscriptions.Credited(st.subs, call.value.1).Some?
    then Some(Subscriptions.Credited(st.subs, call.value.1).value.1)
    else None
  }

  // ---------------------------------------------------------------- grants reach the subscriptions

  ghost function TraceOf(st: PayState, op: Op): (trace: seq<Subscriptions.Op>) {
    if op.SubscriptionOp? then [op.op]
    else if CallFor(st, op).Some? then [CallFor(st, op).value.1]
    else []
  }

  /** The subscription operations of a run. */
  ghost function Trace(st: PayState, ops: seq<Op>): (trace: seq<Subscriptions.Op>) {
    if ops == [] then []
    else Trace(st, ops[..|ops| - 1]) + TraceOf(Run(st, ops[..|ops| - 1]), ops[|ops| - 1])
  }

  /** A step changes subscriptions by the call it makes and by nothing else. */
  lemma StepTraced(st: PayState, op: Op)
    requires Allowed(st, op)
    ensures |TraceOf(st, op)| <= 1
    ensures Step(st, op).subs ==
            if TraceOf(st, op) == [] then st.subs else Subscriptions.Step(st.subs, TraceOf(st, op)[0])
  {
    hide Subscriptions.Grant, ByTxn;
  }

  lemma RunSnoc(rows: Rows, ops: seq<Subscriptions.Op>, op: Subscriptions.Op)
    ensures Subscriptions.Run(rows, ops + [op]) == Subscriptions.Step(Subscriptions.Run(rows, ops), op)
  {
    assert (ops + [op])[..|ops|] == ops;
  }

  /** The subscriptions after a run are those after its trace. */
  lemma {:induction false} RunTraced(st: PayState, ops: seq<Op>)
    requires AllowedRun(st, ops)
    ensures Run(st, ops).subs == Subscriptions.Run(st.subs, Trace(st, ops))
  {
    hide Step, Subscriptions.Step, TraceOf, ByTxn;
    if ops != [] {
      var n := |ops| - 1;
      RunTraced(st, ops[..n]);
      var before := Run(st, ops[..n]);
      StepTraced(before, ops[n]);
      var trace := TraceOf(before, ops[n]);
      if trace != [] {
        RunSnoc(st.subs, Trace(st, ops[..n]), trace[0]);
        assert trace == [trace[0]];
      } else {
        assert Trace(st, ops) == Trace(st, ops[..n]);
      }
    }
  }

  // ---------------------------------------------------------------- how often a payment grants

  /** What a run asked of a payment, in order. */
  ghost function Events(st: PayState, ops: seq<Op>, id: PaymentId): (events: seq<Event>) {
    if ops == [] then []
    else
      var n := |ops| - 1;
      var before := Run(st, ops[..n]);
      Events(st, ops[..n], id) + if Asks(before, ops[n], id) then [EffectOf(before, ops[n]).value.event] else []
  }

  /** The number of grants that a run made for a payment. */
  ghost function GrantsFor(st: PayState, ops: seq<Op>, id: PaymentId): (n: nat) {
    if ops == [] then 0
    else
      var n := |ops| - 1;
      GrantsFor(st, ops[..n], id) + if Granted(Run(st, ops[..n]), ops[n], id).Some? then 1 else 0
  }

  /** The days that a run granted for a payment. */
  ghost function DaysFor(st: PayState, ops: seq<Op>, id: PaymentId): (days: int) {
    if ops == [] then 0
    else
      var n := |ops| - 1;
      var granted := Granted(Run(st, ops[..n]), ops[n], id);
      DaysFor(st, ops[..n], id) + if granted.Some? then granted.value else 0
  }

  /** Some settlement with no failure after it. */
  predicate SettledBy(events: seq<Event>) {
    exists i :: 0 <= i < |events| && events[i].Settles? && NoFailureAfter(events, i)
  }

  predicate NoFailureAfter(events: seq<Event>, i: nat) {
    forall k :: i < k < |events| ==> !events[k].Fails?
  }

  /** A request that pays, for a payment whose tariff and user exist. */
  predicate CanGrant(e: Event) {
    !e.Fails? && e.worth.Some?
  }

  /**
   * Of the requests that can grant, all after the first that finds the payment unsettled find it
   * settled: an earlier settlement with no failure since.
   */
  predicate Harmless(events: seq<Event>) {
    forall i, j :: 0 <= i < j < |events| && CanGrant(events[i]) && !SettledBy(events[..i]) && CanGrant(events[j])
      ==> SettledBy(events[..j])
  }

  /** Whether events leave a payment settled, and the grants and days on the way. */
  datatype Tally = Tally(settled: bool, grants: nat, days: int)

  function Paid(t: Tally, worth: Option<int>): (u: Tally) {
    if worth.Some? then Tally(t.settled, t.grants + 1, t.days + worth.value) else t
  }

  function Next(t: Tally, e: Event): (u: Tally) {
    match e
    case Fails => t.(settled := false)
    case Settles(worth) => if t.settled then t else Paid(t, worth).(settled := true)
    case MarksPaid(worth) => if t.settled then t else Paid(t, worth)
  }

  function Count(events: seq<Event>): (t: Tally) {
    if events == [] then Tally(false, 0, 0) else Next(Count(events[..|events| - 1]), events[|events| - 1])
  }

  lemma SettledNext(events: seq<Event>, e: Event)
    ensures SettledBy(events + [e]) <==> e.Settles? || (SettledBy(events) && !e.Fails?)
  {
    var all := events + [e];
    assert all[|events|] == e;
    assert forall i :: 0 <= i < |events| ==> all[i] == events[i];
    if SettledBy(events) && !e.Fails? {
      var i :| 0 <= i < |events| && events[i].Settles? && NoFailureAfter(events, i);
      assert NoFailureAfter(all, i);
    }
    if SettledBy(all) && !e.Settles? {
      var i :| 0 <= i < |all| && all[i].Settles? && NoFailureAfter(all, i);
      assert NoFailureAfter(events, i);
    }
    if e.Settles? {
      assert NoFailureAfter(all, |events|);
    }
  }

  /** Some request found the payment unsettled and could grant. */
  predicate SomeGrant(events: seq<Event>) {
    exists i :: 0 <= i < |events| && CanGrant(events[i]) && !SettledBy(events[..i])
  }

  lemma PrefixesKept(events: seq<Event>, e: Event)
    ensures forall i :: 0 <= i < |events| ==> (events + [e])[i] == events[i] && (events + [e])[..i] == events[..i]
    ensures (events + [e])[..|events|] == events && (events + [e])[|events|] == e
  {
  }

  lemma HarmlessNext(events: seq<Event>, e: Event)
    ensures SomeGrant(events + [e]) <==> SomeGrant(events) || (CanGrant(e) && !SettledBy(events))
    ensures Harmless(events + [e]) <==>
            Harmless(events) && (SomeGrant(events) && CanGrant(e) ==> SettledBy(events))
  {
    hide SettledBy, CanGrant;
    PrefixesKept(events, e);
    var all := events + [e];
    if SomeGrant(events) && CanGrant(e) && !SettledBy(events) {
      var i :| 0 <= i < |events| && CanGrant(events[i]) && !SettledBy(events[..i]);
      assert CanGrant(all[i]) && !SettledBy(all[..i]);
      assert !Harmless(all);
    }
    if SomeGrant(events) {
      var i :| 0 <= i < |events| && CanGrant(events[i]) && !SettledBy(events[..i]);
      assert CanGrant(all[i]) && !SettledBy(all[..i]);
    }
    if CanGrant(e) && !SettledBy(events) {
      assert CanGrant(all[|events|]) && !SettledBy(all[..|events|]);
    }
  }

  lemma {:induction false} CountMeans(events: seq<Event>)
    ensures Count(events).settled <==> SettledBy(events)
    ensures Count(events).grants == 0 <==> !SomeGrant(events)
    ensures Count(events).grants <= 1 <==> Harmless(events)
  {
    hide SettledBy, SomeGrant, Harmless;
    if events == [] {
      CountNothing();
    } else {
      var n := |events| - 1;
      assert events == events[..n] + [events[n]];
      CountMeans(events[..n]);
      SettledNext(events[..n], events[n]);
      HarmlessNext(events[..n], events[n]);
    }
  }

  lemma CountNothing()
    ensures !SettledBy([]) && !SomeGrant([]) && Harmless([])
  {
  }

  function StatusOf(st: PayState, id: PaymentId): (s: PaymentStatus) {
    if id in st.payments then st.payments[id].status else Pending
  }

  /** The payment is not SUCCEEDED; it may also be yet to be created. */
  predicate Unsettled(st: PayState, id: PaymentId) {
    StatusOf(st, id) != Succeeded
  }

  /** A call credits days exactly when the payment's tariff and user exist, and then the tariff's days. */
  lemma CallCredits(rows: Rows, p: Payment, source: Subscriptions.Source, m: Moment)
    requires Present(p.tariffId)
    ensures var credit := Subscriptions.Credited(rows, Subscriptions.GrantOp(m.cat, Purchase(p, source), m.supply));
            && (credit.Some? <==> Worth(p, m.cat).Some?)
            && (credit.Some? ==> credit.value.1 == Worth(p, m.cat).value)
  {
    hide Subscriptions.Grant;
    Subscriptions.GrantSucceedsIff(rows, m.cat, Purchase(p, source), m.supply);
  }

  /** What the step's request makes of a payment in the given state. */
  ghost function Reckoned(st: PayState, op: Op, id: PaymentId): (t: Tally) {
    var t := Tally(StatusOf(st, id) == Succeeded, 0, 0);
    if Asks(st, op, id) then Next(t, EffectOf(st, op).value.event) else t
  }

  lemma StepStatus(st: PayState, op: Op, id: PaymentId)
    requires Allowed(st, op)
    ensures StatusOf(Step(st, op), id) == Succeeded <==> Reckoned(st, op, id).settled
  {
    hide Subscriptions.Grant, ByTxn, Worth, Purchase;
  }

  lemma StepGrants(st: PayState, op: Op, id: PaymentId)
    requires Allowed(st, op)
    ensures var t := Reckoned(st, op, id);
            && t.grants <= 1
            && Granted(st, op, id) == (if t.grants == 1 then Some(t.days) else None)
            && (t.grants == 0 ==> t.days == 0)
  {
    hide Subscriptions.Credited, ByTxn;
    match op
    case CheckoutOp(userId, tariffId, newId, charge, m) =>
      if Purchasable(m.cat, tariffId) && tariffId != "" {
        CallCredits(st.subs, NewPayment(m.cat, userId, tariffId, None), Subscriptions.ByPayment, m);
      }
    case WebhookOp(verdict, m) =>
      if id in st.payments && Present(st.payments[id].tariffId) {
        CallCredits(st.subs, st.payments[id], Subscriptions.ByPayment, m);
      }
    case ManualOp(_, m) =>
      if id in st.payments && Present(st.payments[id].tariffId) {
        CallCredits(st.subs, st.payments[id], Subscriptions.ByAdmin, m);
      }
    case SubscriptionOp(_) =>
  }

  /** A request adds to a tally what it would make of a fresh one. */
  lemma NextAdds(t: Tally, e: Event)
    ensures var u := Next(Tally(t.settled, 0, 0), e);
            Next(t, e) == Tally(u.settled, t.grants + u.grants, t.days + u.days)
  {
  }

  lemma EventsCounted(st: PayState, ops: seq<Op>, id: PaymentId)
    requires ops != []
    ensures var before, last := Run(st, ops[..|ops| - 1]), ops[|ops| - 1];
            Count(Events(st, ops, id)) ==
            if Asks(before, last, id)
            then Next(Count(Events(st, ops[..|ops| - 1], id)), EffectOf(before, last).value.event)
            else Count(Events(st, ops[..|ops| - 1], id))
  {
    hide Run, EffectOf, Next;
    var n := |ops| - 1;
    if Asks(Run(st, ops[..n]), ops[n], id) {
      CountSnoc(Events(st, ops[..n], id), EffectOf(Run(st, ops[..n]), ops[n]).value.event);
    } else {
      assert Events(st, ops, id) == Events(st, ops[..n], id);
    }
  }

  /** The tally of what was asked is the status reached and the grants and days credited. */
  lemma {:induction false} RunTallied(st: PayState, ops: seq<Op>, id: PaymentId)
    requires Unsettled(st, id) && AllowedRun(st, ops)
    ensures Count(Events(st, ops, id)) ==
            Tally(StatusOf(Run(st, ops), id) == Succeeded, GrantsFor(st, ops, id), DaysFor(st, ops, id))
  {
    hide Step, EffectOf, Granted, Allowed, StatusOf, Next, Count, Events;
    if ops == [] {
      assert Count(Events(st, ops, id)) == Tally(false, 0, 0) by { CountNone(st, id); }
    } else {
      var n := |ops| - 1;
      var before := Run(st, ops[..n]);
      RunTallied(st, ops[..n], id);
      StepStatus(before, ops[n], id);
      StepGrants(before, ops[n], id);
      EventsCounted(st, ops, id);
      if Asks(before, ops[n], id) {
        NextAdds(Count(Events(st, ops[..n], id)), EffectOf(before, ops[n]).value.event);
      }
    }
  }

  lemma CountNone(st: PayState, id: PaymentId)
    ensures Count(Events(st, [], id)) == Tally(false, 0, 0)
  {
  }

  lemma CountSnoc(events: seq<Event>, e: Event)
    ensures Count(events + [e]) == Next(Count(events), e)
  {
    assert (events + [e])[..|events|] == events;
  }

  /**
   * The subscriptions are credited at most once for a payment in a run exactly when all requests that
   * can grant, after the first that found the payment unsettled, find it settled.
   */
  lemma GrantsAtMostOnceIff(st: PayState, ops: seq<Op>, id: PaymentId)
    requires Unsettled(st, id) && AllowedRun(st, ops)
    ensures GrantsFor(st, ops, id) <= 1 <==> Harmless(Events(st, ops, id))
  {
    RunTallied(st, ops, id);
    CountMeans(Events(st, ops, id));
  }

  predicate OnlySettles(events: seq<Event>) {
    forall i :: 0 <= i < |events| ==> events[i].Settles?
  }

  /** The days that the first request is worth. */
  function FirstWorth(events: seq<Event>): (worth: Option<int>) {
    if events == [] || events[0].Fails? then None else events[0].worth
  }

  /**
   * A payment that is only ever settled, however often, grants exactly at its first settlement: the
   * tariff's days once, or nothing ever if the tariff or the user was missing then.
   */
  lemma SettledGrantsOnce(st: PayState, ops: seq<Op>, id: PaymentId)
    requires Unsettled(st, id) && AllowedRun(st, ops) && OnlySettles(Events(st, ops, id))
    ensures var worth := FirstWorth(Events(st, ops, id));
            && GrantsFor(st, ops, id) == (if worth.Some? then 1 else 0)
            && DaysFor(st, ops, id) == (if worth.Some? then worth.value else 0)
  {
    hide Events;
    RunTallied(st, ops, id);
    SettlementsCountOnce(Events(st, ops, id));
  }

  lemma {:induction false} SettlementsCountOnce(events: seq<Event>)
    requires OnlySettles(events)
    ensures var worth := FirstWorth(events);
            Count(events) ==
            Tally(events != [], if worth.Some? then 1 else 0, if worth.Some? then worth.value else 0)
  {
    if events != [] {
      SettlementsCountOnce(events[..|events| - 1]);
    }
  }

  // ---------------------------------------------------------------- two grants for one payment

  /** Two grants to the same user, the second while the first still runs, extend one row by both periods. */
  ghost predicate TwoPeriods(rows: Rows, after: Rows, userId: UserId, m: Moment, first: int, second: int, later: int) {
    var was := Subscriptions.GetActive(rows, userId, m.supply.first);
    var end := (if was.Some? then rows[was.value].endsAt else m.supply.second) + first * Subscriptions.DAY;
    && Subscriptions.TotalLength(after, Subscriptions.Owned(after, userId)) ==
       Subscriptions.TotalLength(rows, Subscriptions.Owned(rows, userId)) + Subscriptions.DAY * (first + second)
    && (later < end ==>
          var id := if was.Some? then was.value else m.supply.newId;
          id in after && after[id].userId == userId && after[id].endsAt == end + second * Subscriptions.DAY)
  }

  /** The payment is worth a day or more at both moments, and the clock and the generated ids move on. */
  predicate BothGrant(st: PayState, clock: int, p: Payment, m: Moment, later: Moment) {
    && Worth(p, m.cat).Some? && Worth(p, m.cat).value >= 1
    && Worth(p, later.cat).Some? && Worth(p, later.cat).value >= 1
    && clock <= m.supply.first <= m.supply.second <= later.supply.first <= later.supply.second
    && m.supply.newId !in st.subs && later.supply.newId !in st.subs && later.supply.newId != m.supply.newId
  }

  lemma PeriodsAdd(
    st: PayState, clock: int, p: Payment, source: Subscriptions.Source, m: Moment, later: Moment, after: Rows)
    requires Subscriptions.Sound(st.subs, clock) && BothGrant(st, clock, p, m, later)
    requires after == Subscriptions.Grant(
                        Subscriptions.Grant(st.subs, m.cat, Purchase(p, source), m.supply).0,
                        later.cat, Purchase(p, Subscriptions.ByPayment), later.supply).0
    ensures TwoPeriods(
              st.subs, after, p.userId, m, Worth(p, m.cat).value, Worth(p, later.cat).value, later.supply.first)
  {
    hide Subscriptions.Sound, Subscriptions.GetActive, Subscriptions.TotalLength, Subscriptions.Owned,
         Subscriptions.Grant;
    var req, again := Purchase(p, source), Purchase(p, Subscriptions.ByPayment);
    var mid := Subscriptions.Grant(st.subs, m.cat, req, m.supply).0;
    Subscriptions.GrantAdds(st.subs, clock, m.cat, req, m.supply);
    Subscriptions.GrantTakesEffect(st.subs, clock, m.cat, req, m.supply, later.supply.first);
    Subscriptions.GrantAdds(mid, m.supply.second, later.cat, again, later.supply);
    Subscriptions.GrantTakesEffect(mid, m.supply.second, later.cat, again, later.supply, later.supply.second);
  }

  /** The payment still belongs to the same user and tariff. */
  predicate StillFor(st: PayState, id: PaymentId, p: Payment) {
    id in st.payments && st.payments[id].userId == p.userId && st.payments[id].tariffId == p.tariffId
  }

  lemma SettleStep(st: PayState, id: PaymentId, txn: string, m: Moment)
    requires id in st.payments && id != "" && Worth(st.payments[id], m.cat).Some?
    ensures var op := WebhookOp(SucceededVerdict(txn, Some(id)), m);
            var after := Step(st, op);
            && StillFor(after, id, st.payments[id]) && !Unsettled(after, id)
            && (Unsettled(st, id) ==>
                  && Granted(st, op, id).Some?
                  && after.subs ==
                     Subscriptions.Grant(st.subs, m.cat, Purchase(st.payments[id], Subscriptions.ByPayment), m.supply).0)
            && (!Unsettled(st, id) ==> Granted(st, op, id).None? && after == st)
  {
    hide Subscriptions.Grant, ByTxn, Subscriptions.Credited;
    CallCredits(st.subs, st.payments[id], Subscriptions.ByPayment, m);
  }

  lemma ManualStep(st: PayState, id: PaymentId, m: Moment)
    requires id in st.payments && Unsettled(st, id) && Worth(st.payments[id], m.cat).Some?
    ensures var op := ManualOp(id, m);
            var after := Step(st, op);
            && StillFor(after, id, st.payments[id]) && Unsettled(after, id)
            && Granted(st, op, id).Some?
            && after.subs ==
               Subscriptions.Grant(st.subs, m.cat, Purchase(st.payments[id], Subscriptions.ByAdmin), m.supply).0
  {
    hide Subscriptions.Grant, ByTxn, Subscriptions.Credited;
    CallCredits(st.subs, st.payments[id], Subscriptions.ByAdmin, m);
  }

  lemma FailStep(st: PayState, id: PaymentId, txn: string, m: Moment)
    requires id in st.payments && id != ""
    ensures var op := WebhookOp(FailedVerdict(txn, Some(id)), m);
            var after := Step(st, op);
            && StillFor(after, id, st.payments[id]) && Unsettled(after, id)
            && Granted(st, op, id).None? && after.subs == st.subs
  {
  }

  lemma RunOne(st: PayState, op: Op, id: PaymentId)
    ensures Run(st, [op]) == Step(st, op)
    ensures GrantsFor(st, [op], id) == if Granted(st, op, id).Some? then 1 else 0
  {
    hide Step, Granted;
    assert [op][..0] == [];
    assert Run(st, []) == st;
  }

  lemma RunMore(st: PayState, ops: seq<Op>, op: Op, id: PaymentId)
    ensures Run(st, ops + [op]) == Step(Run(st, ops), op)
    ensures GrantsFor(st, ops + [op], id) ==
            GrantsFor(st, ops, id) + if Granted(Run(st, ops), op, id).Some? then 1 else 0
  {
    hide Step, Granted;
    assert (ops + [op])[..|ops|] == ops;
  }

  /** A payment marked paid by hand grants a second period when the provider confirms it. */
  lemma ManualThenWebhookGrantsTwice(st: PayState, clock: int, id: PaymentId, txn: string, m: Moment, later: Moment)
    requires Subscriptions.Sound(st.subs, clock)
    requires id in st.payments && id != "" && Unsettled(st, id) && BothGrant(st, clock, st.payments[id], m, later)
    ensures var p := st.payments[id];
            var ops := [ManualOp(id, m)] + [WebhookOp(SucceededVerdict(txn, Some(id)), later)];
            && GrantsFor(st, ops, id) == 2
            && TwoPeriods(st.subs, Run(st, ops).subs, p.userId, m,
                          Worth(p, m.cat).value, Worth(p, later.cat).value, later.supply.first)
  {
    hide Subscriptions.Grant, Subscriptions.Sound, Step, Granted, TwoPeriods, Run, GrantsFor;
    var mark, settle := ManualOp(id, m), WebhookOp(SucceededVerdict(txn, Some(id)), later);
    ManualStep(st, id, m);
    SettleStep(Step(st, mark), id, txn, later);
    RunOne(st, mark, id);
    RunMore(st, [mark], settle, id);
    PeriodsAdd(st, clock, st.payments[id], Subscriptions.ByAdmin, m, later, Run(st, [mark] + [settle]).subs);
  }

  /** So does a failure notice between two success notices; without it the second changes nothing. */
  lemma FailedThenSucceededGrantsAgain(
    st: PayState, clock: int, id: PaymentId, txn: string, m: Moment, between: Moment, later: Moment)
    requires Subscriptions.Sound(st.subs, clock)
    requires id in st.payments && id != "" && Unsettled(st, id) && BothGrant(st, clock, st.payments[id], m, later)
    ensures var p := st.payments[id];
            var settle := WebhookOp(SucceededVerdict(txn, Some(id)), m);
            var fail := WebhookOp(FailedVerdict(txn, Some(id)), between);
            var again := WebhookOp(SucceededVerdict(txn, Some(id)), later);
            var ops := [settle] + [fail] + [again];
            && GrantsFor(st, [settle] + [again], id) == 1
            && Run(st, [settle] + [again]) == Run(st, [settle])
            && GrantsFor(st, ops, id) == 2
            && TwoPeriods(st.subs, Run(st, ops).subs, p.userId, m,
                          Worth(p, m.cat).value, Worth(p, later.cat).value, later.supply.first)
  {
    hide Subscriptions.Grant, Subscriptions.Sound, Step, Granted, TwoPeriods, Run, GrantsFor;
    var settle := WebhookOp(SucceededVerdict(txn, Some(id)), m);
    var fail := WebhookOp(FailedVerdict(txn, Some(id)), between);
    var again := WebhookOp(SucceededVerdict(txn, Some(id)), later);
    SettleStep(st, id, txn, m);
    SettleStep(Step(st, settle), id, txn, later);
    FailStep(Step(st, settle), id, txn, between);
    SettleStep(Step(Step(st, settle), fail), id, txn, later);
    RunOne(st, settle, id);
    RunMore(st, [settle], again, id);
    RunMore(st, [settle], fail, id);
    RunMore(st, [settle] + [fail], again, id);
    PeriodsAdd(
      st, clock, st.payments[id], Subscriptions.ByPayment, m, later, Run(st, [settle] + [fail] + [again]).subs);
  }

  // ---------------------------------------------------------------- dropping duplicates

  predicate EndsSettled(events: seq<Event>) {
    events != [] && events[|events| - 1].Settles?
  }

  /** A webhook settling a payment whose last event was already a settlement. */
  ghost predicate Duplicate(st: PayState, before: seq<Op>, op: Op) {
    && op.WebhookOp?
    && EffectOf(Run(st, before), op).Some?
    && EffectOf(Run(st, before), op).value.event.Settles?
    && EndsSettled(Events(st, before, EffectOf(Run(st, before), op).value.id))
  }

  /** The run with only the first of each series of settlements of a payment. */
  ghost function FirstOnly(st: PayState, ops: seq<Op>): (rest: seq<Op>) {
    if ops == [] then []
    else
      var n := |ops| - 1;
      FirstOnly(st, ops[..n]) + if Duplicate(st, ops[..n], ops[n]) then [] else [ops[n]]
  }

  lemma {:induction false} LastSettled(st: PayState, ops: seq<Op>, id: PaymentId)
    requires AllowedRun(st, ops) && EndsSettled(Events(st, ops, id))
    ensures StatusOf(Run(st, ops), id) == Succeeded
  {
    hide Step, EffectOf, Allowed, StatusOf;
    var n := |ops| - 1;
    StepStatus(Run(st, ops[..n]), ops[n], id);
    if !Asks(Run(st, ops[..n]), ops[n], id) {
      LastSettled(st, ops[..n], id);
    }
  }

  lemma SettledAgain(st: PayState, op: Op)
    requires op.WebhookOp? && EffectOf(st, op).Some? && EffectOf(st, op).value.event.Settles?
    requires StatusOf(st, EffectOf(st, op).value.id) == Succeeded
    ensures Step(st, op) == st
  {
    hide Subscriptions.Grant, ByTxn;
  }

  lemma AppliedNext(st: PayState, ops: seq<Op>, op: Op)
    ensures Run(st, ops + [op]) == Step(Run(st, ops), op)
  {
    assert (ops + [op])[..|ops|] == ops;
  }

  /** Dropping duplicate settlements changes nothing: neither payments nor any end date. */
  lemma {:induction false} DuplicateSafe(st: PayState, ops: seq<Op>)
    requires AllowedRun(st, ops)
    ensures Run(st, FirstOnly(st, ops)) == Run(st, ops)
  {
    hide Step, EffectOf, Allowed, StatusOf, Events;
    if ops != [] {
      var n := |ops| - 1;
      DuplicateSafe(st, ops[..n]);
      var before := Run(st, ops[..n]);
      if Duplicate(st, ops[..n], ops[n]) {
        LastSettled(st, ops[..n], EffectOf(before, ops[n]).value.id);
        SettledAgain(before, ops[n]);
        assert FirstOnly(st, ops) == FirstOnly(st, ops[..n]);
      } else {
        AppliedNext(st, FirstOnly(st, ops[..n]), ops[n]);
      }
    }
  }

  lemma EventsNext(st: PayState, ops: seq<Op>, op: Op, id: PaymentId)
    ensures Events(st, ops + [op], id) ==
            Events(st, ops, id) + if Asks(Run(st, ops), op, id) then [EffectOf(Run(st, ops), op).value.event] else []
  {
    assert (ops + [op])[..|ops|] == ops;
  }

  /** For a payment that is only ever settled, what is left is its first settlement. */
  lemma {:induction false} FirstOnlyOnce(st: PayState, ops: seq<Op>, id: PaymentId)
    requires AllowedRun(st, ops) && OnlySettles(Events(st, ops, id))
    ensures var events := Events(st, ops, id);
            Events(st, FirstOnly(st, ops), id) == if events == [] then [] else [events[0]]
  {
    hide Step, Events, Run, Allowed, Asks, Duplicate, EffectOf;
    if ops == [] {
      NoEvents(st, id);
    } else {
      var n := |ops| - 1;
      var before := ops[..n];
      assert ops == before + [ops[n]];
      EventsNext(st, before, ops[n], id);
      assert forall i :: 0 <= i < |Events(st, before, id)| ==> Events(st, before, id)[i] == Events(st, ops, id)[i];
      FirstOnlyOnce(st, before, id);
      DuplicateSafe(st, before);
      EventsNext(st, FirstOnly(st, before), ops[n], id);
      AskedTwice(st, before, ops[n], id);
      if Duplicate(st, before, ops[n]) {
        assert FirstOnly(st, ops) == FirstOnly(st, before);
      }
    }
  }

  lemma NoEvents(st: PayState, id: PaymentId)
    ensures Events(st, [], id) == []
  {
  }

  /** A settlement after a settlement can only be a webhook: checkouts settle new payments. */
  lemma AskedTwice(st: PayState, before: seq<Op>, op: Op, id: PaymentId)
    requires AllowedRun(st, before) && Allowed(Run(st, before), op)
    requires OnlySettles(Events(st, before + [op], id))
    ensures Asks(Run(st, before), op, id) ==> (Duplicate(st, before, op) <==> Events(st, before, id) != [])
  {
    hide Run, Events;
    EventsNext(st, before, op, id);
    var events, all := Events(st, before, id), Events(st, before + [op], id);
    if Asks(Run(st, before), op, id) {
      assert all[|events|] == EffectOf(Run(st, before), op).value.event;
      if events != [] {
        assert events[|events| - 1] == all[|events| - 1];
        LastSettled(st, before, id);
      }
    }
  }

  // ---------------------------------------------------------------- entitlement from payments

  /** The days a run granted for a set of payments. */
  ghost function DaysForAll(st: PayState, ops: seq<Op>, ids: set<PaymentId>): (days: int) {
    if ids == {} then 0 else DaysFor(st, ops, Pick(ids)) + DaysForAll(st, ops, ids - {Pick(ids)})
  }

  /** The days a run granted to a user other than for payments. */
  ghost function DaysByAdmin(st: PayState, ops: seq<Op>, userId: UserId): (days: int) {
    if ops == [] then 0
    else
      var n := |ops| - 1;
      DaysByAdmin(st, ops[..n], userId)
      + if ops[n].SubscriptionOp? then CreditTo(Run(st, ops[..n]).subs, ops[n].op, userId) else 0
  }

  /** The days a subscription operation credits to a user. */
  ghost function CreditTo(rows: Rows, op: Subscriptions.Op, userId: UserId): (days: int) {
    var credit := Subscriptions.Credited(rows, op);
    if credit.Some? && op.req.userId == userId then credit.value.1 else 0
  }

  function PaymentsOf(payments: map<PaymentId, Payment>, userId: UserId): (ids: set<PaymentId>) {
    set id | id in payments && payments[id].userId == userId
  }

  /** Among the payments made so far, ids holds exactly those of the user. */
  predicate Holds(ids: set<PaymentId>, payments: map<PaymentId, Payment>, userId: UserId) {
    forall id :: id in payments ==> (id in ids <==> payments[id].userId == userId)
  }

  lemma HeldBefore(st: PayState, op: Op, ids: set<PaymentId>, userId: UserId)
    requires Allowed(st, op) && Holds(ids, Step(st, op).payments, userId)
    ensures Holds(ids, st.payments, userId)
  {
    hide Step, ByTxn, Purchasable;
    StepPayments(st, op);
  }

  /** The call is for a payment of the user who is granted the days. */
  lemma CallOwner(st: PayState, op: Op, ids: set<PaymentId>, userId: UserId)
    requires Allowed(st, op) && Holds(ids, Step(st, op).payments, userId)
    ensures CallFor(st, op).Some? ==>
              && CallFor(st, op).value.1.GrantOp?
              && (CallFor(st, op).value.0 in ids <==> CallFor(st, op).value.1.req.userId == userId)
  {
    hide Subscriptions.Grant, ByTxn;
    StepPayments(st, op);
  }

  /** A step grants for at most one payment. */
  ghost function GrantedAmong(st: PayState, op: Op, ids: set<PaymentId>): (days: int) {
    if CallFor(st, op).Some? && CallFor(st, op).value.0 in ids && Granted(st, op, CallFor(st, op).value.0).Some?
    then Granted(st, op, CallFor(st, op).value.0).value
    else 0
  }

  lemma {:induction false} DaysForAllNext(st: PayState, ops: seq<Op>, ids: set<PaymentId>)
    requires ops != []
    ensures DaysForAll(st, ops, ids) ==
            DaysForAll(st, ops[..|ops| - 1], ids) + GrantedAmong(Run(st, ops[..|ops| - 1]), ops[|ops| - 1], ids)
  {
    hide CallFor, Run;
    if ids != {} {
      DaysForAllNext(st, ops, ids - {Pick(ids)});
    }
  }

  lemma {:induction false} DaysForNone(st: PayState, ids: set<PaymentId>)
    ensures DaysForAll(st, [], ids) == 0
  {
    if ids != {} {
      DaysForNone(st, ids - {Pick(ids)});
    }
  }

  lemma DaysGrantedSnoc(rows: Rows, trace: seq<Subscriptions.Op>, op: Subscriptions.Op, userId: UserId)
    ensures Subscriptions.DaysGranted(rows, trace + [op], userId) ==
            Subscriptions.DaysGranted(rows, trace, userId) + CreditTo(Subscriptions.Run(rows, trace), op, userId)
  {
    hide Subscriptions.Credited, Subscriptions.Run;
    assert (trace + [op])[..|trace|] == trace;
  }

  /** The days granted to a user are those granted for the user's payments and those granted by hand. */
  lemma {:induction false} DaysSplit(st: PayState, ops: seq<Op>, ids: set<PaymentId>, userId: UserId)
    requires AllowedRun(st, ops) && Holds(ids, Run(st, ops).payments, userId)
    ensures Subscriptions.DaysGranted(st.subs, Trace(st, ops), userId) ==
            DaysForAll(st, ops, ids) + DaysByAdmin(st, ops, userId)
  {
    hide Step, Holds, CallFor, Subscriptions.Credited, Subscriptions.DaysGranted, DaysForAll, Allowed;
    if ops == [] {
      DaysForNone(st, ids);
      NothingGranted(st.subs, userId);
    } else {
      var n := |ops| - 1;
      var before := Run(st, ops[..n]);
      HeldBefore(before, ops[n], ids, userId);
      DaysSplit(st, ops[..n], ids, userId);
      DaysForAllNext(st, ops, ids);
      CallOwner(before, ops[n], ids, userId);
      RunTraced(st, ops[..n]);
      TraceCredits(before, ops[n], ids, userId);
      var trace := TraceOf(before, ops[n]);
      if trace == [] {
        assert Trace(st, ops) == Trace(st, ops[..n]);
      } else {
        assert trace == [trace[0]];
        DaysGrantedSnoc(st.subs, Trace(st, ops[..n]), trace[0], userId);
      }
    }
  }

  lemma NothingGranted(rows: Rows, userId: UserId)
    ensures Subscriptions.DaysGranted(rows, [], userId) == 0
  {
  }

  lemma TraceCredits(st: PayState, op: Op, ids: set<PaymentId>, userId: UserId)
    requires Allowed(st, op) && Holds(ids, Step(st, op).payments, userId)
    ensures |TraceOf(st, op)| <= 1
    ensures (if TraceOf(st, op) == [] then 0 else CreditTo(st.subs, TraceOf(st, op)[0], userId)) ==
            GrantedAmong(st, op, ids) + (if op.SubscriptionOp? then CreditTo(st.subs, op.op, userId) else 0)
  {
    hide Step, Holds, Subscriptions.Credited, EffectOf, ByTxn;
    CallOwner(st, op, ids, userId);
  }

  /**
   * Over every run of checkouts, webhooks, manual marks and subscription operations that starts with
   * nothing, a user's entitlement and cancelled time add up to the days granted for the user's
   * payments and by hand.
   */
  lemma PaidEntitlement(clock: int, ops: seq<Op>, userId: UserId)
    requires AllowedRun(Start(), ops) && Subscriptions.AllowedRun(map[], clock, Trace(Start(), ops))
    ensures var after := Run(Start(), ops);
            |Subscriptions.Entitled(after.subs, userId)|
            + Subscriptions.TotalLength(after.subs, Subscriptions.CancelledOf(after.subs, userId)) ==
            Subscriptions.DAY
            * (DaysForAll(Start(), ops, PaymentsOf(after.payments, userId)) + DaysByAdmin(Start(), ops, userId))
  {
    hide Run, Trace, AllowedRun, Subscriptions.AllowedRun, Subscriptions.Run, Subscriptions.Entitled,
         Subscriptions.CancelledOf, Subscriptions.TotalLength, Subscriptions.DaysGranted, DaysForAll, DaysByAdmin;
    RunTraced(Start(), ops);
    DaysSplit(Start(), ops, PaymentsOf(Run(Start(), ops).payments, userId), userId);
    Subscriptions.EntitlementConserved(clock, Trace(Start(), ops), userId);
  }

  function Start(): (st: PayState) {
    PayState(map[], map[])
  }

  /** A checkout, a success or ignored webhook, or a sweep. */
  predicate Plain(op: Op) {
    match op
    case CheckoutOp(_, _, _, _, _) => true
    case WebhookOp(verdict, _) => !verdict.FailedVerdict?
    case ManualOp(_, _) => false
    case SubscriptionOp(op) => op.ExpireOp?
  }

  predicate AllPlain(ops: seq<Op>) {
    forall i :: 0 <= i < |ops| ==> Plain(ops[i])
  }

  /** The days of the tariffs of the payments, each at its first settlement. */
  ghost function FirstWorths(st: PayState, ops: seq<Op>, ids: set<PaymentId>): (days: int) {
    if ids == {} then 0
    else
      var worth := FirstWorth(Events(st, ops, Pick(ids)));
      (if worth.Some? then worth.value else 0) + FirstWorths(st, ops, ids - {Pick(ids)})
  }

  lemma {:induction false} PlainSettles(st: PayState, ops: seq<Op>, id: PaymentId)
    requires AllPlain(ops)
    ensures OnlySettles(Events(st, ops, id))
  {
    hide Run, FindByTxnOrId, Worth;
    if ops != [] {
      PlainSettles(st, ops[..|ops| - 1], id);
      assert Plain(ops[|ops| - 1]);
    }
  }

  lemma {:induction false} PlainDays(ops: seq<Op>, ids: set<PaymentId>)
    requires AllPlain(ops) && AllowedRun(Start(), ops)
    ensures DaysForAll(Start(), ops, ids) == FirstWorths(Start(), ops, ids)
  {
    hide Events, DaysFor, GrantsFor, Run, AllowedRun;
    if ids != {} {
      PlainSettles(Start(), ops, Pick(ids));
      SettledGrantsOnce(Start(), ops, Pick(ids));
      PlainDays(ops, ids - {Pick(ids)});
    }
  }

  lemma {:induction false} PlainNotByAdmin(st: PayState, ops: seq<Op>, userId: UserId)
    requires AllPlain(ops)
    ensures DaysByAdmin(st, ops, userId) == 0
  {
    hide Run;
    if ops != [] {
      PlainNotByAdmin(st, ops[..|ops| - 1], userId);
      assert Plain(ops[|ops| - 1]);
    }
  }

  predicate NoneCancelled(rows: Rows) {
    forall id :: id in rows ==> rows[id].status != Subscriptions.Cancelled
  }

  lemma GrantCancelsNone(rows: Rows, op: Subscriptions.Op)
    requires NoneCancelled(rows) && !op.CancelOp?
    ensures NoneCancelled(Subscriptions.Step(rows, op))
  {
  }

  lemma {:induction false} PlainCancelsNone(st: PayState, ops: seq<Op>)
    requires AllPlain(ops) && AllowedRun(st, ops) && NoneCancelled(st.subs)
    ensures NoneCancelled(Run(st, ops).subs)
  {
    hide Step, Subscriptions.Step, Allowed, EffectOf, NoneCancelled;
    if ops != [] {
      var n := |ops| - 1;
      PlainCancelsNone(st, ops[..n]);
      StepTraced(Run(st, ops[..n]), ops[n]);
      assert Plain(ops[n]);
      var trace := TraceOf(Run(st, ops[..n]), ops[n]);
      if trace != [] {
        GrantCancelsNone(Run(st, ops[..n]).subs, trace[0]);
      }
    }
  }

  lemma NothingCancelled(rows: Rows, userId: UserId)
    requires NoneCancelled(rows)
    ensures Subscriptions.TotalLength(rows, Subscriptions.CancelledOf(rows, userId)) == 0
  {
    assert Subscriptions.CancelledOf(rows, userId) == {};
  }

  /**
   * Over every run of checkouts, success and ignored webhooks and sweeps that starts with nothing, in
   * whatever order and however often repeated, a user is entitled to exactly the days of the tariffs
   * of the user's settled payments, each counted once, at its first settlement.
   */
  lemma SettledEntitlement(clock: int, ops: seq<Op>, userId: UserId)
    requires AllPlain(ops)
    requires AllowedRun(Start(), ops) && Subscriptions.AllowedRun(map[], clock, Trace(Start(), ops))
    ensures var after := Run(Start(), ops);
            |Subscriptions.Entitled(after.subs, userId)| ==
            Subscriptions.DAY * FirstWorths(Start(), ops, PaymentsOf(after.payments, userId))
  {
    hide Run, Trace, AllowedRun, Subscriptions.AllowedRun, Subscriptions.Entitled, Subscriptions.CancelledOf,
         Subscriptions.TotalLength, DaysForAll, DaysByAdmin, FirstWorths, AllPlain;
    var after := Run(Start(), ops);
    PaidEntitlement(clock, ops, userId);
    PlainDays(ops, PaymentsOf(after.payments, userId));
    PlainNotByAdmin(Start(), ops, userId);
    PlainCancelsNone(Start(), ops);
    NothingCancelled(after.subs, userId);
  }
}
