/**
 * apps/api/src/payments/payments.service.ts: checkouts, provider webhooks and manual marks that
 * settle payments and thereby grant subscriptions.
 *
 * The operations are functions on a PayState; PaymentsService is the stateful service and each of
 * its methods is proved against its function.
 */
module Payments {
  import opened Results
  import opened Sets
  import opened Subscriptions

  type PaymentId = string

  datatype PaymentStatus = Pending | Succeeded | Failed | PaidManually

  datatype Payment = Payment(
    userId: UserId, tariffId: Option<TariffId>, amountCents: int, currency: string, status: PaymentStatus,
    providerTxnId: Option<string>, paidAt: Option<int>)

  datatype PayState = PayState(payments: map<PaymentId, Payment>, subs: Rows)

  datatype PayError =
    | TariffNotAvailable | ProviderFailed | PaymentNotFound | AlreadySucceeded | GrantFailed(error: SubError)

  /** What a provider answers to a new payment. */
  datatype Charge = Charge(providerTxnId: string, settled: bool)

  datatype CheckoutResult = CheckoutResult(paymentId: PaymentId, settled: bool)

  datatype Verdict =
    | SucceededVerdict(providerTxnId: string, paymentId: Option<PaymentId>)
    | FailedVerdict(providerTxnId: string, paymentId: Option<PaymentId>)
    | IgnoredVerdict

  /** What settling reads: the tables, the clock for paidAt, and what a grant needs. */
  datatype Moment = Moment(cat: Catalog, paidAt: int, supply: Supply)

  // ---------------------------------------------------------------- operations

  /** A missing and an empty id are both treated as absent. */
  predicate Present(id: Option<string>) {
    id.Some? && id.value != ""
  }

  /** The period a payment buys; the length is the tariff's own. */
  function Purchase(p: Payment, source: Source): (req: Request)
    requires Present(p.tariffId)
  {
    Request(p.userId, p.tariffId.value, None, source)
  }

  /** Set the status, then grant; a grant that fails leaves the status set. */
  ghost function Settle(st: PayState, id: PaymentId, status: PaymentStatus, source: Source, m: Moment)
    : (r: (PayState, Result<(), PayError>))
    requires id in st.payments
  {
    var p := st.payments[id];
    var payments := st.payments[id := p.(status := status, paidAt := Some(m.paidAt))];
    if Present(p.tariffId) then
      var (subs, granted) := Grant(st.subs, m.cat, Purchase(p, source), m.supply);
      (PayState(payments, subs), if granted.Ok? then Ok(()) else Err(GrantFailed(granted.error)))
    else (PayState(payments, st.subs), Ok(()))
  }

  ghost function MarkSucceeded(st: PayState, id: PaymentId, m: Moment): (r: (PayState, Result<(), PayError>)) {
    if id !in st.payments then (st, Err(PaymentNotFound))
    else if st.payments[id].status == Succeeded then (st, Ok(()))
    else Settle(st, id, Succeeded, ByPayment, m)
  }

  ghost function MarkManuallyPaid(st: PayState, id: PaymentId, m: Moment): (r: (PayState, Result<(), PayError>)) {
    if id !in st.payments then (st, Err(PaymentNotFound))
    else if st.payments[id].status == Succeeded then (st, Err(AlreadySucceeded))
    else Settle(st, id, PaidManually, ByAdmin, m)
  }

  predicate Purchasable(cat: Catalog, tariffId: TariffId) {
    && tariffId in cat.tariffs
    && cat.tariffs[tariffId].isActive
    && cat.tariffs[tariffId].isPublic
    && !cat.tariffs[tariffId].isArchived
  }

  function NewPayment(cat: Catalog, userId: UserId, tariffId: TariffId, txn: Option<string>): (p: Payment)
    requires tariffId in cat.tariffs
  {
    Payment(userId, Some(tariffId), cat.tariffs[tariffId].priceCents, cat.tariffs[tariffId].currency, Pending, txn, None)
  }

  /** A purchase; charge is the provider's answer, if it gives one. */
  ghost function Checkout(
    st: PayState, userId: UserId, tariffId: TariffId, newId: PaymentId, charge: Option<Charge>, m: Moment)
    : (r: (PayState, Result<CheckoutResult, PayError>))
  {
    if !Purchasable(m.cat, tariffId) then (st, Err(TariffNotAvailable))
    else if charge.None? then
      (st.(payments := st.payments[newId := NewPayment(m.cat, userId, tariffId, None)]), Err(ProviderFailed))
    else
      var p := NewPayment(m.cat, userId, tariffId, Some(charge.value.providerTxnId));
      var created := st.(payments := st.payments[newId := p]);
      if !charge.value.settled then (created, Ok(CheckoutResult(newId, false)))
      else
        var (after, marked) := MarkSucceeded(created, newId, m);
        (after, if marked.Err? then Err(marked.error) else Ok(CheckoutResult(newId, true)))
  }

  function ByTxn(payments: map<PaymentId, Payment>, txn: string): (ids: set<PaymentId>) {
    set id | id in payments && payments[id].providerTxnId == Some(txn)
  }

  /** By our own id when the provider sends one, else by transaction id. */
  ghost function FindByTxnOrId(payments: map<PaymentId, Payment>, txn: string, paymentId: Option<PaymentId>)
    : (r: Option<PaymentId>)
    ensures r.Some? ==> r.value in payments
  {
    if Present(paymentId) then (if paymentId.value in payments then paymentId else None)
    else if ByTxn(payments, txn) == {} then None
    else Some(Pick(ByTxn(payments, txn)))
  }

  ghost function HandleWebhook(st: PayState, verdict: Verdict, m: Moment): (r: (PayState, Result<bool, PayError>)) {
    if verdict.IgnoredVerdict? then (st, Ok(false))
    else
      match FindByTxnOrId(st.payments, verdict.providerTxnId, verdict.paymentId)
      case None => (st, Ok(false))
      case Some(id) =>
        if verdict.SucceededVerdict? then
          var (after, marked) := MarkSucceeded(st, id, m);
          (after, if marked.Err? then Err(marked.error) else Ok(true))
        else (st.(payments := st.payments[id := st.payments[id].(status := Failed)]), Ok(true))
  }

  // ---------------------------------------------------------------- runs

  datatype Op =
    | CheckoutOp(userId: UserId, tariffId: TariffId, newId: PaymentId, charge: Option<Charge>, m: Moment)
    | WebhookOp(verdict: Verdict, m: Moment)
    | ManualOp(id: PaymentId, m: Moment)
    | SubscriptionOp(op: Subscriptions.Op)

  ghost function Step(st: PayState, op: Op): (after: PayState) {
    match op
    case CheckoutOp(userId, tariffId, newId, charge, m) => Checkout(st, userId, tariffId, newId, charge, m).0
    case WebhookOp(verdict, m) => HandleWebhook(st, verdict, m).0
    case ManualOp(id, m) => MarkManuallyPaid(st, id, m).0
    case SubscriptionOp(op) => st.(subs := Subscriptions.Step(st.subs, op))
  }

  ghost function Run(st: PayState, ops: seq<Op>): (after: PayState) {
    if ops == [] then st else Step(Run(st, ops[..|ops| - 1]), ops[|ops| - 1])
  }

  /** Generated payment ids and transaction ids are new. */
  predicate Allowed(st: PayState, op: Op) {
    op.CheckoutOp? ==>
      && op.newId !in st.payments
      && (op.charge.Some? ==> ByTxn(st.payments, op.charge.value.providerTxnId) == {})
  }

  ghost predicate AllowedRun(st: PayState, ops: seq<Op>) {
    ops != [] ==>
      && AllowedRun(st, ops[..|ops| - 1])
      && Allowed(Run(st, ops[..|ops| - 1]), ops[|ops| - 1])
  }

  // ---------------------------------------------------------------- what each operation does

  /** Only the status and the payment time of one payment change. */
  predicate Marked(
    payments: map<PaymentId, Payment>, after: map<PaymentId, Payment>, id: PaymentId, status: PaymentStatus,
    paidAt: Option<int>)
    requires id in payments
  {
    && after.Keys == payments.Keys
    && after[id] == Payment(
                      payments[id].userId, payments[id].tariffId, payments[id].amountCents, payments[id].currency,
                      status, payments[id].providerTxnId, paidAt)
    && forall other :: other in payments && other != id ==> after[other] == payments[other]
  }

  /**
   * A payment for a tariff calls for a grant of the tariff's own period to the payer; one without a
   * tariff, or with an empty tariff id, grants nothing. A grant that fails changes the result only.
   */
  ghost predicate GrantsPurchase(
    st: PayState, p: Payment, source: Source, m: Moment, subs: Rows, r: Result<(), PayError>)
  {
    if p.tariffId.Some? && p.tariffId.value != "" then
      var granted := Grant(st.subs, m.cat, Request(p.userId, p.tariffId.value, None, source), m.supply);
      && subs == granted.0
      && (granted.1.Ok? ==> r == Ok(()))
      && (granted.1.Err? ==> r == Err(GrantFailed(granted.1.error)))
    else subs == st.subs && r == Ok(())
  }

  /** A payment not yet SUCCEEDED becomes so, now, and grants as a payment; otherwise nothing happens. */
  lemma MarkSucceededMeans(st: PayState, id: PaymentId, m: Moment)
    ensures var (after, r) := MarkSucceeded(st, id, m);
            && (id !in st.payments ==> r == Err(PaymentNotFound) && after == st)
            && (id in st.payments && st.payments[id].status == Succeeded ==> r == Ok(()) && after == st)
            && (id in st.payments && st.payments[id].status != Succeeded ==>
                  && Marked(st.payments, after.payments, id, Succeeded, Some(m.paidAt))
                  && GrantsPurchase(st, st.payments[id], ByPayment, m, after.subs, r))
  {
    hide Grant;
  }

  /** A payment not SUCCEEDED becomes paid by hand, now, and grants as an administrator's grant. */
  lemma MarkManuallyPaidMeans(st: PayState, id: PaymentId, m: Moment)
    ensures var (after, r) := MarkManuallyPaid(st, id, m);
            && (id !in st.payments ==> r == Err(PaymentNotFound) && after == st)
            && (id in st.payments && st.payments[id].status == Succeeded ==> r == Err(AlreadySucceeded) && after == st)
            && (id in st.payments && st.payments[id].status != Succeeded ==>
                  && Marked(st.payments, after.payments, id, PaidManually, Some(m.paidAt))
                  && GrantsPurchase(st, st.payments[id], ByAdmin, m, after.subs, r))
  {
    hide Grant;
  }

  /** A payment is addressed by its own id if that is given and not empty, else by its transaction id. */
  lemma FindMeans(payments: map<PaymentId, Payment>, txn: string, paymentId: Option<PaymentId>)
    ensures var found := FindByTxnOrId(payments, txn, paymentId);
            if paymentId.Some? && paymentId.value != "" then
              found == if paymentId.value in payments then paymentId else None
            else
              && (found.Some? ==> found.value in payments && payments[found.value].providerTxnId == Some(txn))
              && (found.None? ==> forall id :: id in payments ==> payments[id].providerTxnId != Some(txn))
  {
    if ByTxn(payments, txn) == {} {
      NoneByTxn(payments, txn);
    }
  }

  /**
   * A webhook is handled exactly if it is not ignored and its payment is known: a success notice marks
   * the payment as MarkSucceeded does, a failure notice records FAILED and changes nothing else.
   */
  lemma WebhookMeans(st: PayState, verdict: Verdict, m: Moment)
    ensures var (after, r) := HandleWebhook(st, verdict, m);
            match verdict
            case IgnoredVerdict => r == Ok(false) && after == st
            case SucceededVerdict(txn, paymentId) =>
              var id := FindByTxnOrId(st.payments, txn, paymentId);
              && (id.None? ==> r == Ok(false) && after == st)
              && (id.Some? ==>
                    && after == MarkSucceeded(st, id.value, m).0
                    && (MarkSucceeded(st, id.value, m).1.Ok? ==> r == Ok(true))
                    && (MarkSucceeded(st, id.value, m).1.Err? ==> r == Err(MarkSucceeded(st, id.value, m).1.error)))
            case FailedVerdict(txn, paymentId) =>
              var id := FindByTxnOrId(st.payments, txn, paymentId);
              && (id.None? ==> r == Ok(false) && after == st)
              && (id.Some? ==>
                    && r == Ok(true) && after.subs == st.subs
                    && Marked(st.payments, after.payments, id.value, Failed, st.payments[id.value].paidAt))
  {
    hide MarkSucceeded, FindByTxnOrId;
  }

  /**
   * A checkout needs a tariff that is active, public and not archived. It records a pending payment
   * with the tariff's price and currency, then the provider's transaction id if there is an answer, and
   * marks the payment as MarkSucceeded does if the provider settled at once.
   */
  lemma CheckoutMeans(
    st: PayState, userId: UserId, tariffId: TariffId, newId: PaymentId, charge: Option<Charge>, m: Moment)
    ensures var (after, r) := Checkout(st, userId, tariffId, newId, charge, m);
            if !(tariffId in m.cat.tariffs && m.cat.tariffs[tariffId].isActive && m.cat.tariffs[tariffId].isPublic
                 && !m.cat.tariffs[tariffId].isArchived)
            then r == Err(TariffNotAvailable) && after == st
            else
              var tariff := m.cat.tariffs[tariffId];
              var txn := if charge.Some? then Some(charge.value.providerTxnId) else None;
              var created := PayState(
                st.payments[newId :=
                  Payment(userId, Some(tariffId), tariff.priceCents, tariff.currency, Pending, txn, None)],
                st.subs);
              match charge
              case None => r == Err(ProviderFailed) && after == created
              case Some(answer) =>
                if !answer.settled then r == Ok(CheckoutResult(newId, false)) && after == created
                else
                  var (marked, result) := MarkSucceeded(created, newId, m);
                  && after == marked
                  && (result.Ok? ==> r == Ok(CheckoutResult(newId, true)))
                  && (result.Err? ==> r == Err(result.error))
  {
    hide MarkSucceeded;
  }

  // ---------------------------------------------------------------- unique transaction ids

  predicate UniqueTxns(payments: map<PaymentId, Payment>) {
    forall id, other :: id in payments && other in payments && id != other && payments[id].providerTxnId.Some?
      ==> payments[id].providerTxnId != payments[other].providerTxnId
  }

  /** The same payments, with the same users, tariffs and transaction ids. */
  predicate SamePayments(payments: map<PaymentId, Payment>, after: map<PaymentId, Payment>) {
    && after.Keys == payments.Keys
    && forall id :: id in payments ==>
         && after[id].userId == payments[id].userId
         && after[id].tariffId == payments[id].tariffId
         && after[id].providerTxnId == payments[id].providerTxnId
  }

  lemma MarkKeeps(st: PayState, id: PaymentId, m: Moment)
    ensures SamePayments(st.payments, MarkSucceeded(st, id, m).0.payments)
    ensures SamePayments(st.payments, MarkManuallyPaid(st, id, m).0.payments)
  {
    hide Settle, SamePayments;
    SameAsItself(st.payments);
    if id in st.payments {
      SettleKeeps(st, id, Succeeded, ByPayment, m);
      SettleKeeps(st, id, PaidManually, ByAdmin, m);
    }
  }

  lemma SettleKeeps(st: PayState, id: PaymentId, status: PaymentStatus, source: Source, m: Moment)
    requires id in st.payments
    ensures SamePayments(st.payments, Settle(st, id, status, source, m).0.payments)
  {
    hide Grant, Purchase, Present;
  }

  lemma FailKeeps(payments: map<PaymentId, Payment>, id: PaymentId)
    requires id in payments
    ensures SamePayments(payments, payments[id := payments[id].(status := Failed)])
  {
  }

  lemma SameAsItself(payments: map<PaymentId, Payment>)
    ensures SamePayments(payments, payments)
  {
  }

  /** A step keeps every payment with its user, tariff and transaction id; a checkout adds one. */
  lemma StepPayments(st: PayState, op: Op)
    requires Allowed(st, op)
    ensures var after := Step(st, op).payments;
            if op.CheckoutOp? && Purchasable(op.m.cat, op.tariffId) then
              var txn := if op.charge.Some? then Some(op.charge.value.providerTxnId) else None;
              SamePayments(st.payments[op.newId := NewPayment(op.m.cat, op.userId, op.tariffId, txn)], after)
            else SamePayments(st.payments, after)
  {
    hide Grant, ByTxn, Purchase, MarkSucceeded, MarkManuallyPaid, FindByTxnOrId, NewPayment, SamePayments;
    SameAsItself(st.payments);
    match op
    case CheckoutOp(userId, tariffId, newId, charge, m) =>
      if Purchasable(m.cat, tariffId) {
        SameAsItself(st.payments[newId := NewPayment(m.cat, userId, tariffId, None)]);
      }
      if Purchasable(m.cat, tariffId) && charge.Some? {
        var p := NewPayment(m.cat, userId, tariffId, Some(charge.value.providerTxnId));
        SameAsItself(st.payments[newId := p]);
        MarkKeeps(st.(payments := st.payments[newId := p]), newId, m);
      }
    case WebhookOp(verdict, m) =>
      if !verdict.IgnoredVerdict? {
        var found := FindByTxnOrId(st.payments, verdict.providerTxnId, verdict.paymentId);
        if found.Some? {
          MarkKeeps(st, found.value, m);
          FailKeeps(st.payments, found.value);
        }
      }
    case ManualOp(id, m) => MarkKeeps(st, id, m);
    case SubscriptionOp(_) =>
  }

  /** The unique constraint on transaction ids holds in every run. */
  lemma StepUnique(st: PayState, op: Op)
    requires UniqueTxns(st.payments) && Allowed(st, op)
    ensures UniqueTxns(Step(st, op).payments)
  {
    hide Step, ByTxn, Purchasable;
    StepPayments(st, op);
    if op.CheckoutOp? && op.charge.Some? {
      NoneByTxn(st.payments, op.charge.value.providerTxnId);
    }
  }

  lemma NoneByTxn(payments: map<PaymentId, Payment>, txn: string)
    requires ByTxn(payments, txn) == {}
    ensures forall id :: id in payments ==> payments[id].providerTxnId != Some(txn)
  {
    forall id | id in payments
      ensures payments[id].providerTxnId != Some(txn)
    {
      assert id !in ByTxn(payments, txn);
    }
  }

  lemma {:induction false} RunUnique(st: PayState, ops: seq<Op>)
    requires UniqueTxns(st.payments) && AllowedRun(st, ops)
    ensures UniqueTxns(Run(st, ops).payments)
  {
    hide Step, UniqueTxns, Allowed;
    if ops != [] {
      RunUnique(st, ops[..|ops| - 1]);
      StepUnique(Run(st, ops[..|ops| - 1]), ops[|ops| - 1]);
    }
  }

  /** A payment is found by its transaction id. */
  lemma TxnFinds(payments: map<PaymentId, Payment>, id: PaymentId, txn: string)
    requires UniqueTxns(payments) && id in payments && payments[id].providerTxnId == Some(txn)
    ensures FindByTxnOrId(payments, txn, None) == Some(id)
  {
    assert id in ByTxn(payments, txn);
    forall other | other in ByTxn(payments, txn)
      ensures other == id
    {
    }
  }

  predicate Carries(payments: map<PaymentId, Payment>, id: PaymentId, txn: string) {
    id in payments && payments[id].providerTxnId == Some(txn)
  }

  /** In every later state a webhook with the transaction id still reaches the same payment. */
  lemma {:induction false} RunFinds(st: PayState, ops: seq<Op>, id: PaymentId, txn: string)
    requires UniqueTxns(st.payments) && AllowedRun(st, ops) && Carries(st.payments, id, txn)
    ensures Carries(Run(st, ops).payments, id, txn)
    ensures FindByTxnOrId(Run(st, ops).payments, txn, None) == Some(id)
  {
    hide Step, UniqueTxns, FindByTxnOrId;
    RunUnique(st, ops);
    if ops != [] {
      var n := |ops| - 1;
      RunFinds(st, ops[..n], id, txn);
      StepPayments(Run(st, ops[..n]), ops[n]);
    }
    TxnFinds(Run(st, ops).payments, id, txn);
  }

  /**
   * After a checkout the payment carries the provider's transaction id and the tariff's price, and is
   * paid exactly if the provider settled at once; nothing is recorded for an unavailable tariff.
   */
  lemma CheckoutRecords(
    st: PayState, userId: UserId, tariffId: TariffId, newId: PaymentId, charge: Option<Charge>, m: Moment)
    requires newId !in st.payments
    ensures var (after, r) := Checkout(st, userId, tariffId, newId, charge, m);
            && (newId in after.payments <==> Purchasable(m.cat, tariffId))
            && (newId !in after.payments ==> after == st && r == Err(TariffNotAvailable))
            && (forall id :: id in st.payments ==> id in after.payments && after.payments[id] == st.payments[id])
            && (newId in after.payments ==>
                  var p := after.payments[newId];
                  && p.userId == userId && p.tariffId == Some(tariffId)
                  && p.amountCents == m.cat.tariffs[tariffId].priceCents
                  && p.providerTxnId == (if charge.Some? then Some(charge.value.providerTxnId) else None)
                  && (p.status == Succeeded <==> charge.Some? && charge.value.settled)
                  && (p.status == Pending <==> p.status != Succeeded))
  {
    hide Grant;
  }
}
