/** The stateful payment service; each method is proved against its function in Payments. */
module PaymentsService {
  import opened Results
  import opened Sets
  import opened Subscriptions
  import opened Payments
  import SubscriptionsService

  class Service {
    const subscriptions: SubscriptionsService.Service
    var payments: map<PaymentId, Payment>

    constructor (subscriptions: SubscriptionsService.Service)
      ensures this.subscriptions == subscriptions && payments == map[]
    {
      this.subscriptions, payments := subscriptions, map[];
    }

    ghost function State(): (st: PayState)
      reads this, subscriptions
    {
      PayState(payments, subscriptions.rows)
    }

    /** Mark a payment and grant what it bought; shared by the two ways of paying. */
    method Settle(id: PaymentId, status: PaymentStatus, source: Source, m: Moment, ghost clock: int)
      returns (r: Result<(), PayError>)
      requires id in payments
      requires Sound(subscriptions.rows, clock) && clock <= m.supply.first
      modifies this, subscriptions
      ensures (State(), r) == Payments.Settle(old(State()), id, status, source, m)
    {
      hide Sound, Grant, GrantOn, Answers;
      var p := payments[id];
      payments := payments[id := p.(status := status, paidAt := Some(m.paidAt))];
      if Present(p.tariffId) {
        ghost var was := subscriptions.rows;
        ghost var active;
        var granted;
        granted, active := subscriptions.GrantOrExtend(m.cat, Purchase(p, source), m.supply);
        GrantOnAnswer(was, clock, m.cat, Purchase(p, source), m.supply, active);
        if granted.Err? {
          return Err(GrantFailed(granted.error));
        }
      }
      return Ok(());
    }

    method MarkSucceeded(id: PaymentId, m: Moment, ghost clock: int) returns (r: Result<(), PayError>)
      requires Sound(subscriptions.rows, clock) && clock <= m.supply.first
      modifies this, subscriptions
      ensures (State(), r) == Payments.MarkSucceeded(old(State()), id, m)
    {
      hide Sound, Payments.Settle;
      if id !in payments {
        return Err(PaymentNotFound);
      }
      if payments[id].status == Succeeded {
        return Ok(());
      }
      r := Settle(id, Succeeded, ByPayment, m, clock);
    }

    method MarkManuallyPaid(id: PaymentId, m: Moment, ghost clock: int) returns (r: Result<(), PayError>)
      requires Sound(subscriptions.rows, clock) && clock <= m.supply.first
      modifies this, subscriptions
      ensures (State(), r) == Payments.MarkManuallyPaid(old(State()), id, m)
    {
      hide Sound, Payments.Settle;
      if id !in payments {
        return Err(PaymentNotFound);
      }
      if payments[id].status == Succeeded {
        return Err(AlreadySucceeded);
      }
      r := Settle(id, PaidManually, ByAdmin, m, clock);
    }

    method Checkout(
      userId: UserId, tariffId: TariffId, newId: PaymentId, charge: Option<Charge>, m: Moment, ghost clock: int)
      returns (r: Result<CheckoutResult, PayError>)
      requires Sound(subscriptions.rows, clock) && clock <= m.supply.first
      modifies this, subscriptions
      ensures (State(), r) == Payments.Checkout(old(State()), userId, tariffId, newId, charge, m)
    {
      hide Sound, Payments.MarkSucceeded;
      if tariffId !in m.cat.tariffs {
        return Err(TariffNotAvailable);
      }
      var tariff := m.cat.tariffs[tariffId];
      if !tariff.isActive || !tariff.isPublic || tariff.isArchived {
        return Err(TariffNotAvailable);
      }
      payments := payments[newId :=
        Payment(userId, Some(tariffId), tariff.priceCents, tariff.currency, Pending, None, None)];
      if charge.None? {
        return Err(ProviderFailed);
      }
      payments := payments[newId := payments[newId].(providerTxnId := Some(charge.value.providerTxnId))];
      assert payments == old(payments)[newId :=
          NewPayment(m.cat, userId, tariffId, Some(charge.value.providerTxnId))];
      if charge.value.settled {
        var marked := MarkSucceeded(newId, m, clock);
        if marked.Err? {
          return Err(marked.error);
        }
      }
      return Ok(CheckoutResult(newId, charge.value.settled));
    }

    /** findUnique by our own id or by the transaction id. */
    method FindByTxnOrId(txn: string, paymentId: Option<PaymentId>) returns (r: Option<PaymentId>)
      requires UniqueTxns(payments)
      ensures r == Payments.FindByTxnOrId(payments, txn, paymentId)
    {
      if paymentId.Some? && paymentId.value != "" {
        return if paymentId.value in payments then paymentId else None;
      }
      var ids := ByTxn(payments, txn);
      if ids == {} {
        return None;
      }
      var id :| id in ids;
      return Some(id);
    }

    method HandleWebhook(verdict: Verdict, m: Moment, ghost clock: int) returns (r: Result<bool, PayError>)
      requires UniqueTxns(payments)
      requires Sound(subscriptions.rows, clock) && clock <= m.supply.first
      modifies this, subscriptions
      ensures (State(), r) == Payments.HandleWebhook(old(State()), verdict, m)
    {
      hide Sound, Payments.MarkSucceeded, UniqueTxns, Payments.FindByTxnOrId;
      if verdict.IgnoredVerdict? {
        return Ok(false);
      }
      var payment := FindByTxnOrId(verdict.providerTxnId, verdict.paymentId);
      if payment.None? {
        return Ok(false);
      }
      if verdict.SucceededVerdict? {
        var marked := MarkSucceeded(payment.value, m, clock);
        if marked.Err? {
          return Err(marked.error);
        }
      } else {
        payments := payments[payment.value := payments[payment.value].(status := Failed)];
      }
      return Ok(true);
    }
  }
}
