/** The in-memory billing store: maps updated in place, with the unique keys the schema would enforce. */
module BillingStore {
  import opened Text
  import B = Books
  import A = Allowances
  import R = Receipts

  datatype Customer = Customer(workspaceId: string, stripeCustomerId: string, environment: string, createdAt: string)

  datatype OrderStatus =
    | Draft | Compatible | Rejected | CheckoutCreated | PaymentPending | Active | Expired | Failed | Cancelled | Refunded

  datatype Order = Order(id: string, workspaceId: string, status: OrderStatus, rejectionReason: Option<string>,
                         checkoutSessionId: Option<string>, paymentIntentId: Option<string>,
                         idempotencyKey: Option<string>, createdAt: string, updatedAt: string)

  datatype RefundState = Requested | QueuedForOwner | Submitted | RefundPending | Succeeded | RefundFailed | RefundRejected

  datatype Refund = Refund(id: string, workspaceId: string, orderId: Option<string>, providerRefundId: Option<string>,
                           amountMinor: int, state: RefundState, idempotencyKey: string, approvalId: Option<string>,
                           createdAt: string, updatedAt: string)

  datatype InvalidPeriod = InvalidPeriod

  const ORDERS := B.Shape((o: Order) => o.id, (o: Order) => o.idempotencyKey)

  const REFUNDS := B.Shape((r: Refund) => r.id, (r: Refund) => Some(r.idempotencyKey))

  /** A present field of a patch replaces, an absent one keeps. */
  function Patched<T>(patch: Option<T>, current: T): T {
    if patch.Some? then patch.value else current
  }

  lemma {:induction false} PatchSays<T>(value: T, current: T)
    ensures Patched(Some(value), current) == value && Patched(None, current) == current
  {
  }

  /** The status a transition already decided, on an order of this workspace. */
  function OrderMoved(workspaceId: string, status: OrderStatus, reason: Option<Option<string>>,
                      session: Option<Option<string>>, at: string): Order -> Option<Order> {
    (o: Order) =>
      if o.workspaceId != workspaceId then None
      else
        Some(o.(status := status, rejectionReason := Patched(reason, o.rejectionReason),
                checkoutSessionId := Patched(session, o.checkoutSessionId), updatedAt := at))
  }

  /** A payment is bound once. */
  function OrderPaid(paymentIntentId: string): Order -> Option<Order> {
    (o: Order) => if o.paymentIntentId.Some? then None else Some(o.(paymentIntentId := Some(paymentIntentId)))
  }

  function RefundMoved(workspaceId: string, state: RefundState, providerRefundId: Option<Option<string>>,
                       approvalId: Option<Option<string>>, at: string): Refund -> Option<Refund> {
    (r: Refund) =>
      if r.workspaceId != workspaceId then None
      else
        Some(r.(state := state, providerRefundId := Patched(providerRefundId, r.providerRefundId),
                approvalId := Patched(approvalId, r.approvalId), updatedAt := at))
  }

  // ---- whole histories of orders and refunds ----

  datatype OrderCall =
    | OpenOrder(record: Order)
    | MoveOrder(workspaceId: string, orderId: string, status: OrderStatus, reason: Option<Option<string>>,
                session: Option<Option<string>>, at: string)
    | PayOrder(orderId: string, paymentIntentId: string)

  function OrderStep(call: OrderCall): B.Step<Order> {
    match call
    case OpenOrder(record) => B.Opening(record)
    case MoveOrder(ws, id, status, reason, session, at) => B.Changing(id, OrderMoved(ws, status, reason, session, at))
    case PayOrder(id, intent) => B.Changing(id, OrderPaid(intent))
  }

  datatype RefundCall =
    | OpenRefund(record: Refund)
    | MoveRefund(workspaceId: string, refundId: string, state: RefundState, providerRefundId: Option<Option<string>>,
                 approvalId: Option<Option<string>>, at: string)

  function RefundStep(call: RefundCall): B.Step<Refund> {
    match call
    case OpenRefund(record) => B.Opening(record)
    case MoveRefund(ws, id, state, provider, approval, at) => B.Changing(id, RefundMoved(ws, state, provider, approval, at))
  }

  /** Ids are fresh: a record that is created has an id not in use. */
  ghost predicate FreshOpens<R>(shape: B.Shape<R>, steps: seq<B.Step<R>>) {
    forall n | 0 <= n < |steps| && steps[n].Opening? ::
      var now := B.Run(B.Book(map[], map[]), shape, steps[..n]);
      B.Original(now, shape.key(steps[n].record)).None? ==> shape.id(steps[n].record) !in now.records
  }

  /** No write of the store to an existing order or refund touches its id or its key. */
  lemma {:induction false} OrderStepKeepsShape(call: OrderCall, step: B.Step<Order>)
    requires step == OrderStep(call) && step.Changing?
    ensures B.KeepsShape(ORDERS, step.change)
  {
  }

  lemma {:induction false} RefundStepKeepsShape(call: RefundCall, step: B.Step<Refund>)
    requires step == RefundStep(call) && step.Changing?
    ensures B.KeepsShape(REFUNDS, step.change)
  {
  }

  /** From an empty store, any calls with fresh ids, in any order and with any repetition: the key index and the
      orders agree in both directions. */
  lemma {:induction false} OrderIndexIsExact(calls: seq<OrderCall>, steps: seq<B.Step<Order>>)
    requires |steps| == |calls| && forall n | 0 <= n < |calls| :: steps[n] == OrderStep(calls[n])
    requires FreshOpens(ORDERS, steps)
    ensures B.Indexed(B.Run(B.Book(map[], map[]), ORDERS, steps), ORDERS)
  {
    forall n | 0 <= n < |steps| && steps[n].Changing? {
      OrderStepKeepsShape(calls[n], steps[n]);
    }
    B.HistoryKeepsIndex(B.Book(map[], map[]), ORDERS, steps);
  }

  /** The same for refunds. */
  lemma {:induction false} RefundIndexIsExact(calls: seq<RefundCall>, steps: seq<B.Step<Refund>>)
    requires |steps| == |calls| && forall n | 0 <= n < |calls| :: steps[n] == RefundStep(calls[n])
    requires FreshOpens(REFUNDS, steps)
    ensures B.Indexed(B.Run(B.Book(map[], map[]), REFUNDS, steps), REFUNDS)
  {
    forall n | 0 <= n < |steps| && steps[n].Changing? {
      RefundStepKeepsShape(calls[n], steps[n]);
    }
    B.HistoryKeepsIndex(B.Book(map[], map[]), REFUNDS, steps);
  }

  function CustomerKey(workspaceId: string, environment: string): string {
    workspaceId + "|" + environment
  }

  /** A binding belongs to one workspace and one environment: neither another workspace nor, as no environment is written
      with a bar, another environment of the same workspace shares it. */
  lemma {:induction false} BindingsAreApart(workspaceId: string, environment: string, workspaceId': string, environment': string)
    ensures var key := CustomerKey(workspaceId, environment);
      |key| == |workspaceId| + 1 + |environment| && key[..|workspaceId|] == workspaceId && key[|workspaceId|] == '|'
      && key[|workspaceId| + 1..] == environment
    ensures '|' !in environment && '|' !in environment' ==>
      (CustomerKey(workspaceId, environment) == CustomerKey(workspaceId', environment')
       <==> workspaceId == workspaceId' && environment == environment')
  {
    var key, key' := CustomerKey(workspaceId, environment), CustomerKey(workspaceId', environment');
    assert key[|workspaceId|] == '|' && key'[|workspaceId'|] == '|';
    assert key[|workspaceId| + 1..] == environment && key'[|workspaceId'| + 1..] == environment';
    if '|' !in environment && '|' !in environment' && key == key' {
      BarBefore(key, workspaceId, environment, workspaceId', environment');
      BarBefore(key, workspaceId', environment', workspaceId, environment);
      assert key[..|workspaceId|] == workspaceId && key[..|workspaceId'|] == workspaceId';
    }
  }

  lemma {:induction false} BarBefore(key: string, a: string, b: string, a': string, b': string)
    requires key == a + "|" + b == a' + "|" + b' && '|' !in b
    ensures |a'| <= |a|
  {
    assert key[|a'|] == '|';
    assert forall i | |a| < i < |key| :: key[i] == b[i - |a| - 1] && b[i - |a| - 1] in b;
  }

  /** What each call on an order does to the orders, field by field. */
  lemma {:induction false} OrderCallsAct(b: B.Book<Order>, id: string, o: Order, ws: string, status: OrderStatus,
                                         reason: Option<Option<string>>, session: Option<Option<string>>, at: string, intent: string)
    requires id in b.records && o == b.records[id]
    ensures B.Do(b, ORDERS, OrderStep(PayOrder(id, intent))) ==
      if o.paymentIntentId.Some? then b
      else b.(records := b.records[id := Order(o.id, o.workspaceId, o.status, o.rejectionReason, o.checkoutSessionId,
                                               Some(intent), o.idempotencyKey, o.createdAt, o.updatedAt)])
    ensures B.Do(b, ORDERS, OrderStep(MoveOrder(ws, id, status, reason, session, at))) ==
      if o.workspaceId != ws then b
      else b.(records := b.records[id := Order(o.id, o.workspaceId, status,
                                               if reason == None then o.rejectionReason else reason.value,
                                               if session == None then o.checkoutSessionId else session.value,
                                               o.paymentIntentId, o.idempotencyKey, o.createdAt, at)])
  {
  }

  lemma {:induction false} RefundCallsAct(b: B.Book<Refund>, id: string, r: Refund, ws: string, state: RefundState,
                                          provider: Option<Option<string>>, approval: Option<Option<string>>, at: string)
    requires id in b.records && r == b.records[id]
    ensures B.Do(b, REFUNDS, RefundStep(MoveRefund(ws, id, state, provider, approval, at))) ==
      if r.workspaceId != ws then b
      else b.(records := b.records[id := Refund(r.id, r.workspaceId, r.orderId,
                                                if provider == None then r.providerRefundId else provider.value,
                                                r.amountMinor, state, r.idempotencyKey,
                                                if approval == None then r.approvalId else approval.value, r.createdAt, at)])
  {
  }

  /** A call on an order or refund that is not there changes nothing, and opening is by the record's own id and key. */
  lemma {:induction false} OtherCallsAct(b: B.Book<Order>, c: B.Book<Refund>, id: string, o: Order, r: Refund, ws: string,
                                         status: OrderStatus, state: RefundState, at: string, intent: string)
    ensures id !in b.records ==>
      && B.Do(b, ORDERS, OrderStep(PayOrder(id, intent))) == b
      && B.Do(b, ORDERS, OrderStep(MoveOrder(ws, id, status, None, None, at))) == b
    ensures id !in c.records ==> B.Do(c, REFUNDS, RefundStep(MoveRefund(ws, id, state, None, None, at))) == c
    ensures B.Do(b, ORDERS, OrderStep(OpenOrder(o))) == B.Open(b, o.id, o.idempotencyKey, o).0
    ensures B.Do(c, REFUNDS, RefundStep(OpenRefund(r))) == B.Open(c, r.id, Some(r.idempotencyKey), r).0
  {
  }

  class Store {
    var customers: map<string, Customer>
    var orders: map<string, Order>
    var orderKeys: map<string, string>
    var refunds: map<string, Refund>
    var refundKeys: map<string, string>
    var allowances: map<string, A.Allowance>
    var receipts: map<string, R.Receipt>
    var receiptOrder: seq<string>

    ghost function Orders(): B.Book<Order> reads this { B.Book(orders, orderKeys) }
    ghost function Refunds(): B.Book<Refund> reads this { B.Book(refunds, refundKeys) }
    ghost function Inbox(): R.Inbox reads this { R.Inbox(receipts, receiptOrder) }

    /** Records sit under their own ids, receipts and allowances under their own keys. */
    ghost predicate Valid() reads this {
      && (forall id | id in orders :: orders[id].id == id)
      && (forall id | id in refunds :: refunds[id].id == id)
      && A.Keyed(allowances)
      && R.Ordered(Inbox())
    }

    constructor ()
      ensures Valid()
      ensures customers == map[] && Orders() == B.Book(map[], map[]) && Refunds() == B.Book(map[], map[])
      ensures allowances == map[] && Inbox() == R.Inbox(map[], [])
    {
      customers, orders, orderKeys, refunds, refundKeys := map[], map[], map[], map[], map[];
      allowances, receipts, receiptOrder := map[], map[], [];
    }

    /** Binds once: an existing binding is returned and never replaced. */
    method RememberBillingCustomer(record: Customer) returns (created: bool, customer: Customer)
      requires Valid()
      modifies `customers
      ensures Valid()
      ensures var key := CustomerKey(record.workspaceId, record.environment);
        && created == (key !in old(customers))
        && customers == (if created then old(customers)[key := record] else old(customers))
        && key in customers && customer == customers[key]
      ensures forall k | k in old(customers) :: k in customers && customers[k] == old(customers)[k]
    {
      var key := CustomerKey(record.workspaceId, record.environment);
      if key in customers { return false, customers[key]; }
      customers := customers[key := record];
      return true, record;
    }

    method OpenOrderOnce(record: Order) returns (created: bool, order: Order)
      requires Valid()
      modifies `orders, `orderKeys
      ensures Valid()
      ensures (Orders(), B.Opened(created, order)) == B.Open(old(Orders()), record.id, record.idempotencyKey, record)
    {
      if record.idempotencyKey.Some? {
        var key := record.idempotencyKey.value;
        if key in orderKeys && orderKeys[key] in orders { return false, orders[orderKeys[key]]; }
        orderKeys := orderKeys[key := record.id];
      }
      orders := orders[record.id := record];
      return true, record;
    }

    method RecordOrderStatus(workspaceId: string, orderId: string, status: OrderStatus, reason: Option<Option<string>>,
                             session: Option<Option<string>>, at: string) returns (order: Option<Order>)
      requires Valid()
      modifies `orders
      ensures Valid()
      ensures Orders() == B.Change(old(Orders()), orderId, OrderMoved(workspaceId, status, reason, session, at))
      ensures order.Some? <==> orderId in old(orders) && old(orders)[orderId].workspaceId == workspaceId
      ensures order.Some? ==> orderId in orders && order.value == orders[orderId]
    {
      if orderId !in orders || orders[orderId].workspaceId != workspaceId { return None; }
      var o := orders[orderId];
      var next := o.(status := status, rejectionReason := Patched(reason, o.rejectionReason),
                     checkoutSessionId := Patched(session, o.checkoutSessionId), updatedAt := at);
      orders := orders[o.id := next];
      order := Some(next);
    }

    method RecordOrderPayment(orderId: string, paymentIntentId: string)
      requires Valid()
      modifies `orders
      ensures Valid()
      ensures Orders() == B.Change(old(Orders()), orderId, OrderPaid(paymentIntentId))
      ensures orderId in old(orders) && old(orders)[orderId].paymentIntentId == None ==>
        orders == old(orders)[orderId := old(orders)[orderId].(paymentIntentId := Some(paymentIntentId))]
      ensures orderId !in old(orders) || old(orders)[orderId].paymentIntentId != None ==> orders == old(orders)
    {
      if orderId !in orders || orders[orderId].paymentIntentId.Some? { return; }
      orders := orders[orderId := orders[orderId].(paymentIntentId := Some(paymentIntentId))];
    }

    method OpenRefundOnce(record: Refund) returns (created: bool, refund: Refund)
      requires Valid()
      modifies `refunds, `refundKeys
      ensures Valid()
      ensures (Refunds(), B.Opened(created, refund)) == B.Open(old(Refunds()), record.id, Some(record.idempotencyKey), record)
    {
      var key := record.idempotencyKey;
      if key in refundKeys && refundKeys[key] in refunds { return false, refunds[refundKeys[key]]; }
      refundKeys := refundKeys[key := record.id];
      refunds := refunds[record.id := record];
      return true, record;
    }

    method RecordRefundState(workspaceId: string, refundId: string, state: RefundState,
                             providerRefundId: Option<Option<string>>, approvalId: Option<Option<string>>, at: string)
      returns (refund: Option<Refund>)
      requires Valid()
      modifies `refunds
      ensures Valid()
      ensures Refunds() == B.Change(old(Refunds()), refundId, RefundMoved(workspaceId, state, providerRefundId, approvalId, at))
      ensures refund.Some? <==> refundId in old(refunds) && old(refunds)[refundId].workspaceId == workspaceId
      ensures refund.Some? ==> refundId in refunds && refund.value == refunds[refundId]
    {
      if refundId !in refunds || refunds[refundId].workspaceId != workspaceId { return None; }
      var r := refunds[refundId];
      var next := r.(state := state, providerRefundId := Patched(providerRefundId, r.providerRefundId),
                     approvalId := Patched(approvalId, r.approvalId), updatedAt := at);
      refunds := refunds[r.id := next];
      refund := Some(next);
    }

    /** Another workspace's refund is never returned for its key. */
    method FindRefundByIdempotencyKey(workspaceId: string, key: string) returns (refund: Option<Refund>)
      requires Valid() && B.Indexed(Refunds(), REFUNDS)
      ensures refund.Some? ==> && refund.value.workspaceId == workspaceId && refund.value.idempotencyKey == key
                               && refund.value.id in refunds && refunds[refund.value.id] == refund.value
      ensures refund.None? ==> forall id | id in refunds :: refunds[id].workspaceId == workspaceId ==> refunds[id].idempotencyKey != key
    {
      if key !in refundKeys { return None; }
      var r := refunds[refundKeys[key]];
      if r.workspaceId != workspaceId { return None; }
      return Some(r);
    }

    method OpenAllowancePeriod(record: A.Allowance) returns (row: Result<A.Allowance, InvalidPeriod>)
      requires Valid()
      modifies `allowances
      ensures Valid()
      ensures var key := A.Key(record.workspaceId, record.billingPeriod);
        && (row.Ok? <==> key.Some?)
        && (row.Err? ==> allowances == old(allowances))
        && (row.Ok? ==> && allowances == A.Open(old(allowances), key.value, record)
                        && row.value == allowances[key.value])
    {
      var key := A.Key(record.workspaceId, record.billingPeriod);
      if key.None? { return Err(InvalidPeriod); }
      A.OpenKeepsKeyed(allowances, key.value, record);
      if key.value in allowances {
        var refreshed := allowances[key.value].(runLimit := record.runLimit, planVersion := record.planVersion,
                                                updatedAt := record.updatedAt);
        allowances := allowances[key.value := refreshed];
        return Ok(refreshed);
      }
      allowances := allowances[key.value := record];
      return Ok(record);
    }

    method ReserveRun(workspaceId: string, period: string, at: string) returns (ok: Result<bool, InvalidPeriod>)
      requires Valid()
      modifies `allowances
      ensures Valid()
      ensures var key := A.Key(workspaceId, period);
        && (ok.Ok? <==> key.Some?)
        && (ok.Err? ==> allowances == old(allowances))
        && (ok.Ok? ==> (allowances, ok.value) == A.Reserve(old(allowances), key.value, at))
    {
      var key := A.Key(workspaceId, period);
      if key.None? { return Err(InvalidPeriod); }
      A.ReserveKeepsKeyed(allowances, key.value, at);
      if key.value !in allowances { return Ok(false); }
      var row := allowances[key.value];
      if row.runLimit - row.consumed - row.reserved < 1 { return Ok(false); }
      allowances := allowances[key.value := row.(reserved := row.reserved + 1, updatedAt := at)];
      return Ok(true);
    }

    method SettleReservedRun(workspaceId: string, period: string, at: string) returns (ok: Result<bool, InvalidPeriod>)
      requires Valid()
      modifies `allowances
      ensures Valid()
      ensures var key := A.Key(workspaceId, period);
        && (ok.Ok? <==> key.Some?)
        && (ok.Err? ==> allowances == old(allowances))
        && (ok.Ok? ==> (allowances, ok.value) == A.Settle(old(allowances), key.value, at))
    {
      var key := A.Key(workspaceId, period);
      if key.None? { return Err(InvalidPeriod); }
      A.SettleKeepsKeyed(allowances, key.value, at);
      if key.value !in allowances || allowances[key.value].reserved < 1 { return Ok(false); }
      var row := allowances[key.value];
      allowances := allowances[key.value := row.(reserved := row.reserved - 1, consumed := row.consumed + 1, updatedAt := at)];
      return Ok(true);
    }

    method ReleaseReservedRun(workspaceId: string, period: string, at: string) returns (ok: Result<bool, InvalidPeriod>)
      requires Valid()
      modifies `allowances
      ensures Valid()
      ensures var key := A.Key(workspaceId, period);
        && (ok.Ok? <==> key.Some?)
        && (ok.Err? ==> allowances == old(allowances))
        && (ok.Ok? ==> (allowances, ok.value) == A.Release(old(allowances), key.value, at))
    {
      var key := A.Key(workspaceId, period);
      if key.None? { return Err(InvalidPeriod); }
      A.ReleaseKeepsKeyed(allowances, key.value, at);
      if key.value !in allowances || allowances[key.value].reserved < 1 { return Ok(false); }
      var row := allowances[key.value];
      allowances := allowances[key.value := row.(reserved := row.reserved - 1, updatedAt := at)];
      return Ok(true);
    }

    method BeginWebhookProcessing(row: R.Receipt) returns (admission: R.Admission)
      requires Valid()
      modifies `receipts, `receiptOrder
      ensures Valid()
      ensures (Inbox(), admission) == R.Begin(old(Inbox()), row)
    {
      R.BeginKeepsOrder(Inbox(), row);
      var key := R.Key(row.provider, row.eventId);
      if key in receipts {
        var existing := receipts[key];
        return if existing.status == R.Received then R.InFlight(existing.receiptId) else R.AlreadyProcessed(existing.receiptId);
      }
      receipts := receipts[key := row.(status := R.Received)];
      receiptOrder := receiptOrder + [key];
      return R.Fresh(row.receiptId);
    }

    method CompleteWebhookProcessing(receiptId: string, status: R.Status, workspaceId: Option<Option<string>>)
      requires Valid()
      modifies `receipts
      ensures Valid()
      ensures Inbox() == R.Complete(old(Inbox()), receiptId, status, workspaceId)
    {
      ghost var wanted := (r: R.Receipt) => r.receiptId == receiptId;
      R.CompleteKeepsOrder(Inbox(), receiptId, status, workspaceId);
      for i := 0 to |receiptOrder|
        invariant receipts == old(receipts) && receiptOrder == old(receiptOrder)
        invariant R.FirstRow(Inbox(), wanted, 0) == R.FirstRow(Inbox(), wanted, i)
      {
        var key := receiptOrder[i];
        var row := receipts[key];
        if row.receiptId == receiptId {
          receipts := receipts[key := row.(status := status, workspaceId := Patched(workspaceId, row.workspaceId))];
          return;
        }
      }
    }

    /** Gives back the oldest claim with this event id. */
    method AbandonWebhookProcessing(eventId: string)
      requires Valid()
      modifies `receipts, `receiptOrder
      ensures Valid()
      ensures Inbox() == R.Abandon(old(Inbox()), eventId)
    {
      ghost var wanted, before := (r: R.Receipt) => r.eventId == eventId, Inbox();
      for i := 0 to |receiptOrder|
        invariant receipts == before.rows && receiptOrder == before.order && Valid()
        invariant R.FirstRow(before, wanted, 0) == R.FirstRow(before, wanted, i)
      {
        var key := receiptOrder[i];
        if receipts[key].eventId == eventId {
          receipts := receipts - {key};
          receiptOrder := receiptOrder[..i] + receiptOrder[i + 1..];
          R.AbandonAt(before, eventId, i, Inbox());
          return;
        }
      }
    }
  }
}
