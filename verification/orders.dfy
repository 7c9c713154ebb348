/** The `Order` class: each `new Order` takes its id from a static counter that
    starts at 1 and is post-incremented. */
module Orders {
  import opened JavaInt
  import opened Books
  import opened Accounts

  datatype Order = Order(id: i32, user: Account, books: seq<BookId>)

  /** The new order and the counter value left for the next one. */
  datatype Placed = Placed(order: Order, counter: i32)

  /** The counter's initial value. */
  const FirstId: i32 := 1

  /** `new Order(user, books)` with `orderId = orderCounter++` done as one step. */
  function NewOrder(counter: i32, user: Account, books: seq<BookId>): (r: Placed)
    ensures r.order.id == counter && r.order.user == user && r.order.books == books
    ensures counter as int < MaxInt ==> r.counter as int == counter as int + 1
    ensures counter as int == MaxInt ==> r.counter as int == MinInt
    ensures r.counter == Wrap(counter as int + 1)
  {
    Placed(Order(counter, user, books), Plus(counter, 1))
  }

  /** One request to create an order. */
  datatype Request = Request(user: Account, books: seq<BookId>)

  datatype Batch = Batch(orders: seq<Order>, counter: i32)

  /** Orders created one after another. */
  function NewOrders(counter: i32, requests: seq<Request>): (r: Batch)
    ensures |r.orders| == |requests|
    ensures forall i :: 0 <= i < |requests| ==>
      r.orders[i].user == requests[i].user && r.orders[i].books == requests[i].books
    ensures r.counter == Wrap(counter as int + |requests|)
    ensures forall i :: 0 <= i < |requests| ==> r.orders[i].id == Wrap(counter as int + i)
    ensures counter as int + |requests| <= MaxInt ==>
      && r.counter as int == counter as int + |requests|
      && forall i :: 0 <= i < |requests| ==> r.orders[i].id as int == counter as int + i
    decreases |requests|
  {
    if requests == [] then Batch([], counter)
    else
      var p := NewOrder(counter, requests[0].user, requests[0].books);
      var rest := NewOrders(p.counter, requests[1..]);
      NewOrdersStep(counter, requests, p, rest);
      Batch([p.order] + rest.orders, rest.counter)
  }

  /** One step of `NewOrders`: the first request's order in front of the orders
      for the remaining requests, numbered on from the advanced counter. */
  lemma NewOrdersStep(counter: i32, requests: seq<Request>, p: Placed, rest: Batch)
    requires requests != []
    requires p == NewOrder(counter, requests[0].user, requests[0].books)
    requires |rest.orders| == |requests| - 1
    requires forall j :: 0 <= j < |rest.orders| ==>
      rest.orders[j].user == requests[1..][j].user && rest.orders[j].books == requests[1..][j].books
    requires rest.counter == Wrap(p.counter as int + |requests| - 1)
    requires forall j :: 0 <= j < |rest.orders| ==> rest.orders[j].id == Wrap(p.counter as int + j)
    ensures var r := Batch([p.order] + rest.orders, rest.counter);
      && |r.orders| == |requests|
      && (forall i :: 0 <= i < |requests| ==>
            r.orders[i].user == requests[i].user && r.orders[i].books == requests[i].books)
      && r.counter == Wrap(counter as int + |requests|)
      && (forall i :: 0 <= i < |requests| ==> r.orders[i].id == Wrap(counter as int + i))
      && (counter as int + |requests| <= MaxInt ==>
            && r.counter as int == counter as int + |requests|
            && forall i :: 0 <= i < |requests| ==> r.orders[i].id as int == counter as int + i)
  {
    var r := Batch([p.order] + rest.orders, rest.counter);
    WrapThenAdd(counter as int + 1, |requests| - 1);
    ConsKeepsRequests(p.order, rest.orders, requests);
    ConsIdsWrap(counter, p.order, rest.orders);
    if counter as int + |requests| <= MaxInt {
      WrappedIdsExact(counter, r.orders);
    }
  }


  /** Putting the order for the first request in front of the orders for the
      remaining requests keeps every order paired with its request. */
  lemma ConsKeepsRequests(first: Order, rest: seq<Order>, requests: seq<Request>)
    requires |requests| == |rest| + 1
    requires first.user == requests[0].user && first.books == requests[0].books
    requires forall j :: 0 <= j < |rest| ==>
      rest[j].user == requests[1..][j].user && rest[j].books == requests[1..][j].books
    ensures forall i :: 0 <= i < |requests| ==>
      ([first] + rest)[i].user == requests[i].user && ([first] + rest)[i].books == requests[i].books
  {
  }

  /** Putting an order with id `counter` in front of orders numbered from
      `counter + 1` gives orders numbered from `counter`, modulo 2^32. */
  lemma ConsIdsWrap(counter: i32, first: Order, rest: seq<Order>)
    requires first.id == counter
    requires forall j :: 0 <= j < |rest| ==> rest[j].id == Wrap(Wrap(counter as int + 1) as int + j)
    ensures forall i :: 0 <= i < |rest| + 1 ==> ([first] + rest)[i].id == Wrap(counter as int + i)
  {
    forall i | 0 < i < |rest| + 1
      ensures ([first] + rest)[i].id == Wrap(counter as int + i)
    {
      WrapThenAdd(counter as int + 1, i - 1);
    }
  }

  /** While no id passes `Integer.MAX_VALUE`, the wrapped numbering is the plain one. */
  lemma WrappedIdsExact(counter: i32, orders: seq<Order>)
    requires counter as int + |orders| <= MaxInt
    requires forall i :: 0 <= i < |orders| ==> orders[i].id == Wrap(counter as int + i)
    ensures forall i :: 0 <= i < |orders| ==> orders[i].id as int == counter as int + i
  {
  }

  /** Ids handed out one at a time strictly increase, so no two orders share one. */
  lemma NewOrdersIdsIncrease(counter: i32, requests: seq<Request>)
    requires counter as int + |requests| <= MaxInt
    ensures var orders := NewOrders(counter, requests).orders;
      forall i, j :: 0 <= i < j < |orders| ==> orders[i].id < orders[j].id
  {
  }

  /** Whichever of the two order tasks constructs its order first, the ids differ
      and the counter advances by two, modulo 2^32; by exactly two when that fits. */
  lemma TwoOrdersDistinctIds(counter: i32, u1: Account, b1: seq<BookId>, u2: Account, b2: seq<BookId>)
    ensures var first := NewOrder(counter, u1, b1);
      var second := NewOrder(first.counter, u2, b2);
      && first.order.id != second.order.id
      && second.counter == Wrap(counter as int + 2)
      && (counter as int + 2 <= MaxInt ==> second.counter as int == counter as int + 2)
  {
    WrapThenAdd(counter as int + 1, 1);
  }

  /** `main`'s two orders, built from the counter's initial value: whichever task
      constructs first gets id 1 and the other gets id 2. */
  lemma MainOrderIds(u1: Account, b1: seq<BookId>, u2: Account, b2: seq<BookId>)
    ensures var first := NewOrder(FirstId, u1, b1);
      var second := NewOrder(first.counter, u2, b2);
      first.order.id == 1 && second.order.id == 2 && second.counter == 3
  {
  }

  // ---------------------------------------------------------------------------
  // The counter as written: `orderCounter++` outside any lock
  // ---------------------------------------------------------------------------

  /** How far one task has got through `orderId = orderCounter++`: the read of
      the shared counter and the write back of the incremented value are separate
      steps, and the two order tasks of `main` run them on different threads. */
  datatype Phase = Before | Loaded(value: i32) | Assigned(id: i32)

  /** The shared counter and the progress of the two tasks. */
  datatype RaceState = RaceState(counter: i32, task1: Phase, task2: Phase)

  function PhaseStep(counter: i32, p: Phase): (i32, Phase) {
    match p
    case Before => (counter, Loaded(counter))
    case Loaded(v) => (Plus(v, 1), Assigned(v))
    case Assigned(_) => (counter, p)
  }

  /** One step of the task `task1` names (true: the first task). */
  function RaceStep(s: RaceState, task1: bool): RaceState {
    if task1 then
      var (c, p) := PhaseStep(s.counter, s.task1);
      RaceState(c, p, s.task2)
    else
      var (c, p) := PhaseStep(s.counter, s.task2);
      RaceState(c, s.task1, p)
  }

  /** The state after the steps of a schedule. */
  function RacyRun(s: RaceState, schedule: seq<bool>): RaceState
    decreases |schedule|
  {
    if schedule == [] then s else RacyRun(RaceStep(s, schedule[0]), schedule[1..])
  }

  /** Both tasks read the counter before either writes it back: the two orders
      get the same id, and one increment is lost. */
  lemma RacyIncrementDuplicatesId(counter: i32)
    ensures RacyRun(RaceState(counter, Before, Before), [true, false, true, false])
      == RaceState(Plus(counter, 1), Assigned(counter), Assigned(counter))
  {
  }

  /** When each task's read and write are not interleaved, the racy counter
      behaves like two atomic `NewOrder` calls. */
  lemma RacySerialMatchesNewOrder(counter: i32, u1: Account, b1: seq<BookId>, u2: Account, b2: seq<BookId>)
    ensures var first := NewOrder(counter, u1, b1);
      var second := NewOrder(first.counter, u2, b2);
      && RacyRun(RaceState(counter, Before, Before), [true, true, false, false])
         == RaceState(second.counter, Assigned(first.order.id), Assigned(second.order.id))
      && RacyRun(RaceState(counter, Before, Before), [false, false, true, true])
         == RaceState(second.counter, Assigned(second.order.id), Assigned(first.order.id))
  {
  }
}
