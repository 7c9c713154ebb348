/** Order fulfilment in `main`: each order task debits one copy per book inside
    `synchronized (inventoryManager)`, chaining the debits with a short-circuit
    `&&`, and never puts back a copy already taken when a later debit fails. */
module Checkout {
  import opened Books
  import opened Accounts
  import opened Cart
  import opened Inventory

  /** The outcome of debiting a list of books: whether every debit succeeded,
      how many succeeded before the first failure, and the ledger afterwards. */
  datatype Fulfilment = Fulfilment(fulfilled: bool, debited: nat, ledger: Ledger)

  /** Debits one copy of each book in turn and stops at the first debit that fails. */
  function Fulfil(l: Ledger, items: seq<BookId>): (r: Fulfilment)
    ensures r.debited <= |items|
    ensures r.fulfilled <==> r.debited == |items|
    ensures r.debited == 0 ==> r.ledger == l
    decreases |items|
  {
    if items == [] then Fulfilment(true, 0, l)
    else
      var d := RemoveFromInventory(l, items[0], 1);
      if !d.removed then Fulfilment(false, 0, l)
      else
        var rest := Fulfil(d.ledger, items[1..]);
        Fulfilment(rest.fulfilled, rest.debited + 1, rest.ledger)
  }

  /** `Fulfil` only debits books the ledger already holds, so it adds no key. */
  lemma {:induction false} FulfilKeepsKeys(l: Ledger, items: seq<BookId>)
    ensures Fulfil(l, items).ledger.Keys == l.Keys
    decreases |items|
  {
    if items != [] {
      var d := RemoveFromInventory(l, items[0], 1);
      if d.removed {
        FulfilKeepsKeys(d.ledger, items[1..]);
        assert items[0] in l;
      }
    }
  }

  /** The ledger after `Fulfil` is the ledger before less one copy per debited
      item: the items from the first failure on are not touched and the earlier
      ones stay debited. */
  lemma {:induction false} FulfilStock(l: Ledger, items: seq<BookId>)
    ensures var r := Fulfil(l, items);
      && r.ledger.Keys == l.Keys
      && forall b :: Stock(r.ledger, b) as int == Stock(l, b) as int - multiset(items[..r.debited])[b]
    decreases |items|
  {
    FulfilKeepsKeys(l, items);
    if items != [] && RemoveFromInventory(l, items[0], 1).removed {
      var d := RemoveFromInventory(l, items[0], 1);
      var rest := Fulfil(d.ledger, items[1..]);
      FulfilStock(d.ledger, items[1..]);
      FulfilStockStep(l, items, d, rest);
    }
  }

  /** The inductive step of `FulfilStock`: a successful first debit followed by
      the stock equation for the rest of the items. */
  lemma FulfilStockStep(l: Ledger, items: seq<BookId>, d: Removal, rest: Fulfilment)
    requires items != [] && d == RemoveFromInventory(l, items[0], 1) && d.removed
    requires rest == Fulfil(d.ledger, items[1..])
    requires forall b :: Stock(rest.ledger, b) as int == Stock(d.ledger, b) as int - multiset(items[1..][..rest.debited])[b]
    ensures Fulfil(l, items) == Fulfilment(rest.fulfilled, rest.debited + 1, rest.ledger)
    ensures forall b :: Stock(rest.ledger, b) as int == Stock(l, b) as int - multiset(items[..rest.debited + 1])[b]
  {
    DebitThenRest(l, items, rest.debited, d.ledger, rest.ledger);
  }

  /** One copy of the head debited, then the first `k` items of the tail: the
      stock drops by the count of each book in the first `k + 1` items. */
  lemma DebitThenRest(l: Ledger, items: seq<BookId>, k: nat, d: Ledger, after: Ledger)
    requires k < |items|
    requires Stock(d, items[0]) as int == Stock(l, items[0]) as int - 1
    requires forall b :: b != items[0] ==> Stock(d, b) == Stock(l, b)
    requires forall b :: Stock(after, b) as int == Stock(d, b) as int - multiset(items[1..][..k])[b]
    ensures forall b :: Stock(after, b) as int == Stock(l, b) as int - multiset(items[..k + 1])[b]
  {
    PrefixAfterHead(items, k);
  }

  /** The ledger held enough copies for every debit made: no debited book goes negative. */
  lemma {:induction false} FulfilCovered(l: Ledger, items: seq<BookId>)
    ensures var r := Fulfil(l, items);
      forall b :: b in items[..r.debited] ==> Stock(l, b) as int >= multiset(items[..r.debited])[b]
    decreases |items|
  {
    if items != [] && RemoveFromInventory(l, items[0], 1).removed {
      var d := RemoveFromInventory(l, items[0], 1);
      var rest := Fulfil(d.ledger, items[1..]);
      FulfilCovered(d.ledger, items[1..]);
      FulfilCoveredStep(l, items, d, rest);
    }
  }

  /** The inductive step of `FulfilCovered`. */
  lemma FulfilCoveredStep(l: Ledger, items: seq<BookId>, d: Removal, rest: Fulfilment)
    requires items != [] && d == RemoveFromInventory(l, items[0], 1) && d.removed
    requires rest == Fulfil(d.ledger, items[1..])
    requires forall b :: b in items[1..][..rest.debited] ==>
      Stock(d.ledger, b) as int >= multiset(items[1..][..rest.debited])[b]
    ensures var r := Fulfil(l, items);
      forall b :: b in items[..r.debited] ==> Stock(l, b) as int >= multiset(items[..r.debited])[b]
  {
    assert Fulfil(l, items) == Fulfilment(rest.fulfilled, rest.debited + 1, rest.ledger);
    CoveredAfterHead(l, items, rest.debited, d.ledger);
  }

  /** If the head could be debited and the debited ledger covered the first `k`
      items of the tail, the original ledger covered the first `k + 1` items. */
  lemma CoveredAfterHead(l: Ledger, items: seq<BookId>, k: nat, d: Ledger)
    requires k < |items|
    requires Stock(l, items[0]) >= 1
    requires Stock(d, items[0]) as int == Stock(l, items[0]) as int - 1
    requires forall b :: b != items[0] ==> Stock(d, b) == Stock(l, b)
    requires forall b :: b in items[1..][..k] ==> Stock(d, b) as int >= multiset(items[1..][..k])[b]
    ensures forall b :: b in items[..k + 1] ==> Stock(l, b) as int >= multiset(items[..k + 1])[b]
  {
    PrefixAfterHead(items, k);
    forall b | b in items[..k + 1]
      ensures Stock(l, b) as int >= multiset(items[..k + 1])[b]
    {
      if b in items[1..][..k] {
        assert Stock(d, b) as int >= multiset(items[1..][..k])[b];
      }
    }
  }

  /** When `Fulfil` stops early, the item it stopped at had no copy left once the
      earlier debits were made. */
  lemma {:induction false} FulfilStopsAtEmpty(l: Ledger, items: seq<BookId>)
    ensures var r := Fulfil(l, items);
      !r.fulfilled ==> Stock(l, items[r.debited]) as int < multiset(items[..r.debited])[items[r.debited]] + 1
    decreases |items|
  {
    if items != [] && RemoveFromInventory(l, items[0], 1).removed {
      var d := RemoveFromInventory(l, items[0], 1);
      var rest := Fulfil(d.ledger, items[1..]);
      FulfilStopsAtEmpty(d.ledger, items[1..]);
      FulfilStopsAtEmptyStep(l, items, d, rest);
    }
  }

  /** The inductive step of `FulfilStopsAtEmpty`. */
  lemma FulfilStopsAtEmptyStep(l: Ledger, items: seq<BookId>, d: Removal, rest: Fulfilment)
    requires items != [] && d == RemoveFromInventory(l, items[0], 1) && d.removed
    requires rest == Fulfil(d.ledger, items[1..])
    requires !rest.fulfilled ==>
      Stock(d.ledger, items[1..][rest.debited]) as int
      < multiset(items[1..][..rest.debited])[items[1..][rest.debited]] + 1
    ensures var r := Fulfil(l, items);
      !r.fulfilled ==> Stock(l, items[r.debited]) as int < multiset(items[..r.debited])[items[r.debited]] + 1
  {
    assert Fulfil(l, items) == Fulfilment(rest.fulfilled, rest.debited + 1, rest.ledger);
    if !rest.fulfilled {
      var k := rest.debited;
      PrefixAfterHead(items, k);
      var x := items[k + 1];
      assert Stock(d.ledger, x) as int < multiset(items[1..][..k])[x] + 1;
    }
  }

  /** The first `k + 1` items are the head followed by the first `k` of the tail. */
  lemma PrefixAfterHead(items: seq<BookId>, k: nat)
    requires k < |items|
    ensures forall b :: multiset(items[..k + 1])[b] == multiset(items[1..][..k])[b] + (if b == items[0] then 1 else 0)
    ensures forall b :: b in items[..k + 1] <==> b == items[0] || b in items[1..][..k]
    ensures k + 1 < |items| ==> items[k + 1] == items[1..][k]
  {
    assert items[..k + 1] == [items[0]] + items[1..][..k];
  }

  /** An order never drives a stock below zero: each book it debits had at least
      as many copies as the debits of it, and every other book is untouched. */
  lemma {:induction false} FulfilKeepsNonNegative(l: Ledger, items: seq<BookId>)
    requires NonNegative(l)
    ensures NonNegative(Fulfil(l, items).ledger)
  {
    var r := Fulfil(l, items);
    FulfilStock(l, items);
    FulfilCovered(l, items);
    forall b | b in r.ledger
      ensures r.ledger[b] >= 0
    {
      assert Stock(r.ledger, b) as int == Stock(l, b) as int - multiset(items[..r.debited])[b];
      if b !in items[..r.debited] {
        assert multiset(items[..r.debited])[b] == 0;
      }
    }
  }

  /** Every debit of an order succeeds exactly when the ledger holds, for each
      book the order names, at least as many copies as the order lists. */
  lemma FulfilSucceedsIff(l: Ledger, items: seq<BookId>)
    ensures Fulfil(l, items).fulfilled <==>
      forall b :: b in items ==> multiset(items)[b] <= Stock(l, b) as int
  {
    if Fulfil(l, items).fulfilled {
      FulfilledIsCovered(l, items);
    } else {
      UnfulfilledIsUncovered(l, items);
    }
  }

  /** The "only if" half of `FulfilSucceedsIff`. */
  lemma FulfilledIsCovered(l: Ledger, items: seq<BookId>)
    requires Fulfil(l, items).fulfilled
    ensures forall b :: b in items ==> multiset(items)[b] <= Stock(l, b) as int
  {
    FulfilCovered(l, items);
    assert items[..|items|] == items;
  }

  /** The "if" half of `FulfilSucceedsIff`, by contraposition: the book the
      debits stopped at is listed more often than the ledger holds it. */
  lemma UnfulfilledIsUncovered(l: Ledger, items: seq<BookId>)
    requires !Fulfil(l, items).fulfilled
    ensures exists b :: b in items && multiset(items)[b] > Stock(l, b) as int
  {
    var k := Fulfil(l, items).debited;
    FulfilStopsAtEmpty(l, items);
    CountPastPrefix(items, k);
  }

  /** An item occurs in the whole list at least once more than before its position. */
  lemma CountPastPrefix(items: seq<BookId>, k: nat)
    requires k < |items|
    ensures multiset(items)[items[k]] >= multiset(items[..k])[items[k]] + 1
  {
    assert items == items[..k] + [items[k]] + items[k + 1..];
  }

  /** A failing first debit leaves the ledger untouched and attempts nothing after it. */
  lemma FirstFailureTouchesNothing(l: Ledger, items: seq<BookId>)
    requires items != [] && Stock(l, items[0]) < 1
    ensures Fulfil(l, items) == Fulfilment(false, 0, l)
  {
  }

  /** No rollback: when the debit of item `k` fails, the copies taken for the
      items before it stay taken and the items after it are not touched. */
  lemma {:induction false} FailureKeepsEarlierDebits(l: Ledger, items: seq<BookId>)
    requires !Fulfil(l, items).fulfilled
    ensures var r := Fulfil(l, items);
      && r.debited < |items|
      && Fulfil(l, items[..r.debited]) == Fulfilment(true, r.debited, r.ledger)
    decreases |items|
  {
    var r := Fulfil(l, items);
    var d := RemoveFromInventory(l, items[0], 1);
    if d.removed {
      var k := r.debited;
      FailureKeepsEarlierDebits(d.ledger, items[1..]);
      assert items[..k][0] == items[0];
      assert items[..k][1..] == items[1..][..k - 1];
    }
  }

  /** Two ledgers with the same books and the same stock levels are equal. */
  lemma LedgerExtensionality(l1: Ledger, l2: Ledger)
    requires l1.Keys == l2.Keys
    requires forall b :: Stock(l1, b) == Stock(l2, b)
    ensures l1 == l2
  {
    forall b | b in l1
      ensures l1[b] == l2[b]
    {
      assert Stock(l1, b) == Stock(l2, b);
    }
  }

  // ---------------------------------------------------------------------------
  // The two synchronized blocks of `main`
  // ---------------------------------------------------------------------------

  /** What an order task reports: `Order n Total: ...` or `Order n failed. Not enough stock.` */
  datatype Report = Report(success: bool, ledger: Ledger)

  /** The first task's block: `removeFromInventory(book1, 1) && removeFromInventory(book2, 1)`. */
  function Order1Block(l: Ledger, book1: BookId, book2: BookId): Report {
    var first := RemoveFromInventory(l, book1, 1);
    if !first.removed then Report(false, first.ledger)
    else
      var second := RemoveFromInventory(first.ledger, book2, 1);
      Report(second.removed, second.ledger)
  }

  /** The second task's block: `removeFromInventory(book1, 1)`. */
  function Order2Block(l: Ledger, book1: BookId): Report {
    var first := RemoveFromInventory(l, book1, 1);
    Report(first.removed, first.ledger)
  }

  /** `Fulfil` on a single book. */
  lemma FulfilOne(l: Ledger, x: BookId)
    ensures Fulfil(l, [x]) ==
      if Stock(l, x) >= 1 then Fulfilment(true, 1, RemoveFromInventory(l, x, 1).ledger)
      else Fulfilment(false, 0, l)
  {
  }

  /** `Fulfil` on two books. */
  lemma FulfilTwo(l: Ledger, x: BookId, y: BookId)
    ensures var d := RemoveFromInventory(l, x, 1);
      var e := RemoveFromInventory(d.ledger, y, 1);
      Fulfil(l, [x, y]) ==
        if !d.removed then Fulfilment(false, 0, l)
        else if !e.removed then Fulfilment(false, 1, d.ledger)
        else Fulfilment(true, 2, e.ledger)
  {
  }

  /** The hard-coded blocks are `Fulfil` applied to the lists they debit. */
  lemma BlocksAreFulfil(l: Ledger, book1: BookId, book2: BookId)
    ensures var f := Fulfil(l, [book1, book2]);
      Order1Block(l, book1, book2) == Report(f.fulfilled, f.ledger)
    ensures var f := Fulfil(l, [book1]);
      Order2Block(l, book1) == Report(f.fulfilled, f.ledger)
  {
  }

  /** The two lock orders: the task that takes the lock first runs its whole block first. */
  datatype Schedule = Order1First | Order2First

  datatype Outcome = Outcome(order1: Fulfilment, order2: Fulfilment, ledger: Ledger)

  /** Both order tasks of `main` run against the same ledger, one block at a time. */
  function RunOrders(l: Ledger, book1: BookId, book2: BookId, s: Schedule): (r: Outcome)
    ensures r.order1.debited <= 2 && r.order2.debited <= 1
    ensures forall b ::
      Stock(r.ledger, b) as int
      == Stock(l, b) as int - multiset([book1, book2][..r.order1.debited])[b] - multiset([book1][..r.order2.debited])[b]
  {
    match s
    case Order1First =>
      var f1 := Fulfil(l, [book1, book2]);
      var f2 := Fulfil(f1.ledger, [book1]);
      FulfilStock(l, [book1, book2]);
      FulfilStock(f1.ledger, [book1]);
      Outcome(f1, f2, f2.ledger)
    case Order2First =>
      var f2 := Fulfil(l, [book1]);
      var f1 := Fulfil(f2.ledger, [book1, book2]);
      FulfilStock(l, [book1]);
      FulfilStock(f2.ledger, [book1, book2]);
      Outcome(f1, f2, f1.ledger)
  }

  /** Under either lock order the two orders together take no more copies of any
      book than the ledger held before them. */
  lemma RunOrdersWithinStock(l: Ledger, book1: BookId, book2: BookId, s: Schedule)
    ensures var r := RunOrders(l, book1, book2, s);
      var taken := multiset([book1, book2][..r.order1.debited]) + multiset([book1][..r.order2.debited]);
      forall b :: b in taken ==> taken[b] <= Stock(l, b) as int
  {
    match s {
      case Order1First =>
        var f1 := Fulfil(l, [book1, book2]);
        FulfilStock(l, [book1, book2]);
        FulfilCovered(l, [book1, book2]);
        FulfilCovered(f1.ledger, [book1]);
      case Order2First =>
        var f2 := Fulfil(l, [book1]);
        FulfilStock(l, [book1]);
        FulfilCovered(l, [book1]);
        FulfilCovered(f2.ledger, [book1, book2]);
    }
  }

  /** Under either lock order no stock of a non-negative ledger ends below zero. */
  lemma RunOrdersKeepsNonNegative(l: Ledger, book1: BookId, book2: BookId, s: Schedule)
    requires NonNegative(l)
    ensures NonNegative(RunOrders(l, book1, book2, s).ledger)
  {
    match s {
      case Order1First =>
        FulfilKeepsNonNegative(l, [book1, book2]);
        FulfilKeepsNonNegative(Fulfil(l, [book1, book2]).ledger, [book1]);
      case Order2First =>
        FulfilKeepsNonNegative(l, [book1]);
        FulfilKeepsNonNegative(Fulfil(l, [book1]).ledger, [book1, book2]);
    }
  }

  /** When the last copy of `book1` is contested, exactly one debit of it succeeds
      under either lock order and its stock ends at zero. If the first task wins the
      lock but `book2` is out of stock, neither order succeeds and the copy of
      `book1` is still gone, because nothing is rolled back. */
  lemma LastCopyGoesOnce(l: Ledger, book1: BookId, book2: BookId, s: Schedule)
    requires book1 != book2 && Stock(l, book1) == 1
    ensures var r := RunOrders(l, book1, book2, s);
      && Stock(r.ledger, book1) == 0
      && multiset([book1, book2][..r.order1.debited])[book1] + multiset([book1][..r.order2.debited])[book1] == 1
      && !(r.order1.fulfilled && r.order2.fulfilled)
      && (s == Order2First ==> r.order2.fulfilled && Stock(r.ledger, book2) == Stock(l, book2))
      && (s == Order1First ==> (r.order1.fulfilled <==> Stock(l, book2) >= 1))
  {
    var r := RunOrders(l, book1, book2, s);
    FulfilTwo(l, book1, book2);
    FulfilOne(l, book1);
    var d := RemoveFromInventory(l, book1, 1);
    FulfilOne(d.ledger, book1);
    var e := RemoveFromInventory(d.ledger, book2, 1);
    FulfilOne(e.ledger, book1);
    FulfilTwo(d.ledger, book1, book2);
    assert [book1, book2][..0] == [];
    assert [book1, book2][..1] == [book1];
    assert [book1][..0] == [];
  }

  /** Two buyers of the single copy of a book: exactly one order succeeds,
      whichever runs first, and the stock ends at zero. */
  lemma SingleCopyTwoBuyers(l: Ledger, book: BookId)
    requires Stock(l, book) == 1
    ensures var f1 := Fulfil(l, [book]);
      var f2 := Fulfil(f1.ledger, [book]);
      && f1.fulfilled && !f2.fulfilled
      && Stock(f2.ledger, book) == 0
  {
  }

  /** With two copies of `book1` and one of `book2`, both orders of `main` succeed
      under either lock order and the two lock orders leave the same ledger. */
  lemma EnoughStockBothSucceed(l: Ledger, book1: BookId, book2: BookId)
    requires book1 != book2 && Stock(l, book1) >= 2 && Stock(l, book2) >= 1
    ensures var r1 := RunOrders(l, book1, book2, Order1First);
      var r2 := RunOrders(l, book1, book2, Order2First);
      && r1.order1.fulfilled && r1.order2.fulfilled
      && r2.order1.fulfilled && r2.order2.fulfilled
      && r1.ledger == r2.ledger
      && Stock(r1.ledger, book1) as int == Stock(l, book1) as int - 2
      && Stock(r1.ledger, book2) as int == Stock(l, book2) as int - 1
  {
    var a, c := [book1, book2], [book1];
    assert a + c == [book1, book2, book1];
    assert multiset(a + c)[book1] == 2 && multiset(a + c)[book2] == 1;
    SerialOrdersCommute(l, a, c);
    SerialBothSucceed(l, a, c);
  }

  /** Two orders whose books the ledger covers together commute: run back to back
      in either order, both succeed and they leave the same ledger. */
  lemma SerialOrdersCommute(l: Ledger, a: seq<BookId>, c: seq<BookId>)
    requires forall b :: b in a + c ==> multiset(a + c)[b] <= Stock(l, b) as int
    ensures Fulfil(l, a).fulfilled && Fulfil(Fulfil(l, a).ledger, c).fulfilled
    ensures Fulfil(l, c).fulfilled && Fulfil(Fulfil(l, c).ledger, a).fulfilled
    ensures Fulfil(Fulfil(l, a).ledger, c).ledger == Fulfil(Fulfil(l, c).ledger, a).ledger
  {
    assert multiset(c + a) == multiset(a + c);
    SerialBothSucceed(l, a, c);
    forall b | b in c + a
      ensures multiset(c + a)[b] <= Stock(l, b) as int
    {
      assert b in a + c;
    }
    SerialBothSucceed(l, c, a);
    LedgerExtensionality(Fulfil(Fulfil(l, a).ledger, c).ledger, Fulfil(Fulfil(l, c).ledger, a).ledger);
  }

  /** Running two orders back to back succeeds in full when the ledger covers
      both lists together. */
  lemma SerialBothSucceed(l: Ledger, a: seq<BookId>, c: seq<BookId>)
    requires forall b :: b in a + c ==> multiset(a + c)[b] <= Stock(l, b) as int
    ensures var f1 := Fulfil(l, a);
      var f2 := Fulfil(f1.ledger, c);
      && f1.fulfilled && f2.fulfilled
      && f2.ledger.Keys == l.Keys
      && forall b :: Stock(f2.ledger, b) as int == Stock(l, b) as int - multiset(a + c)[b]
  {
    assert multiset(a + c) == multiset(a) + multiset(c);
    var f1 := Fulfil(l, a);
    PrefixCovered(l, a, c);
    FulfilStock(l, a);
    assert a[..|a|] == a;
    var f2 := Fulfil(f1.ledger, c);
    assert f2.fulfilled by {
      FulfilSucceedsIff(f1.ledger, c);
      forall b | b in c
        ensures multiset(c)[b] <= Stock(f1.ledger, b) as int
      {
        assert b in a + c;
      }
    }
    FulfilStock(f1.ledger, c);
    assert c[..|c|] == c;
  }

  /** An order whose books, together with a later order's, are covered by the
      ledger is fulfilled in full. */
  lemma PrefixCovered(l: Ledger, a: seq<BookId>, c: seq<BookId>)
    requires forall b :: b in a + c ==> multiset(a + c)[b] <= Stock(l, b) as int
    ensures Fulfil(l, a).fulfilled
  {
    assert multiset(a + c) == multiset(a) + multiset(c);
    FulfilSucceedsIff(l, a);
    forall b | b in a
      ensures multiset(a)[b] <= Stock(l, b) as int
    {
      assert b in a + c;
    }
  }

  /** How `main` ends: `Exited` stands for `System.exit(0)` after a failed login. */
  datatype SessionEnd = Exited | Completed(outcome: Outcome)

  /** `main` as written: two books, two accounts, the carts, the seeded inventory,
      the login gate and then both orders under either lock order. */
  function Session(d: Directory, l: Ledger, book1: BookId, book2: BookId,
                   username: string, password: string, s: Schedule): (r: SessionEnd)
    ensures r.Exited? <==> Authenticate(d, username, password).None?
  {
    if Authenticate(d, username, password).None? then Exited
    else Completed(RunOrders(l, book1, book2, s))
  }

  // ---------------------------------------------------------------------------
  // The data `main` seeds
  // ---------------------------------------------------------------------------

  function MainBooks(): Created {
    NewBook(Catalog(map[], 0), "Java Programming", "John Doe", 50)
  }

  function Book1(): BookId {
    MainBooks().id
  }

  function Book2(): BookId {
    NewBook(MainBooks().catalog, "Python for Beginners", "Jane Smith", 30).id
  }

  function User1Registration(): Registration {
    Register(map[], "user1", "password1")
  }

  function MainDirectory(): Directory {
    Register(User1Registration().directory, "user2", "password2").directory
  }

  function MainLedger(): Ledger {
    AddToInventory(AddToInventory(map[], Book1(), 50), Book2(), 30)
  }

  /** Both seeded accounts pass validation. */
  lemma MainAccounts()
    ensures User1Registration().outcome.Success?
    ensures Register(User1Registration().directory, "user2", "password2").outcome.Success?
  {
    SeedPasswordValid("password1");
    SeedPasswordValid("password2");
  }

  /** Each seeded password: eight letters and a trailing digit. */
  lemma SeedPasswordValid(p: string)
    requires p == "password1" || p == "password2"
    ensures IsValidPassword(p)
  {
    assert InClass(Letter, p[0]) && InClass(Digit, p[8]);
  }

  /** The seeded objects: two distinct books, carts holding exactly the books the
      two blocks debit, and an inventory of 50 and 30 copies. */
  lemma MainSetup()
    ensures Book1() != Book2()
    ensures AddBook(AddBook([], Book1()), Book2()) == [Book1(), Book2()]
    ensures AddBook([], Book1()) == [Book1()]
    ensures Stock(MainLedger(), Book1()) == 50 && Stock(MainLedger(), Book2()) == 30
  {
  }

  /** The login gate of `main` lets in exactly the two seeded accounts. */
  lemma MainLogin(username: string, password: string)
    ensures Authenticate(MainDirectory(), username, password).Some? <==>
      (username == "user1" && password == "password1") || (username == "user2" && password == "password2")
  {
    MainAccounts();
  }

  /** `main` end to end: a failed login exits before any order is placed; after a
      successful one both orders succeed under either lock order, leaving 48
      copies of `book1` and 29 of `book2`. */
  lemma MainScenario(username: string, password: string, s: Schedule)
    ensures var e := Session(MainDirectory(), MainLedger(), Book1(), Book2(), username, password, s);
      && (e.Completed? <==>
          (username == "user1" && password == "password1") || (username == "user2" && password == "password2"))
      && (e.Completed? ==>
          && e.outcome.order1.fulfilled && e.outcome.order2.fulfilled
          && Stock(e.outcome.ledger, Book1()) == 48
          && Stock(e.outcome.ledger, Book2()) == 29)
  {
    MainSetup();
    MainAccounts();
    MainLogin(username, password);
    EnoughStockBothSucceed(MainLedger(), Book1(), Book2());
  }
}
