/** The `InventoryManager` class: a `HashMap<Book, Integer>` of stock levels.
    Every method except `getBookStock` is `synchronized`, so each of those calls is
    one atomic step; `getBookStock` is an unlocked read that `main` never calls. */
module Inventory {
  import opened JavaInt
  import opened Books

  type Ledger = map<BookId, i32>

  /** `getBookStock`: `getOrDefault(book, 0)`. */
  function Stock(l: Ledger, b: BookId): (r: i32)
    ensures b in l ==> r == l[b]
    ensures b !in l ==> r == 0
  {
    if b in l then l[b] else 0
  }

  /** `addToInventory`: reads the stock (0 when absent), adds `quantity` with
      Java `int` arithmetic and stores the sum. */
  function AddToInventory(l: Ledger, b: BookId, quantity: i32): (r: Ledger)
    ensures r.Keys == l.Keys + {b}
    ensures Stock(r, b) == Plus(Stock(l, b), quantity)
    ensures forall x :: x != b ==> Stock(r, x) == Stock(l, x)
  {
    l[b := Plus(Stock(l, b), quantity)]
  }

  /** The result of `removeFromInventory` and the stock levels afterwards. */
  datatype Removal = Removal(removed: bool, ledger: Ledger)

  /** `removeFromInventory`: check-and-decrement; nothing changes when the stock
      is below `quantity`. */
  function RemoveFromInventory(l: Ledger, b: BookId, quantity: i32): (r: Removal)
    ensures r.removed <==> Stock(l, b) >= quantity
    ensures !r.removed ==> r.ledger == l
    ensures r.removed ==> r.ledger.Keys == l.Keys + {b} && Stock(r.ledger, b) == Minus(Stock(l, b), quantity)
    ensures r.removed && quantity >= 0 ==> Stock(r.ledger, b) as int == Stock(l, b) as int - quantity as int
    ensures forall x :: x != b ==> Stock(r.ledger, x) == Stock(l, x)
  {
    var current := Stock(l, b);
    if current >= quantity then Removal(true, l[b := Minus(current, quantity)])
    else Removal(false, l)
  }

  /** The ledger invariant: no stock level is negative. */
  predicate NonNegative(l: Ledger) {
    forall b :: b in l ==> l[b] >= 0
  }

  /** A non-negative addition that does not overflow keeps every stock non-negative. */
  lemma AddKeepsNonNegative(l: Ledger, b: BookId, quantity: i32)
    requires NonNegative(l) && quantity >= 0
    requires Stock(l, b) as int + quantity as int <= MaxInt
    ensures NonNegative(AddToInventory(l, b, quantity))
    ensures Stock(AddToInventory(l, b, quantity), b) as int == Stock(l, b) as int + quantity as int
  {
  }

  /** A removal of a non-negative quantity can never drive a stock below zero. */
  lemma RemoveKeepsNonNegative(l: Ledger, b: BookId, quantity: i32)
    requires NonNegative(l) && quantity >= 0
    ensures NonNegative(RemoveFromInventory(l, b, quantity).ledger)
  {
  }

  /** The overflow the addition bound excludes: topping up a full `int` stock
      wraps it negative. */
  lemma AddCanWrapNegative(b: BookId)
    ensures Stock(AddToInventory(map[b := MaxInt as i32], b, 1), b) as int == MinInt
  {
  }

  /** The calls an inventory receives. */
  datatype LedgerOp = AddOp(book: BookId, quantity: i32) | RemoveOp(book: BookId, quantity: i32)

  function Apply(l: Ledger, op: LedgerOp): Ledger {
    match op
    case AddOp(b, q) => AddToInventory(l, b, q)
    case RemoveOp(b, q) => RemoveFromInventory(l, b, q).ledger
  }

  /** The ledger after a series of calls, one at a time. */
  function Run(l: Ledger, ops: seq<LedgerOp>): Ledger
    decreases |ops|
  {
    if ops == [] then l else Run(Apply(l, ops[0]), ops[1..])
  }

  /** No addition in the series overflows the stock it updates. */
  predicate NoOverflow(l: Ledger, ops: seq<LedgerOp>)
    decreases |ops|
  {
    ops == [] ||
    (&& (ops[0].AddOp? ==> Stock(l, ops[0].book) as int + ops[0].quantity as int <= MaxInt)
     && NoOverflow(Apply(l, ops[0]), ops[1..]))
  }

  /** For every series of non-negative, non-overflowing additions and removals,
      no stock level ever becomes negative. */
  lemma {:induction false} RunKeepsNonNegative(l: Ledger, ops: seq<LedgerOp>)
    requires NonNegative(l)
    requires forall i :: 0 <= i < |ops| ==> ops[i].quantity >= 0
    requires NoOverflow(l, ops)
    ensures NonNegative(Run(l, ops))
    decreases |ops|
  {
    if ops != [] {
      match ops[0] {
        case AddOp(b, q) => AddKeepsNonNegative(l, b, q);
        case RemoveOp(b, q) => RemoveKeepsNonNegative(l, b, q);
      }
      assert forall i :: 0 <= i < |ops[1..]| ==> ops[1..][i] == ops[i + 1];
      RunKeepsNonNegative(Apply(l, ops[0]), ops[1..]);
    }
  }
}
