/** The `ShoppingCart` class: an `ArrayList<Book>` compared by reference. */
module Cart {
  import opened Books

  type Cart = seq<BookId>

  /** The index of the first occurrence of `b`. */
  function IndexOf(c: Cart, b: BookId): (i: nat)
    requires b in c
    ensures i < |c| && c[i] == b
    ensures b !in c[..i]
  {
    if c[0] == b then 0 else 1 + IndexOf(c[1..], b)
  }

  /** `addBookToCart`: `List.add` appends at the end. */
  function AddBook(c: Cart, b: BookId): (r: Cart)
    ensures |r| == |c| + 1 && r[|c|] == b
    ensures r[..|c|] == c
  {
    c + [b]
  }

  /** `removeBookFromCart`: `List.remove(Object)` walks the list and drops the
      first element identical to `b`; it does nothing when the book is absent. */
  function RemoveBook(c: Cart, b: BookId): (r: Cart)
    ensures b !in c ==> r == c
    ensures b in c ==> |r| == |c| - 1
  {
    if c == [] then c
    else if c[0] == b then c[1..]
    else [c[0]] + RemoveBook(c[1..], b)
  }

  /** Removal cuts out exactly the first occurrence and keeps the rest in order. */
  lemma {:induction false} RemoveBookCutsFirstOccurrence(c: Cart, b: BookId)
    requires b in c
    ensures RemoveBook(c, b) == c[..IndexOf(c, b)] + c[IndexOf(c, b) + 1..]
  {
    if c[0] != b {
      var j := IndexOf(c[1..], b);
      RemoveBookCutsFirstOccurrence(c[1..], b);
      assert c[..j + 1] == [c[0]] + c[1..][..j];
      assert c[j + 2..] == c[1..][j + 1..];
    }
  }

  /** Removal takes away one copy of `b` and nothing else. */
  lemma {:induction false} RemoveBookMultiset(c: Cart, b: BookId)
    ensures multiset(RemoveBook(c, b)) == multiset(c) - multiset{b}
  {
    if c != [] {
      assert c == [c[0]] + c[1..];
      if c[0] != b {
        RemoveBookMultiset(c[1..], b);
        assert multiset([c[0]] + RemoveBook(c[1..], b)) == multiset{c[0]} + multiset(RemoveBook(c[1..], b));
      }
    }
  }

  /** The first occurrence is the only position holding `b` with no `b` before it. */
  lemma IndexOfUnique(c: Cart, b: BookId, i: nat)
    requires i < |c| && c[i] == b && b !in c[..i]
    ensures IndexOf(c, b) == i
  {
  }

  /** Removing a book just added to a cart that did not hold it restores the cart. */
  lemma RemoveUndoesAdd(c: Cart, b: BookId)
    requires b !in c
    ensures RemoveBook(AddBook(c, b), b) == c
  {
    var added := AddBook(c, b);
    IndexOfUnique(added, b, |c|);
    RemoveBookCutsFirstOccurrence(added, b);
    assert added[..|c|] == c;
  }

  /** When the cart already holds the book, removal takes the earlier copy,
      not the one just appended. */
  lemma RemoveTakesEarliestCopy(c: Cart, b: BookId)
    requires b in c
    ensures RemoveBook(AddBook(c, b), b) == AddBook(RemoveBook(c, b), b)
  {
    var added := AddBook(c, b);
    var i := IndexOf(c, b);
    assert added[..i] == c[..i];
    IndexOfUnique(added, b, i);
    RemoveBookCutsFirstOccurrence(c, b);
    RemoveBookCutsFirstOccurrence(added, b);
    assert added[i + 1..] == c[i + 1..] + [b];
  }
}
