/**
 * The shopping cart (class `Cart` of CommandLineBookstore.py): an ordered
 * list of (book, quantity) entries that share the catalog's `Book` objects,
 * and a running total kept equal to the sum of the entries' costs.
 */
module Carts {

  import opened Inventory

  /** One cart line; `book` is the catalog's own object, not a copy. */
  datatype Entry = Entry(book: Book, quantity: int)

  /** What one entry costs, in cents. */
  function Cost(e: Entry): (r: int)
    ensures e.book.price >= 0 && e.quantity >= 0 ==> r >= 0
    ensures e.quantity == 0 ==> r == 0
  {
    e.book.price * e.quantity
  }

  /** The cost of a list of entries. */
  function Sum(entries: seq<Entry>): int
  {
    if entries == [] then 0 else Sum(entries[..|entries| - 1]) + Cost(entries[|entries| - 1])
  }

  /** A cart whose entries all have non-negative prices and quantities costs a non-negative amount. */
  lemma {:induction false} SumNonNegative(entries: seq<Entry>)
    requires forall i :: 0 <= i < |entries| ==> entries[i].book.price >= 0 && entries[i].quantity >= 0
    ensures Sum(entries) >= 0
  {
    if entries != [] {
      SumNonNegative(entries[..|entries| - 1]);
    }
  }

  /** Sum distributes over concatenation. */
  lemma {:induction false} SumConcat(a: seq<Entry>, b: seq<Entry>)
    ensures Sum(a + b) == Sum(a) + Sum(b)
    decreases |b|
  {
    if b != [] {
      var init, last := b[..|b| - 1], b[|b| - 1];
      assert a + b == (a + init) + [last];
      assert (a + b)[..|a + b| - 1] == a + init;
      SumConcat(a, init);
      calc {
        Sum(a + b);
        Sum(a + init) + Cost(last);
        Sum(a) + Sum(init) + Cost(last);
        Sum(a) + Sum(b);
      }
    } else {
      assert a + b == a;
    }
  }

  /** Deleting the entry at `i` takes exactly its cost off the sum. */
  lemma SumRemoveAt(s: seq<Entry>, i: nat)
    requires i < |s|
    ensures Sum(s[..i] + s[i + 1..]) == Sum(s) - Cost(s[i])
  {
    assert s == s[..i] + ([s[i]] + s[i + 1..]);
    SumConcat(s[..i], [s[i]] + s[i + 1..]);
    SumConcat([s[i]], s[i + 1..]);
    SumConcat(s[..i], s[i + 1..]);
    assert Sum([s[i]]) == Cost(s[i]) by {
      assert [s[i]][..0] == [];
    }
  }

  /** The entry's book carries the given ISBN. */
  predicate HasIsbn(e: Entry, isbn: string)
  {
    e.book.isbn == isbn
  }

  /** Index `i` holds the first entry whose book carries `isbn`. */
  predicate IsFirstMatch(s: seq<Entry>, isbn: string, i: nat)
  {
    i < |s| && HasIsbn(s[i], isbn) && forall j :: 0 <= j < i ==> !HasIsbn(s[j], isbn)
  }

  /** How many entries are for a book with the given ISBN. */
  function CountIsbn(s: seq<Entry>, isbn: string): nat
  {
    if s == [] then 0 else (if HasIsbn(s[0], isbn) then 1 else 0) + CountIsbn(s[1..], isbn)
  }

  /** Reference definition: delete the first entry with the ISBN, keep the rest in order. */
  function RemoveFirst(s: seq<Entry>, isbn: string): (r: seq<Entry>)
    ensures |r| == if CountIsbn(s, isbn) > 0 then |s| - 1 else |s|
    ensures multiset(r) <= multiset(s)
  {
    if s == [] then []
    else if HasIsbn(s[0], isbn) then assert s == [s[0]] + s[1..]; s[1..]
    else assert s == [s[0]] + s[1..]; [s[0]] + RemoveFirst(s[1..], isbn)
  }

  /** When index `i` holds the first match, RemoveFirst deletes exactly that entry. */
  lemma {:induction false} RemoveFirstAt(s: seq<Entry>, isbn: string, i: nat)
    requires IsFirstMatch(s, isbn, i)
    ensures RemoveFirst(s, isbn) == s[..i] + s[i + 1..]
  {
    if i > 0 {
      assert IsFirstMatch(s[1..], isbn, i - 1) by {
        forall j | 0 <= j < i - 1 ensures !HasIsbn(s[1..][j], isbn) {
          assert s[1..][j] == s[j + 1];
        }
      }
      RemoveFirstAt(s[1..], isbn, i - 1);
      assert s[1..][..i - 1] == s[1..i];
      assert s[1..][i..] == s[i + 1..];
      assert [s[0]] + s[1..i] == s[..i];
    }
  }

  /** With no matching entry, RemoveFirst leaves the list alone. */
  lemma {:induction false} RemoveFirstNone(s: seq<Entry>, isbn: string)
    requires forall j :: 0 <= j < |s| ==> !HasIsbn(s[j], isbn)
    ensures RemoveFirst(s, isbn) == s
  {
    if s != [] {
      RemoveFirstNone(s[1..], isbn);
    }
  }

  /**
   * Only the first match goes: the number of entries for `isbn` drops by one
   * (if there was any), and the count for every other ISBN is unchanged.
   */
  lemma {:induction false} RemoveFirstCounts(s: seq<Entry>, isbn: string, other: string)
    ensures CountIsbn(RemoveFirst(s, isbn), other) ==
      if other == isbn && CountIsbn(s, isbn) > 0 then CountIsbn(s, other) - 1
      else CountIsbn(s, other)
  {
    if s != [] && !HasIsbn(s[0], isbn) {
      RemoveFirstCounts(s[1..], isbn, other);
      assert ([s[0]] + RemoveFirst(s[1..], isbn))[1..] == RemoveFirst(s[1..], isbn);
    }
  }

  class Cart {
    var books: seq<Entry>
    var totalCost: int

    /** The running total equals the cost of the entries. */
    ghost predicate Valid()
      reads this
    {
      totalCost == Sum(books)
    }

    constructor ()
      ensures Valid()
      ensures books == [] && totalCost == 0
    {
      books := [];
      totalCost := 0;
    }

    /** Append one entry (never merged with an earlier one for the same book). */
    method AddBook(book: Book, quantity: int)
      requires Valid()
      modifies this
      ensures Valid()
      ensures books == old(books) + [Entry(book, quantity)]
      ensures totalCost == old(totalCost) + book.price * quantity
    {
      books := books + [Entry(book, quantity)];
      totalCost := totalCost + book.price * quantity;
      assert books[..|books| - 1] == old(books);
    }

    /**
     * Delete the first entry for `isbn` and take its cost off the total;
     * `found` is false (the "not found" notice) when there is none.
     */
    method RemoveBook(isbn: string) returns (found: bool)
      requires Valid()
      modifies this
      ensures Valid()
      ensures books == RemoveFirst(old(books), isbn)
      ensures found <==> exists i :: 0 <= i < |old(books)| && HasIsbn(old(books)[i], isbn)
      ensures found ==> exists i: nat :: IsFirstMatch(old(books), isbn, i) &&
                          books == old(books)[..i] + old(books)[i + 1..] &&
                          totalCost == old(totalCost) - Cost(old(books)[i])
      ensures !found ==> books == old(books) && totalCost == old(totalCost)
    {
      var i := 0;
      while i < |books| && books[i].book.isbn != isbn
        invariant 0 <= i <= |books|
        invariant forall j :: 0 <= j < i ==> !HasIsbn(books[j], isbn)
      {
        i := i + 1;
      }
      if i == |books| {
        RemoveFirstNone(books, isbn);
        found := false;
      } else {
        assert IsFirstMatch(books, isbn, i);
        RemoveFirstAt(books, isbn, i);
        SumRemoveAt(books, i);
        totalCost := totalCost - Cost(books[i]);
        books := books[..i] + books[i + 1..];
        found := true;
      }
    }

    /** The cart's total, which always equals the cost of its entries. */
    function CalculateTotal(): (r: int)
      reads this
      requires Valid()
      ensures r == Sum(books)
    {
      totalCost
    }
  }
}
