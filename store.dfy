/**
 * The store (class `Store` of CommandLineBookstore.py): an ordered catalog
 * of books, a case-insensitive search over it, and checkout, which applies
 * a cart's entries to the shared books one at a time and is not atomic.
 */
module Stores {

  import opened Options
  import opened Text
  import opened Inventory
  import opened Carts

  // ---------------------------------------------------------------- search

  /** The lowercased term occurs in the lowercased ISBN, title or author. */
  predicate Matches(b: Book, term: string)
    ensures Matches(b, term) <==>
      Occurs(Lower(term), Lower(b.isbn)) ||
      Occurs(Lower(term), Lower(b.title)) ||
      Occurs(Lower(term), Lower(b.author))
    ensures term == [] ==> Matches(b, term)
  {
    var t := Lower(term);
    ContainsIffOccurs(Lower(b.isbn), t);
    ContainsIffOccurs(Lower(b.title), t);
    ContainsIffOccurs(Lower(b.author), t);
    Contains(Lower(b.isbn), t) || Contains(Lower(b.title), t) || Contains(Lower(b.author), t)
  }

  /** The books of `catalog` that match `term`, in catalog order. */
  function Search(catalog: seq<Book>, term: string): (r: seq<Book>)
    ensures |r| <= |catalog|
    ensures forall j :: 0 <= j < |r| ==> r[j] in catalog && Matches(r[j], term)
    ensures forall i :: 0 <= i < |catalog| && Matches(catalog[i], term) ==> catalog[i] in r
  {
    if catalog == [] then []
    else
      var init, last := catalog[..|catalog| - 1], catalog[|catalog| - 1];
      assert catalog == init + [last];
      Search(init, term) + (if Matches(last, term) then [last] else [])
  }

  /** The catalog positions that match `term`, in increasing order. */
  function Positions(catalog: seq<Book>, term: string): (p: seq<nat>)
    ensures forall j :: 0 <= j < |p| ==> p[j] < |catalog|
    ensures forall j, k :: 0 <= j < k < |p| ==> p[j] < p[k]
    ensures forall i :: 0 <= i < |catalog| ==> (Matches(catalog[i], term) <==> i in p)
  {
    if catalog == [] then []
    else
      var n := |catalog| - 1;
      var p := Positions(catalog[..n], term);
      assert forall i :: 0 <= i < n ==> catalog[..n][i] == catalog[i];
      p + (if Matches(catalog[n], term) then [n] else [])
  }

  /**
   * Search is an order-preserving filter: its j-th result is the catalog
   * book at the j-th matching position.
   */
  lemma {:induction false} SearchPicksPositions(catalog: seq<Book>, term: string)
    ensures |Search(catalog, term)| == |Positions(catalog, term)|
    ensures forall j :: 0 <= j < |Search(catalog, term)| ==>
              Search(catalog, term)[j] == catalog[Positions(catalog, term)[j]]
  {
    if catalog != [] {
      var n := |catalog| - 1;
      var init := catalog[..n];
      SearchPicksPositions(init, term);
      var r, p := Search(catalog, term), Positions(catalog, term);
      var r0, p0 := Search(init, term), Positions(init, term);
      var m := Matches(catalog[n], term);
      assert r == r0 + (if m then [catalog[n]] else []);
      assert p == p0 + (if m then [n] else []);
      forall j | 0 <= j < |r0| ensures r[j] == catalog[p[j]] {
        assert r[j] == r0[j] == init[p0[j]];
      }
    }
  }

  /** An empty term matches every book, so the whole catalog comes back. */
  lemma {:induction false} SearchEmptyTerm(catalog: seq<Book>)
    ensures Search(catalog, "") == catalog
  {
    if catalog != [] {
      var n := |catalog| - 1;
      SearchEmptyTerm(catalog[..n]);
      assert Matches(catalog[n], "");
      assert Search(catalog, "") == Search(catalog[..n], "") + [catalog[n]];
      assert catalog[..n] + [catalog[n]] == catalog;
    }
  }

  /** Search ignores the case of the term. */
  lemma {:induction false} SearchIgnoresCase(catalog: seq<Book>, term: string)
    ensures Search(catalog, Lower(term)) == Search(catalog, term)
  {
    LowerIdempotent(term);
    if catalog != [] {
      SearchIgnoresCase(catalog[..|catalog| - 1], term);
    }
  }

  /** Searching after appending a book: the new book comes last, if it matches. */
  lemma SearchAppend(catalog: seq<Book>, b: Book, term: string)
    ensures Search(catalog + [b], term) ==
              Search(catalog, term) + (if Matches(b, term) then [b] else [])
  {
    assert (catalog + [b])[..|catalog|] == catalog;
  }

  // -------------------------------------------------------------- checkout

  /** The books a list of cart entries refers to. */
  function BooksOf(entries: seq<Entry>): set<Book>
  {
    set i | 0 <= i < |entries| :: entries[i].book
  }

  /** Every entry's book has a stock figure. */
  predicate Covers(entries: seq<Entry>, stock: map<Book, int>)
  {
    forall i :: 0 <= i < |entries| ==> entries[i].book in stock
  }

  /** The current stock of every book in the entries. */
  function Stock(entries: seq<Entry>): map<Book, int>
    reads BooksOf(entries)
  {
    map b | b in BooksOf(entries) :: b.copies
  }

  /** Every entry's book has a figure in the stock snapshot, and it is the book's current copies. */
  lemma StockFacts(entries: seq<Entry>)
    ensures Covers(entries, Stock(entries))
    ensures forall b :: b in Stock(entries) ==> Stock(entries)[b] == b.copies
  {
  }

  /** Total quantity the entries ask of book `b`. */
  function Demand(entries: seq<Entry>, b: Book): int
  {
    if entries == [] then 0
    else
      var last := entries[|entries| - 1];
      Demand(entries[..|entries| - 1], b) + (if last.book == b then last.quantity else 0)
  }

  /**
   * Entry `k` can be withdrawn once entries 0..k-1 have been: its book's
   * stock, less what the earlier entries took, covers its quantity.
   */
  predicate Fits(entries: seq<Entry>, stock: map<Book, int>, k: nat)
    requires k < |entries| && Covers(entries, stock)
  {
    var e := entries[k];
    Withdraw(stock[e.book] - Demand(entries[..k], e.book), e.quantity).Some?
  }

  /** The first entry at or after `from` that does not fit, if any. */
  function FirstShortfallFrom(entries: seq<Entry>, stock: map<Book, int>, from: nat): (r: Option<nat>)
    requires from <= |entries| && Covers(entries, stock)
    ensures r.None? <==> forall k :: from <= k < |entries| ==> Fits(entries, stock, k)
    ensures r.Some? ==> from <= r.value < |entries| && !Fits(entries, stock, r.value) &&
                        forall k :: from <= k < r.value ==> Fits(entries, stock, k)
    decreases |entries| - from
  {
    if from == |entries| then None
    else if !Fits(entries, stock, from) then Some(from)
    else FirstShortfallFrom(entries, stock, from + 1)
  }

  /** The first entry checkout cannot withdraw, or None when all of them go through. */
  function FirstShortfall(entries: seq<Entry>, stock: map<Book, int>): (r: Option<nat>)
    requires Covers(entries, stock)
    ensures r.None? <==> forall k :: 0 <= k < |entries| ==> Fits(entries, stock, k)
    ensures r.Some? ==> r.value < |entries| && !Fits(entries, stock, r.value) &&
                        forall k :: 0 <= k < r.value ==> Fits(entries, stock, k)
  {
    FirstShortfallFrom(entries, stock, 0)
  }

  /** Demand of one more entry. */
  lemma DemandStep(entries: seq<Entry>, n: nat, b: Book)
    requires n < |entries|
    ensures Demand(entries[..n + 1], b) ==
              Demand(entries[..n], b) + (if entries[n].book == b then entries[n].quantity else 0)
  {
    assert entries[..n + 1][..n] == entries[..n];
  }

  /**
   * While every entry so far fits, no book's stock has gone negative
   * (provided none was negative to start with).
   */
  lemma {:induction false} FitsKeepStock(entries: seq<Entry>, stock: map<Book, int>, n: nat)
    requires n <= |entries| && Covers(entries, stock)
    requires forall b :: b in stock ==> stock[b] >= 0
    requires forall k :: 0 <= k < n ==> Fits(entries, stock, k)
    ensures forall b :: b in stock ==> stock[b] - Demand(entries[..n], b) >= 0
  {
    if n > 0 {
      FitsKeepStock(entries, stock, n - 1);
      assert Fits(entries, stock, n - 1);
      forall b | b in stock ensures stock[b] - Demand(entries[..n], b) >= 0 {
        DemandStep(entries, n - 1, b);
      }
    }
  }

  /** With non-negative quantities, a prefix never asks more than the whole list. */
  lemma {:induction false} DemandPrefix(entries: seq<Entry>, n: nat, b: Book)
    requires n <= |entries|
    requires forall i :: 0 <= i < |entries| ==> entries[i].quantity >= 0
    ensures Demand(entries[..n], b) <= Demand(entries, b)
    decreases |entries| - n
  {
    if n < |entries| {
      DemandStep(entries, n, b);
      DemandPrefix(entries, n + 1, b);
    } else {
      assert entries[..n] == entries;
    }
  }

  /**
   * With non-negative stock and quantities, checking the entries one at a
   * time is the same as checking each book's total demand against its stock.
   */
  lemma ShortfallIffOverDemand(entries: seq<Entry>, stock: map<Book, int>)
    requires Covers(entries, stock)
    requires forall b :: b in stock ==> stock[b] >= 0
    requires forall i :: 0 <= i < |entries| ==> entries[i].quantity >= 0
    ensures FirstShortfall(entries, stock).None? <==>
              forall b :: b in stock ==> Demand(entries, b) <= stock[b]
  {
    if FirstShortfall(entries, stock).None? {
      FitsKeepStock(entries, stock, |entries|);
      assert entries[..|entries|] == entries;
    } else {
      var k := FirstShortfall(entries, stock).value;
      var b := entries[k].book;
      DemandStep(entries, k, b);
      DemandPrefix(entries, k + 1, b);
    }
  }

  /** Each book's copies are its starting stock less what `done` asked of it. */
  ghost predicate Applied(stock: map<Book, int>, done: seq<Entry>)
    reads stock.Keys
  {
    forall b :: b in stock ==> b.copies == stock[b] - Demand(done, b)
  }

  /** The first entry that does not fit, after a run of entries that do, is the shortfall. */
  lemma ShortfallAt(entries: seq<Entry>, stock: map<Book, int>, i: nat)
    requires i < |entries| && Covers(entries, stock)
    requires forall k :: 0 <= k < i ==> Fits(entries, stock, k)
    requires !Fits(entries, stock, i)
    ensures FirstShortfall(entries, stock) == Some(i)
  {
  }

  class Store {
    var inventory: seq<Book>

    constructor ()
      ensures inventory == []
    {
      inventory := [];
    }

    /** Append a book to the catalog (no duplicate-ISBN check). */
    method AddBookToInventory(book: Book)
      modifies this
      ensures inventory == old(inventory) + [book]
    {
      inventory := inventory + [book];
    }

    /**
     * The catalog books whose ISBN, title or author contains the term,
     * ignoring case, in catalog order.
     */
    function SearchBook(term: string): (r: seq<Book>)
      reads this
      ensures forall j :: 0 <= j < |r| ==> r[j] in inventory && Matches(r[j], term)
      ensures forall i :: 0 <= i < |inventory| && Matches(inventory[i], term) ==> inventory[i] in r
      ensures var p := Positions(inventory, term);
        |r| == |p| && forall j :: 0 <= j < |r| ==> r[j] == inventory[p[j]]
    {
      SearchPicksPositions(inventory, term);
      Search(inventory, term)
    }

    /**
     * Withdraw every cart entry from its book, in cart order. If all succeed
     * the cart is emptied. Otherwise the first entry that does not fit stops
     * the walk: earlier withdrawals stay applied and the cart is untouched.
     */
    method Checkout(cart: Cart) returns (status: Status)
      requires cart.Valid()
      modifies cart, BooksOf(cart.books)
      ensures cart.Valid()
      ensures var entries, stock := old(cart.books), old(Stock(cart.books));
        match FirstShortfall(entries, stock)
        case None =>
          status == Success && cart.books == [] && cart.totalCost == 0 &&
          Applied(stock, entries)
        case Some(k) =>
          status == NotEnoughCopies && cart.books == entries &&
          cart.totalCost == old(cart.totalCost) &&
          Applied(stock, entries[..k])
    {
      var entries := cart.books;
      ghost var stock := Stock(entries);
      var i := 0;
      while i < |entries|
        invariant 0 <= i <= |entries|
        invariant cart.books == entries && cart.totalCost == old(cart.totalCost)
        invariant forall k :: 0 <= k < i ==> Fits(entries, stock, k)
        invariant Applied(stock, entries[..i])
      {
        var e := entries[i];
        var ok := e.book.UpdateInventory(e.quantity);
        if ok == NotEnoughCopies {
          ShortfallAt(entries, stock, i);
          return NotEnoughCopies;
        }
        forall b | b in stock
          ensures b.copies == stock[b] - Demand(entries[..i + 1], b)
        {
          DemandStep(entries, i, b);
        }
        i := i + 1;
      }
      assert entries[..i] == entries;
      cart.books := [];
      cart.totalCost := 0;
      status := Success;
    }
  }
}
