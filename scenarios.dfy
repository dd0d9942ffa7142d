/**
 * Client scenarios of the store as a user would drive it from the menu,
 * checked against the contracts of Cart and Store alone.
 */
module Scenarios {

  import opened Options
  import opened Inventory
  import opened Carts
  import opened Stores

  /** Buy three copies of a ten-copy book at 29.99. */
  method SinglePurchase()
  {
    var store := new Store();
    var book := new Book("1234567890", "Python Programming", "John Doe", 2999, 10);
    store.AddBookToInventory(book);
    var cart := new Cart();
    cart.AddBook(book, 3);
    assert cart.CalculateTotal() == 8997;
    ghost var entries := cart.books;
    ghost var stock := Stock(entries);
    StockFacts(entries);
    assert stock[book] == 10;
    assert Fits(entries, stock, 0) by {
      assert entries[..0] == [];
    }
    var status := store.Checkout(cart);
    assert entries[..1] == entries;
    assert status == Success && book.copies == 7;
    assert cart.books == [] && cart.CalculateTotal() == 0;
    assert store.inventory == [book];
  }

  /** Two separate entries for the same book are applied one after the other. */
  method RepeatedBook()
  {
    var store := new Store();
    var book := new Book("1234567890", "Python Programming", "John Doe", 2999, 10);
    store.AddBookToInventory(book);
    var cart := new Cart();
    cart.AddBook(book, 3);
    cart.AddBook(book, 5);
    assert |cart.books| == 2;
    ghost var entries := cart.books;
    ghost var stock := Stock(entries);
    StockFacts(entries);
    assert stock[book] == 10;
    assert entries[..0] == [] && entries[..1] == [Entry(book, 3)] && entries[..2] == entries;
    assert Fits(entries, stock, 0) && Fits(entries, stock, 1);
    var status := store.Checkout(cart);
    assert status == Success && book.copies == 2 && cart.books == [];
  }

  /** The second entry fails: the first one stays applied and the cart is kept. */
  method PartialCheckout()
  {
    var store := new Store();
    var python := new Book("1234567890", "Python Programming", "John Doe", 2999, 10);
    var ai := new Book("0987654321", "Learning AI", "Jane Smith", 3999, 1);
    store.AddBookToInventory(python);
    store.AddBookToInventory(ai);
    var cart := new Cart();
    cart.AddBook(python, 3);
    cart.AddBook(ai, 2);
    assert cart.totalCost == 3 * 2999 + 2 * 3999;
    ghost var entries := cart.books;
    assert entries == [Entry(python, 3), Entry(ai, 2)];
    ghost var stock := Stock(entries);
    StockFacts(entries);
    assert stock[python] == 10 && stock[ai] == 1;
    assert entries[..0] == [] && entries[..1] == [Entry(python, 3)];
    assert Demand(entries[..1], python) == 3 && Demand(entries[..1], ai) == 0 by {
      assert python != ai;
      assert entries[..1][..0] == [];
    }
    assert Fits(entries, stock, 0);
    assert !Fits(entries, stock, 1);
    ShortfallAt(entries, stock, 1);
    var status := store.Checkout(cart);
    assert status == NotEnoughCopies;
    assert python.copies == 7 && ai.copies == 1;
    assert cart.books == entries && cart.totalCost == 3 * 2999 + 2 * 3999;
  }
}
