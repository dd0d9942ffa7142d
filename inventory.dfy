/**
 * A catalog book and its stock counter (class `Book` of
 * CommandLineBookstore.py). Only `copies` is ever updated; the other
 * attributes are fixed once the book is created. Prices are whole cents.
 */
module Inventory {

  import opened Options

  /** Outcome of a stock withdrawal; `NotEnoughCopies` stands for the ValueError. */
  datatype Status = Success | NotEnoughCopies

  /**
   * The stock guard: withdrawing `quantity` from `copies` succeeds exactly
   * when the request does not exceed the stock, and then yields what is left.
   */
  function Withdraw(copies: int, quantity: int): (r: Option<int>)
    ensures r.Some? <==> quantity <= copies
    ensures r.Some? ==> r.value >= 0 && r.value + quantity == copies
    ensures r.Some? && quantity >= 0 ==> r.value <= copies
  {
    if quantity <= copies then Some(copies - quantity) else None
  }

  class Book {
    const isbn: string
    const title: string
    const author: string
    const price: int
    var copies: int

    constructor (isbn: string, title: string, author: string, price: int, copies: int)
      ensures this.isbn == isbn && this.title == title && this.author == author
      ensures this.price == price && this.copies == copies
    {
      this.isbn := isbn;
      this.title := title;
      this.author := author;
      this.price := price;
      this.copies := copies;
    }

    /**
     * Take `quantity` copies out of stock. On `NotEnoughCopies` the stock is
     * left as it was; on success it drops by exactly `quantity`.
     */
    method UpdateInventory(quantity: int) returns (status: Status)
      modifies this
      ensures status == Success <==> quantity <= old(copies)
      ensures status == Success ==> copies == old(copies) - quantity && copies >= 0
      ensures status == NotEnoughCopies ==> copies == old(copies)
    {
      if quantity <= copies {
        copies := copies - quantity;
        status := Success;
      } else {
        status := NotEnoughCopies;
      }
    }
  }
}
