# Command-line bookstore: a verified model

This project models the in-memory core of a small command-line bookstore,
written in Python. The core has three parts:

- A **Book** is a catalog record whose `copies` counter is the only field that ever changes.
  Withdrawing stock succeeds only when the request does not exceed the counter.
- A **Cart** is an ordered list of `(book, quantity)` entries with a running `total_cost`.
  Entries point to the catalog's own `Book` objects. Two entries for the same book are never merged.
- A **Store** is an ordered catalog. It has a case-insensitive substring search and a checkout.
  Checkout withdraws the cart's entries from their books one at a time, in cart order.

Checkout is not atomic. When an entry does not fit, the walk stops there.
Earlier withdrawals stay applied, and the cart keeps its entries and its total.

`Book`, `Cart` and `Store` are Dafny classes. Checkout's updates go through the
shared `Book` objects, so the catalog sees them too. Its `modifies` clause
names the cart and the books the cart refers to.

Checkout is specified against pure functions of the cart and of a snapshot of the stock:
- `Demand(entries, b)` is the quantity the entries ask of book `b`.
- `Fits(entries, stock, k)` says that entry `k` can be withdrawn after entries `0..k-1` have been.
- `FirstShortfall` is the first entry that does not fit, if there is one.

Files: `options.dfy` (Option), `text.dfy` (ASCII lowercasing and substring
containment), `inventory.dfy` (Book), `cart.dfy` (Cart), `store.dfy` (Store,
search, checkout), `scenarios.dfy` (client scenarios checked against the
contracts: a single purchase, a book in two entries, and a checkout that fails
part way).

The code restricts neither the sign of `quantity` nor the sign of `price`, so the model accepts any integer for both.
A negative quantity passed to `update_inventory` raises the stock.

## Model

| member | source | states |
|---|---|---|
| Text.LowerChar | CommandLineBookstore.py:64-66 | maps A-Z to a-z at the same alphabet offset, leaves every other character unchanged, and never yields an upper-case ASCII letter |
| Text.Lower | CommandLineBookstore.py:64-66 | lowercasing keeps the length, maps each character with the ASCII lowercase map, and leaves no upper-case letter |
| Text.LowerIdempotent | CommandLineBookstore.py:64-66 | lowercasing an already lowercased string changes nothing |
| Text.Contains | CommandLineBookstore.py:64-66 | the scan behind Python's `term in field`: true only when the term is no longer than the field, and always true for the empty term |
| Text.ContainsIffOccurs | CommandLineBookstore.py:64-66 | the substring test holds exactly when the term occurs at some position of the field |
| Inventory.Withdraw | CommandLineBookstore.py:13-16 | a withdrawal succeeds iff the quantity is at most the stock; what is left is the stock less the quantity, never negative, and no more than the stock for a non-negative quantity |
| Inventory.Book.constructor | CommandLineBookstore.py:3-9 | a new book holds exactly the given isbn, title, author, price and copies |
| Inventory.Book.UpdateInventory | CommandLineBookstore.py:11-16 | succeeds iff quantity <= copies, and then copies drops by exactly quantity and stays non-negative; otherwise reports not enough copies and leaves copies unchanged |
| Carts.Cost | CommandLineBookstore.py:32 | an entry costs price*quantity: never negative when price and quantity are not, and 0 for quantity 0 |
| Carts.SumNonNegative | CommandLineBookstore.py:43-45 | Sum, the cost of the entries that the total must always equal, is never negative when every entry's price and quantity are non-negative |
| Carts.SumConcat | CommandLineBookstore.py:31-32 | the cost of two lists of entries joined is the sum of their costs |
| Carts.SumRemoveAt | CommandLineBookstore.py:38-39 | deleting one entry takes exactly that entry's price*quantity off the cost of the list |
| Carts.RemoveFirst | CommandLineBookstore.py:34-41 | removal shortens the entries by one exactly when some entry has the ISBN, and never adds an entry |
| Carts.RemoveFirstAt | CommandLineBookstore.py:36-40 | when index i holds the first entry with the ISBN, removal deletes that entry alone and keeps the others in order |
| Carts.RemoveFirstNone | CommandLineBookstore.py:36-41 | when no entry has the ISBN, removal leaves the entries unchanged |
| Carts.RemoveFirstCounts | CommandLineBookstore.py:36-40 | only the first match goes: the number of entries for that ISBN drops by one and every other ISBN keeps its count |
| Carts.Cart.constructor | CommandLineBookstore.py:24-27 | a new cart is empty with total 0, which satisfies the total invariant |
| Carts.Cart.AddBook | CommandLineBookstore.py:29-32 | appends exactly one entry (book, quantity) after the existing ones, raises the total by price*quantity, and keeps total = sum of entry costs |
| Carts.Cart.RemoveBook | CommandLineBookstore.py:34-41 | reports found iff some entry has the ISBN; then deletes exactly the first such entry and subtracts its cost; otherwise entries and total are unchanged; the total invariant is kept |
| Carts.Cart.CalculateTotal | CommandLineBookstore.py:43-45 | the returned total equals the sum of price*quantity over the current entries |
| Stores.Matches | CommandLineBookstore.py:64-66 | a book matches iff the lowercased term occurs at some position of the lowercased ISBN, title or author; the empty term matches every book |
| Stores.Search | CommandLineBookstore.py:62-67 | every result is a catalog book that matches, every matching catalog book is among the results, and there are no more results than books |
| Stores.Positions | CommandLineBookstore.py:62-67 | the matching catalog positions, strictly increasing, containing exactly the positions whose book matches |
| Stores.SearchPicksPositions | CommandLineBookstore.py:62-67 | the j-th search result is the book at the j-th matching position, so search is an order-preserving filter |
| Stores.SearchEmptyTerm | CommandLineBookstore.py:62-67 | an empty term returns the whole catalog in order |
| Stores.SearchIgnoresCase | CommandLineBookstore.py:64-66 | searching for the lowercased term gives the same result as the term itself |
| Stores.SearchAppend | CommandLineBookstore.py:58-67 | after a book is appended to the catalog, search returns the old results followed by the new book if it matches |
| Stores.FirstShortfall | CommandLineBookstore.py:73-76 | none iff every entry fits when the entries are applied in order; otherwise the least index whose entry does not fit |
| Stores.FitsKeepStock | CommandLineBookstore.py:73-76 | while every entry so far has fitted, no book's stock has gone negative |
| Stores.ShortfallIffOverDemand | CommandLineBookstore.py:73-76 | with non-negative stock and quantities, checkout fails iff some book's total demand in the cart exceeds its stock |
| Stores.Store.constructor | CommandLineBookstore.py:54-56 | a new store has an empty catalog |
| Stores.Store.AddBookToInventory | CommandLineBookstore.py:58-60 | appends the book at the end of the catalog, with no duplicate check |
| Stores.Store.SearchBook | CommandLineBookstore.py:62-67 | returns catalog books exactly when their ISBN, title or author contains the term, ignoring case, and the j-th result is the book at the j-th matching catalog position (catalog order) |
| Stores.Store.Checkout | CommandLineBookstore.py:73-79 | on success every book's copies fall by the cart's total demand for it, and the cart ends empty with total 0; if entry k is the first that does not fit, only entries 0..k-1 are applied, and the cart's entries and total are unchanged |

## Left out

- `main` (the menu loop, `input`/`print`, `int()` parsing) is not modelled. This includes its stock check before adding to the cart. It is interactive I/O glue.
- `display_info`, `display_cart` and `display_books` are not modelled. They only format strings, and `display_info` uses Python's float formatting.
- The `print` calls in `remove_book` and `checkout` are not modelled as output. `RemoveBook` returns `found`, and `Checkout` returns a `Status`.
- Prices are integer cents rather than floats. The invariant that the total equals the sum of the entry costs holds only in exact arithmetic.
- Lowercasing maps the ASCII letters A-Z only, not the full Unicode `str.lower()`.
- The `ValueError` exception is modelled as the `NotEnoughCopies` status, so it is a value and is not propagated.
- `Book` attributes other than `copies` are constants. The code never reassigns them.
- Python lists are modelled as sequence-valued fields that the methods reassign. Aliasing of the list objects themselves is not modelled. Only the `Book` objects are shared.
