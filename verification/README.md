# Bookstore order processing in Dafny

A model of the small in-memory bookstore in `Main.java`. It covers:

- **Accounts**: the `User` class. This is username and password validation, the username -> account directory, lookup, and the login check in `main`.
- **Books**: `Book` objects, compared by object identity.
- **Cart**: the `ShoppingCart` list.
- **Inventory**: the `InventoryManager` stock ledger.
- **Orders**: `Order` id assignment.
- **Checkout**: the two order tasks of `main`. Each debits the shared inventory inside `synchronized (inventoryManager)` with a short-circuit `&&`.

Everything is a pure function over immutable values. The static `users` map becomes a `Directory` value that is passed in and returned. The inventory is a `map<BookId, i32>`. Each `synchronized` call or block is one atomic step. Two order tasks on a thread pool therefore reduce to the two serial lock orders (`Schedule`).

Modules, one per file:

| module | file | models |
|---|---|---|
| `Wrappers` | wrappers.dfy | `Option` (for `null`) and `Result` (for thrown exceptions) |
| `JavaInt` | java_int.dfy | Java's 32-bit `int`, with explicit two's-complement wrap-around |
| `Accounts` | accounts.dfy | `User` |
| `Books` | books.dfy | `Book`, and allocation of fresh references |
| `Cart` | cart.dfy | `ShoppingCart` |
| `Inventory` | inventory.dfy | `InventoryManager` |
| `Orders` | orders.dfy | `Order` and its static id counter |
| `Checkout` | checkout.dfy | the fulfilment blocks and the seeded run of `main` |

Modelling decisions:

- **Integer width.** Stock levels, quantities and the order counter are Java `int`s. They are modelled as `i32` values with `Plus`/`Minus` wrapping modulo 2^32. So `addToInventory` can overflow into a negative stock, exactly as the Java code would.
- **Book identity.** `Book` overrides neither `equals` nor `hashCode`. The `HashMap` keys and `List.remove` therefore compare books by reference. A book is modelled as an opaque `BookId` reference, and two books with equal title and author are still different keys. A value-equality reading of book identity on (title, author) would disagree with the code; the model follows the code.
- **Credential patterns.** Each regex is modelled from its structure: an anchored repetition of a character class, and `(?=.*k)` lookaheads. The plain-language characterisation is proved as a lemma. `.` excludes Java's line terminators: `\n`, `\r`, U+0085, U+2028 and U+2029. A Dafny `char` is a Unicode scalar value, so `|s|` counts code points, the same unit the regex's `{6,}` counts.
- **Fulfilment.** `Fulfil(ledger, items)` debits one copy per item in order and stops at the first failure. It never restores copies already debited. The hard-coded blocks at lines 212 and 226 are proved equal to `Fulfil` on `[book1, book2]` and `[book1]`.

## Model

| member | source | states |
|---|---|---|
| `Accounts.UsernameCharacterization` | Main.java:29-33 | the username pattern accepts exactly the strings of 3 to 20 characters, each an ASCII letter, digit, `_` or `-` |
| `Accounts.PasswordCharacterization` | Main.java:35-39 | the password pattern accepts exactly the strings of at least 6 characters with no line terminator, at least one ASCII digit and at least one ASCII letter |
| `Accounts.ScanUsername` | Main.java:32 | a single left-to-right pass returns true exactly when the username pattern matches |
| `Accounts.ScanPassword` | Main.java:38 | a single pass that stops at a line terminator and tracks digit/letter sightings returns true exactly when the password pattern matches |
| `Accounts.CredentialExamples` | Main.java:29-39 | "ab" and "user!" are rejected and "user_1-2" accepted as usernames; "abc123" is accepted and "abcdef", "a1" and a password ending in a newline are rejected |
| `Accounts.GetUser` | Main.java:41-43 | lookup yields the stored account exactly when the name is registered, and `null` (`None`) otherwise |
| `Accounts.Register` | Main.java:15-27 | a bad username fails with `InvalidUsername` before the password is looked at, and a bad password then fails with `InvalidPassword`; on failure the directory is unchanged; on success the new account is found under its name, every other name resolves as before, and directory well-formedness is preserved |
| `Accounts.CheckPassword` | Main.java:49-51 | the password check is exact, case-sensitive equality with the stored password |
| `Accounts.Authenticate` | Main.java:195-196 | login succeeds exactly when the name is registered and the stored password equals the supplied one, and it returns that stored account |
| `Accounts.RegisterThenAuthenticate` | Main.java:24-26 | after a successful registration the new credentials log in, any other password for that name is refused, and logins under other names are unaffected |
| `Accounts.ReRegistrationReplaces` | Main.java:26 | registering a name a second time replaces the first account: the first password no longer logs in and the second does |
| `Accounts.FailedRegistrationKeepsLogins` | Main.java:16-22 | a registration that throws changes no login outcome at all |
| `Accounts.AliceScenario` | Main.java:195-196 | a registered ("alice", "secret1") logs in with "secret1" and not with "wrong" |
| `Books.NewBook` | Main.java:61-66 | a new book gets a reference no earlier book has, whatever its fields |
| `Books.EqualFieldsDistinctBooks` | Main.java:55-66 | two books constructed with identical fields are different books |
| `Cart.AddBook` | Main.java:93-95 | adding appends exactly one element at the end and keeps the earlier elements |
| `Cart.RemoveBook` | Main.java:97-99 | removal of an absent book is a no-op, and removal of a present book shortens the cart by exactly one |
| `Cart.RemoveBookCutsFirstOccurrence` | Main.java:97-99 | removal deletes exactly the first occurrence and keeps the other elements in order |
| `Cart.RemoveBookMultiset` | Main.java:97-99 | removal takes away one copy of the book and no other element |
| `Cart.RemoveUndoesAdd` | Main.java:93-99 | removing a book just added to a cart that lacked it gives back the original cart |
| `Cart.RemoveTakesEarliestCopy` | Main.java:93-99 | when the cart already holds the book, add-then-remove drops the earlier copy, not the newly appended one |
| `Inventory.Stock` | Main.java:128-130 | a book absent from the inventory has stock 0; a present one has its stored stock |
| `Inventory.AddToInventory` | Main.java:114-117 | the book's stock becomes its old stock (0 when absent) plus the quantity in `int` arithmetic; no other book's stock changes and the book becomes a key |
| `Inventory.RemoveFromInventory` | Main.java:119-126 | the call returns true exactly when the stock is at least the quantity; then only that book's stock drops, by exactly the quantity when it is non-negative; otherwise the ledger is unchanged |
| `Inventory.AddKeepsNonNegative` | Main.java:114-117 | a non-negative quantity that does not overflow keeps every stock non-negative and adds exactly the quantity |
| `Inventory.RemoveKeepsNonNegative` | Main.java:119-126 | removing a non-negative quantity never drives any stock negative |
| `Inventory.AddCanWrapNegative` | Main.java:116 | adding 1 to a stock of 2147483647 yields -2147483648 |
| `Inventory.RunKeepsNonNegative` | Main.java:114-126 | every series of non-negative, non-overflowing adds and removes keeps all stock levels non-negative |
| `Orders.NewOrder` | Main.java:150-154 | a new order carries the current counter as its id, the given user and books, and the counter advances by one (wrapping at the `int` limit) |
| `Orders.NewOrders` | Main.java:144-151 | orders created one after another keep their requests' users and books; the i-th gets id counter+i and the counter ends at counter+n, both taken modulo 2^32 as a Java `int` for every input, and exactly those values while counter+n does not exceed `Integer.MAX_VALUE` |
| `Orders.NewOrdersIdsIncrease` | Main.java:151 | while counter+n does not exceed `Integer.MAX_VALUE`, ids of orders created one after another strictly increase |
| `Orders.MainOrderIds` | Main.java:144-151 | starting from the counter's initial value 1, the first order constructed gets id 1, the second id 2, and the counter is left at 3 |
| `Orders.TwoOrdersDistinctIds` | Main.java:151 | for every counter value, in either construction order, the two orders of `main` get different ids and the counter advances by two modulo 2^32 (exactly two when that does not pass `Integer.MAX_VALUE`) |
| `Orders.RacyIncrementDuplicatesId` | Main.java:151 | with the read and write of `orderCounter++` interleaved across the two tasks, both orders get the same id and one increment is lost |
| `Orders.RacySerialMatchesNewOrder` | Main.java:151 | when each task's read and write are adjacent, the racy counter gives the same ids and final counter as two atomic `NewOrder` calls |
| `Checkout.Fulfil` | Main.java:211-218 | fulfilment succeeds exactly when every item was debited; a failure on the first item leaves the ledger as it was |
| `Checkout.FulfilStock` | Main.java:212 | after fulfilment each book's stock is its old stock less its number of occurrences among the debited prefix; later items are untouched and earlier debits stay |
| `Checkout.FulfilCovered` | Main.java:212 | every debited book had at least as many copies as the prefix debited from it |
| `Checkout.FulfilKeepsNonNegative` | Main.java:119-126 | an order's debits never drive any stock of a non-negative ledger below zero |
| `Checkout.FulfilStopsAtEmpty` | Main.java:212 | when fulfilment stops early, the item it stopped at had no copy left after the earlier debits |
| `Checkout.FulfilSucceedsIff` | Main.java:211-218 | an order succeeds exactly when, for every book it lists, the ledger holds at least as many copies as the order lists |
| `Checkout.FirstFailureTouchesNothing` | Main.java:212 | when the first debit fails, nothing is debited and the ledger is returned unchanged |
| `Checkout.FailureKeepsEarlierDebits` | Main.java:212-216 | a failed order's ledger equals the ledger of a successful order for just the items before the failure, so there is no rollback |
| `Checkout.FulfilOne` | Main.java:226 | one-item fulfilment debits the book iff it has a copy, else changes nothing |
| `Checkout.FulfilTwo` | Main.java:212 | two-item fulfilment is the short-circuit `&&` of two debits: the second is attempted only after the first succeeds, and the first stays debited if the second fails |
| `Checkout.BlocksAreFulfil` | Main.java:211-232 | the two hard-coded `synchronized` blocks report and leave exactly what `Fulfil` does on `[book1, book2]` and `[book1]` |
| `Checkout.RunOrders` | Main.java:207-233 | in either lock order, each book's final stock is its initial stock less the copies debited by the two orders together: no update is lost |
| `Checkout.RunOrdersWithinStock` | Main.java:207-233 | in either lock order, the two orders together take no more copies of any book than the ledger held before them |
| `Checkout.RunOrdersKeepsNonNegative` | Main.java:207-233 | in either lock order, a ledger with no negative stock still has none after both orders |
| `Checkout.LastCopyGoesOnce` | Main.java:207-233 | with one copy of `book1`, either lock order debits it exactly once, leaving 0, and never both orders succeed. If the second task goes first it succeeds and `book2` is untouched. If the first task goes first it succeeds iff `book2` is in stock, and otherwise `book1` is still consumed |
| `Checkout.SingleCopyTwoBuyers` | Main.java:225-232 | two one-copy orders for a single-copy book: the first succeeds, the second fails, and stock ends at 0 |
| `Checkout.SerialBothSucceed` | Main.java:211-232 | two orders run back to back both succeed when the ledger covers their books together, and the final stock is the initial stock less the combined counts |
| `Checkout.SerialOrdersCommute` | Main.java:211-232 | two jointly covered orders succeed in either lock order and leave identical ledgers |
| `Checkout.EnoughStockBothSucceed` | Main.java:207-233 | with two copies of `book1` and one of `book2`, both orders succeed in either lock order, with the same final ledger, two `book1` and one `book2` fewer |
| `Checkout.Session` | Main.java:194-207 | `main` exits before placing any order exactly when the login check fails |
| `Checkout.MainAccounts` | Main.java:170-171 | the two seeded accounts pass validation |
| `Checkout.MainSetup` | Main.java:167-183 | the seeded books are distinct, the carts hold exactly the books the blocks debit, and the inventory holds 50 and 30 copies |
| `Checkout.MainLogin` | Main.java:187-203 | the login gate admits exactly ("user1", "password1") and ("user2", "password2") |
| `Checkout.MainScenario` | Main.java:166-236 | end to end: a failed login places no order; after a successful one, both orders succeed under either lock order, leaving 48 of `book1` and 29 of `book2` |

## Left out

- `Order.calculateTotal` and `Book.price` (Main.java:156-162): `double` arithmetic and its printing are not modelled, so order totals are not computed.
- `displayInventory` (Main.java:132-140) and every other `System.out` line: output only, in `HashMap` iteration order, which Java leaves unspecified. The success/failure report of each block survives as `Report.success` / `Fulfilment.fulfilled`.
- Console input, `Scanner` and `System.exit` (Main.java:187-205): the username and password read from standard input are parameters of `Checkout.Session`, and the exit is the `Exited` result.
- `ExecutorService` and thread interleaving (Main.java:185, 207-235): each `synchronized` block is one atomic step, and only the two serial lock orders are modelled. The unsynchronised `orderCounter++` is the one exception; it is modelled step by step (see Findings).
- `Order` construction and lock order are modelled separately: `Orders` covers ids, and `Checkout.RunOrders` covers the ledger. Their joint interleavings are not enumerated.
- `ShoppingCart.getCartItems` hands the live list to `new Order` rather than a copy. `main` never changes a cart afterwards, so an order's books are modelled as a value.
- Getters (`getUsername`, `getTitle`, `getAuthor`, `getPrice`, `getStock`): field reads with nothing to state.
- Lone UTF-16 surrogates: a Dafny `char` is a Unicode scalar value, so strings holding an unpaired surrogate cannot be expressed.
- `Inventory.AddKeepsNonNegative`: the "stock stays non-negative" guarantee for additions holds only when the sum fits in an `int`, so the lemma requires that. `Inventory.AddCanWrapNegative` shows the requirement is necessary.
- `Inventory.Stock`: `getBookStock` (Main.java:128-130) is the one `InventoryManager` method that is not `synchronized`; it is modelled as an atomic read of the ledger. `main` never calls it, so no racy read arises.
- `Orders.NewOrdersIdsIncrease`: strict increase is stated only while the last id does not pass `Integer.MAX_VALUE`, because past it the ids wrap to negative values and the order breaks. `Orders.NewOrders` states the wrapped ids for all inputs.
- `Inventory.RunKeepsNonNegative`: requires, through `NoOverflow`, that no addition in the series overflows, for the same reason.

## Findings

| source | as written | input that shows it | evidently intended | confidence | as-written member | corrected member |
|---|---|---|---|---|---|---|
| Main.java:151 | `orderId = orderCounter++` updates a static `int` outside any lock, and both pool tasks run it (Main.java:208 and 222); the read and the write-back are separate steps | both tasks read the counter (1) before either writes it back: steps task1-read, task2-read, task1-write, task2-write | every order gets a distinct, increasing id | medium; not executed; the window is narrow and depends on scheduling | `Orders.RacyIncrementDuplicatesId` | `Orders.NewOrder` (one atomic step; `Orders.TwoOrdersDistinctIds` and `Orders.NewOrdersIdsIncrease` prove distinct, increasing ids) |
