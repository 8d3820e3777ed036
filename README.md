# Game store order lifecycle, modelled in Dafny

This project models the data-handling core of a small Go web shop for digital
games. The shop keeps its state in SQLite. The model covers the following:

- **Startup bootstrap** (`InitDB`). It creates the five original tables
  `games`, `customers`, `purchases`, `purchase_items` and `library`, and the
  program stops at the first table it cannot create.
- **Schema repair** (`ensureSchema`). Before most requests it creates a missing
  `purchases`, `cart_items`, `purchase_items`, `comments` or `user_games` table.
  For a table that already exists, it adds the columns the handlers need with
  `ALTER TABLE … ADD COLUMN`.
- **The cart.** Adding a game is meant to merge it into the caller's existing
  line; the handler's first statement does not do so (see "## Findings"), and
  the model's handler is the update-then-insert merge. Removing works by cart
  line id, or else by game id.
- **Checkout.** In one transaction it snapshots the caller's cart (joined with
  `games`) into a new purchase and its line items, then clears the cart.
- **Payment.** In one transaction it marks the purchase paid and grants each
  bought game to the caller's library (`user_games`, `INSERT OR IGNORE`).
- **Comments.** The rating is normalised into 1..5. Only a comment's owner may
  delete or rewrite it.

## How the model is built

- **Tables.** Each table is a `Tables.Table<R>`: its rows in ascending id order,
  plus the last id handed out (SQLite's `AUTOINCREMENT` counter). Rows are
  never renumbered.
- **The database.** `Storage.Database` is a class with one such table per
  relation and a catalogue `schema` (table name to declared columns and
  `UNIQUE` keys).
- **Handlers.** Each handler is a method that updates the fields it writes and
  states its whole effect as one equality with a specification function
  (`CheckoutSpec`, `PaySpec`, `Merge`, `RemoveSpec`, `AddCommentSpec`, …).
  The lemmas state what those functions promise.
- **Statement failure.** SQLite rejects a statement that names a column the
  table does not have; the model checks every statement against the
  catalogue (`Schema.Accepts`). Other failures are fault parameters: of a
  transactional statement (`BEGIN`, one `INSERT`, `COMMIT`), of Pay's owner
  query, and of a comment handler's owner query or write. A `CREATE` or
  `ALTER` that fails is a member of a `failing` set.
- **Inputs.** The clock (`created_at`) and the signed-in user id are
  parameters. A form value that is empty or does not parse as an integer is
  `None`.
- **Money.** Amounts are integers in the currency's minor unit.

The handlers' source is `internal/handlers/handlers.go`. The bootstrap is in
`internal/storage/sqlite.go`.

## Model

| member | source | states |
|---|---|---|
| Storage.Database.Open | internal/storage/sqlite.go:10-13 | a freshly opened database file has an empty catalogue and every table empty |
| Storage.GamesDeclaration | internal/storage/sqlite.go:16-23 | `games` has exactly id, title, description, price and image_url; title and price are NOT NULL, description and image_url may be NULL |
| Storage.CustomersDeclaration | internal/storage/sqlite.go:30-35 | `customers` has exactly id, username and password; username is UNIQUE and NOT NULL, password is NOT NULL |
| Storage.LegacyPurchasesDeclaration | internal/storage/sqlite.go:42-49 | the bootstrap `purchases` table has id, customer_id, total and purchase_date, and lacks the user_id, created_at and paid columns the handlers use |
| Storage.LegacyPurchaseItemsDeclaration | internal/storage/sqlite.go:56-64 | the bootstrap `purchase_items` has id, purchase_id, game_id and quantity, and no price column |
| Storage.LibraryDeclaration | internal/storage/sqlite.go:71-80 | `library` has id, customer_id, game_id and purchase_id, and no user_id |
| Storage.CreateTable | internal/storage/sqlite.go:24-27 | a `CREATE TABLE IF NOT EXISTS` succeeds exactly when it does not fail; on success it adds the table only if it was absent, and on failure nothing changes |
| Storage.InitDB | internal/storage/sqlite.go:9-88 | the catalogue and the startup result are those of issuing the five CREATEs in order and stopping at the first failure |
| Storage.BootstrapKeepsExisting | internal/storage/sqlite.go:16-84 | the bootstrap never alters or drops a table that already exists |
| Storage.BootstrapOnlyCreates | internal/storage/sqlite.go:16-84 | every table the bootstrap adds is one of the declared tables, with exactly its declaration |
| Storage.BootstrapOutcome | internal/storage/sqlite.go:24-84 | startup is Ready if and only if no CREATE fails; a Fatal names the first failing table, and no table from that one on is created unless it existed already |
| Storage.BootstrapRerun | internal/storage/sqlite.go:16-84 | re-running the bootstrap on a database that has all its tables changes nothing |
| Storage.InitDBOnNewFile | internal/storage/sqlite.go:9-88 | on a new file the bootstrap yields exactly the five declared tables and Ready |
| Migration.TableExists | internal/handlers/handlers.go:106-114 | the probe answers true exactly when the table is in the catalogue and the probe query did not fail |
| Migration.HasColumn | internal/handlers/handlers.go:117-135 | the column scan answers true exactly when the table exists and declares a column of that name |
| Migration.EnsureTableStep | internal/handlers/handlers.go:137-173 | one table's repair block: create it when the probe says it is missing, otherwise ALTER in each wanted column it lacks, in declaration order |
| Migration.EnsureSchema | internal/handlers/handlers.go:100-311 | the catalogue after `ensureSchema` is the five repair blocks applied in source order |
| Migration.AddMissingAppends | internal/handlers/handlers.go:152-172 | ALTERs only append columns: existing columns stay in place, and every new name is one the block asks for |
| Migration.AddMissingCovers | internal/handlers/handlers.go:152-172 | when none of a block's ALTERs fails, every wanted column is present afterwards |
| Migration.AddMissingNoop | internal/handlers/handlers.go:152-172 | a table that already has every wanted column is left exactly as it was |
| Migration.AddMissingSkips | internal/handlers/handlers.go:163-167 | a column whose ALTER fails is still missing after the block |
| Migration.EnsureTableExtends | internal/handlers/handlers.go:137-173 | a repair block only adds (no table or column disappears), touches no other table, and introduces no table but its own |
| Migration.EnsureTableCovers | internal/handlers/handlers.go:137-173 | without failures, a repair block leaves its table present with every column it asks for |
| Migration.EnsureAllExtends | internal/handlers/handlers.go:137-310 | a run of repair blocks only adds, leaves every unnamed table as it was, and introduces only the tables it names |
| Migration.EnsureAllConverges | internal/handlers/handlers.go:137-310 | without failures, a run of repair blocks leaves every named table present with all of its wanted columns |
| Migration.EnsureAllNoop | internal/handlers/handlers.go:137-310 | on a converged catalogue a run of repair blocks changes nothing, whatever fails |
| Migration.EnsureSchemaAdditive | internal/handlers/handlers.go:100-311 | `ensureSchema` is additive, and it leaves tables other than its five unchanged (games, customers, library) |
| Migration.EnsureSchemaConverges | internal/handlers/handlers.go:100-311 | without failures, `ensureSchema` brings all five tables to the columns the handlers use |
| Migration.EnsureSchemaIdempotent | internal/handlers/handlers.go:100-311 | once `ensureSchema` has succeeded, later calls change nothing even if their statements fail |
| Migration.UserGamesUnique | internal/handlers/handlers.go:286-310 | `user_games` carries UNIQUE(user_id, game_id) when `ensureSchema` creates it; a pre-existing table keeps its own unique keys |
| Migration.EnsureAllSplit | internal/handlers/handlers.go:137-310 | running the blocks in two consecutive parts is the same as running them all at once |
| Cart.NormalizeQuantity | internal/handlers/handlers.go:718-723 | the quantity is at least 1: a positive parsed value is kept, and a missing, unparsable or non-positive one becomes 1 |
| Cart.AddToCart | internal/handlers/handlers.go:696-741 | the caller is redirected to login when signed out, and home on a non-POST request or a bad id; otherwise the game is merged into the cart and the caller is redirected to the cart; the schema is repaired first |
| Cart.MergeAddsQuantity | internal/handlers/handlers.go:731-738 | an add raises the caller's quantity for the game by qty once per existing line, or inserts one line of qty when there is none; only that insert adds a row |
| Cart.MergeKeepsUnique | internal/handlers/handlers.go:731-738 | with at most one line per (user, game), an add keeps that so, leaves exactly one line for the pair whose quantity grew by qty, leaves all other lines in place, and adds a row only when the pair had none |
| Cart.MergeKeepsOthers | internal/handlers/handlers.go:734-737 | an add never changes another user's cart lines |
| Cart.MergeKeepsPositive | internal/handlers/handlers.go:718-737 | if every quantity is positive, an add with a positive quantity keeps it so |
| Cart.AddTwiceMerges | internal/handlers/handlers.go:731-738 | adding q1 and then q2 of a game not yet in the cart gives one line of q1 + q2 |
| Cart.QuantityChange | internal/handlers/handlers.go:734 | the UPDATE raises the pair's total quantity by qty for every row it hits |
| Cart.AddAsWritten | internal/handlers/handlers.go:726-730 | the `ON CONFLICT(rowid) DO NOTHING` insert as written: it always appends a fresh row and keeps the table well formed |
| Cart.AddAsWrittenDuplicates | internal/handlers/handlers.go:726-730 | under the insert as written, adding the same game twice leaves two more lines for the pair, so the one-line-per-pair rule breaks |
| Cart.RemoveFromCart | internal/handlers/handlers.go:1115-1160 | the caller is redirected to login when signed out; otherwise the removal is by cart id when that is a positive integer, else by game id, and the caller is always redirected to the cart |
| Cart.RemoveScoped | internal/handlers/handlers.go:1128-1158 | a removal only deletes rows, only the caller's, and never reuses ids |
| Cart.RemoveByIdAtMostOne | internal/handlers/handlers.go:1128-1137 | removal by cart id deletes at most one row: the caller's row with that id, if any; every other row stays |
| Cart.RemoveByGameClears | internal/handlers/handlers.go:1141-1158 | removal by game id leaves no line of the caller for that game and keeps every other line |
| Orders.Checkout | internal/handlers/handlers.go:835-903 | the response, the purchases, the purchase items and the cart after a checkout are those the transaction specification gives; the schema is repaired first |
| Orders.Transact | internal/handlers/handlers.go:836-902 | the transaction body computes the outcome that the checkout specification gives, for every fault |
| Orders.ScanCart | internal/handlers/handlers.go:855-868 | the scan loop keeps every joined line, in order, and sums price times quantity over them |
| Orders.InsertItems | internal/handlers/handlers.go:882-890 | the item loop succeeds exactly when there is nothing to insert, or every INSERT is accepted and none fails; on success it appends one item per line |
| Orders.JoinCartSound | internal/handlers/handlers.go:843-848 | every joined line comes from one of the caller's cart rows and the game row with the same id, with that game's price and the row's quantity |
| Orders.JoinCartComplete | internal/handlers/handlers.go:843-848 | when every cart row of the caller names an existing game, the join yields one line per such row |
| Orders.JoinCartOwnRows | internal/handlers/handlers.go:843-848 | a caller with no cart rows gets no lines |
| Orders.JoinCartOrphans | internal/handlers/handlers.go:843-848 | cart rows whose game no longer exists contribute no lines |
| Orders.ItemsOfTotal | internal/handlers/handlers.go:882-883 | the line items written for a purchase add up to the total recorded on it |
| Orders.ClearCartScoped | internal/handlers/handlers.go:892 | clearing the cart removes every line of the caller and keeps every other user's line |
| Orders.CheckoutCommitted | internal/handlers/handlers.go:855-903 | a committed checkout appends one unpaid purchase with the cart total and the given time, then one item per cart line with its price and quantity; the items sum to the total; purchases stay linked to items; the caller's cart is emptied and the others' kept; the caller is sent to pay the new purchase |
| Orders.CommittedItems | internal/handlers/handlers.go:881-890 | the appended items follow the old ones unchanged, carry the new purchase id and each line's values, and sum to the cart total |
| Orders.CheckoutEmptyCart | internal/handlers/handlers.go:869-873 | with nothing purchasable in the cart, no table changes; the caller goes back to the cart, or gets a server error if the cart could not be read |
| Orders.CheckoutRollsBack | internal/handlers/handlers.go:836-902 | when any statement of the transaction fails, no table changes and the caller is not sent to pay |
| Payment.PayTargetOwned | internal/handlers/handlers.go:910-926 | Pay proceeds with a purchase id exactly when the id parses, is not 0, the owner query is valid, and a purchase with that id belongs to the caller |
| Payment.ItemGames | internal/handlers/handlers.go:951-960 | the selected games are exactly those on the purchase's items: each one comes from an item, and every item's game is included |
| Payment.GrantLoop | internal/handlers/handlers.go:958-964 | the grant loop inserts the games in order, with the effect of the grant specification |
| Payment.PayTransact | internal/handlers/handlers.go:938-969 | the transaction body computes the outcome that the payment specification gives, for every fault |
| Payment.Pay | internal/handlers/handlers.go:907-970 | when the guard rejects or its owner query fails, the caller is redirected to the purchases page and nothing changes; otherwise the response, the purchases and the library follow the payment specification; the schema is repaired first |
| Payment.GrantAppends | internal/handlers/handlers.go:962 | granting only appends rows, at most one per game, each for the caller and one of the granted games |
| Payment.GrantCovers | internal/handlers/handlers.go:958-964 | after granting, the caller holds every granted game |
| Payment.GrantKeepsDistinct | internal/handlers/handlers.go:962 | with UNIQUE(user_id, game_id), granting never creates a duplicate pair |
| Payment.GrantHeldIsNoop | internal/handlers/handlers.go:962 | with the unique key, granting games the caller already holds changes nothing |
| Payment.GrantIdempotent | internal/handlers/handlers.go:958-964 | with the unique key, granting the same games twice is the same as granting them once |
| Payment.GrantWithoutUnique | internal/handlers/handlers.go:962 | on a `user_games` table without the unique key, every grant appends a row, duplicates included |
| Payment.MarkPaidEffect | internal/handlers/handlers.go:944 | marking paid sets `paid` on the rows with that id only, keeps ids and length, and is idempotent |
| Payment.PayTargetStable | internal/handlers/handlers.go:922 | marking a purchase paid does not change which purchase the guard accepts |
| Payment.PayTwice | internal/handlers/handlers.go:938-969 | with the unique key on `user_games`, a second payment of the same purchase changes nothing and gives the same response |
| Payment.PayScoped | internal/handlers/handlers.go:944-964 | a payment only appends library rows for the caller and the purchase's games, and changes no purchase other than the one paid |
| Payment.PayGrantsAll | internal/handlers/handlers.go:944-969 | on a repaired schema without faults, a payment marks the purchase paid, gives the caller every game on it, and redirects to the library |
| Comments.NormalizeRating | internal/handlers/handlers.go:527-531 | the stored rating is in 1..5: an in-range value is kept, and anything else, including a missing or unparsable one, becomes 3 |
| Comments.AddComment | internal/handlers/handlers.go:506-539 | the caller is redirected to login when signed out, and home on a non-POST request or a bad game id; otherwise a comment is appended unless the INSERT fails, which is ignored, and the caller goes to the game page; the schema is repaired first |
| Comments.DeleteComment | internal/handlers/handlers.go:542-587 | only the owner's request deletes the comment; a failed owner query redirects home with no change, and a failed DELETE is ignored; the response and the comments table follow the delete specification; the schema is repaired first |
| Comments.UpdateComment | internal/handlers/handlers.go:640-685 | only the owner's request on a comment with a game id rewrites rating, text and time; a failed owner query or a NULL owner or game id redirects home with no change, and a failed UPDATE is ignored; the response and the comments table follow the update specification; the schema is repaired first |
| Comments.AddKeepsRatings | internal/handlers/handlers.go:527-537 | adding a comment keeps every stored rating in 1..5 |
| Comments.DeleteKeepsRatings | internal/handlers/handlers.go:577-579 | deleting a comment keeps every stored rating in 1..5 |
| Comments.UpdateKeepsRatings | internal/handlers/handlers.go:663-682 | rewriting a comment keeps every stored rating in 1..5 |
| Comments.OwnedCommentIsCallers | internal/handlers/handlers.go:565-575 | the owner check passes exactly when the query is valid and the comment with that id belongs to the caller, with no NULL in the ids it selects |
| Comments.DeleteCommentOwnerOnly | internal/handlers/handlers.go:565-579 | a delete removes at most one row, never one with another id, and never another user's comment |
| Comments.UpdateCommentOwnerOnly | internal/handlers/handlers.go:668-682 | an update changes no row with another id and no row of another user, and never changes a row's id, game or author |
| Comments.OwnerQueryFailureChangesNothing | internal/handlers/handlers.go:567-571 | when the owner query fails, a signed-in POST to delete or update a comment is sent home and no comment changes |
| Comments.AddCommentAppends | internal/handlers/handlers.go:517-537 | adding only appends, at most one row, and a new row belongs to the signed-in caller and the given game, with a rating in 1..5 |
| Lifecycle.StepsOnLegacy | internal/handlers/handlers.go:137-310 | on a database with the legacy purchase tables, repair ALTERs the two legacy tables, creates `cart_items`, `comments` and `user_games` as declared, and leaves `games` alone |
| Lifecycle.FreshTables | internal/handlers/handlers.go:137-310 | bootstrap followed by repair gives the declared `games`, the ALTERed legacy purchase tables, and the three tables as `ensureSchema` declares them |
| Lifecycle.FreshLegacyColumns | internal/handlers/handlers.go:152-241 | after bootstrap and repair, `purchases` and `purchase_items` have every column checkout and payment use |
| Lifecycle.FreshStoreReady | internal/handlers/handlers.go:100-311 | after bootstrap and a fault-free repair, every statement of checkout, payment and the comment handlers is accepted, and `user_games` has its unique key |
| Lifecycle.CreatedAtStaysMissing | internal/handlers/handlers.go:163-167 | if `purchases` lacks created_at and that ALTER fails, it still lacks it after repair |
| Lifecycle.FreshPurchasesWithoutCreatedAt | internal/storage/sqlite.go:42-49 | on a fresh file whose created_at ALTER fails, `purchases` lacks created_at after repair |
| Lifecycle.CheckoutNeedsCreatedAt | internal/handlers/handlers.go:874-880 | without a created_at column no checkout commits: no table changes, and a non-empty cart gets a server error |
| Lifecycle.CheckoutKeepsConsistent | internal/handlers/handlers.go:874-890 | checkout keeps the lifecycle invariant: every item names a purchase id already handed out, and every library entry is backed by a paid purchase of that user with an item for that game |
| Lifecycle.PayKeepsConsistent | internal/handlers/handlers.go:944-964 | payment keeps the lifecycle invariant: every library entry it adds is backed by the paid purchase that holds the game |

## Left out

- HTTP plumbing is not modelled: cookies and sessions, templates, status codes other than the redirect target and the server error, and `cmd/main.go`'s routes. The signed-in user id is a parameter (0 when signed out).
- The GET paths are not modelled: the catalogue, game page, cart page, checkout page, pay page, purchases, library, account, static files and the comment edit form only render data.
- Registration, login and password hashing are not modelled: they do not touch the order tables.
- Prices and totals are integers in minor units. The source uses float64, so rounding of sums is not modelled.
- Concurrency and transaction isolation between requests are not modelled: each handler runs alone.
- SQLite's join returns rows in no guaranteed order. The model joins in cart-row order, so the ids of the line items may be numbered differently; totals and contents do not depend on this order.
- Foreign keys are declared but SQLite does not enforce them by default, so the model does not check them. NULL values are modelled for `purchases.user_id` and for `comments.user_id` and `comments.game_id`, the columns the owner queries scan into an int. NULLs elsewhere are not modelled; a row added before `ensureSchema` ALTERed a column in holds NULL in it.
- Orders.ScanCart: the source skips a joined row whose `Scan` fails, such as a NULL `quantity` in an old `cart_items` row; the model has no NULL quantities and keeps every joined row.
- Payment.ItemGames: the source skips an item row whose `Scan` fails, such as a NULL `quantity`; the model has no NULL quantities and grants every item's game.
- Integers are unbounded. The source's Go `int` and SQLite's INTEGER are 64-bit, so overflow of `quantity + ?` or of a parsed form value is not modelled.
- Cart.AddToCart: the handler models the update-then-insert fallback in place of the first `INSERT … ON CONFLICT(rowid)` statement, which always inserts (see "## Findings"). Failures of the cart statements are not modelled (the fallback ignores them), nor is the nil-result panic when the fallback UPDATE itself fails.
- Cart.RemoveFromCart: a failing DELETE is only logged in the source, and the model treats it as succeeding.
- Payment.PayTwice: the payment is idempotent only when `user_games` has UNIQUE(user_id, game_id). That holds when `ensureSchema` created the table, not for a pre-existing one (see Payment.GrantWithoutUnique).
- Payment.Pay: a purchase that is already paid is paid again. No already-paid early exit exists, so the library grants are re-issued and ignored as duplicates.
- Orders.Checkout and Payment.Pay do not require a signed-in user, since the source does not check one; a signed-out caller acts as user 0.
- `customers` and `library` rows are not modelled, since no handler in this core writes them; their declarations are.
- A failed ALTER is an input (`failing`), whatever its cause. One such cause in SQLite is adding a column with a `CURRENT_TIMESTAMP` default (`created_at` at handlers.go:164). Whether SQLite refuses it depends on the engine version and on whether the table has rows, so the model does not decide it. It proves what follows when it fails: Lifecycle.CheckoutNeedsCreatedAt.

## Findings

| source | as written | input that shows it | evidently intended | confidence | as-written member | corrected member |
|---|---|---|---|---|---|---|
| internal/handlers/handlers.go:726-739 | the cart add is `INSERT … ON CONFLICT(rowid) DO NOTHING`; a new row gets a fresh rowid and never conflicts, so the statement succeeds and the UPDATE-then-INSERT fallback never runs | add game 7 with quantity 1 twice for user 1: the cart then holds two lines (1, 7, 1) instead of one line (1, 7, 2) | one line per (user, game) whose quantity grows by each add, as the comment at line 725 and the fallback describe | not executed; relies on SQLite accepting rowid as the upsert conflict target | Cart.AddAsWrittenDuplicates | Cart.MergeKeepsUnique |
