/// The rows of the tables the order lifecycle reads and writes (every column but
/// `id`, which `Tables.Row` carries), and the answers the HTTP handlers give.
/// Money is held in minor units, so that totals are exact sums.
module Records {
  import opened Tables

  /** games(title, description, price, image_url) */
  datatype Game = Game(title: string, description: string, price: int, imageUrl: string)

  /** cart_items(user_id, game_id, quantity) */
  datatype CartItem = CartItem(userId: int, gameId: int, quantity: int)

  /** purchases(user_id, total, created_at, paid); `userId` is None where the column
      is NULL, as in a row written before the column was added. */
  datatype Purchase = Purchase(userId: Option<int>, total: int, createdAt: string, paid: bool)

  /** purchase_items(purchase_id, game_id, price, quantity): the price is the one
      the game had at checkout. */
  datatype PurchaseItem = PurchaseItem(purchaseId: int, gameId: int, price: int, quantity: int)

  /** comments(game_id, user_id, rating, text, created_at). Both ids may be NULL: a row
      written before ensureSchema added the column holds NULL there. */
  datatype Comment = Comment(gameId: Option<int>, userId: Option<int>, rating: int, text: string, createdAt: string)

  /** user_games(user_id, game_id): the user owns the game. */
  datatype UserGame = UserGame(userId: int, gameId: int)

  /** Where a handler redirects the browser (303 See Other). */
  datatype Page =
    | LoginPage                  // /login
    | HomePage                   // /
    | CartPage                   // /cart
    | PayPage(purchaseId: int)   // /pay?purchase_id=N
    | PurchasesPage              // /purchases
    | LibraryPage                // /library
    | GamePage(gameId: int)      // /game?id=N
    | GamePageRaw(query: string) // /game?id=<the form value as sent>

  datatype Response = SeeOther(to: Page) | ServerError
}
