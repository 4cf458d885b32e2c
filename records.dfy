/** The records the ingestion pipeline passes around: the parsed game (`Pgn`)
    and the two rows it produces for the remote store (`Game`, `User`). */
module Records {

  /** The tag pairs of one game, tag name to value. */
  type Headers = map<string, string>

  /** Reading a Go `map[string]string`: an absent key reads as the zero value "". */
  function Lookup(h: Headers, key: string): (v: string)
    ensures key in h ==> v == h[key]
    ensures key !in h ==> v == ""
  {
    if key in h then h[key] else ""
  }

  /** One parsed game: its tag pairs and its formatted move text. */
  datatype Pgn = Pgn(headers: Headers, moves: string)

  /** A row of the `user` collection. */
  datatype User = User(username: string, rating: int)

  /** A row of the `game` collection; `gameId` is assigned by the store and is 0 before insertion. */
  datatype Game = Game(
    gameId: int,
    whitePlayer: string,
    blackPlayer: string,
    winner: string,
    opening: string,
    gameMoves: string,
    result: string)
}
