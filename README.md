# Chess game ingestion: the in-memory pipeline

This project models the pure, in-memory half of a tool that ingests chess games in
Portable Game Notation (PGN) and stores them in a remote database. The models are in Dafny.
Three pieces are modelled:

- **Record mapper** (`mapper.dfy`, with the record types in `records.dfy`). A parsed
  game (`Pgn`: its tag pairs and its move text) becomes a `Game` row. The winner is
  resolved from the `Result` tag. The game also yields a white and a black `User`,
  each rated by the `WhiteElo`/`BlackElo` tag as `strconv.Atoi` reads it, or 0 when
  that read fails. The users of a run are deduplicated by full value
  (username and rating) through a Go map used as a set.
- **Move-text formatter** (`movetext.dfy`). This is the loop inside `ParsePgnFile` that
  joins the encoded moves of one game. Token `i` is written `"<i/2+1>. tok "` when `i`
  is even and `"tok "` when it is odd.
- **Batch partitioner** (`batching.dfy`). `chunker` cuts a slice into consecutive chunks
  of `chunksize` elements. The last chunk may be shorter.

`strconv.dfy` models the two pieces of Go's standard library that these use. One is
the syntax `strconv.Atoi` accepts. The other is `fmt`'s `%d` for a non-negative
number. Their round trip is proved.

Headers are a `map<string, string>`. `Records.Lookup` reads an absent key as `""`,
as Go's map read does. The loops that the Go code runs (`PgnsToGames`, `PgnsToUsers`,
the move-text loop, `chunker`) are methods with loop invariants. Each one is proved
against a specification function (`AllUsers`, `MoveText`, `Chunks`), and the
properties of the source are proved as lemmas about those functions.

Every move token, the last one included, is followed by one space.

## Model

| member | source | states |
|---|---|---|
| `Records.Lookup` | pgnHandler.go:74-79 | A tag that is present reads as its value, and an absent tag reads as `""`, Go's zero value. So no header read fails. |
| `Mapper.PgnToGame` | pgnHandler.go:72-87 | Total over every header map. `gameId` is 0. Players, opening, termination and moves are copied from their tags, and a missing tag gives `""`. The winner is White on "1-0", Black on "0-1" and `""` for any other or absent result. So the winner is always `""` or one of the two players. |
| `Mapper.WinnerDeterminesResult` | pgnHandler.go:79-85 | For named, distinct players the winner field identifies the result both ways: White won iff "1-0", Black won iff "0-1", and nobody iff anything else. |
| `Mapper.RatingOf` | pgnHandler.go:102 | The rating is Atoi's value when the Elo text is a well-formed integer, and 0 when Atoi reports an error. |
| `Mapper.RatingOfWrittenNumber` | pgnHandler.go:102-104 | An Elo text written as an integer is read as that integer, whatever its optional sign and leading zeros: "1500", "+1500" and "01500" all give 1500, and "-7" gives -7. |
| `Mapper.RatingOfNoDigits` | pgnHandler.go:102-104 | An Elo text without any digit, such as "", "+", "-" or "?", gives rating 0. |
| `Mapper.PgnToUser` | pgnHandler.go:98-106 | The white user is named by the White tag and rated by the WhiteElo tag. The black user is named by the Black tag and rated by the BlackElo tag. Mapping never fails. |
| `Mapper.PgnToUserBothRated` | pgnHandler.go:98-106 | When both Elo tags hold integers, as with Alice at 1500 against Bob at 1400, each player gets exactly the rating written. |
| `Mapper.PgnToUserMissingElo` | pgnHandler.go:98-106 | A missing Elo tag on either side gives that player rating 0, independently of the other side. |
| `Mapper.PgnToUserMalformedElo` | pgnHandler.go:98-106 | An Elo tag with a non-digit after its optional sign gives that player rating 0, independently of the other side, within the 64-bit range (see Left out). |
| `Mapper.PgnsToGames` | pgnHandler.go:89-96 | The output has the input's length, and game `i` is the mapping of pgn `i`, so order is kept. |
| `Mapper.AllUsersComplete` | pgnHandler.go:110-114 | Completeness: both users of every input game are in the collected set. |
| `Mapper.AllUsersSound` | pgnHandler.go:110-114 | Soundness: every collected user is the white or the black user of some input game, and the lemma names that game. |
| `Mapper.AllUsersMembership` | pgnHandler.go:109-114 | A user is in the collected set iff it is the white or the black user of some input game. |
| `Mapper.SameNameDifferentRatingsKept` | pgnHandler.go:109-113 | Deduplication is by full value. One username seen with two ratings gives two distinct collected users. |
| `Mapper.PgnsToUsers` | pgnHandler.go:108-120 | The result contains exactly the users of the input games. Each occurs exactly once however often it was seen, so there are no duplicates, and the length is the number of distinct (username, rating) pairs. The order is left open. |
| `Mapper.PgnsToStructs` | pgnHandler.go:122-124 | Returns the order-preserving games together with the deduplicated users, each as above. |
| `Strconv.Atoi` | pgnHandler.go:102-104 | Atoi accepts a non-empty digit string, with or without a leading '+' or '-', as the value of the digits, negated after '-'. It rejects the empty string and anything with a non-digit after the first character, and a negative value needs a leading '-'. |
| `Strconv.AtoiSigned` | pgnHandler.go:102-104 | An optional '+' or '-' followed by a non-empty digit string is accepted, and its value is the digits' value, negated after '-'. |
| `Strconv.AtoiSignedPadded` | pgnHandler.go:102-104 | Any well-formed number text is read as its value: an optional sign, any number of leading zeros, then the digits. So "+1500" and "01500" are 1500, and "-0" is 0. |
| `Strconv.AtoiNeedsADigit` | pgnHandler.go:102-104 | A text without any digit, such as "", "+" or "-", is a syntax error. |
| `Strconv.AtoiItoa` | pgnHandler.go:102-104 | Round trip: Atoi accepts what Itoa writes and returns the same integer. |
| `Strconv.AtoiRejectsNonDigit` | pgnHandler.go:102-104 | Any character other than a digit after the optional sign is a syntax error, as long as the digits before it stay at or below 2^64-1 (see Left out). |
| `Strconv.DecimalStringDigits` | pgnHandler.go:43 | `%d` of a natural number is a non-empty string of digits with no leading zero. |
| `Strconv.DigitsValueOfDecimalString` | pgnHandler.go:43 | Reading back the digits `%d` wrote gives the same number. |
| `MoveText.FormatMoves` | pgnHandler.go:38-48 | The accumulated move string equals the token-by-token text `MoveText(tokens)`, and no tokens give `""`. |
| `MoveText.MoveTextIsMovePairs` | pgnHandler.go:39-47 | The token-by-token text equals the move-by-move reading: move number n, white's token, then black's token if there is one, all numbered from 1. |
| `MoveText.MoveTextPrefix` | pgnHandler.go:39-47 | The text of the first k tokens is a prefix of the text of all of them. |
| `MoveText.NumberedMoveOccurs` | pgnHandler.go:42-43 | The token at even index i (a white move) appears as `"<i/2+1>. tok"`, exactly where the text of the earlier tokens ends. |
| `MoveText.RuyLopezMoveText` | pgnHandler_test.go:64-72 | Take any game whose tokens 0, 2 and 4 are e4, Nf3 and Bb5, such as e4 e5 Nf3 Nc6 Bb5 a6. Its text contains "1. e4", "2. Nf3" and "3. Bb5" at strictly increasing offsets. |
| `MoveText.MoveTextStrictlyLonger` | pgnHandler.go:39-47 | Every token adds at least one character, so a longer prefix of the tokens gives a strictly longer text. |
| `Batching.Chunker` | main.go:12-22 | With chunksize >= 1 the loop terminates. It returns the reference partition: ceil(len/chunksize) chunks whose concatenation is the input. |
| `Batching.ChunksFlatten` | main.go:12-22 | Concatenating the chunks in order reproduces the input exactly. |
| `Batching.ChunksCount` | main.go:13-14 | There are ceil(len/chunksize) chunks, and there are none exactly when the input is empty. |
| `Batching.ChunkAt` | main.go:14-19 | Chunk k begins at input index k*chunksize and is the input's index range [k*chunksize, min((k+1)*chunksize, len)). |
| `Batching.ChunkLengths` | main.go:15-19 | Every chunk except the last has exactly chunksize elements. The last has len mod chunksize, or chunksize when that is 0. No chunk is empty. |

## Left out

- Reading files is not modelled. That covers `os.Open`, the PGN scanner, collecting tag pairs into the header map, and `notation.Encode` (pgnHandler.go:17-36, 41, 50-53). Tag maps and encoded move tokens are inputs, because the chess library that produces them is not part of this model.
- `GetPgns` (pgnHandler.go:56-70) lists a directory, which is file I/O.
- All of dbInteract.go and dbSetup.go is left out: the REST client, environment loading, and the insert/get/delete calls. These are network I/O through a foreign library. `main` (main.go:7-10) is empty.
- Mapper.RatingOf: Go's 64-bit `int` is not modelled. On an out-of-range number `strconv.Atoi` returns the clamped value with an error, and that clamped value is kept as the rating. The model reads the digits as an unbounded integer.
- Mapper.RatingOf: a malformed text whose digit prefix exceeds 2^64-1 (the unsigned 64-bit maximum) before the first non-digit, such as "99999999999999999999x", is clamped by Go to 9223372036854775807 and kept as the rating. The model reads it as 0. A smaller prefix, as in "9223372036854775808x", is a syntax error in Go too and gives 0.
- Strconv.Atoi: only the syntax is modelled, over unbounded integers. The clamping to [-2^63, 2^63-1] on overflow is not modelled. On a text of 19 or more characters Go checks for overflow digit by digit, and that check is against 2^64-1 (unsigned 64-bit). So a text whose digit prefix exceeds 2^64-1 is a range error (clamped value) rather than a syntax error, even when a non-digit follows.
- Strconv.AtoiRejectsNonDigit: holds for Go only when the digits before the non-digit stay at or below 2^64-1; see the line above.
- Mapper.PgnsToUsers: the Go map is a `set<User>`, and its iteration order is an arbitrary choice. The result is specified up to order.
- Batching.Chunker: chunks are values. In Go each chunk is a view that shares the input's backing array, so writing through a chunk would change the input. The model does not capture this aliasing. The sharing is stated as the index ranges of `Batching.ChunkAt`.
- Batching.Chunker: `chunksize <= 0` is a precondition. In Go, 0 loops forever on a non-empty slice, and a negative value makes the slice bounds invalid.
- Go's nil slice and empty slice are the same value here.
