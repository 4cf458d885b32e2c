/** The record mapper: one parsed game becomes a `Game` row and two `User` rows,
    and a run's users are collected into a set keyed by their full value. */
module Mapper {
  import opened Records
  import Strconv

  /** A game's winner is nobody ("") or one of its two players. */
  predicate WinnerIsAPlayer(g: Game) {
    g.winner == "" || g.winner == g.whitePlayer || g.winner == g.blackPlayer
  }

  /** Maps one parsed game to its `Game` row. Total: a missing tag reads as "". */
  function PgnToGame(pgn: Pgn): (g: Game)
    ensures g.gameId == 0
    ensures g.whitePlayer == Lookup(pgn.headers, "White")
    ensures g.blackPlayer == Lookup(pgn.headers, "Black")
    ensures g.opening == Lookup(pgn.headers, "Opening")
    ensures g.result == Lookup(pgn.headers, "Termination")
    ensures g.gameMoves == pgn.moves
    ensures Lookup(pgn.headers, "Result") == "1-0" ==> g.winner == g.whitePlayer
    ensures Lookup(pgn.headers, "Result") == "0-1" ==> g.winner == g.blackPlayer
    ensures Lookup(pgn.headers, "Result") != "1-0" && Lookup(pgn.headers, "Result") != "0-1" ==> g.winner == ""
    ensures WinnerIsAPlayer(g)
  {
    var h := pgn.headers;
    var winner :=
      if Lookup(h, "Result") == "1-0" then Lookup(h, "White")
      else if Lookup(h, "Result") == "0-1" then Lookup(h, "Black")
      else "";
    Game(0, Lookup(h, "White"), Lookup(h, "Black"), winner, Lookup(h, "Opening"), pgn.moves, Lookup(h, "Termination"))
  }

  /** When the two players are named and distinct, the winner field identifies the
      result exactly: white won iff "1-0", black won iff "0-1", nobody iff anything else. */
  lemma WinnerDeterminesResult(pgn: Pgn)
    requires Lookup(pgn.headers, "White") != "" && Lookup(pgn.headers, "Black") != ""
    requires Lookup(pgn.headers, "White") != Lookup(pgn.headers, "Black")
    ensures var g := PgnToGame(pgn);
      && (g.winner == g.whitePlayer <==> Lookup(pgn.headers, "Result") == "1-0")
      && (g.winner == g.blackPlayer <==> Lookup(pgn.headers, "Result") == "0-1")
      && (g.winner == "" <==> Lookup(pgn.headers, "Result") !in {"1-0", "0-1"})
  {
  }

  /** The rating read from an Elo tag: the value of a well-formed integer, else 0
      (the error of `strconv.Atoi` is discarded and its zero result kept). */
  function RatingOf(elo: string): (rating: int)
    ensures Strconv.Atoi(elo).Some? ==> rating == Strconv.Atoi(elo).value
    ensures Strconv.Atoi(elo).None? ==> rating == 0
  {
    match Strconv.Atoi(elo)
    case Some(v) => v
    case None => 0
  }

  /** A rating written as an integer is read as that integer, whatever its sign
      character and leading zeros: "1500", "+1500" and "01500" all give 1500. */
  lemma RatingOfWrittenNumber(sign: string, k: nat, m: nat)
    requires sign == "" || sign == "+" || sign == "-"
    ensures RatingOf(sign + (Strconv.Zeros(k) + Strconv.DecimalString(m))) == (if sign == "-" then -(m as int) else m)
  {
    Strconv.AtoiSignedPadded(sign, k, m);
  }

  /** A rating text without a single digit (empty, a lone sign, "?") gives 0. */
  lemma RatingOfNoDigits(elo: string)
    requires forall i :: 0 <= i < |elo| ==> !Strconv.IsDigit(elo[i])
    ensures RatingOf(elo) == 0
  {
    Strconv.AtoiNeedsADigit(elo);
  }

  /** The white and black users of one game: each is named by its player tag and
      rated by its Elo tag. */
  function PgnToUser(pgn: Pgn): (r: (User, User))
    ensures r.0.username == Lookup(pgn.headers, "White")
    ensures r.0.rating == RatingOf(Lookup(pgn.headers, "WhiteElo"))
    ensures r.1.username == Lookup(pgn.headers, "Black")
    ensures r.1.rating == RatingOf(Lookup(pgn.headers, "BlackElo"))
  {
    var h := pgn.headers;
    (User(Lookup(h, "White"), RatingOf(Lookup(h, "WhiteElo"))),
     User(Lookup(h, "Black"), RatingOf(Lookup(h, "BlackElo"))))
  }

  /** A game with both Elo tags written as integers (e.g. Alice 1500 against Bob 1400)
      gives each player exactly the rating written. */
  lemma PgnToUserBothRated(pgn: Pgn, white: int, black: int)
    requires Lookup(pgn.headers, "WhiteElo") == Strconv.Itoa(white)
    requires Lookup(pgn.headers, "BlackElo") == Strconv.Itoa(black)
    ensures PgnToUser(pgn).0 == User(Lookup(pgn.headers, "White"), white)
    ensures PgnToUser(pgn).1 == User(Lookup(pgn.headers, "Black"), black)
  {
    Strconv.AtoiItoa(white);
    Strconv.AtoiItoa(black);
  }

  /** A missing Elo tag, on either side, gives that player rating 0; mapping the
      game does not fail. */
  lemma PgnToUserMissingElo(pgn: Pgn)
    ensures "WhiteElo" !in pgn.headers ==> PgnToUser(pgn).0 == User(Lookup(pgn.headers, "White"), 0)
    ensures "BlackElo" !in pgn.headers ==> PgnToUser(pgn).1 == User(Lookup(pgn.headers, "Black"), 0)
  {
  }

  /** A malformed Elo tag (here: one with a character other than a digit after the
      optional sign), on either side, gives that player rating 0. */
  lemma PgnToUserMalformedElo(pgn: Pgn, i: nat, j: nat)
    ensures var w := Lookup(pgn.headers, "WhiteElo");
      i < |w| && !Strconv.IsDigit(w[i]) && (i == 0 ==> w[0] != '+' && w[0] != '-')
      ==> PgnToUser(pgn).0 == User(Lookup(pgn.headers, "White"), 0)
    ensures var b := Lookup(pgn.headers, "BlackElo");
      j < |b| && !Strconv.IsDigit(b[j]) && (j == 0 ==> b[0] != '+' && b[0] != '-')
      ==> PgnToUser(pgn).1 == User(Lookup(pgn.headers, "Black"), 0)
  {
    var w := Lookup(pgn.headers, "WhiteElo");
    var b := Lookup(pgn.headers, "BlackElo");
    if i < |w| && !Strconv.IsDigit(w[i]) && (i == 0 ==> w[0] != '+' && w[0] != '-') {
      Strconv.AtoiRejectsNonDigit(w, i);
    }
    if j < |b| && !Strconv.IsDigit(b[j]) && (j == 0 ==> b[0] != '+' && b[0] != '-') {
      Strconv.AtoiRejectsNonDigit(b, j);
    }
  }

  /** Maps every game, in order. */
  method PgnsToGames(pgns: seq<Pgn>) returns (games: seq<Game>)
    ensures |games| == |pgns|
    ensures forall i :: 0 <= i < |pgns| ==> games[i] == PgnToGame(pgns[i])
  {
    games := [];
    for i := 0 to |pgns|
      invariant |games| == i
      invariant forall k :: 0 <= k < i ==> games[k] == PgnToGame(pgns[k])
    {
      var game := PgnToGame(pgns[i]);
      games := games + [game];
    }
  }

  /** The white and the black user of one game, as a set. */
  function UsersOf(pgn: Pgn): set<User> {
    var users := PgnToUser(pgn);
    {users.0, users.1}
  }

  /** Every user of every game, as a set: the reference for deduplication. */
  function AllUsers(pgns: seq<Pgn>): set<User> {
    if |pgns| == 0 then {} else AllUsers(pgns[..|pgns| - 1]) + UsersOf(pgns[|pgns| - 1])
  }

  /** Completeness: both users of every game are collected. */
  lemma {:induction false} AllUsersComplete(pgns: seq<Pgn>, i: nat)
    requires i < |pgns|
    ensures UsersOf(pgns[i]) <= AllUsers(pgns)
  {
    var init := pgns[..|pgns| - 1];
    if i < |init| {
      AllUsersComplete(init, i);
      assert init[i] == pgns[i];
    }
  }

  /** Soundness: every collected user is the white or the black user of some game. */
  lemma {:induction false} AllUsersSound(pgns: seq<Pgn>, u: User) returns (i: nat)
    requires u in AllUsers(pgns)
    ensures i < |pgns| && u in UsersOf(pgns[i])
  {
    var init := pgns[..|pgns| - 1];
    if u in AllUsers(init) {
      i := AllUsersSound(init, u);
      assert init[i] == pgns[i];
    } else {
      i := |pgns| - 1;
    }
  }

  /** A user is collected iff it is the white or the black user of some game. */
  lemma AllUsersMembership(pgns: seq<Pgn>, u: User)
    ensures u in AllUsers(pgns) <==> exists i :: 0 <= i < |pgns| && u in UsersOf(pgns[i])
  {
    if u in AllUsers(pgns) {
      var i := AllUsersSound(pgns, u);
    }
    forall i | 0 <= i < |pgns| && u in UsersOf(pgns[i]) ensures u in AllUsers(pgns) {
      AllUsersComplete(pgns, i);
    }
  }

  /** Deduplication is by full value: the same username with two different ratings
      yields two distinct users, both collected. */
  lemma SameNameDifferentRatingsKept(pgns: seq<Pgn>, i: nat, j: nat, u: User, v: User)
    requires i < |pgns| && j < |pgns|
    requires u in UsersOf(pgns[i]) && v in UsersOf(pgns[j])
    requires u.username == v.username && u.rating != v.rating
    ensures u in AllUsers(pgns) && v in AllUsers(pgns) && u != v
  {
    AllUsersMembership(pgns, u);
    AllUsersMembership(pgns, v);
  }

  predicate Distinct<T(==)>(s: seq<T>) {
    forall i, j :: 0 <= i < j < |s| ==> s[i] != s[j]
  }

  /** In a sequence without repetitions every element occurs exactly once. */
  lemma {:induction false} DistinctOccursOnce<T>(s: seq<T>, x: T)
    requires Distinct(s)
    ensures multiset(s)[x] == if x in s then 1 else 0
  {
    if |s| > 0 {
      var init := s[..|s| - 1];
      assert s == init + [s[|s| - 1]];
      assert Distinct(init);
      DistinctOccursOnce(init, x);
      if x == s[|s| - 1] {
        assert x !in init;
      }
    }
  }

  /** The distinct users of a run. Every user of every game occurs exactly once,
      nothing else occurs, and the order (a Go map's iteration order) is left open. */
  method PgnsToUsers(pgns: seq<Pgn>) returns (users: seq<User>)
    ensures forall u :: u in users <==> u in AllUsers(pgns)
    ensures forall u :: multiset(users)[u] == if u in AllUsers(pgns) then 1 else 0
    ensures Distinct(users)
    ensures |users| == |AllUsers(pgns)|
  {
    var userMap: set<User> := {};
    for i := 0 to |pgns|
      invariant userMap == AllUsers(pgns[..i])
    {
      assert pgns[..i + 1][..i] == pgns[..i];
      var (whiteUser, blackUser) := PgnToUser(pgns[i]);
      userMap := userMap + {whiteUser};
      userMap := userMap + {blackUser};
    }
    assert pgns[..|pgns|] == pgns;
    users := [];
    var rest := userMap;
    while rest != {}
      invariant rest <= userMap
      invariant forall u :: u in users <==> u in userMap - rest
      invariant Distinct(users)
      invariant |users| + |rest| == |userMap|
      decreases |rest|
    {
      var user :| user in rest;
      assert user !in users;
      users := users + [user];
      rest := rest - {user};
    }
    forall u ensures multiset(users)[u] == if u in AllUsers(pgns) then 1 else 0 {
      DistinctOccursOnce(users, u);
    }
  }

  /** Both results of a run: every game in order, and the deduplicated users. */
  method PgnsToStructs(pgns: seq<Pgn>) returns (games: seq<Game>, users: seq<User>)
    ensures |games| == |pgns|
    ensures forall i :: 0 <= i < |pgns| ==> games[i] == PgnToGame(pgns[i])
    ensures forall u :: multiset(users)[u] == if u in AllUsers(pgns) then 1 else 0
  {
    games := PgnsToGames(pgns);
    users := PgnsToUsers(pgns);
  }
}
