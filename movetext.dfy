/** The move text of one game, built from its already-encoded moves (standard
    algebraic notation tokens): white's moves are numbered, every token is
    followed by a single space, e.g. "1. e4 e5 2. Nf3 ". */
module MoveText {
  import opened Strconv

  /** White's token behind move number `n`: "<n>. <token>". */
  function NumberedToken(n: nat, token: string): string {
    DecimalString(n) + ". " + token
  }

  /** How the token at (0-based) position `i` is written. */
  function RenderToken(i: nat, token: string): string {
    if i % 2 == 0 then NumberedToken(i / 2 + 1, token) + " " else token + " "
  }

  /** The move text of `tokens`, token by token from the first. */
  function MoveText(tokens: seq<string>): string {
    if |tokens| == 0 then ""
    else MoveText(tokens[..|tokens| - 1]) + RenderToken(|tokens| - 1, tokens[|tokens| - 1])
  }

  /** The loop that accumulates the move string of one game. */
  method FormatMoves(tokens: seq<string>) returns (moveStr: string)
    ensures moveStr == MoveText(tokens)
    ensures |tokens| == 0 ==> moveStr == ""
  {
    moveStr := "";
    for i := 0 to |tokens|
      invariant moveStr == MoveText(tokens[..i])
    {
      assert MoveText(tokens[..i + 1]) == MoveText(tokens[..i]) + RenderToken(i, tokens[i]) by {
        assert tokens[..i + 1][..i] == tokens[..i];
      }
      if i % 2 == 0 {
        moveStr := moveStr + (DecimalString(i / 2 + 1) + ". " + tokens[i] + " ");
      } else {
        moveStr := moveStr + (tokens[i] + " ");
      }
    }
    assert tokens[..|tokens|] == tokens;
  }

  /** Reference reading of the same text, move by move: move number `n`, white's
      token, then black's token if there is one. */
  function MovePairs(tokens: seq<string>, n: nat): string
    decreases |tokens|
  {
    if |tokens| == 0 then ""
    else if |tokens| == 1 then NumberedToken(n, tokens[0]) + " "
    else FullMove(n, tokens[0], tokens[1]) + MovePairs(tokens[2..], n + 1)
  }

  /** One complete move: "<n>. <white> <black> ". */
  function FullMove(n: nat, white: string, black: string): string {
    NumberedToken(n, white) + " " + black + " "
  }

  /** What one more token adds to the move-by-move text of `len` tokens numbered from `n`. */
  function NextPiece(len: nat, n: nat, x: string): string {
    if len % 2 == 0 then NumberedToken(n + len / 2, x) + " " else x + " "
  }

  lemma NextPieceShift(len: nat, n: nat, x: string)
    requires len >= 2
    ensures NextPiece(len - 2, n + 1, x) == NextPiece(len, n, x)
  {
  }

  /** Appending a token to the move-by-move text adds exactly `NextPiece`. */
  lemma {:induction false} MovePairsSnoc(tokens: seq<string>, x: string, n: nat)
    ensures MovePairs(tokens + [x], n) == MovePairs(tokens, n) + NextPiece(|tokens|, n, x)
    decreases |tokens|
  {
    if |tokens| < 2 {
      MovePairsSnocShort(tokens, x, n);
    } else {
      MovePairsSnoc(tokens[2..], x, n + 1);
      MovePairsSnocStep(tokens, x, n);
    }
  }

  lemma MovePairsSnocShort(tokens: seq<string>, x: string, n: nat)
    requires |tokens| < 2
    ensures MovePairs(tokens + [x], n) == MovePairs(tokens, n) + NextPiece(|tokens|, n, x)
  {
    if |tokens| == 0 {
      assert tokens + [x] == [x];
    } else {
      assert tokens + [x] == [tokens[0], x];
      assert [tokens[0], x][2..] == [];
    }
  }

  lemma MovePairsSnocStep(tokens: seq<string>, x: string, n: nat)
    requires |tokens| >= 2
    requires MovePairs(tokens[2..] + [x], n + 1) == MovePairs(tokens[2..], n + 1) + NextPiece(|tokens| - 2, n + 1, x)
    ensures MovePairs(tokens + [x], n) == MovePairs(tokens, n) + NextPiece(|tokens|, n, x)
  {
    var rest := tokens[2..];
    var head := FullMove(n, tokens[0], tokens[1]);
    var tail := NextPiece(|tokens|, n, x);
    NextPieceShift(|tokens|, n, x);
    assert MovePairs(tokens + [x], n) == head + MovePairs(rest + [x], n + 1) by {
      assert (tokens + [x])[2..] == rest + [x];
    }
    assert head + (MovePairs(rest, n + 1) + tail) == (head + MovePairs(rest, n + 1)) + tail;
  }

  /** The token-by-token text equals the move-by-move text numbered from 1. */
  lemma {:induction false} MoveTextIsMovePairs(tokens: seq<string>)
    ensures MoveText(tokens) == MovePairs(tokens, 1)
  {
    if |tokens| > 0 {
      var init := tokens[..|tokens| - 1];
      MoveTextIsMovePairs(init);
      MovePairsSnoc(init, tokens[|tokens| - 1], 1);
      assert init + [tokens[|tokens| - 1]] == tokens;
    }
  }

  /** The text of a prefix of the moves is a prefix of the text of all of them. */
  lemma {:induction false} MoveTextPrefix(tokens: seq<string>, k: nat)
    requires k <= |tokens|
    ensures |MoveText(tokens[..k])| <= |MoveText(tokens)|
    ensures MoveText(tokens)[..|MoveText(tokens[..k])|] == MoveText(tokens[..k])
    decreases |tokens|
  {
    if k < |tokens| {
      var init := tokens[..|tokens| - 1];
      assert init[..k] == tokens[..k];
      MoveTextPrefix(init, k);
    } else {
      assert tokens[..k] == tokens;
    }
  }

  /** White's `i`-th token appears in the text right after its move number, at the
      position where the text of the earlier tokens ends. */
  lemma NumberedMoveOccurs(tokens: seq<string>, i: nat)
    requires i < |tokens| && i % 2 == 0
    ensures OccursAt(MoveText(tokens), NumberedToken(i / 2 + 1, tokens[i]), |MoveText(tokens[..i])|)
  {
    var upTo := tokens[..i + 1];
    var before := MoveText(tokens[..i]);
    var written := NumberedToken(i / 2 + 1, tokens[i]);
    var short := MoveText(upTo);
    assert short == before + written + " " by {
      assert upTo[..i] == tokens[..i];
    }
    MoveTextPrefix(tokens, i + 1);
    SliceInsidePrefix(MoveText(tokens), short, before, written);
  }

  lemma SliceInsidePrefix(all: string, short: string, before: string, written: string)
    requires |short| <= |all| && all[..|short|] == short
    requires short == before + written + " "
    ensures |before| + |written| <= |all|
    ensures all[|before|..|before| + |written|] == written
  {
  }

  /** `s` occurs in `text` at offset `k`. */
  predicate OccursAt(text: string, s: string, k: int) {
    0 <= k && k + |s| <= |text| && text[k..k + |s|] == s
  }

  /** `s` occurs in `text` as a contiguous substring. */
  predicate Contains(text: string, s: string) {
    exists k :: 0 <= k <= |text| && OccursAt(text, s, k)
  }

  /** Each further token makes the text strictly longer. */
  lemma MoveTextGrows(tokens: seq<string>, k: nat)
    requires k < |tokens|
    ensures |MoveText(tokens[..k])| < |MoveText(tokens[..k + 1])|
  {
    assert tokens[..k + 1][..k] == tokens[..k];
  }

  /** The text of the first `j` tokens is strictly shorter than that of the first `k`. */
  lemma {:induction false} MoveTextStrictlyLonger(tokens: seq<string>, j: nat, k: nat)
    requires j < k <= |tokens|
    ensures |MoveText(tokens[..j])| < |MoveText(tokens[..k])|
    decreases k - j
  {
    MoveTextGrows(tokens, k - 1);
    if j < k - 1 {
      MoveTextStrictlyLonger(tokens, j, k - 1);
    }
  }

  /** For any game that opens 1. e4 ... 2. Nf3 ... 3. Bb5 (the Ruy Lopez, e.g.
      e4 e5 Nf3 Nc6 Bb5 a6) the text contains "1. e4", "2. Nf3" and "3. Bb5",
      in that order. */
  lemma RuyLopezMoveText(tokens: seq<string>)
    requires |tokens| >= 5 && tokens[0] == "e4" && tokens[2] == "Nf3" && tokens[4] == "Bb5"
    ensures var text := MoveText(tokens);
      var first, second, third := |MoveText(tokens[..0])|, |MoveText(tokens[..2])|, |MoveText(tokens[..4])|;
      && OccursAt(text, "1. e4", first)
      && OccursAt(text, "2. Nf3", second)
      && OccursAt(text, "3. Bb5", third)
      && first < second < third
    ensures Contains(MoveText(tokens), "1. e4")
    ensures Contains(MoveText(tokens), "2. Nf3")
    ensures Contains(MoveText(tokens), "3. Bb5")
  {
    SmallMoveNumbers();
    NumberedMoveOccurs(tokens, 0);
    NumberedMoveOccurs(tokens, 2);
    NumberedMoveOccurs(tokens, 4);
    MoveTextStrictlyLonger(tokens, 0, 2);
    MoveTextStrictlyLonger(tokens, 2, 4);
  }

  lemma SmallMoveNumbers()
    ensures NumberedToken(1, "e4") == "1. e4"
    ensures NumberedToken(2, "Nf3") == "2. Nf3"
    ensures NumberedToken(3, "Bb5") == "3. Bb5"
  {
  }
}
