/** The game record and the tokenising of one movetext line
    (`Game` and `GameParser.ParseMoves`). */
module Games {

  /** One parsed game: the four tag values and the two players' half-moves.
      `sp1` holds the first player's moves, `sp2` the second player's. */
  datatype Game = Game(white: string, black: string, date: string, time: string,
                       sp1: seq<string>, sp2: seq<string>)

  /** A game as created by a `[White "..."]` tag: every other field empty. */
  function NewGame(white: string): (g: Game)
    ensures g.white == white && g.black == "" && g.date == "" && g.time == ""
    ensures g.sp1 == [] && g.sp2 == []
  {
    Game(white, "", "", "", [], [])
  }

  /** The alternation invariant: the first list is as long as the second or one longer. */
  predicate Alternating(g: Game) {
    |g.sp2| <= |g.sp1| <= |g.sp2| + 1
  }

  /** The half-moves in the order they were placed: sp1[0], sp2[0], sp1[1], ... */
  function Played(g: Game): (r: seq<string>)
    requires Alternating(g)
    ensures |r| == |g.sp1| + |g.sp2|
  {
    seq(|g.sp1| + |g.sp2|, k requires 0 <= k < |g.sp1| + |g.sp2| =>
      if k % 2 == 0 then g.sp1[k / 2] else g.sp2[k / 2])
  }

  /** The even/odd split of `Played` recovers the two lists. */
  lemma PlayedSplits(g: Game)
    requires Alternating(g)
    ensures forall k :: 0 <= k < |g.sp1| ==> Played(g)[2 * k] == g.sp1[k]
    ensures forall k :: 0 <= k < |g.sp2| ==> Played(g)[2 * k + 1] == g.sp2[k]
  {
    forall k | 0 <= k < |g.sp1|
      ensures Played(g)[2 * k] == g.sp1[k]
    {
      assert (2 * k) / 2 == k;
    }
    forall k | 0 <= k < |g.sp2|
      ensures Played(g)[2 * k + 1] == g.sp2[k]
    {
      assert (2 * k + 1) / 2 == k;
    }
  }
}

module MoveText {
  import opened Text
  import opened Games

  /** Index of the first `}` or line feed in `t` (or `|t|`): where the search
      for the end of a comment stops, as a comment never spans a line feed. */
  function CloseIndex(t: string): (k: nat)
    ensures k <= |t|
    ensures k < |t| ==> t[k] == '}' || t[k] == '\n'
    ensures forall j :: 0 <= j < k ==> t[j] != '}' && t[j] != '\n'
  {
    if |t| == 0 || t[0] == '}' || t[0] == '\n' then 0 else 1 + CloseIndex(t[1..])
  }

  /** Removal of every brace comment, scanning left to right: an opening brace
      starts a comment that ends at the first closing brace, provided no line
      feed comes first; otherwise the brace is kept as text. */
  function StripComments(s: string): (r: string)
    ensures |r| <= |s|
    ensures forall ch :: ch in r ==> ch in s
    ensures '{' !in s ==> r == s
    ensures '\n' !in s ==> forall i, j :: 0 <= i < j < |r| && r[i] == '{' ==> r[j] != '}'
    decreases |s|
  {
    if |s| == 0 then ""
    else if s[0] == '{' && CloseIndex(s[1..]) < |s| - 1 && s[1 + CloseIndex(s[1..])] == '}' then
      StripComments(s[2 + CloseIndex(s[1..])..])
    else
      var rest := StripComments(s[1..]);
      assert forall ch :: ch in rest ==> ch in s[1..];
      assert s[0] == '{' && '\n' !in s ==> '}' !in s[1..];
      [s[0]] + rest
  }

  /** A character that does not open a closed comment is kept. */
  lemma StripKeep(s: string)
    requires |s| > 0
    requires s[0] != '{' || CloseIndex(s[1..]) == |s| - 1 || s[1 + CloseIndex(s[1..])] != '}'
    ensures StripComments(s) == [s[0]] + StripComments(s[1..])
  {
  }

  lemma StripPlainStep(x: string, y: string)
    requires |x| > 0 && x[0] != '{'
    ensures StripComments(x + y) == [x[0]] + StripComments(x[1..] + y)
  {
    var s := x + y;
    assert s[0] == x[0];
    assert s[1..] == x[1..] + y;
    StripKeep(s);
  }

  /** Text before the first `{` passes through unchanged. */
  lemma {:induction false} StripPlain(x: string, y: string)
    requires '{' !in x
    ensures StripComments(x + y) == x + StripComments(y)
    decreases |x|
  {
    if |x| > 0 {
      assert x[0] in x;
      assert x == [x[0]] + x[1..];
      StripPlainStep(x, y);
      StripPlain(x[1..], y);
    } else {
      assert x + y == y;
    }
  }

  lemma {:induction false} CloseIndexAfter(c: string, rest: string)
    requires '}' !in c && '\n' !in c
    ensures CloseIndex(c + rest) == |c| + CloseIndex(rest)
    decreases |c|
  {
    if |c| > 0 {
      assert (c + rest)[0] == c[0];
      assert (c + rest)[1..] == c[1..] + rest;
      CloseIndexAfter(c[1..], rest);
    } else {
      assert c + rest == rest;
    }
  }

  /** A complete comment on one line, braces included, is removed. */
  lemma StripComment(c: string, y: string)
    requires '}' !in c && '\n' !in c
    ensures StripComments("{" + c + "}" + y) == StripComments(y)
  {
    var s := "{" + c + "}" + y;
    assert s[1..] == c + ("}" + y);
    CloseIndexAfter(c, "}" + y);
    assert CloseIndex(s[1..]) == |c|;
    assert s[1 + |c|] == '}';
    assert s[2 + |c|..] == y;
  }

  /** An opening brace that no closing brace follows before the end of the
      line or a line feed is kept as text. */
  lemma StripUnclosed(c: string, b: string)
    requires '}' !in c && '\n' !in c
    requires b == "" || b[0] == '\n'
    ensures StripComments("{" + c + b) == "{" + StripComments(c + b)
  {
    var s := "{" + c + b;
    assert s[1..] == c + b;
    CloseIndexAfter(c, b);
    assert CloseIndex(b) == 0;
    assert CloseIndex(s[1..]) == |c|;
    assert CloseIndex(s[1..]) == |s| - 1 || s[1 + CloseIndex(s[1..])] == '\n';
    StripKeep(s);
  }

  predicate IsSeparator(c: char) {
    c == ' ' || c == '\t'
  }

  /** Length of the leading run of non-separator characters. */
  function WordLength(s: string): (k: nat)
    ensures k <= |s|
    ensures k < |s| ==> IsSeparator(s[k])
    ensures forall j :: 0 <= j < k ==> !IsSeparator(s[j])
  {
    if |s| == 0 || IsSeparator(s[0]) then 0 else 1 + WordLength(s[1..])
  }

  /** The words of the line: the maximal runs of characters other than space
      and tab, with empty pieces dropped. */
  function Tokens(s: string): (r: seq<string>)
    ensures forall k :: 0 <= k < |r| ==> |r[k]| > 0
    ensures forall k, j :: 0 <= k < |r| && 0 <= j < |r[k]| ==> !IsSeparator(r[k][j])
    decreases |s|
  {
    if |s| == 0 then []
    else if IsSeparator(s[0]) then Tokens(s[1..])
    else
      var w := WordLength(s);
      [s[..w]] + Tokens(s[w..])
  }

  /** A word ends at the first separator: what follows it does not matter. */
  lemma {:induction false} WordLengthBefore(x: string, c: char, y: string)
    requires IsSeparator(c)
    ensures WordLength(x + [c] + y) == WordLength(x)
    decreases |x|
  {
    if |x| > 0 {
      assert (x + [c] + y)[0] == x[0];
      assert (x + [c] + y)[1..] == x[1..] + [c] + y;
      WordLengthBefore(x[1..], c, y);
    } else {
      assert x + [c] + y == [c] + y;
    }
  }

  /** Any one space or tab separates: the tokens around it are the tokens
      of the text before it followed by those of the text after it. */
  lemma {:induction false} TokensAtSeparator(x: string, c: char, y: string)
    requires IsSeparator(c)
    ensures Tokens(x + [c] + y) == Tokens(x) + Tokens(y)
    decreases |x|
  {
    var s := x + [c] + y;
    if |x| == 0 {
      assert s == [c] + y;
      assert s[1..] == y;
    } else if IsSeparator(x[0]) {
      assert s[0] == x[0];
      assert s[1..] == x[1..] + [c] + y;
      TokensAtSeparator(x[1..], c, y);
    } else {
      var w := WordLength(x);
      WordLengthBefore(x, c, y);
      assert s[0] == x[0];
      assert s[..w] == x[..w];
      assert s[w..] == x[w..] + [c] + y;
      TokensAtSeparator(x[w..], c, y);
      assert Tokens(s) == [x[..w]] + Tokens(s[w..]);
      assert Tokens(x) == [x[..w]] + Tokens(x[w..]);
    }
  }

  /** The text with every separator deleted. */
  function Squeeze(s: string): string {
    if |s| == 0 then ""
    else if IsSeparator(s[0]) then Squeeze(s[1..])
    else [s[0]] + Squeeze(s[1..])
  }

  function Concat(ts: seq<string>): string {
    if |ts| == 0 then "" else ts[0] + Concat(ts[1..])
  }

  lemma {:induction false} SqueezeWord(s: string, w: nat)
    requires w <= |s|
    requires forall j :: 0 <= j < w ==> !IsSeparator(s[j])
    ensures Squeeze(s) == s[..w] + Squeeze(s[w..])
  {
    if w > 0 {
      SqueezeWord(s[1..], w - 1);
      assert s[1..][w - 1..] == s[w..];
      assert s[..w] == [s[0]] + s[1..][..w - 1];
    }
  }

  /** Tokenising loses only the separators: the tokens, run together, are the
      input with its spaces and tabs deleted. */
  lemma {:induction false} TokensCoverText(s: string)
    ensures Concat(Tokens(s)) == Squeeze(s)
    decreases |s|
  {
    if |s| > 0 {
      if IsSeparator(s[0]) {
        TokensCoverText(s[1..]);
      } else {
        var w := WordLength(s);
        TokensCoverText(s[w..]);
        SqueezeWord(s, w);
        assert Tokens(s)[1..] == Tokens(s[w..]);
      }
    }
  }

  /** A move number: one or more digits then a dot, optionally followed by a
      single final line feed (the end anchor of the pattern allows one). */
  predicate IsMoveNumber(t: string) {
    var u := if |t| > 0 && t[|t| - 1] == '\n' then t[..|t| - 1] else t;
    |u| >= 2 && u[|u| - 1] == '.' && forall k :: 0 <= k < |u| - 1 ==> IsDigit(u[k])
  }

  /** The four game-termination markers. */
  predicate IsResult(t: string) {
    t == "1-0" || t == "0-1" || t == "1/2-1/2" || t == "*"
  }

  /** The text glued onto the last move by a result token. */
  function ResultSuffix(t: string): string {
    " (" + t + ")"
  }

  /** The effect of one token on a game (the body of the token loop). */
  function PlaceToken(g: Game, tok: string): Game {
    if IsMoveNumber(tok) then g
    else if IsResult(tok) then
      if |g.sp2| < |g.sp1| && |g.sp1| > 0 then
        g.(sp1 := g.sp1[..|g.sp1| - 1] + [g.sp1[|g.sp1| - 1] + ResultSuffix(tok)])
      else if |g.sp2| > 0 then
        g.(sp2 := g.sp2[..|g.sp2| - 1] + [g.sp2[|g.sp2| - 1] + ResultSuffix(tok)])
      else g
    else if |g.sp1| == |g.sp2| then g.(sp1 := g.sp1 + [tok])
    else g.(sp2 := g.sp2 + [tok])
  }

  function PlaceTokens(g: Game, toks: seq<string>): Game
    decreases |toks|
  {
    if |toks| == 0 then g else PlaceTokens(PlaceToken(g, toks[0]), toks[1..])
  }

  /** `ParseMoves`: strip comments, tokenise, and place each token in turn. */
  function ParseMoves(line: string, g: Game): Game {
    PlaceTokens(g, Tokens(StripComments(line)))
  }

  /** The same token rule stated on the single sequence of played moves:
      a move number changes nothing, a result token is glued onto the last
      move (if any), every other token is appended. */
  function PlayToken(moves: seq<string>, tok: string): seq<string> {
    if IsMoveNumber(tok) then moves
    else if IsResult(tok) then
      if |moves| == 0 then moves
      else moves[..|moves| - 1] + [moves[|moves| - 1] + ResultSuffix(tok)]
    else moves + [tok]
  }

  function PlayTokens(moves: seq<string>, toks: seq<string>): seq<string>
    decreases |toks|
  {
    if |toks| == 0 then moves else PlayTokens(PlayToken(moves, toks[0]), toks[1..])
  }

  /** An ordinary token is appended to the played sequence. */
  lemma PlaceMove(g: Game, tok: string)
    requires Alternating(g) && !IsMoveNumber(tok) && !IsResult(tok)
    ensures Alternating(PlaceToken(g, tok))
    ensures Played(PlaceToken(g, tok)) == Played(g) + [tok]
  {
    var r := PlaceToken(g, tok);
    var p, q := Played(g), Played(r);
    forall k | 0 <= k < |q|
      ensures q[k] == (p + [tok])[k]
    {
      if k < |p| {
        assert q[k] == p[k];
      }
    }
  }

  /** A result token glued onto the last move of the first player. */
  lemma PlaceResultFirst(g: Game, tok: string)
    requires Alternating(g) && !IsMoveNumber(tok) && IsResult(tok)
    requires |g.sp2| < |g.sp1|
    ensures Alternating(PlaceToken(g, tok))
    ensures Played(PlaceToken(g, tok)) == PlayToken(Played(g), tok)
  {
    var r := PlaceToken(g, tok);
    var n := |g.sp1| - 1;
    assert r.sp2 == g.sp2 && r.sp1 == g.sp1[..n] + [g.sp1[n] + ResultSuffix(tok)];
    var p, q := Played(g), Played(r);
    var expected := p[..2 * n] + [g.sp1[n] + ResultSuffix(tok)];
    assert |p| == 2 * n + 1 && p[2 * n] == g.sp1[n];
    assert PlayToken(p, tok) == expected;
    forall k | 0 <= k < 2 * n
      ensures q[k] == p[k]
    {
      if k % 2 == 0 {
        assert k / 2 < n && r.sp1[k / 2] == g.sp1[k / 2];
      }
    }
    assert q[2 * n] == r.sp1[n];
    assert q == expected;
  }

  /** A result token glued onto the last move of the second player. */
  lemma PlaceResultSecond(g: Game, tok: string)
    requires Alternating(g) && !IsMoveNumber(tok) && IsResult(tok)
    requires |g.sp2| == |g.sp1| && |g.sp2| > 0
    ensures Alternating(PlaceToken(g, tok))
    ensures Played(PlaceToken(g, tok)) == PlayToken(Played(g), tok)
  {
    var r := PlaceToken(g, tok);
    var p, q := Played(g), Played(r);
    assert |p| == 2 * |g.sp2|;
    forall k | 0 <= k < |q|
      ensures q[k] == PlayToken(p, tok)[k]
    {
      if k < |p| - 1 {
        assert q[k] == p[k];
      }
    }
  }

  /** One token keeps the alternation invariant, touches only the move lists,
      and acts on the played sequence exactly as `PlayToken` says: the two
      lists remain the alternating split of the moves in playing order. */
  lemma PlaceTokenSpec(g: Game, tok: string)
    requires Alternating(g)
    ensures var r := PlaceToken(g, tok);
      && Alternating(r)
      && r.white == g.white && r.black == g.black && r.date == g.date && r.time == g.time
      && Played(r) == PlayToken(Played(g), tok)
  {
    if IsMoveNumber(tok) {
    } else if IsResult(tok) {
      if |g.sp2| < |g.sp1| {
        PlaceResultFirst(g, tok);
      } else if |g.sp2| > 0 {
        PlaceResultSecond(g, tok);
      }
    } else {
      PlaceMove(g, tok);
    }
  }

  /** Placing a sequence of tokens: alternation holds after every token and
      the played sequence evolves as `PlayTokens` says. */
  lemma {:induction false} PlaceTokensSpec(g: Game, toks: seq<string>)
    requires Alternating(g)
    ensures var r := PlaceTokens(g, toks);
      && Alternating(r)
      && r.white == g.white && r.black == g.black && r.date == g.date && r.time == g.time
      && Played(r) == PlayTokens(Played(g), toks)
    decreases |toks|
  {
    if |toks| > 0 {
      PlaceTokenSpec(g, toks[0]);
      PlaceTokensSpec(PlaceToken(g, toks[0]), toks[1..]);
    }
  }

  /** Move numbers and result tokens never change the length of either list;
      every other token lengthens exactly the list whose turn it is. */
  lemma PlaceTokenLengths(g: Game, tok: string)
    requires Alternating(g)
    ensures var r := PlaceToken(g, tok);
      && (IsMoveNumber(tok) || IsResult(tok) ==> |r.sp1| == |g.sp1| && |r.sp2| == |g.sp2|)
      && (!IsMoveNumber(tok) && !IsResult(tok) ==>
            if |g.sp1| == |g.sp2| then r.sp1 == g.sp1 + [tok] && r.sp2 == g.sp2
            else r.sp1 == g.sp1 && r.sp2 == g.sp2 + [tok])
  {
  }

  /** A movetext line keeps the alternation invariant, leaves the tags alone,
      and extends the played sequence token by token. */
  lemma ParseMovesSpec(line: string, g: Game)
    requires Alternating(g)
    ensures var r := ParseMoves(line, g);
      && Alternating(r)
      && r.white == g.white && r.black == g.black && r.date == g.date && r.time == g.time
      && Played(r) == PlayTokens(Played(g), Tokens(StripComments(line)))
  {
    PlaceTokensSpec(g, Tokens(StripComments(line)));
  }

  /** Example: `1. e2e4 e7e5 1-0` on a fresh game gives
      sp1 = ["e2e4"] and sp2 = ["e7e5 (1-0)"]. */
  lemma ResultExample()
    ensures var g := ParseMoves("1. e2e4 e7e5 1-0", NewGame("W"));
      g.sp1 == ["e2e4"] && g.sp2 == ["e7e5 (1-0)"]
  {
    StripExample();
    TokensExample();
    PlaceExample();
  }

  lemma StripExample()
    ensures StripComments("1. e2e4 e7e5 1-0") == "1. e2e4 e7e5 1-0"
  {
    var line := "1. e2e4 e7e5 1-0";
    assert forall k :: 0 <= k < |line| ==> line[k] != '{';
  }

  lemma PlaceExample()
    ensures var g := PlaceTokens(NewGame("W"), ["1.", "e2e4", "e7e5", "1-0"]);
      g.sp1 == ["e2e4"] && g.sp2 == ["e7e5 (1-0)"]
  {
    var g0 := NewGame("W");
    var toks := ["1.", "e2e4", "e7e5", "1-0"];
    var one := "1.";
    assert one == ['1', '.'];
    assert one[|one| - 1] != '\n';
    assert forall k :: 0 <= k < |one| - 1 ==> IsDigit(one[k]);
    assert IsMoveNumber(one);
    assert PlaceTokens(g0, toks) == PlaceTokens(g0, toks[1..]);
    PlaceMovesExample(g0);
  }

  lemma PlaceMovesExample(g0: Game)
    requires g0.sp1 == [] && g0.sp2 == []
    ensures var g := PlaceTokens(g0, ["e2e4", "e7e5", "1-0"]);
      g.sp1 == ["e2e4"] && g.sp2 == ["e7e5 (1-0)"]
  {
    var a, b, c := "e2e4", "e7e5", "1-0";
    NotMoveNumber(a);
    NotMoveNumber(b);
    NotMoveNumber(c);
    assert !IsResult(a) && !IsResult(b) && IsResult(c);
    var g1 := PlaceToken(g0, a);
    assert g1.sp1 == [a] && g1.sp2 == [];
    var g2 := PlaceToken(g1, b);
    assert g2.sp1 == [a] && g2.sp2 == [b];
    var g3 := PlaceToken(g2, c);
    assert g3.sp1 == [a] && g3.sp2 == [b + ResultSuffix(c)];
    var toks := [a, b, c];
    assert toks[1..] == [b, c] && [b, c][1..] == [c] && [c][1..] == [];
    assert PlaceTokens(g2, [c]) == g3;
    assert PlaceTokens(g1, [b, c]) == PlaceTokens(g2, [c]);
    assert PlaceTokens(g0, toks) == PlaceTokens(g1, [b, c]);
    SuffixedMove();
  }

  lemma SuffixedMove()
    ensures "e7e5" + ResultSuffix("1-0") == "e7e5 (1-0)"
  {
    var suffix := ResultSuffix("1-0");
    assert suffix == [' ', '(', '1', '-', '0', ')'];
    assert "e7e5" == ['e', '7', 'e', '5'];
  }

  /** A token ending in neither a dot nor a line feed is no move number. */
  lemma NotMoveNumber(t: string)
    requires |t| > 0 && t[|t| - 1] != '.' && t[|t| - 1] != '\n'
    ensures !IsMoveNumber(t)
  {
  }

  lemma {:induction false} WordLengthOf(w: string, rest: string)
    requires forall j :: 0 <= j < |w| ==> !IsSeparator(w[j])
    requires |rest| == 0 || IsSeparator(rest[0])
    ensures WordLength(w + rest) == |w|
  {
    if |w| > 0 {
      WordLengthOf(w[1..], rest);
      assert (w + rest)[1..] == w[1..] + rest;
    }
  }

  /** A separator-free word followed by a space and more text is the first token. */
  lemma TokensWord(w: string, rest: string)
    requires |w| > 0 && forall j :: 0 <= j < |w| ==> !IsSeparator(w[j])
    ensures Tokens(w + " " + rest) == [w] + Tokens(rest)
    ensures Tokens(w) == [w]
  {
    WordLengthOf(w, " " + rest);
    assert w + " " + rest == w + (" " + rest);
    assert (w + " " + rest)[..|w|] == w;
    assert (w + " " + rest)[|w|..] == " " + rest;
    assert (" " + rest)[1..] == rest;
    WordLengthOf(w, "");
    assert w + "" == w;
    assert w[..|w|] == w && w[|w|..] == "";
  }

  predicate IsWord(w: string) {
    |w| > 0 && forall j :: 0 <= j < |w| ==> !IsSeparator(w[j])
  }

  /** Tokenising inverts joining separator-free words with single spaces. */
  lemma {:induction false} TokensOfJoin(ws: seq<string>)
    requires forall k :: 0 <= k < |ws| ==> IsWord(ws[k])
    ensures Tokens(Join(ws, ' ')) == ws
  {
    if |ws| == 1 {
      TokensWord(ws[0], "");
    } else if |ws| > 1 {
      TokensOfJoin(ws[1..]);
      TokensWord(ws[0], Join(ws[1..], ' '));
    }
  }

  lemma TokensExample()
    ensures Tokens("1. e2e4 e7e5 1-0") == ["1.", "e2e4", "e7e5", "1-0"]
  {
    var ws := ["1.", "e2e4", "e7e5", "1-0"];
    assert IsWord("1.") && IsWord("e2e4") && IsWord("e7e5") && IsWord("1-0");
    TokensOfJoin(ws);
    assert ws[1..] == ["e2e4", "e7e5", "1-0"];
    assert ws[1..][1..] == ["e7e5", "1-0"];
    assert ws[1..][1..][1..] == ["1-0"];
    assert Join(ws, ' ') == "1. e2e4 e7e5 1-0";
  }
}
