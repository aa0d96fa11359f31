/** `GameParser.ParseGames`: a forward pass over the trimmed lines of a game
    log, then the empty-game and player-name filter, then the date/time order.
    The parser state is the list of registered games; the game being filled
    (`current` in the source) is always the last one, and there is none
    before the first `[White "` tag. */
module Parser {
  import opened Text
  import opened Games
  import opened MoveText
  import opened GameOrder

  const WhiteTag: string := "[White \""
  const BlackTag: string := "[Black \""
  const DateTag: string := "[Date \""
  const TimeTag: string := "[Time \""

  /** The second piece of the line cut at every double quote, for a line that
      holds at least one quote. */
  function TagValue(line: string): string
    requires '"' in line
  {
    SecondPiece(line, '"');
    Split(line, '"')[1]
  }

  /** A tag line opening `tag`: its text after the tag's own quote runs up to
      the next quote, or to the end of the line when there is none. */
  lemma TagValueSpec(line: string, tag: string)
    requires |tag| > 0 && tag[|tag| - 1] == '"' && '"' !in tag[..|tag| - 1]
    requires StartsWith(line, tag)
    ensures '"' in line
    ensures var v := TagValue(line); var n := |tag|;
      && n + |v| <= |line| && line[n..n + |v|] == v && '"' !in v
      && (n + |v| == |line| || line[n + |v|] == '"')
  {
    assert line[|tag| - 1] == tag[|tag| - 1];
    assert IndexOf(line, '"') == |tag| - 1 by {
      forall k | 0 <= k < |tag| - 1
        ensures line[k] != '"'
      {
        assert line[k] == tag[..|tag| - 1][k];
      }
    }
    SecondPiece(line, '"');
  }

  function Current(games: seq<Game>): Game
    requires |games| > 0
  {
    games[|games| - 1]
  }

  function WithCurrent(games: seq<Game>, g: Game): seq<Game>
    requires |games| > 0
  {
    games[..|games| - 1] + [g]
  }

  /** A movetext line: it starts with `1.` or with a digit. */
  predicate IsMoveLine(line: string) {
    StartsWith(line, "1.") || (|line| > 0 && IsDigit(line[0]))
  }

  /** One iteration of the line loop, on an untrimmed line. */
  function Step(games: seq<Game>, raw: string): seq<Game> {
    var line := Trim(raw);
    if StartsWith(line, WhiteTag) then
      assert line[7] == '"';
      games + [NewGame(TagValue(line))]
    else if StartsWith(line, BlackTag) && |games| > 0 then
      assert line[7] == '"';
      WithCurrent(games, Current(games).(black := TagValue(line)))
    else if StartsWith(line, DateTag) && |games| > 0 then
      assert line[6] == '"';
      WithCurrent(games, Current(games).(date := TagValue(line)))
    else if StartsWith(line, TimeTag) && |games| > 0 then
      assert line[6] == '"';
      WithCurrent(games, Current(games).(time := TagValue(line)))
    else if |games| > 0 && IsMoveLine(line) then
      WithCurrent(games, ParseMoves(line, Current(games)))
    else games
  }

  /** The line loop from a given state. */
  function ScanFrom(games: seq<Game>, lines: seq<string>): seq<Game>
    decreases |lines|
  {
    if |lines| == 0 then games else ScanFrom(Step(games, lines[0]), lines[1..])
  }

  /** Every game registered by the line loop, in registration order. */
  function Scan(lines: seq<string>): seq<Game> {
    ScanFrom([], lines)
  }

  predicate IsWhiteLine(raw: string) {
    StartsWith(Trim(raw), WhiteTag)
  }

  function CountWhite(lines: seq<string>): nat {
    if |lines| == 0 then 0
    else (if IsWhiteLine(lines[0]) then 1 else 0) + CountWhite(lines[1..])
  }

  predicate AllAlternating(games: seq<Game>) {
    forall k :: 0 <= k < |games| ==> Alternating(games[k])
  }

  /** Every line keeps the alternation invariant of every registered game. */
  lemma StepAlternating(games: seq<Game>, raw: string)
    requires AllAlternating(games)
    ensures AllAlternating(Step(games, raw))
  {
    var line := Trim(raw);
    var r := Step(games, raw);
    if !IsWhiteLine(raw) && |games| > 0 && !StartsWith(line, BlackTag)
      && !StartsWith(line, DateTag) && !StartsWith(line, TimeTag) && IsMoveLine(line)
    {
      ParseMovesSpec(line, Current(games));
    }
  }

  /** A `[White "` line registers a fresh game named by the tag value, whatever
      came before, and leaves the games before it alone. */
  lemma StepWhite(games: seq<Game>, raw: string)
    requires IsWhiteLine(raw)
    ensures var r := Step(games, raw); var line := Trim(raw);
      && |r| == |games| + 1 && r[..|games|] == games
      && var v := Current(r).white;
         Current(r) == NewGame(v) && |WhiteTag| + |v| <= |line|
         && line[|WhiteTag|..|WhiteTag| + |v|] == v && '"' !in v
         && (|WhiteTag| + |v| == |line| || line[|WhiteTag| + |v|] == '"')
  {
    TagValueSpec(Trim(raw), WhiteTag);
    assert Step(games, raw)[..|games|] == games;
  }

  /** Any other line changes at most the current game, and nothing at all
      while no game has been registered. */
  lemma StepOther(games: seq<Game>, raw: string)
    requires !IsWhiteLine(raw)
    ensures var r := Step(games, raw);
      && |r| == |games|
      && (|games| == 0 ==> r == games)
      && (|games| > 0 ==> r[..|games| - 1] == games[..|games| - 1])
  {
    if |games| > 0 {
      assert Step(games, raw)[..|games| - 1] == games[..|games| - 1];
    }
  }

  /** A `[Black "` line sets the Black name of the current game to the tag value
      and changes nothing else. */
  lemma StepBlack(games: seq<Game>, raw: string)
    requires |games| > 0 && StartsWith(Trim(raw), BlackTag)
    ensures '"' in Trim(raw)
    ensures var r := Step(games, raw);
      && |r| == |games| && r[..|games| - 1] == games[..|games| - 1]
      && Current(r) == Current(games).(black := TagValue(Trim(raw)))
  {
    var line := Trim(raw);
    assert line[0] == '[' && line[1] == 'B';
    assert !StartsWith(line, WhiteTag) by { assert WhiteTag[1] == 'W'; }
    TagValueSpec(line, BlackTag);
    var r := Step(games, raw);
    assert r == WithCurrent(games, Current(games).(black := TagValue(line)));
    assert r[..|games| - 1] == games[..|games| - 1];
  }

  /** A `[Date "` line sets the Date of the current game to the tag value and
      changes nothing else. */
  lemma StepDate(games: seq<Game>, raw: string)
    requires |games| > 0 && StartsWith(Trim(raw), DateTag)
    ensures '"' in Trim(raw)
    ensures var r := Step(games, raw);
      && |r| == |games| && r[..|games| - 1] == games[..|games| - 1]
      && Current(r) == Current(games).(date := TagValue(Trim(raw)))
  {
    var line := Trim(raw);
    assert line[0] == '[' && line[1] == 'D';
    assert !StartsWith(line, WhiteTag) by { assert WhiteTag[1] == 'W'; }
    assert !StartsWith(line, BlackTag) by { assert BlackTag[1] == 'B'; }
    TagValueSpec(line, DateTag);
    var r := Step(games, raw);
    assert r == WithCurrent(games, Current(games).(date := TagValue(line)));
    assert r[..|games| - 1] == games[..|games| - 1];
  }

  /** A `[Time "` line sets the Time of the current game to the tag value and
      changes nothing else. */
  lemma StepTime(games: seq<Game>, raw: string)
    requires |games| > 0 && StartsWith(Trim(raw), TimeTag)
    ensures '"' in Trim(raw)
    ensures var r := Step(games, raw);
      && |r| == |games| && r[..|games| - 1] == games[..|games| - 1]
      && Current(r) == Current(games).(time := TagValue(Trim(raw)))
  {
    var line := Trim(raw);
    assert line[0] == '[' && line[1] == 'T';
    assert !StartsWith(line, WhiteTag) by { assert WhiteTag[1] == 'W'; }
    assert !StartsWith(line, BlackTag) by { assert BlackTag[1] == 'B'; }
    assert !StartsWith(line, DateTag) by { assert DateTag[1] == 'D'; }
    TagValueSpec(line, TimeTag);
    var r := Step(games, raw);
    assert r == WithCurrent(games, Current(games).(time := TagValue(line)));
    assert r[..|games| - 1] == games[..|games| - 1];
  }

  /** A line that opens none of the four tags and is no movetext line (a blank
      line, another tag, free text) leaves every game as it was. */
  lemma StepIgnored(games: seq<Game>, raw: string)
    requires !StartsWith(Trim(raw), WhiteTag) && !StartsWith(Trim(raw), BlackTag)
    requires !StartsWith(Trim(raw), DateTag) && !StartsWith(Trim(raw), TimeTag)
    requires !IsMoveLine(Trim(raw))
    ensures Step(games, raw) == games
  {
  }

  /** A movetext line changes only the current game's move lists: its played
      moves go through the line's tokens one by one, and its tags and every
      earlier game stay as they were. */
  lemma StepMoves(games: seq<Game>, raw: string)
    requires AllAlternating(games) && |games| > 0
    requires IsMoveLine(Trim(raw))
    ensures var r := Step(games, raw);
      && |r| == |games| && r[..|games| - 1] == games[..|games| - 1]
      && Alternating(Current(r))
      && Played(Current(r)) == PlayTokens(Played(Current(games)), Tokens(StripComments(Trim(raw))))
      && Current(r).white == Current(games).white && Current(r).black == Current(games).black
      && Current(r).date == Current(games).date && Current(r).time == Current(games).time
  {
    var line := Trim(raw);
    MoveLineIsNoTag(line);
    var g := ParseMoves(line, Current(games));
    assert Step(games, raw) == WithCurrent(games, g);
    assert Current(WithCurrent(games, g)) == g;
    assert WithCurrent(games, g)[..|games| - 1] == games[..|games| - 1];
    ParseMovesSpec(line, Current(games));
  }

  /** Tag lines open with `[`, movetext lines with a digit. */
  lemma MoveLineIsNoTag(line: string)
    requires IsMoveLine(line)
    ensures !StartsWith(line, WhiteTag) && !StartsWith(line, BlackTag)
    ensures !StartsWith(line, DateTag) && !StartsWith(line, TimeTag)
  {
    assert line[0] != '[';
    assert WhiteTag[0] == '[' && BlackTag[0] == '[' && DateTag[0] == '[' && TimeTag[0] == '[';
  }

  lemma {:induction false} ScanFromSpec(games: seq<Game>, lines: seq<string>)
    requires AllAlternating(games)
    ensures var r := ScanFrom(games, lines);
      && AllAlternating(r)
      && |r| == |games| + CountWhite(lines)
    decreases |lines|
  {
    if |lines| > 0 {
      StepAlternating(games, lines[0]);
      if IsWhiteLine(lines[0]) {
        StepWhite(games, lines[0]);
      } else {
        StepOther(games, lines[0]);
      }
      ScanFromSpec(Step(games, lines[0]), lines[1..]);
    }
  }

  /** One game per `[White "` line, and the alternation invariant holds in every one. */
  lemma ScanSpec(lines: seq<string>)
    ensures |Scan(lines)| == CountWhite(lines)
    ensures AllAlternating(Scan(lines))
  {
    ScanFromSpec([], lines);
  }

  /** The loop is a left fold: running it over `a + b` is running it over `b`
      from the state `a` leaves behind. */
  lemma {:induction false} ScanFromAppend(games: seq<Game>, a: seq<string>, b: seq<string>)
    ensures ScanFrom(games, a + b) == ScanFrom(ScanFrom(games, a), b)
    decreases |a|
  {
    if |a| > 0 {
      assert (a + b)[0] == a[0];
      assert (a + b)[1..] == a[1..] + b;
      ScanFromAppend(Step(games, a[0]), a[1..], b);
    } else {
      assert a + b == b;
    }
  }

  /** Lines before the first `[White "` tag are ignored: tags and moves with
      no game to go to change nothing. */
  lemma {:induction false} IgnoredBeforeWhite(pre: seq<string>, rest: seq<string>)
    requires forall k :: 0 <= k < |pre| ==> !IsWhiteLine(pre[k])
    ensures Scan(pre + rest) == Scan(rest)
  {
    NoWhiteNoGames(pre);
    ScanFromAppend([], pre, rest);
  }

  lemma {:induction false} NoWhiteNoGames(pre: seq<string>)
    requires forall k :: 0 <= k < |pre| ==> !IsWhiteLine(pre[k])
    ensures ScanFrom([], pre) == []
    decreases |pre|
  {
    if |pre| > 0 {
      assert Step([], pre[0]) == [];
      NoWhiteNoGames(pre[1..]);
    }
  }

  /** Consecutive movetext lines accumulate into the same game: the played
      moves after two lines are those of the tokens of both lines in order. */
  lemma ConsecutiveMoveLines(games: seq<Game>, l1: string, l2: string)
    requires AllAlternating(games) && |games| > 0
    requires IsMoveLine(Trim(l1)) && IsMoveLine(Trim(l2))
    ensures |ScanFrom(games, [l1, l2])| == |games|
    ensures Alternating(Current(ScanFrom(games, [l1, l2])))
    ensures Played(Current(ScanFrom(games, [l1, l2]))) ==
      PlayTokens(PlayTokens(Played(Current(games)), Tokens(StripComments(Trim(l1)))),
                 Tokens(StripComments(Trim(l2))))
  {
    var g1 := Step(games, l1);
    StepMoves(games, l1);
    StepAlternating(games, l1);
    StepMoves(g1, l2);
    var g2 := Step(g1, l2);
    assert [l1, l2][1..] == [l2];
    assert ScanFrom(g1, [l2]) == ScanFrom(g2, []) == g2;
    assert ScanFrom(games, [l1, l2]) == ScanFrom(g1, [l2]);
  }

  /** The player-name filter and the no-moves filter of `ParseGames`. */
  predicate Passes(g: Game, filter: string) {
    |g.sp1| > 0
    && (filter == "" || EqualsIgnoreCase(g.white, filter) || EqualsIgnoreCase(g.black, filter))
  }

  function KeepPassing(games: seq<Game>, filter: string): (r: seq<Game>)
    ensures forall g :: multiset(r)[g] == if Passes(g, filter) then multiset(games)[g] else 0
  {
    if |games| == 0 then []
    else
      assert games == [games[0]] + games[1..];
      (if Passes(games[0], filter) then [games[0]] else []) + KeepPassing(games[1..], filter)
  }

  /** The filter keeps the log order: filtering two stretches of games one
      after the other is filtering them together. */
  lemma {:induction false} KeepPassingAppend(a: seq<Game>, b: seq<Game>, filter: string)
    ensures KeepPassing(a + b, filter) == KeepPassing(a, filter) + KeepPassing(b, filter)
    decreases |a|
  {
    if |a| == 0 {
      assert a + b == b;
    } else {
      var h := if Passes(a[0], filter) then [a[0]] else [];
      assert (a + b)[0] == a[0];
      assert (a + b)[1..] == a[1..] + b;
      KeepPassingAppend(a[1..], b, filter);
      calc {
        KeepPassing(a + b, filter);
        h + KeepPassing(a[1..] + b, filter);
        h + (KeepPassing(a[1..], filter) + KeepPassing(b, filter));
        (h + KeepPassing(a[1..], filter)) + KeepPassing(b, filter);
      }
    }
  }

  /** A single game is kept exactly when it passes the filters. */
  lemma KeepPassingOne(g: Game, filter: string)
    ensures KeepPassing([g], filter) == if Passes(g, filter) then [g] else []
  {
    assert [g][1..] == [];
  }

  /** `ParseGames` on the lines of a file: exactly the games that pass the
      filters, each as often as the log holds it, sorted non-increasing by
      (Date, Time), games with equal keys in log order. */
  function ParseGames(lines: seq<string>, filter: string): (r: seq<Game>)
    ensures forall k :: 0 <= k < |r| ==> |r[k].sp1| > 0
    ensures filter != "" ==> forall k :: 0 <= k < |r| ==>
      EqualsIgnoreCase(r[k].white, filter) || EqualsIgnoreCase(r[k].black, filter)
    ensures forall g :: multiset(r)[g] == if Passes(g, filter) then multiset(Scan(lines))[g] else 0
    ensures Sorted(r)
    ensures forall d, t :: WithKey(r, d, t) == WithKey(KeepPassing(Scan(lines), filter), d, t)
    ensures forall k :: 0 <= k < |r| ==> Alternating(r[k])
  {
    var kept := KeepPassing(Scan(lines), filter);
    var r := SortGames(kept);
    ScanSpec(lines);
    PassingMembers(Scan(lines), filter, r);
    r
  }

  /** Every member of a permutation of the kept games passes the filters and,
      when all games alternate, alternates. */
  lemma PassingMembers(games: seq<Game>, filter: string, r: seq<Game>)
    requires AllAlternating(games)
    requires multiset(r) == multiset(KeepPassing(games, filter))
    ensures forall k :: 0 <= k < |r| ==> Passes(r[k], filter) && Alternating(r[k])
  {
    forall k | 0 <= k < |r|
      ensures Passes(r[k], filter) && Alternating(r[k])
    {
      assert r[k] in multiset(r);
      assert r[k] in multiset(games);
      var j :| 0 <= j < |games| && games[j] == r[k];
    }
  }

  /** `ParseGames` on a path: a file that does not exist yields no games. */
  function ParseGamesFile(files: map<string, seq<string>>, path: string, filter: string): (r: seq<Game>)
    ensures path !in files ==> r == []
    ensures path in files ==> r == ParseGames(files[path], filter)
    ensures Sorted(r) && forall k :: 0 <= k < |r| ==> Passes(r[k], filter)
  {
    if path !in files then []
    else
      var r := ParseGames(files[path], filter);
      assert forall k :: 0 <= k < |r| ==> r[k] in multiset(r);
      r
  }
}
