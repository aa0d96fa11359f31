/** `GameParser.WriteGamesToCsv` and `IsDuplicate`: each game goes into the
    comma-separated table named after its sanitised opening move, as one new
    column triplet, unless the table already holds a triplet with the same
    Date and Time. The file system is a map from path to the file's lines. */
module Archive {
  import opened Text
  import opened Games

  type Row = seq<string>
  type Table = seq<Row>
  type FileSystem = map<string, seq<string>>

  function Max(a: int, b: int): int {
    if a < b then b else a
  }

  // ---------------------------------------------------------------- bucket files

  /** The nine characters the bucket name may not contain: angle brackets,
      colon, double quote, both slashes, vertical bar, question mark, star. */
  predicate IsForbidden(c: char) {
    c == '<' || c == '>' || c == ':' || c == '"' || c == '/' || c == '\\'
    || c == '|' || c == '?' || c == '*'
  }

  /** The opening move made safe as a file name: every forbidden character
      is replaced by an underscore. */
  function Sanitize(s: string): (r: string)
    ensures |r| == |s|
    ensures forall k :: 0 <= k < |r| ==> !IsForbidden(r[k])
    ensures forall k :: 0 <= k < |s| && !IsForbidden(s[k]) ==> r[k] == s[k]
    ensures forall k :: 0 <= k < |s| && IsForbidden(s[k]) ==> r[k] == '_'
  {
    if |s| == 0 then ""
    else (if IsForbidden(s[0]) then "_" else [s[0]]) + Sanitize(s[1..])
  }

  /** The opening move names the bucket; a game without moves goes to "Unbekannt". */
  function BucketStem(g: Game): string {
    Sanitize(if |g.sp1| > 0 then g.sp1[0] else "Unbekannt")
  }

  function BucketName(g: Game): string {
    BucketStem(g) + ".csv"
  }

  /** `output`, or `<filter>_output` when a player filter is set. */
  function TargetFolder(filter: string): (r: string)
    ensures filter == "" ==> r == "output"
    ensures filter != "" ==> r == filter + "_output"
  {
    if filter == "" then "output" else filter + "_output"
  }

  /** The bucket file inside the folder, with `/` as the directory separator. */
  function BucketPath(folder: string, g: Game): string {
    folder + "/" + BucketName(g)
  }

  /** The bucket file name: the sanitised opening move plus `.csv`; the stem
      has the opening move's length and holds no forbidden character. */
  lemma BucketNameSpec(g: Game)
    ensures var src := if |g.sp1| > 0 then g.sp1[0] else "Unbekannt";
      var name := BucketName(g); var stem := name[..|name| - 4];
      && |stem| == |src| && name[|name| - 4..] == ".csv"
      && (forall k :: 0 <= k < |stem| ==> !IsForbidden(stem[k]))
      && (forall k :: 0 <= k < |src| && !IsForbidden(src[k]) ==> stem[k] == src[k])
      && (forall k :: 0 <= k < |src| && IsForbidden(src[k]) ==> stem[k] == '_')
  {
    var name := BucketName(g);
    assert name[..|name| - 4] == BucketStem(g);
  }

  /** Example: a game opening with `N/f3*` is stored in `N_f3_.csv`. */
  lemma SanitizeExample(g: Game)
    requires |g.sp1| > 0 && g.sp1[0] == "N/f3*"
    ensures BucketName(g) == "N_f3_.csv"
  {
    var s := "N/f3*";
    var r := Sanitize(s);
    assert !IsForbidden('N') && IsForbidden('/') && !IsForbidden('f') && !IsForbidden('3') && IsForbidden('*');
    assert r[0] == 'N' && r[1] == '_' && r[2] == 'f' && r[3] == '3' && r[4] == '_';
    assert r == ['N', '_', 'f', '3', '_'];
    assert BucketName(g) == r + ".csv";
    assert ".csv" == ['.', 'c', 's', 'v'];
    assert "N_f3_.csv" == ['N', '_', 'f', '3', '_', '.', 'c', 's', 'v'];
  }

  /** Bucket files are inside the target folder. */
  lemma BucketPathInFolder(folder: string, g: Game)
    ensures StartsWith(BucketPath(folder, g), folder + "/")
  {
    assert BucketPath(folder, g)[..|folder + "/"|] == folder + "/";
  }

  // ---------------------------------------------------------------- load and save

  /** The file's lines, each cut into cells at every comma; a missing file
      loads as the empty table. */
  function LoadTable(fs: FileSystem, path: string): Table {
    if path in fs then ParseRows(fs[path]) else []
  }

  function ParseRows(lines: seq<string>): (t: Table)
    ensures |t| == |lines|
  {
    seq(|lines|, i requires 0 <= i < |lines| => Split(lines[i], ','))
  }

  /** One line per row, the cells joined by commas. */
  function RenderRows(t: Table): (lines: seq<string>)
    ensures |lines| == |t|
  {
    seq(|t|, i requires 0 <= i < |t| => Join(t[i], ','))
  }

  predicate CommaFreeRow(row: Row) {
    forall k :: 0 <= k < |row| ==> ',' !in row[k]
  }

  /** A table that survives a save and a load: no empty row, no comma in a cell. */
  predicate Storable(t: Table) {
    forall i :: 0 <= i < |t| ==> |t[i]| > 0 && CommaFreeRow(t[i])
  }

  /** Loading what was saved gives the table back, provided it is storable. */
  lemma LoadRendered(t: Table)
    requires Storable(t)
    ensures ParseRows(RenderRows(t)) == t
  {
    forall i | 0 <= i < |t|
      ensures ParseRows(RenderRows(t))[i] == t[i]
    {
      SplitJoin(t[i], ',');
    }
  }

  /** Saving what was loaded gives the file's lines back. */
  lemma RenderLoaded(lines: seq<string>)
    ensures RenderRows(ParseRows(lines)) == lines
  {
    forall i | 0 <= i < |lines|
      ensures RenderRows(ParseRows(lines))[i] == lines[i]
    {
      JoinSplit(lines[i], ',');
    }
  }

  /** Every loaded table is storable: split pieces hold no comma, and a split is never empty. */
  lemma LoadedStorable(fs: FileSystem, path: string)
    ensures Storable(LoadTable(fs, path))
  {
    if path in fs {
      var t := LoadTable(fs, path);
      forall i | 0 <= i < |t|
        ensures |t[i]| > 0 && CommaFreeRow(t[i])
      {
        SplitPiecesFree(fs[path][i], ',');
      }
    }
  }

  // ---------------------------------------------------------------- duplicates

  /** The scan of `IsDuplicate` from column `col` on, in steps of 3. */
  function DuplicateFrom(t: Table, g: Game, col: nat): (b: bool)
    requires |t| >= 2 && col % 3 == 0
    ensures b <==> exists c :: col <= c < |t[0]| && c % 3 == 0 && c + 1 < |t[1]|
                    && t[1][c] == g.date && t[1][c + 1] == g.time
    decreases |t[0]| - col
  {
    if col >= |t[0]| then false
    else if col + 1 < |t[1]| && t[1][col] == g.date && t[1][col + 1] == g.time then true
    else
      var b := DuplicateFrom(t, g, col + 3);
      assert forall c :: col <= c < col + 3 && c % 3 == 0 ==> c == col;
      b
  }

  /** `IsDuplicate`: some triplet start column of row 0 has the game's Date and
      Time in row 1. A table with fewer than two rows holds no duplicate. */
  function IsDuplicate(t: Table, g: Game): (b: bool)
    ensures b <==> |t| >= 2 && (exists c :: 0 <= c < |t[0]| && c % 3 == 0 && c + 1 < |t[1]|
                                   && t[1][c] == g.date && t[1][c + 1] == g.time)
  {
    if |t| < 2 then false else DuplicateFrom(t, g, 0)
  }

  // ---------------------------------------------------------------- merge

  function Pad(w: nat): (r: Row)
    ensures |r| == w && forall k :: 0 <= k < w ==> r[k] == ""
  {
    seq(w, _ => "")
  }

  /** The move at index k, or the empty cell once the list has run out. */
  function MoveAt(moves: seq<string>, k: nat): string {
    if k < |moves| then moves[k] else ""
  }

  /** The three cells a game adds to row i of its table. */
  function Triplet(g: Game, i: nat): (r: Row)
    ensures |r| == 3 && r[2] == ""
  {
    if i == 0 then [g.white, g.black, ""]
    else if i == 1 then [g.date, g.time, ""]
    else [MoveAt(g.sp1, i - 2), MoveAt(g.sp2, i - 2), ""]
  }

  /** Width of the header row, 0 for an empty table. */
  function HeaderWidth(t: Table): nat {
    if |t| == 0 then 0 else |t[0]|
  }

  /** GameParser.cs lines 58-59: make sure there is a header row, then add the players. */
  function AddHeader(t: Table, g: Game): (r: Table)
    ensures |r| == Max(|t|, 1)
    ensures |t| > 0 ==> r[0] == t[0] + Triplet(g, 0)
    ensures |t| == 0 ==> r[0] == Triplet(g, 0)
    ensures forall i :: 1 <= i < |t| ==> r[i] == t[i]
  {
    var t0 := if |t| == 0 then [[]] else t;
    t0[0 := t0[0] + [g.white, g.black, ""]]
  }

  /** GameParser.cs lines 61-62: make sure there is a meta row, padded to the old
      header width, then add Date and Time. */
  function AddMeta(t: Table, g: Game): (r: Table)
    requires |t| > 0 && |t[0]| >= 3
    ensures |r| == Max(|t|, 2) && r[0] == t[0]
    ensures |t| >= 2 ==> r[1] == t[1] + Triplet(g, 1)
    ensures |t| < 2 ==> r[1] == Pad(|t[0]| - 3) + Triplet(g, 1)
    ensures forall i :: 2 <= i < |t| ==> r[i] == t[i]
  {
    var t1 := if |t| < 2 then t + [Pad(|t[0]| - 3)] else t;
    t1[1 := t1[1] + [g.date, g.time, ""]]
  }

  /** GameParser.cs line 65: append padding rows of width w until there are n rows. */
  function Grow(t: Table, n: nat, w: nat): (r: Table)
    ensures |r| == Max(|t|, n)
    ensures r[..|t|] == t
    ensures forall i :: |t| <= i < |r| ==> r[i] == Pad(w)
    decreases n - |t|
  {
    if |t| >= n then t
    else
      var r := Grow(t + [Pad(w)], n, w);
      assert r[..|t|] == (r[..|t| + 1])[..|t|];
      r
  }

  /** GameParser.cs lines 67-70: add the move triplet to every row from i on. */
  function FillMoves(t: Table, g: Game, i: nat): (r: Table)
    requires i <= |t|
    ensures |r| == |t|
    ensures forall k :: 0 <= k < i ==> r[k] == t[k]
    ensures forall k :: i <= k < |t| ==> r[k] == t[k] + Triplet(g, k)
    decreases |t| - i
  {
    if i == |t| then t
    else FillMoves(t[i := t[i] + Triplet(g, i)], g, i + 1)
  }

  /** The merge of one non-duplicate game into its table (GameParser.cs lines 58-70).
      The table gets `max(old rows, longest move list + 2)` rows; every old row
      keeps its cells and gains the game's triplet; every new row is padded
      with empty cells to the old header width before its triplet. */
  function AppendGame(t: Table, g: Game): (r: Table)
    ensures |r| == Max(|t|, Max(|g.sp1|, |g.sp2|) + 2)
    ensures forall i :: 0 <= i < |t| ==> r[i] == t[i] + Triplet(g, i)
    ensures forall i :: |t| <= i < |r| ==> r[i] == Pad(HeaderWidth(t)) + Triplet(g, i)
  {
    var t1 := AddHeader(t, g);
    var t2 := AddMeta(t1, g);
    var n := Max(|g.sp1|, |g.sp2|) + 2;
    var t3 := Grow(t2, n, |t2[0]| - 3);
    assert forall i :: 2 <= i < |t2| ==> t3[i] == t2[i];
    var r := FillMoves(t3, g, 2);
    assert |t| == 0 ==> Pad(HeaderWidth(t)) + Triplet(g, 0) == r[0];
    assert |t| < 2 ==> r[1] == Pad(HeaderWidth(t)) + Triplet(g, 1);
    r
  }

  /** All rows have width w. */
  predicate Rectangular(t: Table, w: nat) {
    forall i :: 0 <= i < |t| ==> |t[i]| == w
  }

  /** Appending to a table whose rows all have width 3k gives rows of width
      3(k+1): the column count stays a multiple of 3. */
  lemma AppendKeepsRectangular(t: Table, g: Game, w: nat)
    requires Rectangular(t, w) && w % 3 == 0 && (|t| > 0 || w == 0)
    ensures Rectangular(AppendGame(t, g), w + 3) && (w + 3) % 3 == 0
  {
  }

  /** A sequence of merges into one table, in order. */
  function AppendAll(t: Table, games: seq<Game>): Table
    decreases |games|
  {
    if |games| == 0 then t else AppendAll(AppendGame(t, games[0]), games[1..])
  }

  /** However many games are merged into a rectangular table of whole
      triplets, it stays rectangular and gains exactly three columns per game. */
  lemma {:induction false} AppendAllRectangular(t: Table, games: seq<Game>, w: nat)
    requires Rectangular(t, w) && w % 3 == 0 && (|t| > 0 || w == 0)
    ensures Rectangular(AppendAll(t, games), w + 3 * |games|)
    decreases |games|
  {
    if |games| > 0 {
      AppendKeepsRectangular(t, games[0], w);
      AppendAllRectangular(AppendGame(t, games[0]), games[1..], w + 3);
    }
  }

  /** What the duplicate check needs of a table: the header and meta rows are
      made of whole triplets and the meta row is no wider than the header. */
  predicate Aligned(t: Table) {
    |t| == 0 || (|t[0]| % 3 == 0 && (|t| >= 2 ==> |t[1]| % 3 == 0 && |t[1]| <= |t[0]|))
  }

  lemma AppendKeepsAligned(t: Table, g: Game)
    requires Aligned(t)
    ensures Aligned(AppendGame(t, g))
  {
  }

  /** A game just appended is a duplicate of its own table. */
  lemma AppendedIsDuplicate(t: Table, g: Game)
    requires Aligned(t)
    ensures IsDuplicate(AppendGame(t, g), g)
  {
    var r := AppendGame(t, g);
    var c := |r[1]| - 3;
    assert r[1][c] == g.date && r[1][c + 1] == g.time;
  }

  /** Appending never hides an earlier duplicate: old cells stay where they are. */
  lemma AppendKeepsDuplicate(t: Table, g: Game, h: Game)
    requires IsDuplicate(t, h)
    ensures IsDuplicate(AppendGame(t, g), h)
  {
    var r := AppendGame(t, g);
    var c :| 0 <= c < |t[0]| && c % 3 == 0 && c + 1 < |t[1]| && t[1][c] == h.date && t[1][c + 1] == h.time;
    assert r[0] == t[0] + Triplet(g, 0) && r[1] == t[1] + Triplet(g, 1);
    assert r[1][c] == h.date && r[1][c + 1] == h.time;
  }

  /** When merging `g` makes another game `h` a duplicate. Either `h` already
      was one, or `g` and `h` share Date and Time. The one other case is a
      table that was a lone, non-empty header row: its new meta row starts
      with empty padding cells, so a game with neither Date nor Time then
      matches the first triplet. */
  lemma AppendDuplicateIff(t: Table, g: Game, h: Game)
    requires Aligned(t)
    ensures IsDuplicate(AppendGame(t, g), h) <==>
      || IsDuplicate(t, h)
      || (g.date == h.date && g.time == h.time)
      || (|t| == 1 && |t[0]| > 0 && h.date == "" && h.time == "")
  {
    if |t| >= 2 {
      AppendDuplicateMeta(t, g, h);
    } else {
      AppendDuplicateShort(t, g, h);
    }
  }

  /** The case of a table that already has a meta row. */
  lemma AppendDuplicateMeta(t: Table, g: Game, h: Game)
    requires Aligned(t) && |t| >= 2
    ensures IsDuplicate(AppendGame(t, g), h) <==>
      IsDuplicate(t, h) || (g.date == h.date && g.time == h.time)
  {
    if IsDuplicate(AppendGame(t, g), h) {
      MetaMatchFound(t, g, h);
    }
    if IsDuplicate(t, h) {
      AppendKeepsDuplicate(t, g, h);
    }
    if g.date == h.date && g.time == h.time {
      var r := AppendGame(t, g);
      var m := |t[1]|;
      assert r[1] == t[1] + Triplet(g, 1) && |r[0]| == |t[0]| + 3;
      assert r[1][m] == h.date && r[1][m + 1] == h.time;
    }
  }

  /** A match after the merge is an old match or the new game's own cells. */
  lemma MetaMatchFound(t: Table, g: Game, h: Game)
    requires Aligned(t) && |t| >= 2
    requires IsDuplicate(AppendGame(t, g), h)
    ensures IsDuplicate(t, h) || (g.date == h.date && g.time == h.time)
  {
    var r := AppendGame(t, g);
    assert r[1] == t[1] + Triplet(g, 1) && |r[0]| == |t[0]| + 3;
    var c :| 0 <= c < |r[0]| && c % 3 == 0 && c + 1 < |r[1]| && r[1][c] == h.date && r[1][c + 1] == h.time;
    var m := |t[1]|;
    if c < m {
      assert t[1][c] == h.date && t[1][c + 1] == h.time;
    } else {
      assert c == m;
    }
  }

  /** The case of a table with no meta row yet: its new meta row is padding
      as wide as the old header, then the game's Date and Time. */
  lemma AppendDuplicateShort(t: Table, g: Game, h: Game)
    requires Aligned(t) && |t| < 2
    ensures IsDuplicate(AppendGame(t, g), h) <==>
      (g.date == h.date && g.time == h.time) || (|t| == 1 && |t[0]| > 0 && h.date == "" && h.time == "")
  {
    if IsDuplicate(AppendGame(t, g), h) {
      ShortMatchFound(t, g, h);
    }
    var r := AppendGame(t, g);
    var w := HeaderWidth(t);
    assert r[1] == Pad(w) + Triplet(g, 1) && |r[0]| == w + 3;
    if g.date == h.date && g.time == h.time {
      assert r[1][w] == h.date && r[1][w + 1] == h.time;
    }
    if |t| == 1 && |t[0]| > 0 && h.date == "" && h.time == "" {
      assert r[1][0] == h.date && r[1][1] == h.time;
    }
  }

  /** A match in a fresh meta row is either padding or the new game's cells. */
  lemma ShortMatchFound(t: Table, g: Game, h: Game)
    requires Aligned(t) && |t| < 2
    requires IsDuplicate(AppendGame(t, g), h)
    ensures (g.date == h.date && g.time == h.time) || (|t| == 1 && |t[0]| > 0 && h.date == "" && h.time == "")
  {
    var r := AppendGame(t, g);
    var w := HeaderWidth(t);
    assert r[1] == Pad(w) + Triplet(g, 1) && |r[0]| == w + 3;
    var c :| 0 <= c < |r[0]| && c % 3 == 0 && c + 1 < |r[1]| && r[1][c] == h.date && r[1][c + 1] == h.time;
    if c < w {
      assert c + 1 < w;
      assert r[1][c] == "" && r[1][c + 1] == "";
    } else {
      assert c == w;
    }
  }

  /** Every cell of the game is free of commas, so its triplets survive a save. */
  predicate CommaFreeGame(g: Game) {
    && ',' !in g.white && ',' !in g.black && ',' !in g.date && ',' !in g.time
    && CommaFreeRow(g.sp1) && CommaFreeRow(g.sp2)
  }

  lemma AppendStorable(t: Table, g: Game)
    requires Storable(t) && CommaFreeGame(g)
    ensures Storable(AppendGame(t, g))
  {
    var r := AppendGame(t, g);
    forall i | 0 <= i < |r|
      ensures |r[i]| > 0 && CommaFreeRow(r[i])
    {
      var front := if i < |t| then t[i] else Pad(HeaderWidth(t));
      assert r[i] == front + Triplet(g, i);
      TripletCommaFree(g, i);
      CommaFreeConcat(front, Triplet(g, i));
    }
  }

  predicate CommaFreeBatch(games: seq<Game>) {
    forall k :: 0 <= k < |games| ==> CommaFreeGame(games[k])
  }

  lemma TripletCommaFree(g: Game, i: nat)
    requires CommaFreeGame(g)
    ensures CommaFreeRow(Triplet(g, i))
  {
    if i >= 2 {
      assert MoveAt(g.sp1, i - 2) == "" || MoveAt(g.sp1, i - 2) in g.sp1;
      assert MoveAt(g.sp2, i - 2) == "" || MoveAt(g.sp2, i - 2) in g.sp2;
    }
  }

  lemma CommaFreeConcat(a: Row, b: Row)
    requires CommaFreeRow(a) && CommaFreeRow(b)
    ensures CommaFreeRow(a + b)
  {
    forall k | 0 <= k < |a + b|
      ensures ',' !in (a + b)[k]
    {
      if k >= |a| {
        assert (a + b)[k] == b[k - |a|];
      }
    }
  }

  // ---------------------------------------------------------------- the batch

  /** What one call leaves behind: the file system and the number of new games. */
  datatype Outcome = Outcome(files: FileSystem, added: nat)

  /** One iteration of the game loop: load the bucket, skip a duplicate,
      otherwise merge and rewrite the file. */
  function WriteGame(fs: FileSystem, folder: string, g: Game): (r: Outcome)
    ensures r.added <= 1
    ensures r.added == 1 <==> !IsDuplicate(LoadTable(fs, BucketPath(folder, g)), g)
    ensures r.added == 0 ==> r.files == fs
    ensures forall p :: p in fs && p != BucketPath(folder, g) ==> p in r.files && r.files[p] == fs[p]
    ensures r.files.Keys <= fs.Keys + {BucketPath(folder, g)}
  {
    var path := BucketPath(folder, g);
    var t := LoadTable(fs, path);
    if IsDuplicate(t, g) then Outcome(fs, 0)
    else Outcome(fs[path := RenderRows(AppendGame(t, g))], 1)
  }

  /** The game loop: each game re-reads its bucket, so later games see the
      files earlier games wrote; at most one new game is counted per game. */
  function WriteAll(fs: FileSystem, folder: string, games: seq<Game>): (r: Outcome)
    ensures r.added <= |games|
    decreases |games|
  {
    if |games| == 0 then Outcome(fs, 0)
    else
      var first := WriteGame(fs, folder, games[0]);
      var rest := WriteAll(first.files, folder, games[1..]);
      Outcome(rest.files, first.added + rest.added)
  }

  /** The loop runs through the batch in order: a batch `a + b` is the batch
      `a`, then the batch `b` on the files `a` left behind, and the counts add. */
  lemma {:induction false} WriteAllAppend(fs: FileSystem, folder: string, a: seq<Game>, b: seq<Game>)
    ensures var o := WriteAll(fs, folder, a); var o2 := WriteAll(o.files, folder, b);
      WriteAll(fs, folder, a + b) == Outcome(o2.files, o.added + o2.added)
    decreases |a|
  {
    if |a| == 0 {
      assert a + b == b;
    } else {
      assert (a + b)[0] == a[0];
      assert (a + b)[1..] == a[1..] + b;
      WriteAllAppend(WriteGame(fs, folder, a[0]).files, folder, a[1..], b);
    }
  }

  /** A batch of one game is one iteration of the loop. */
  lemma WriteAllOne(fs: FileSystem, folder: string, g: Game)
    ensures WriteAll(fs, folder, [g]) == WriteGame(fs, folder, g)
  {
    assert [g][1..] == [];
  }

  /** The game loop leaves every file that is no bucket of the batch as it was. */
  lemma {:induction false} WriteAllKeeps(fs: FileSystem, folder: string, games: seq<Game>, p: string)
    requires p in fs && forall k :: 0 <= k < |games| ==> p != BucketPath(folder, games[k])
    ensures var r := WriteAll(fs, folder, games);
      p in r.files && r.files[p] == fs[p]
    decreases |games|
  {
    if |games| > 0 {
      var first := WriteGame(fs, folder, games[0]);
      assert p != BucketPath(folder, games[0]);
      assert p in first.files && first.files[p] == fs[p];
      forall k | 0 <= k < |games[1..]|
        ensures p != BucketPath(folder, games[1..][k])
      {
        assert games[1..][k] == games[k + 1];
      }
      WriteAllKeeps(first.files, folder, games[1..], p);
    }
  }

  /** Every file the game loop creates is the bucket of some game of the batch. */
  lemma {:induction false} WriteAllCreates(fs: FileSystem, folder: string, games: seq<Game>, p: string)
    requires p in WriteAll(fs, folder, games).files && p !in fs
    ensures exists k :: 0 <= k < |games| && p == BucketPath(folder, games[k])
    decreases |games|
  {
    var first := WriteGame(fs, folder, games[0]);
    if p in first.files {
      assert p == BucketPath(folder, games[0]);
    } else {
      WriteAllCreates(first.files, folder, games[1..], p);
      var k :| 0 <= k < |games[1..]| && p == BucketPath(folder, games[1..][k]);
      assert games[1..][k] == games[k + 1];
    }
  }

  /** `WriteGamesToCsv`: files outside the target folder are never touched,
      and the count returned is the number of distinct new keys whenever
      `WriteAllCount` applies. */
  function WriteGamesToCsv(fs: FileSystem, games: seq<Game>, filter: string): (r: Outcome)
    ensures r.added <= |games|
    ensures forall p :: p in fs && !StartsWith(p, TargetFolder(filter) + "/")
              ==> p in r.files && r.files[p] == fs[p]
    ensures forall p :: p in r.files && p !in fs ==> StartsWith(p, TargetFolder(filter) + "/")
    ensures CommaFreeBatch(games) && Countable(fs, TargetFolder(filter), games) ==>
      r.added == |NewKeys(fs, TargetFolder(filter), games)|
  {
    var folder := TargetFolder(filter);
    var r := WriteAll(fs, folder, games);
    assert CommaFreeBatch(games) && Countable(fs, folder, games) ==> r.added == |NewKeys(fs, folder, games)| by {
      if CommaFreeBatch(games) && Countable(fs, folder, games) {
        WriteAllCount(fs, folder, games);
      }
    }
    forall p | p in fs && !StartsWith(p, folder + "/")
      ensures p in r.files && r.files[p] == fs[p]
    {
      forall k | 0 <= k < |games|
        ensures p != BucketPath(folder, games[k])
      {
        BucketPathInFolder(folder, games[k]);
      }
      WriteAllKeeps(fs, folder, games, p);
    }
    forall p | p in r.files && p !in fs
      ensures StartsWith(p, folder + "/")
    {
      WriteAllCreates(fs, folder, games, p);
      var k :| 0 <= k < |games| && p == BucketPath(folder, games[k]);
      BucketPathInFolder(folder, games[k]);
    }
    r
  }

  // ---------------------------------------------------------------- the count

  /** What the duplicate check compares: the bucket file, Date and Time. */
  datatype Key = Key(path: string, date: string, time: string)

  function KeyOf(folder: string, g: Game): Key {
    Key(BucketPath(folder, g), g.date, g.time)
  }

  /** The bucket of `g` in `fs` already holds a game with `g`'s Date and Time. */
  predicate Held(fs: FileSystem, folder: string, g: Game) {
    IsDuplicate(LoadTable(fs, BucketPath(folder, g)), g)
  }

  /** The keys of the games whose buckets in `fs` do not hold them yet. */
  function NewKeys(fs: FileSystem, folder: string, games: seq<Game>): set<Key> {
    set g | g in games && !Held(fs, folder, g) :: KeyOf(folder, g)
  }

  /** What the exact count needs of the archive: every bucket the batch
      touches is aligned, and none is a file of exactly one line. */
  predicate Countable(fs: FileSystem, folder: string, games: seq<Game>) {
    forall k :: 0 <= k < |games| ==>
      Aligned(LoadTable(fs, BucketPath(folder, games[k]))) && |LoadTable(fs, BucketPath(folder, games[k]))| != 1
  }

  /** The number of new games is the number of distinct (bucket, Date, Time)
      keys of the batch that the archive did not hold before: a game counts
      unless its bucket already had its Date and Time or an earlier game of
      the batch brought them. */
  lemma {:induction false} WriteAllCount(fs: FileSystem, folder: string, games: seq<Game>)
    requires CommaFreeBatch(games)
    requires Countable(fs, folder, games)
    ensures WriteAll(fs, folder, games).added == |NewKeys(fs, folder, games)|
    decreases |games|
  {
    if |games| == 0 {
      assert NewKeys(fs, folder, games) == {};
    } else {
      var rest := games[1..];
      var first := WriteGame(fs, folder, games[0]);
      CountablePreserved(fs, folder, games);
      assert forall k :: 0 <= k < |rest| ==> rest[k] == games[k + 1];
      WriteAllCount(first.files, folder, rest);
      NewKeysStep(fs, folder, games);
    }
  }

  /** One game of the batch: the new keys of the whole batch are those the
      rest of the batch leaves after it, plus one exactly when it is new. */
  lemma NewKeysStep(fs: FileSystem, folder: string, games: seq<Game>)
    requires |games| > 0 && CommaFreeGame(games[0])
    requires Countable(fs, folder, games)
    ensures var first := WriteGame(fs, folder, games[0]);
      |NewKeys(fs, folder, games)| == first.added + |NewKeys(first.files, folder, games[1..])|
  {
    var first := WriteGame(fs, folder, games[0]);
    if first.added == 0 {
      NewKeysSkip(fs, folder, games);
    } else {
      NewKeysAdd(fs, folder, games);
      var kg, after := KeyOf(folder, games[0]), NewKeys(first.files, folder, games[1..]);
      assert |{kg} + after| == 1 + |after|;
    }
  }

  /** After writing the first game, the rest of the batch is still countable. */
  lemma CountablePreserved(fs: FileSystem, folder: string, games: seq<Game>)
    requires |games| > 0 && CommaFreeGame(games[0])
    requires Countable(fs, folder, games)
    ensures Countable(WriteGame(fs, folder, games[0]).files, folder, games[1..])
  {
    var g := games[0];
    var path := BucketPath(folder, g);
    var t := LoadTable(fs, path);
    var fs1 := WriteGame(fs, folder, g).files;
    assert Aligned(t);
    if !IsDuplicate(t, g) {
      WriteGameLoads(fs, folder, g);
      AppendKeepsAligned(t, g);
    }
    forall k | 0 <= k < |games[1..]|
      ensures Aligned(LoadTable(fs1, BucketPath(folder, games[1..][k])))
      ensures |LoadTable(fs1, BucketPath(folder, games[1..][k]))| != 1
    {
      assert games[1..][k] == games[k + 1];
    }
  }

  /** A game whose bucket already holds it leaves the set of new keys as the
      rest of the batch has it. */
  lemma NewKeysSkip(fs: FileSystem, folder: string, games: seq<Game>)
    requires |games| > 0 && Held(fs, folder, games[0])
    ensures NewKeys(fs, folder, games) == NewKeys(WriteGame(fs, folder, games[0]).files, folder, games[1..])
  {
    assert forall h :: h in games <==> h == games[0] || h in games[1..];
  }

  /** A new game adds its own key, which no later game of the batch can add again. */
  lemma NewKeysAdd(fs: FileSystem, folder: string, games: seq<Game>)
    requires |games| > 0 && CommaFreeGame(games[0])
    requires Countable(fs, folder, games)
    requires !Held(fs, folder, games[0])
    ensures var after := NewKeys(WriteGame(fs, folder, games[0]).files, folder, games[1..]);
      NewKeys(fs, folder, games) == {KeyOf(folder, games[0])} + after && KeyOf(folder, games[0]) !in after
  {
    var g, rest := games[0], games[1..];
    var fs1 := WriteGame(fs, folder, g).files;
    assert Aligned(LoadTable(fs, BucketPath(folder, g))) && |LoadTable(fs, BucketPath(folder, g))| != 1;
    forall h | h in rest
      ensures Held(fs1, folder, h) <==> Held(fs, folder, h) || KeyOf(folder, h) == KeyOf(folder, g)
    {
      HeldAfterWrite(fs, folder, g, h);
    }
    NewKeysCover(fs, fs1, folder, games);
  }

  /** The set algebra of `NewKeysAdd`, given how `Held` changes for the rest of the batch. */
  lemma NewKeysCover(fs: FileSystem, fs1: FileSystem, folder: string, games: seq<Game>)
    requires |games| > 0 && !Held(fs, folder, games[0])
    requires forall h :: h in games[1..] ==>
      (Held(fs1, folder, h) <==> Held(fs, folder, h) || KeyOf(folder, h) == KeyOf(folder, games[0]))
    ensures var after := NewKeys(fs1, folder, games[1..]);
      NewKeys(fs, folder, games) == {KeyOf(folder, games[0])} + after && KeyOf(folder, games[0]) !in after
  {
    var g, rest := games[0], games[1..];
    var before, after := NewKeys(fs, folder, games), NewKeys(fs1, folder, rest);
    assert forall h :: h in games <==> h == g || h in rest;
    forall x | x in before
      ensures x in {KeyOf(folder, g)} + after
    {
      var h :| h in games && !Held(fs, folder, h) && KeyOf(folder, h) == x;
    }
    forall x | x in after
      ensures x in before && x != KeyOf(folder, g)
    {
      var h :| h in rest && !Held(fs1, folder, h) && KeyOf(folder, h) == x;
    }
    assert g in games;
  }

  /** The games all go to bucket `p`, which is aligned and not a one-line
      file; no cell holds a comma; the bucket holds none of the games yet; and
      no two games share their Date and Time. */
  predicate FreshBatch(fs: FileSystem, folder: string, games: seq<Game>, p: string) {
    && CommaFreeBatch(games)
    && (forall k :: 0 <= k < |games| ==> BucketPath(folder, games[k]) == p)
    && Aligned(LoadTable(fs, p)) && |LoadTable(fs, p)| != 1
    && (forall k :: 0 <= k < |games| ==> !Held(fs, folder, games[k]))
    && (forall j, k :: 0 <= j < k < |games| ==> games[j].date != games[k].date || games[j].time != games[k].time)
  }

  /** A fresh batch for one bucket is merged in batch order: the bucket then
      loads as the merges of the games into its old table, first game first,
      and every game is counted. */
  lemma {:induction false} WriteAllInOrder(fs: FileSystem, folder: string, games: seq<Game>, p: string)
    requires FreshBatch(fs, folder, games, p)
    ensures var r := WriteAll(fs, folder, games);
      LoadTable(r.files, p) == AppendAll(LoadTable(fs, p), games) && r.added == |games|
    decreases |games|
  {
    if |games| > 0 {
      var w := WriteGame(fs, folder, games[0]);
      InOrderStep(fs, folder, games, p);
      WriteAllInOrder(w.files, folder, games[1..], p);
    }
  }

  /** The first game of a fresh batch is merged into the bucket and counted,
      and the rest of the batch is fresh on the files left behind. */
  lemma InOrderStep(fs: FileSystem, folder: string, games: seq<Game>, p: string)
    requires |games| > 0 && FreshBatch(fs, folder, games, p)
    ensures var w := WriteGame(fs, folder, games[0]);
      && w.added == 1 && LoadTable(w.files, p) == AppendGame(LoadTable(fs, p), games[0])
      && FreshBatch(w.files, folder, games[1..], p)
  {
    var w := WriteGame(fs, folder, games[0]);
    InOrderMerge(fs, folder, games, p);
    FreshTail(fs, w.files, folder, games, p);
  }

  lemma InOrderMerge(fs: FileSystem, folder: string, games: seq<Game>, p: string)
    requires |games| > 0 && FreshBatch(fs, folder, games, p)
    ensures var w := WriteGame(fs, folder, games[0]); var t1 := LoadTable(w.files, p);
      && w.added == 1 && t1 == AppendGame(LoadTable(fs, p), games[0])
      && Aligned(t1) && |t1| != 1
      && forall k :: 1 <= k < |games| ==> !Held(w.files, folder, games[k])
  {
    var g := games[0];
    var t := LoadTable(fs, p);
    var fs1 := WriteGame(fs, folder, g).files;
    assert BucketPath(folder, g) == p && CommaFreeGame(g);
    WriteGameLoads(fs, folder, g);
    AppendKeepsAligned(t, g);
    forall k | 1 <= k < |games|
      ensures !Held(fs1, folder, games[k])
    {
      HeldAfterWrite(fs, folder, g, games[k]);
    }
  }

  /** Freshness passes to the rest of the batch once its bucket is still
      aligned and still holds none of the remaining games. */
  lemma FreshTail(fs: FileSystem, fs1: FileSystem, folder: string, games: seq<Game>, p: string)
    requires |games| > 0 && FreshBatch(fs, folder, games, p)
    requires Aligned(LoadTable(fs1, p)) && |LoadTable(fs1, p)| != 1
    requires forall k :: 1 <= k < |games| ==> !Held(fs1, folder, games[k])
    ensures FreshBatch(fs1, folder, games[1..], p)
  {
    var rest := games[1..];
    assert forall k :: 0 <= k < |rest| ==> rest[k] == games[k + 1];
  }

  /** After `g` is written, `h` is held exactly when it was held before or it
      has `g`'s key. */
  lemma HeldAfterWrite(fs: FileSystem, folder: string, g: Game, h: Game)
    requires CommaFreeGame(g)
    requires Aligned(LoadTable(fs, BucketPath(folder, g))) && |LoadTable(fs, BucketPath(folder, g))| != 1
    requires !Held(fs, folder, g)
    ensures var fs1 := WriteGame(fs, folder, g).files;
      Held(fs1, folder, h) <==> Held(fs, folder, h) || KeyOf(folder, h) == KeyOf(folder, g)
  {
    WriteGameLoads(fs, folder, g);
    if BucketPath(folder, h) == BucketPath(folder, g) {
      AppendDuplicateIff(LoadTable(fs, BucketPath(folder, g)), g, h);
    }
  }

  // ---------------------------------------------------------------- idempotence

  /** Each game of `games` is a duplicate of its bucket table in `fs`. */
  predicate Recorded(fs: FileSystem, folder: string, games: seq<Game>) {
    forall k :: 0 <= k < |games| ==> IsDuplicate(LoadTable(fs, BucketPath(folder, games[k])), games[k])
  }

  /** Each bucket table of `games` in `fs` is aligned. */
  predicate BucketsAligned(fs: FileSystem, folder: string, games: seq<Game>) {
    forall k :: 0 <= k < |games| ==> Aligned(LoadTable(fs, BucketPath(folder, games[k])))
  }

  /** After one game is written it is recorded; what was recorded stays
      recorded, and aligned buckets stay aligned. */
  lemma WriteGameRecords(fs: FileSystem, folder: string, g: Game, others: seq<Game>)
    requires CommaFreeGame(g)
    requires Aligned(LoadTable(fs, BucketPath(folder, g)))
    ensures var r := WriteGame(fs, folder, g);
      && IsDuplicate(LoadTable(r.files, BucketPath(folder, g)), g)
      && (forall k :: 0 <= k < |others| && IsDuplicate(LoadTable(fs, BucketPath(folder, others[k])), others[k])
            ==> IsDuplicate(LoadTable(r.files, BucketPath(folder, others[k])), others[k]))
      && (forall k :: 0 <= k < |others| && Aligned(LoadTable(fs, BucketPath(folder, others[k])))
            ==> Aligned(LoadTable(r.files, BucketPath(folder, others[k]))))
  {
    var path := BucketPath(folder, g);
    var t := LoadTable(fs, path);
    var r := WriteGame(fs, folder, g);
    if !IsDuplicate(t, g) {
      WriteGameLoads(fs, folder, g);
      AppendedIsDuplicate(t, g);
      AppendKeepsAligned(t, g);
      forall k | 0 <= k < |others| && IsDuplicate(LoadTable(fs, BucketPath(folder, others[k])), others[k])
        ensures IsDuplicate(LoadTable(r.files, BucketPath(folder, others[k])), others[k])
      {
        if BucketPath(folder, others[k]) == path {
          AppendKeepsDuplicate(t, g, others[k]);
        }
      }
    }
  }

  /** A game that is no duplicate is saved so that its bucket loads as the
      merged table; every other file loads as before. */
  lemma WriteGameLoads(fs: FileSystem, folder: string, g: Game)
    requires CommaFreeGame(g)
    requires !IsDuplicate(LoadTable(fs, BucketPath(folder, g)), g)
    ensures var r := WriteGame(fs, folder, g); var path := BucketPath(folder, g);
      && LoadTable(r.files, path) == AppendGame(LoadTable(fs, path), g)
      && forall q :: q != path ==> LoadTable(r.files, q) == LoadTable(fs, q)
  {
    var path := BucketPath(folder, g);
    var t := LoadTable(fs, path);
    LoadedStorable(fs, path);
    AppendStorable(t, g);
    LoadRendered(AppendGame(t, g));
  }

  /** After a batch, every game of the batch is recorded in its bucket, and
      whatever was recorded before still is. */
  lemma {:induction false} WriteAllRecords(fs: FileSystem, folder: string, done: seq<Game>, games: seq<Game>)
    requires forall k :: 0 <= k < |games| ==> CommaFreeGame(games[k])
    requires Recorded(fs, folder, done)
    requires BucketsAligned(fs, folder, games)
    ensures var r := WriteAll(fs, folder, games).files;
      Recorded(r, folder, done) && Recorded(r, folder, games)
    decreases |games|
  {
    if |games| > 0 {
      var g, rest := games[0], games[1..];
      var fs1 := WriteGame(fs, folder, g).files;
      var done1 := done + [g];
      WriteFirstRecords(fs, folder, done, games);
      WriteAllRecords(fs1, folder, done1, rest);
      var r := WriteAll(fs, folder, games).files;
      assert r == WriteAll(fs1, folder, rest).files;
      RecordedSplit(r, folder, done, games);
    }
  }

  /** The induction step: writing the first game records it next to what was
      recorded, and the remaining games' buckets stay aligned. */
  lemma WriteFirstRecords(fs: FileSystem, folder: string, done: seq<Game>, games: seq<Game>)
    requires |games| > 0 && CommaFreeGame(games[0])
    requires Recorded(fs, folder, done)
    requires BucketsAligned(fs, folder, games)
    ensures var fs1 := WriteGame(fs, folder, games[0]).files;
      Recorded(fs1, folder, done + [games[0]]) && BucketsAligned(fs1, folder, games[1..])
  {
    var g := games[0];
    var fs1 := WriteGame(fs, folder, g).files;
    WriteGameRecords(fs, folder, g, done);
    assert BucketsAligned(fs, folder, games[1..]) by {
      forall k | 0 <= k < |games[1..]|
        ensures Aligned(LoadTable(fs, BucketPath(folder, games[1..][k])))
      {
        assert games[1..][k] == games[k + 1];
      }
    }
    WriteGameRecords(fs, folder, g, games[1..]);
    var done1 := done + [g];
    forall k | 0 <= k < |done1|
      ensures IsDuplicate(LoadTable(fs1, BucketPath(folder, done1[k])), done1[k])
    {
      if k < |done| {
        assert done1[k] == done[k];
      }
    }
  }

  /** Recorded for `done + [games[0]]` and for `games[1..]` is recorded for
      `done` and for `games`. */
  lemma RecordedSplit(fs: FileSystem, folder: string, done: seq<Game>, games: seq<Game>)
    requires |games| > 0
    requires Recorded(fs, folder, done + [games[0]]) && Recorded(fs, folder, games[1..])
    ensures Recorded(fs, folder, done) && Recorded(fs, folder, games)
  {
    var done1 := done + [games[0]];
    forall k | 0 <= k < |done|
      ensures IsDuplicate(LoadTable(fs, BucketPath(folder, done[k])), done[k])
    {
      assert done1[k] == done[k];
    }
    forall k | 0 <= k < |games|
      ensures IsDuplicate(LoadTable(fs, BucketPath(folder, games[k])), games[k])
    {
      if k == 0 {
        assert done1[|done|] == games[0];
      } else {
        assert games[1..][k - 1] == games[k];
      }
    }
  }

  /** A batch of games that are all already recorded changes nothing and adds nothing. */
  lemma {:induction false} WriteAllSkipsRecorded(fs: FileSystem, folder: string, games: seq<Game>)
    requires Recorded(fs, folder, games)
    ensures WriteAll(fs, folder, games) == Outcome(fs, 0)
    decreases |games|
  {
    if |games| > 0 {
      assert IsDuplicate(LoadTable(fs, BucketPath(folder, games[0])), games[0]);
      assert Recorded(fs, folder, games[1..]) by {
        forall k | 0 <= k < |games[1..]|
          ensures IsDuplicate(LoadTable(fs, BucketPath(folder, games[1..][k])), games[1..][k])
        {
          assert games[1..][k] == games[k + 1];
        }
      }
      WriteAllSkipsRecorded(fs, folder, games[1..]);
    }
  }

  /** Idempotence: when no cell holds a comma and every bucket the batch
      touches is aligned (a missing file is), writing the same games a second
      time adds nothing and leaves every file as the first call left it. */
  lemma WriteTwiceAddsNothing(fs: FileSystem, games: seq<Game>, filter: string)
    requires forall k :: 0 <= k < |games| ==> CommaFreeGame(games[k])
    requires BucketsAligned(fs, TargetFolder(filter), games)
    ensures var first := WriteGamesToCsv(fs, games, filter);
      WriteGamesToCsv(first.files, games, filter) == Outcome(first.files, 0)
  {
    var folder := TargetFolder(filter);
    WriteAllRecords(fs, folder, [], games);
    WriteAllSkipsRecorded(WriteAll(fs, folder, games).files, folder, games);
  }

  /** Duplicates are found by Date and Time alone: once a game is written,
      any other game of the same bucket with the same Date and Time (two
      games without those tags, say) is skipped as a duplicate. */
  lemma SameDateTimeSkipped(fs: FileSystem, folder: string, g: Game, h: Game)
    requires BucketPath(folder, g) == BucketPath(folder, h)
    requires g.date == h.date && g.time == h.time
    requires CommaFreeGame(g) && Aligned(LoadTable(fs, BucketPath(folder, g)))
    ensures var first := WriteGame(fs, folder, g);
      WriteGame(first.files, folder, h) == Outcome(first.files, 0)
  {
    var first := WriteGame(fs, folder, g);
    WriteGameRecords(fs, folder, g, []);
    var t := LoadTable(first.files, BucketPath(folder, g));
    var c :| 0 <= c < |t[0]| && c % 3 == 0 && c + 1 < |t[1]| && t[1][c] == g.date && t[1][c + 1] == g.time;
    assert IsDuplicate(t, h);
  }

  // ---------------------------------------------------------------- scenario

  /** Two games opening with `e2e4` into a fresh archive without a filter:
      both land in `output/e2e4.csv`, the first call adds 2, the second 0. */
  lemma SharedOpeningScenario(fs: FileSystem, g1: Game, g2: Game)
    requires |g1.sp1| > 0 && g1.sp1[0] == "e2e4" && |g2.sp1| > 0 && g2.sp1[0] == "e2e4"
    requires g1.date != g2.date || g1.time != g2.time
    requires CommaFreeGame(g1) && CommaFreeGame(g2)
    requires "output/e2e4.csv" !in fs
    ensures BucketPath(TargetFolder(""), g1) == "output/e2e4.csv" == BucketPath(TargetFolder(""), g2)
    ensures var first := WriteGamesToCsv(fs, [g1, g2], "");
      && first.added == 2
      && WriteGamesToCsv(first.files, [g1, g2], "") == Outcome(first.files, 0)
  {
    OpeningPath(g1);
    OpeningPath(g2);
    assert TargetFolder("") == "output";
    ScenarioCount(fs, g1, g2);
    ScenarioAligned(fs, g1, g2);
    WriteTwiceAddsNothing(fs, [g1, g2], "");
  }

  lemma ScenarioCount(fs: FileSystem, g1: Game, g2: Game)
    requires BucketPath("output", g1) == "output/e2e4.csv" == BucketPath("output", g2)
    requires g1.date != g2.date || g1.time != g2.time
    requires CommaFreeGame(g1)
    requires "output/e2e4.csv" !in fs
    requires TargetFolder("") == "output"
    ensures WriteGamesToCsv(fs, [g1, g2], "").added == 2
  {
    ScenarioFirstCall(fs, g1, g2);
  }

  /** A bucket that does not exist yet is aligned for both games. */
  lemma ScenarioAligned(fs: FileSystem, g1: Game, g2: Game)
    requires BucketPath("output", g1) == "output/e2e4.csv" == BucketPath("output", g2)
    requires "output/e2e4.csv" !in fs
    ensures BucketsAligned(fs, "output", [g1, g2])
  {
    var games := [g1, g2];
    assert LoadTable(fs, "output/e2e4.csv") == [];
    assert forall k :: 0 <= k < 2 ==> BucketPath("output", games[k]) == "output/e2e4.csv";
  }

  lemma OpeningPath(g: Game)
    requires |g.sp1| > 0 && g.sp1[0] == "e2e4"
    ensures BucketPath("output", g) == "output/e2e4.csv"
  {
    SanitizeClean("e2e4");
    assert BucketName(g) == "e2e4" + ".csv";
    OpeningPathText();
  }

  lemma OpeningPathText()
    ensures "output" + "/" + ("e2e4" + ".csv") == "output/e2e4.csv"
  {
    var name := "e2e4" + ".csv";
    assert name == ['e', '2', 'e', '4', '.', 'c', 's', 'v'];
    var folder := "output" + "/";
    assert folder == ['o', 'u', 't', 'p', 'u', 't', '/'];
  }

  /** A name without forbidden characters is its own sanitised form. */
  lemma SanitizeClean(s: string)
    requires forall k :: 0 <= k < |s| ==> !IsForbidden(s[k])
    ensures Sanitize(s) == s
  {
  }

  lemma ScenarioFirstCall(fs: FileSystem, g1: Game, g2: Game)
    requires BucketPath("output", g1) == "output/e2e4.csv" == BucketPath("output", g2)
    requires g1.date != g2.date || g1.time != g2.time
    requires CommaFreeGame(g1)
    requires "output/e2e4.csv" !in fs
    ensures WriteAll(fs, "output", [g1, g2]).added == 2
  {
    var path := "output/e2e4.csv";
    var w1 := WriteGame(fs, "output", g1);
    assert LoadTable(fs, path) == [];
    assert w1.added == 1;
    var t1 := AppendGame([], g1);
    AppendStorable([], g1);
    LoadRendered(t1);
    assert LoadTable(w1.files, path) == t1;
    assert |t1[0]| == 3;
    assert !IsDuplicate(t1, g2);
    var w2 := WriteGame(w1.files, "output", g2);
    assert w2.added == 1;
    assert [g1, g2][1..] == [g2];
  }
}
