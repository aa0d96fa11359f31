# Toguz Kumalak game-log processor: parse-and-merge engine

This project models the core of a tool that processes game logs of Toguz
Kumalak, a mancala game. The tool reads a plain-text game log. Each game
starts with a `[White "..."]` tag and may have `[Black "..."]`,
`[Date "..."]` and `[Time "..."]` tags, followed by movetext lines. The log
becomes a list of `Game` records. Each game holds its four tag values and
two move lists: `sp1` for the first player and `sp2` for the second.

`ParseGames` drops games without moves and optionally keeps only one
player's games, matched case-insensitively. It returns the rest newest
first, by Date and then by Time. `WriteGamesToCsv` merges each game into a
comma-separated table named after its opening move, inside `output/` or
`<player>_output/`. A game is added as one new column triplet:

- row 0 holds the players;
- row 1 holds the date and time;
- rows 2 and later hold the moves, one pair per row.

A game whose Date and Time already appear in its table is skipped. The
function returns how many games were added.

The modules follow the program:

- `Text` models the .NET string primitives the parser uses: `Trim`, ordinal
  `StartsWith`, `Split`/`Join`, ordinal comparison, and ASCII
  case-insensitive equality.
- `Games` holds the `Game` record and the alternation invariant. `Played(g)`
  interleaves `sp1` and `sp2` into the order the moves were placed. It is
  the reference every move-placement property is stated against.
- `MoveText` models `ParseMoves`:
  - comment stripping (`\{.*?\}`), worked out exactly, including `.` not
    matching a line feed;
  - tokenising on spaces and tabs;
  - move-number tokens are skipped;
  - result tokens are attached to the last move;
  - other tokens alternate between the lists.
- `GameOrder` models the descending (Date, Time) order as a stable insertion
  sort. It proves the sort is a permutation, sorted, and stable.
- `Parser` models the `ParseGames` line loop as a fold. The parser state is
  the list of registered games. The game being filled is always the last
  one, because the source adds a game to the list when it creates it.
- `Archive` models bucket naming, `IsDuplicate`, and the merge of one game
  into a table. The merge is split into the source's four steps: header row,
  meta row, growth, move rows. The batch loop runs over a file system given
  as a map from path to the file's lines.

A result token goes onto the move played last. That is the last entry of
`sp1` when `sp1` is longer than `sp2`, and otherwise the last entry of `sp2`
if there is one (GameParser.cs:84-85). `PlaceTokenSpec` states this against
the single sequence of played moves.

## Model

| member | source | states |
|---|---|---|
| Text.TrimSpec | GameParser.cs:28 | The trimmed line is a contiguous slice of the raw line. It neither starts nor ends with white space, and everything cut away on either side is white space. |
| Text.SecondPiece | GameParser.cs:30 | `Split('"')[1]` is the maximal quote-free text after the first quote. It ends at the next quote or at the end of the line. |
| Parser.TagValueSpec | GameParser.cs:30-33 | On a line opening a tag, the tag value is the text after the tag's own quote up to the next quote, or up to the end of the line when the closing quote is missing. |
| Parser.StepWhite | GameParser.cs:30 | A `[White "` line registers a new game with empty Black, Date, Time and move lists. Its White is the tag value. Earlier games are untouched. |
| Parser.StepOther | GameParser.cs:31-34 | Any other line changes only the current game. Before the first White tag it changes nothing, so tags and moves with no current game are dropped. |
| Parser.StepBlack | GameParser.cs:31 | When there is a current game, a `[Black "` line sets its Black to the tag value. Every other field and every earlier game stay as they were. |
| Parser.StepDate | GameParser.cs:32 | When there is a current game, a `[Date "` line sets its Date to the tag value. Every other field and every earlier game stay as they were. |
| Parser.StepTime | GameParser.cs:33 | When there is a current game, a `[Time "` line sets its Time to the tag value. Every other field and every earlier game stay as they were. |
| Parser.StepIgnored | GameParser.cs:28-34 | A line that opens none of the four tags and is no movetext line leaves the list of games as it was. |
| Parser.MoveLineIsNoTag | GameParser.cs:30-34 | A line starting with a digit matches none of the four tag prefixes (White, Black, Date, Time), so the movetext branch is the one taken for it. |
| Parser.StepMoves | GameParser.cs:34 | A movetext line changes only the current game's move lists. Its played moves go through the comment-stripped tokens one by one under the move-number, result and append rule (`PlayTokens`), and it stays alternating. Its White, Black, Date and Time and every earlier game are unchanged. |
| Parser.StepAlternating | GameParser.cs:28-35 | Every line preserves the alternation invariant in every registered game. |
| Parser.ScanSpec | GameParser.cs:25-35 | The loop registers exactly one game per `[White "` line, and every game it registers is alternating. |
| Parser.ScanFromAppend | GameParser.cs:28-35 | The loop is a left fold: running it over `a + b` equals running it over `b` from the state `a` leaves behind. |
| Parser.IgnoredBeforeWhite | GameParser.cs:26-34 | Lines before the first `[White "` tag have no effect on the result. |
| Parser.ConsecutiveMoveLines | GameParser.cs:34 | Two consecutive movetext lines go into the same game. Its played moves are the tokens of the first line, then those of the second. |
| Parser.KeepPassing | GameParser.cs:37-39 | Each game is kept, as often as it occurs, exactly when it has a first-player move and, if a filter is set, a matching White or Black name. Other games are dropped. |
| Parser.KeepPassingAppend | GameParser.cs:37-39 | Filtering a concatenation gives the filtered parts in the same order: the filter never reorders games. |
| Parser.KeepPassingOne | GameParser.cs:37-39 | A single game is kept exactly when it passes the filters. |
| Parser.ParseGames | GameParser.cs:25-40 | The result is the games of the log that pass the filters, each as often as the log holds it. It has no game without moves, only games of the filtered player, and only alternating games. It is ordered newest (Date, Time) first, and games with equal keys keep their order in the log. |
| Parser.ParseGamesFile | GameParser.cs:21-24 | A path that does not exist yields the empty list rather than an error. An existing file yields exactly `ParseGames` of its lines, so the result is sorted and every game passes the filters. |
| MoveText.StripComments | GameParser.cs:78 | Removing comments never lengthens the line or adds characters. A line without `{` is unchanged. On a single line no `{` is followed by a `}` afterwards, so no complete comment remains. |
| MoveText.StripPlain | GameParser.cs:78 | Text before the first `{` is kept unchanged, and the rest of the line is stripped on its own. |
| MoveText.StripComment | GameParser.cs:78 | A `{`, then text with no `}` and no line feed, then `}` is removed as a whole, and stripping goes on after it. |
| MoveText.StripUnclosed | GameParser.cs:78 | A `{` that no `}` follows before a line feed or the end of the line is kept as text, and stripping goes on after it. |
| MoveText.TokensAtSeparator | GameParser.cs:79 | Any single space or tab splits the text: the tokens of the whole are the tokens before it followed by the tokens after it. |
| MoveText.TokensCoverText | GameParser.cs:79 | The tokens, run together, are the line with all spaces and tabs deleted. Together with the contract of `Tokens` (non-empty, separator-free tokens), no text is lost or invented. |
| MoveText.TokensOfJoin | GameParser.cs:79 | Tokenising separator-free words joined by single spaces gives back the words. |
| MoveText.NotMoveNumber | GameParser.cs:82 | A token that ends in neither a dot nor a line feed does not match `^\d+\.$`. |
| MoveText.PlaceMove | GameParser.cs:88 | An ordinary token is appended to the played sequence and alternation is kept. |
| MoveText.PlaceResultFirst | GameParser.cs:84 | When the first player moved last, a result token is glued as ` (tok)` onto that last move, and nothing else changes. |
| MoveText.PlaceResultSecond | GameParser.cs:85 | When the second player moved last, a result token is glued onto that last move, and nothing else changes. |
| MoveText.PlaceTokenSpec | GameParser.cs:80-89 | For every token, the lists stay alternating and the tags are untouched. The played sequence changes as the single-sequence rule says: move numbers are skipped, results are glued onto the last move (if any), and anything else is appended. |
| MoveText.PlaceTokenLengths | GameParser.cs:82-88 | Move numbers and results never add a list entry. Any other token goes to `sp1` when the lists are equally long, and to `sp2` otherwise. |
| MoveText.PlaceTokensSpec | GameParser.cs:80-89 | Over a whole token sequence, alternation and the tags are kept, and the played sequence follows the single-sequence rule token by token. |
| MoveText.ParseMovesSpec | GameParser.cs:76-90 | One movetext line keeps its game alternating, leaves the tags unchanged, and extends the played moves by the line's tokens with comments removed. |
| MoveText.ResultExample | GameParser.cs:76-90 | `1. e2e4 e7e5 1-0` on a new game gives `sp1 = ["e2e4"]` and `sp2 = ["e7e5 (1-0)"]`. |
| GameOrder.Insert | GameParser.cs:40 | Inserting into a sorted list gives a sorted list with one more copy of the game. The games of each key keep their relative order, with the new game first. |
| GameOrder.SortGames | GameParser.cs:40 | The result is a permutation of the input. It is non-increasing by (Date, Time) under ordinal order, and stable. |
| GameOrder.LaterDateFirst | GameParser.cs:40 | A game dated 2024.02.01 comes before one dated 2024.01.01. |
| Archive.Sanitize | GameParser.cs:51 | Sanitising keeps the length and leaves no forbidden file-name character. Every allowed character stays in place, and every forbidden one becomes `_`. |
| Archive.BucketNameSpec | GameParser.cs:51 | The bucket file name is the opening move (or `Unbekannt` for a game with no moves) plus `.csv`, with each forbidden character replaced by `_` and every other character kept in place. |
| Archive.SanitizeClean | GameParser.cs:51 | A name without forbidden characters is left as it is. |
| Archive.SanitizeExample | GameParser.cs:51 | A game opening with `N/f3*` is stored in the file `N_f3_.csv`. |
| Archive.TargetFolder | GameParser.cs:45 | Without a filter the folder is `output`. With a filter it is the filter followed by `_output`. |
| Archive.BucketPathInFolder | GameParser.cs:45-52 | Every bucket path lies inside the target folder. |
| Archive.LoadRendered | GameParser.cs:53-71 | Loading a saved table gives the table back when no row is empty and no cell holds a comma. |
| Archive.RenderLoaded | GameParser.cs:53-71 | Saving a loaded table writes back the file's lines unchanged. |
| Archive.LoadedStorable | GameParser.cs:53 | Every loaded table has no empty row and no comma in a cell. |
| Archive.DuplicateFrom | GameParser.cs:95-97 | Scanning from column `col` in steps of 3 finds a match exactly when some triplet column at or after `col` holds the game's Date, followed by its Time in row 1. |
| Archive.IsDuplicate | GameParser.cs:92-99 | A game is a duplicate exactly when the table has at least two rows and some triplet start column in the header's range holds its Date and Time in row 1. A table with fewer than two rows holds no duplicate. |
| Archive.AddHeader | GameParser.cs:58-59 | Afterwards a header row exists. It gains the player triplet after its old cells, and every other row is unchanged. |
| Archive.AddMeta | GameParser.cs:61-62 | Afterwards a meta row exists. A new one is padded to the old header width; it gains the Date/Time triplet, and the other rows are unchanged. |
| Archive.Grow | GameParser.cs:64-65 | The table reaches the required row count. Old rows are kept, and new rows are empty cells of the padding width. |
| Archive.FillMoves | GameParser.cs:67-70 | Every row from the first move row on gains the game's move triplet. Earlier rows are unchanged. |
| Archive.AppendGame | GameParser.cs:58-70 | A merge gives `max(old rows, longest move list + 2)` rows. Every old row keeps its cells and gains the game's triplet for that row. Every new row is padding to the old header width followed by its triplet. |
| Archive.AppendKeepsRectangular | GameParser.cs:58-70 | In a table whose rows all have width 3k, a merge leaves every row of width 3(k+1), so the column count stays a multiple of 3. |
| Archive.AppendAllRectangular | GameParser.cs:58-71 | After any sequence of merges into a rectangular table of whole triplets, the table is still rectangular with three more columns per game, so its column count stays a multiple of 3. |
| Archive.AppendKeepsAligned | GameParser.cs:58-62 | A merge keeps header and meta rows made of whole triplets, with the meta row no wider than the header. |
| Archive.AppendedIsDuplicate | GameParser.cs:55-62 | A game just merged into an aligned table is a duplicate of that table. |
| Archive.AppendKeepsDuplicate | GameParser.cs:58-70 | A merge never hides an earlier duplicate. |
| Archive.AppendDuplicateIff | GameParser.cs:58-62 | After a merge of `g`, a game `h` is a duplicate exactly when it was one before, or it has `g`'s Date and Time, or the table was a lone non-empty header row and `h` has empty Date and Time (the new meta row starts with empty padding). |
| Archive.AppendStorable | GameParser.cs:58-71 | Merging a comma-free game into a storable table gives a storable table. |
| Archive.WriteGame | GameParser.cs:49-72 | One game adds one to the count exactly when its bucket does not already hold its Date and Time. A skipped game leaves every file as it was. No file except the game's own bucket is changed or created. |
| Archive.WriteAll | GameParser.cs:47-73 | The count of added games never exceeds the number of games. |
| Archive.WriteAllAppend | GameParser.cs:49-72 | The loop takes the games in input order. A batch `a + b` is the batch `a`, then the batch `b` on the files `a` left behind, and the two counts add. |
| Archive.WriteAllOne | GameParser.cs:49-72 | A batch of one game is exactly one iteration of the loop body. |
| Archive.WriteAllInOrder | GameParser.cs:49-72 | Take games that all go to one aligned bucket that is not a one-line file, hold no commas, are new to the bucket and have pairwise different Date/Time pairs. Afterwards the bucket loads as its old table with the games merged in input order, first game first, and all of them are counted. |
| Archive.WriteAllKeeps | GameParser.cs:49-72 | A file that is no bucket of any game of the batch keeps its lines. |
| Archive.WriteAllCreates | GameParser.cs:49-72 | Every file the loop creates is the bucket of some game of the batch. |
| Archive.WriteGamesToCsv | GameParser.cs:43-74 | Files outside the target folder are untouched, and new files appear only inside it. For comma-free games and countable buckets, the count is the number of distinct (bucket, Date, Time) keys of the batch that the archive did not hold before. In every case it is at most the number of games. |
| Archive.HeldAfterWrite | GameParser.cs:53-71 | After a new game is written into an aligned bucket that is not a one-line file, another game is held by its bucket exactly when it was held before or it has the written game's bucket, Date and Time. |
| Archive.NewKeysStep | GameParser.cs:55-56 | The batch's new keys number one more than those the rest of the batch finds after the first game exactly when the first game is counted. |
| Archive.WriteAllCount | GameParser.cs:47-73 | The loop's count equals the number of distinct (bucket, Date, Time) keys of the batch that the archive did not hold before. A game counts unless its bucket already held its key or an earlier game of the batch brought it. |
| Archive.WriteGameLoads | GameParser.cs:53-71 | After a non-duplicate game is written, its bucket loads as the merged table and every other file loads as before. |
| Archive.WriteGameRecords | GameParser.cs:53-71 | After a game is written (into an aligned bucket) it is a duplicate of its bucket. Earlier duplicates stay duplicates, and aligned buckets stay aligned. |
| Archive.WriteAllRecords | GameParser.cs:49-72 | After a batch, every game of the batch is a duplicate of its bucket. |
| Archive.WriteAllSkipsRecorded | GameParser.cs:49-56 | A batch whose every game is already a duplicate changes no file and adds nothing. |
| Archive.WriteTwiceAddsNothing | GameParser.cs:43-74 | Writing the same games a second time adds nothing and leaves every file as the first call left it. |
| Archive.SameDateTimeSkipped | GameParser.cs:55 | Two different games in the same bucket with equal Date and Time collide: the second is skipped. This includes two games without Date and Time tags. |
| Archive.SharedOpeningScenario | GameParser.cs:43-74 | Two `e2e4` games with different keys go into `output/e2e4.csv`. The first call adds 2 and the second adds 0. |

## Left out

- File I/O is modelled as a map from path to lines:
  - `File.Exists`, `ReadAllLines` and `WriteAllLines` are modelled on the map;
  - `Directory.CreateDirectory` is not modelled;
  - I/O exceptions are not modelled.
- Saving and loading treat a file as its sequence of lines. A cell holding a line break would be split differently on reload. Cells from the parser never hold one, but arbitrary `Game` values passed to `WriteGamesToCsv` could.
- `Path.Combine` is modelled as joining with `/`.
- `StartsWith(string)` and `OrderByDescending` use the current culture in .NET. They are modelled as ordinal comparisons.
- `OrdinalIgnoreCase` is modelled as ASCII case folding.
- `char.IsDigit` and `\d` are modelled as ASCII digits.
- .NET strings are UTF-16 code units and Dafny `char`s are Unicode scalar values. Ordinal order differs only for characters outside the Basic Multilingual Plane.
- A `null` filter is not modelled: it behaves like the empty filter, which is modelled.
- The desktop shell, the CSV viewer window and the application entry point are user interface code. They are not part of this model.
- Archive.WriteTwiceAddsNothing: proved only for games without commas in any cell and for bucket files whose header and meta rows are aligned. A missing file and every file the tool writes itself qualify. The code splits rows on `,` without quoting, so a comma in a name or move shifts cells on reload and the second call can then add the game again.
- Archive.AppendKeepsRectangular: assumes every row already has the same width. A hand-edited file with ragged rows keeps its ragged rows.
- Archive.WriteAll: its own contract states only the upper bound on the count. The exact count is the separate lemma `WriteAllCount`, and the input order is the separate lemmas `WriteAllAppend`, `WriteAllOne` and `WriteAllInOrder`.
- Archive.WriteGamesToCsv: the exact count is promised only for games without commas in any cell and for buckets that are aligned and are not a one-line file. A missing file and every file the tool writes itself qualify. A one-line file is a header with no meta row. Once a game is merged into it, the new meta row starts with empty padding cells, so any later game of that bucket with empty Date and Time is taken for a duplicate (see `AppendDuplicateIff`).
- GameOrder.SortGames: ordinal order instead of the culture-sensitive default comparer.
