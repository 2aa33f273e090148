# Degrees of separation and tic-tac-toe, modelled in Dafny

This project models two small search programs.

**Degrees of separation** (`degrees/degrees.py`):
- An in-memory store holds three dictionaries:
  - `names`: a lower-cased name to a set of person ids;
  - `people`: a person id to a name, a birth year and a set of movie ids;
  - `movies`: a movie id to a title, a year and a set of star ids.
- `load_data` fills the store from people, movie and star records.
- `person_id_for_name` looks up a person by name.
- `neighbors_for_person` lists the (movie, co-star) pairs of a person.
- `shortest_path` is a breadth-first search with a FIFO frontier of parent-linked search nodes. It rebuilds the found connection by walking the parent links back to the root.

**Tic-tac-toe** (`tictactoe/tictactoe.py`):
- the board and the rules: `initial_state`, `player`, `actions`, `result`, `winner`, `terminal`, `utility`;
- the exhaustive minimax search: `minimax`, with the mutually recursive `min_value` and `max_value`.

Files:
- `wrappers.dfy`: the `Option` type.
- `degrees_graph.dfy`, module `DegreesGraph`: the loaded graph as a value. It defines edges, connections (walks), shortest and simple connections, and the lemmas about them.
- `degrees_data.dfy`, module `DegreesData`:
  - the store as a class `Database`, whose three map fields are updated in place by the loading methods, and the name lookup;
  - each loading loop proved equal to a fold over its records (`PeopleAfter`, `NamesAfter`, `MoviesAfter`, `JoinAll`), and lemmas stating what those folds put in the maps.
- `degrees_search.dfy`, module `DegreesSearch`:
  - `neighbors_for_person`, the parent-chain walk and the breadth-first search, as methods with loops;
  - the search invariant as ghost predicates.
- `tictactoe_board.dfy`, module `TicTacToeBoard`: the board as a 3×3 sequence value, and the rules that are plain conditionals (winner, terminal, utility). It also holds the counting and legality lemmas.
- `tictactoe_rules.dfy`, module `TicTacToeRules`: `player`, `actions` and `result`, as methods with the source's loops.
- `tictactoe_search.dfy`, module `TicTacToeSearch`:
  - the game values as ghost specification functions `MinSpec` and `MaxSpec`;
  - `min_value` and `max_value` as methods proved equal to them;
  - `minimax` as a method proved to return an optimal open move for the player to move, stated through those values.

## Model

| member | source | states |
|---|---|---|
| DegreesData.Database.constructor | degrees/degrees.py:8-15 | the three dictionaries start empty, and the store is valid (names indexed, stars known) |
| DegreesData.Database.LoadPerson | degrees/degrees.py:26-34 | one people record gives a fresh entry with no movies, filed under its lower-cased name; keeps the name index valid; movies untouched |
| DegreesData.IndexPersonKeepsIndexed | degrees/degrees.py:31-34 | adding a person to the name index keeps every person findable under their lower-cased name, and every index entry a non-empty set of known ids |
| DegreesData.Database.LoadMovie | degrees/degrees.py:40-44 | one movie record gives a fresh entry with no stars; people and names untouched |
| DegreesData.Database.LoadStar | degrees/degrees.py:50-54 | the KeyError cases: an unknown person changes nothing; a known person with an unknown movie changes only the person's side; both known adds each to the other's set; the two sides of the join stay in agreement |
| DegreesData.IndexPerson | degrees/degrees.py:31-34 | the record's id joins the ids filed under its lower-cased name, the key being added if new; every other key keeps its ids |
| DegreesData.Database.LoadPeople | degrees/degrees.py:25-34 | the people loop: the people keys are the old keys plus the record ids; each id holds its last record's name and birth with no movies; everybody else is unchanged; each key's filed ids grow by exactly the ids of the records with that lower-cased name; the index stays valid; no movie is touched |
| DegreesData.PeopleAfterKeys | degrees/degrees.py:25-30 | the people records add exactly their ids |
| DegreesData.PeopleAfterLast | degrees/degrees.py:26-30 | a later record for the same id overwrites an earlier one: the last record's name and birth stay, with no movies |
| DegreesData.PeopleAfterOthers | degrees/degrees.py:25-30 | a person with no record keeps their entry |
| DegreesData.PeopleAfterFresh | degrees/degrees.py:26-30 | everybody with a record starts with no movies |
| DegreesData.NamesAfterFiled | degrees/degrees.py:31-34 | the ids filed under a key are the old ones plus the ids of every record whose lower-cased name is that key, stale entries of overwritten ids included |
| DegreesData.NamesAfterKeys | degrees/degrees.py:31-34 | the index gains exactly the records' lower-cased names as keys |
| DegreesData.Database.LoadMovies | degrees/degrees.py:39-44 | the movie loop: the movie keys are the old keys plus the record ids; each id holds its last record's title and year with no stars; every other movie is unchanged; people and names are untouched |
| DegreesData.MoviesAfterKeys | degrees/degrees.py:39-44 | the movie records add exactly their ids |
| DegreesData.MoviesAfterLast | degrees/degrees.py:40-44 | a movie holds its last record's title and year, with no stars |
| DegreesData.MoviesAfterOthers | degrees/degrees.py:39-44 | a movie with no record keeps its entry |
| DegreesData.MoviesAfterFresh | degrees/degrees.py:40-44 | every movie with a record starts with no stars |
| DegreesData.Database.LoadStars | degrees/degrees.py:49-54 | the star loop: each person gains exactly the movie ids of the star records naming them; each movie gains exactly the known people of the star records naming it; names and the sets of keys are unchanged; the store stays valid and joined |
| DegreesData.JoinAllKeys | degrees/degrees.py:49-54 | star records never add or remove a person or a movie |
| DegreesData.JoinAllPeople | degrees/degrees.py:50-51 | a known person's movies grow by the movie ids of exactly the star records naming them, unknown movies included; the rest of the entry is unchanged |
| DegreesData.JoinAllMovies | degrees/degrees.py:51-54 | a movie's stars grow by exactly the people of the star records naming it whose person is known; the rest of the entry is unchanged |
| DegreesData.LoadedEntries | degrees/degrees.py:18-54 | after loading from nothing: the keys are exactly the record ids; each person holds their last record's fields and the movies of their star records; each movie holds its last record's fields and the known people of its star records |
| DegreesData.Database.LoadData | degrees/degrees.py:18-54 | loading into the empty store gives exactly the store and index described above: keys, last-record fields, joined movies and stars, the name index of every people record, a valid and two-sided join |
| DegreesData.Database.PersonIdForName | degrees/degrees.py:139-157 | the ids filed under the lower-cased name decide: no match exactly when there are none; a single match is that one id, a known person; several are handed back as exactly the set filed there |
| DegreesGraph.SelfNeighbor | degrees/degrees.py:165-170 | after loading, a person is their own co-star through each of their known movies |
| DegreesGraph.EdgeSymmetric | degrees/degrees.py:50-52 | after loading, co-starring is symmetric |
| DegreesGraph.ClosedHoldsWalks | degrees/degrees.py:110-131 | a set holding the source and closed under co-stars holds the end of every connection; this is why exhaustion means "not connected" |
| DegreesGraph.ShortestIsSimple | degrees/degrees.py:112-119 | a shortest connection never visits anybody twice and never returns to the source |
| DegreesGraph.Shortcut | degrees/degrees.py:112-119 | a connection that visits somebody twice can be shortened to one ending at the same person |
| DegreesSearch.NeighborsForPerson | degrees/degrees.py:160-170 | a KeyError exactly when the person or one of their movies is unknown; otherwise the pairs are exactly (m, q) with m a movie of the person and q a star of m |
| DegreesSearch.ContainsState | degrees/degrees.py:119 | `frontier.contains_state(q)` holds exactly when `q` is the state of a node on the frontier |
| DegreesSearch.Backtrack | degrees/degrees.py:122-127 | walking the parent links and reversing gives the steps from the root down to the node |
| DegreesSearch.Exhausted | degrees/degrees.py:110-112 | with the frontier empty and every co-star of every explored person explored, a target other than the source is unreachable |
| DegreesSearch.LevelUp | degrees/degrees.py:104-112 | once the FIFO frontier moves to depth k+1, everybody within k+1 steps has been seen |
| DegreesSearch.Dequeue | degrees/degrees.py:112-114 | removing the front node and exploring its state keeps the frontier invariant: each state held once, never an explored one, depths non-decreasing |
| DegreesSearch.Discover | degrees/degrees.py:119-129 | a newly reached co-star gets a node whose depth is a shortest distance, and queuing it keeps the frontier invariant |
| DegreesSearch.AddNeighbors | degrees/degrees.py:118-131 | either the search state is kept, with the old frontier a prefix of the new one, or the target's node is returned, traced from the source and at shortest distance |
| DegreesSearch.ShortestPath | degrees/degrees.py:92-131 | a found path is non-empty and a real connection ending at the target; it is the shortest; no person repeats and the source never reappears. An empty frontier is reached only when the target is unreachable (or is the source). A KeyError happens only at a reachable person who cannot be expanded. As written there is never a path to oneself and never a `None` |
| DegreesSearch.Degrees | degrees/degrees.py:92-131 | corrected search: a person is zero steps from themself, and exhaustion means "not connected", which is then provably so |
| TicTacToeBoard.InitialState | tictactoe/tictactoe.py:14-22 | every cell of the starting board is EMPTY |
| TicTacToeBoard.InitialStateFacts | tictactoe/tictactoe.py:14-30 | the starting board has all nine cells open and no line; the game is not over; X is to move; the counts are legal |
| TicTacToeBoard.EmptyCellsMember | tictactoe/tictactoe.py:48-53 | a move is open exactly when it is on the board and its cell is EMPTY |
| TicTacToeBoard.ApplyChanges | tictactoe/tictactoe.py:63-67 | writing a mark changes that one cell and no other, and closes exactly that move |
| TicTacToeBoard.Play | tictactoe/tictactoe.py:55-70 | every move closes exactly one open cell, which is why the search terminates |
| TicTacToeBoard.TurnsAlternate | tictactoe/tictactoe.py:25-42 | from legal counts, a move keeps the counts legal and passes the turn to the other mark |
| TicTacToeBoard.ApplyCounts | tictactoe/tictactoe.py:33-38 | placing a mark adds one to that mark's count, takes one from the EMPTY count, and leaves the others alone |
| TicTacToeBoard.NextMark | tictactoe/tictactoe.py:33-41 | the counting rule of `player`: in legal play, X is to move exactly when the two counts are level |
| TicTacToeBoard.Winner | tictactoe/tictactoe.py:72-90 | `winner`: the first full line decides; characterised by WinnerFirstLine |
| TicTacToeBoard.Terminal | tictactoe/tictactoe.py:92-101 | `terminal`: a winner or no open move; characterised by TerminalIff |
| TicTacToeBoard.Utility | tictactoe/tictactoe.py:103-113 | `utility`: 1, -1 or 0 on a finished board, nothing otherwise; characterised by UtilityValues |
| TicTacToeBoard.FirstWinner | tictactoe/tictactoe.py:76-90 | a mark is returned only for the first full line from the given line on; `None` only when none of those lines is full |
| TicTacToeBoard.WinnerFirstLine | tictactoe/tictactoe.py:72-90 | the winner holds a full line; there is no winner exactly when no line is full; rows, then columns, then diagonals: the first full line decides |
| TicTacToeBoard.TerminalIff | tictactoe/tictactoe.py:92-101 | the game is over exactly when X or O holds a line or every cell is taken |
| TicTacToeBoard.UtilityValues | tictactoe/tictactoe.py:103-113 | a value exactly on a finished board; 1 only with a line of X, -1 only with a line of O, 0 only for a full board with no line; always within -1..1 |
| TicTacToeRules.Player | tictactoe/tictactoe.py:25-42 | O exactly when the board holds more X's than O's, else X (the empty board included) |
| TicTacToeRules.Actions | tictactoe/tictactoe.py:44-53 | exactly the cells that are EMPTY |
| TicTacToeRules.Result | tictactoe/tictactoe.py:55-70 | a ValueError exactly when the move is not open; otherwise the input with that one cell set to the player to move |
| TicTacToeSearch.LeastReplyIsLeast | tictactoe/tictactoe.py:149-155 | the least of the replies' values is the value of one of the moves, and no other move's value is below it |
| TicTacToeSearch.GreatestReplyIsGreatest | tictactoe/tictactoe.py:157-163 | the greatest of the replies' values is the value of one of the moves, and no other move's value is above it |
| TicTacToeSearch.MinSpecIsLeast | tictactoe/tictactoe.py:149-155 | on a board that is not over, the min value is reached by some open move and is at most every open move's max value |
| TicTacToeSearch.MaxSpecIsGreatest | tictactoe/tictactoe.py:157-163 | on a board that is not over, the max value is reached by some open move and is at least every open move's min value |
| TicTacToeSearch.LeastSoFarAll | tictactoe/tictactoe.py:152-155 | after every open move has been tried, the running minimum is the min value and one of the moves reaches it |
| TicTacToeSearch.GreatestSoFarAll | tictactoe/tictactoe.py:160-163 | after every open move has been tried, the running maximum is the max value and one of the moves reaches it |
| TicTacToeSearch.MinValue | tictactoe/tictactoe.py:149-155 | `min_value` equals the min value of the game tree, a value in -1..1 |
| TicTacToeSearch.MaxValue | tictactoe/tictactoe.py:157-163 | `max_value` equals the max value of the game tree, a value in -1..1 |
| TicTacToeSearch.MaxAfter | tictactoe/tictactoe.py:143 | `max_value(result(board, action))` on an open move is that move's value for the maximiser |
| TicTacToeSearch.MinAfter | tictactoe/tictactoe.py:133 | `min_value(result(board, action))` on an open move is that move's value for the minimiser |
| TicTacToeSearch.MaximizingMove | tictactoe/tictactoe.py:131-136 | X's loop returns an open move whose min value is the board's max value, which no other move beats |
| TicTacToeSearch.MinimizingMove | tictactoe/tictactoe.py:141-146 | O's loop returns an open move whose max value is the board's min value, which no other move undercuts |
| TicTacToeSearch.Minimax | tictactoe/tictactoe.py:115-147 | `None` exactly on a finished board; the opening move on the empty board; otherwise an open move that is optimal for the player to move |

## Left out

- main() in degrees.py (lines 57-89) is not modelled: command-line arguments, console input, timing and printing are all I/O.
- Opening and parsing the CSV files is not modelled. Loading works on in-memory record sequences, one per file, in file order.
- `util.py` (`Node`, `QueueFrontier`, `StackFrontier`) is not part of this model:
  - the queue is a sequence with removal from the front;
  - a node is a datatype with an optional parent;
  - `StackFrontier` is unused.
- A `remove()` on an empty frontier is the outcome `EmptyFrontier`.
- The interactive branch of `person_id_for_name` for several candidates (lines 142-155) is not modelled. The model returns the candidates and leaves the choice to the caller.
- Lower: covers ASCII letters only. Python's full Unicode `str.lower()` is not modelled.
- The order in which Python iterates a set is not modelled. The search loops take elements in an arbitrary order, and every contract holds for any order. Which of several shortest paths is found, and which of several equally good moves is chosen, is left open.
- Loading starts from an empty store (`LoadData` requires it), as the module-level dictionaries do. The search itself works on any store.
- Minimax: the random opening move (lines 124-129) is the parameter `opening`. The only promise about it is that it comes back unchanged on the empty board.
- Minimax: the O-branch's empty-board check (lines 138-139) is dead, because `player` gives X on the empty board, so that branch is left out.
- `math.inf` (lines 131, 141, 152, 160) is replaced by the integers 2 and -2. Every real value lies in -1..1.
- Result: the `ValueError` for a player other than X or O (lines 68-69) cannot occur, because a mark is one of two values.
- `copy.deepcopy` is implicit. Boards are values, so `result` never changes its input.

## Findings

| source | as written | input that shows it | evidently intended | confidence | as-written member | corrected member |
|---|---|---|---|---|---|---|
| degrees/degrees.py:112-121 | the source is explored before any co-star is compared with the target, so a search from a person to themself never finds a path | `shortest_path(p, p)` for any person p | a person is zero steps from themself: an empty path | not executed | DegreesSearch.ShortestPath | DegreesSearch.Degrees |
| degrees/degrees.py:100-112 | the `while True` loop has no exit except a found path, so when the target is unreachable it calls `remove()` on an empty frontier and never returns `None` | `shortest_path(a, b)` where `a` stars in no movie and `a != b` | `None`, "not connected", as the docstring says | not executed | DegreesSearch.ShortestPath | DegreesSearch.Degrees |
