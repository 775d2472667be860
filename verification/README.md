# Cookie-and-milk board, address cipher, manifest orders and festive states

A Dafny model of the logic behind a handful of web-challenge endpoints.

- **The cookie-and-milk game** (`src/day12.rs`): a 4x4 gravity-fill board for the two
  teams Cookie and Milk. It covers the move (`place`), the win/draw detector
  (`check_winner`), the random board dealt from a seeded bit stream (`new_random`), the empty
  board (`default`) and the text rendering (`Display`). The four endpoints are modelled as
  pure steps of a session that holds the board and the position in the random stream: get
  the board, reset, place a tile with team/column validation, and deal a random board.
- **The address cipher** (`src/day2.rs`): IPv4 destination and key as octet-wise wrapping
  addition and subtraction, and IPv6 as octet-wise exclusive-or.
- **The manifest orders** (`src/day5.rs`): the keyword check, the order filter, the
  "item: quantity" text with its trim, the error chosen for each failure, and the decoder
  chosen by the Content-Type header. All of this works over an abstract decoded manifest.
- **The festive states** (`src/day23.rs`): the present colour cycle red, blue, purple and
  the ornament on/off toggle.

Files: `wrappers.dfy` (Option, Result), `board.dfy` (module `MilkCookie`), `display.dfy`
(`BoardDisplay`), `session.dfy` (`GameSession`), `ipcipher.dfy` (`IpCipher`),
`manifest.dfy` (`ManifestOrders`) and `festive.dfy` (`Festive`).

## Board geometry

Cell `4 * row + col` is addressed by `Cell(cells, row, col)`. The renderer prints cells
0..3 first, so row 0 is the top row. `place` scans a column from index `col + 12` upward
and stops at the first empty cell, so tokens fall to the highest indices. A column is full
when its top cell, index `col`, is occupied. The model follows this code.

`random_board` renders `Board::new_random(&mut data.rng)` and never assigns it, so the
session's board is unchanged by that route; only the generator advances.
`GameSession.RandomBoardStep` keeps the board and advances the stream.

## Model

| member | source | states |
|---|---|---|
| MilkCookie.Place | src/day12.rs:101-118 | A move is refused with ColumnFull exactly when the column's top cell is occupied. That test comes first. Otherwise it is refused with GameOver exactly when a winner is already recorded. A successful move lands the tile on the column's landing row: that cell is empty and every cell below it is occupied. Only that cell changes, and the new winner is the one the new cells call for. |
| MilkCookie.LandingRow | src/day12.rs:109-115 | Scanning rows 3, 2, 1, 0 of a column whose top cell is empty always finds an empty row. Every row below the one it finds is occupied. |
| MilkCookie.PlaceFillsOneCell | src/day12.rs:101-118 | A successful move by a team overwrites exactly one empty cell. The empty count drops by exactly one, and every occupied cell keeps its tile. |
| MilkCookie.GameOverIsFinal | src/day12.rs:106-108 | Once a winner (or draw) is recorded, every move is refused. |
| MilkCookie.FirstWinFrom | src/day12.rs:122-169 | The lines are scanned in order: diagonal {0,5,10,15}, diagonal {3,6,9,12}, rows from index 12 back to 0, then columns 0..3. The result is the owner of the first line whose four cells hold one team. None means no remaining line is owned. |
| MilkCookie.CheckWinner | src/day12.rs:120-176 | Cells are unchanged. If some line is owned, the winner is the first owner in scan order, and that team has four in a row on the grid. Otherwise a full board is a draw (`Some(Empty)`), and a board with room keeps its previous winner. |
| MilkCookie.LinesMatchGeometry | src/day12.rs:122-169 | The ten-line table matches the grid. A team owns a line of the table exactly when four of its tiles fill a row, a column or one of the two diagonals. |
| MilkCookie.NewRandom | src/day12.rs:178-190 | Cell i is Cookie when draw `start + i` of the stream is true and Milk otherwise. No cell is empty, so a random board always has a winner or a draw. Its winner is the one `check_winner` finds in the dealt cells. |
| MilkCookie.NewRandomDecided | src/day12.rs:178-190 | A dealt board is a draw exactly when neither team has four in a row on the grid; otherwise its winner has four in a row. |
| MilkCookie.Default | src/day12.rs:193-201 | The default board has sixteen cells, all empty, and no winner. |
| MilkCookie.DefaultReachable | src/day12.rs:193-201 | The default board is all empty and has no winner. It satisfies the invariant of played boards: every occupied cell rests on an occupied cell, and the winner is the one the cells call for. |
| MilkCookie.PlacePreservesReachable | src/day12.rs:101-118 | A successful move keeps the board settled under gravity. It also keeps the recorded winner consistent with the cells. |
| MilkCookie.FourInAColumnWins | src/day12.rs:101-176 | From the empty board, four Cookie moves into the first column give Cookie the win. A fifth move into that column is refused with ColumnFull. |
| BoardDisplay.Render | src/day12.rs:203-227 | The output is four framed rows, where row r shows cells 4r..4r+3, then a six-glyph bottom edge. Then comes "No winner." for a draw, "<tile> wins!" for a team win, and no status line while the game runs. |
| BoardDisplay.RenderInjective | src/day12.rs:203-227 | The rendering determines the board: two boards that render the same have the same cells and the same winner. |
| GameSession.Start | src/day12.rs:20-24 | The session starts with an all-empty board, no winner and an unused stream. |
| GameSession.Step | src/day12.rs:26-31 | The four routes. `/12/board` renders the current board and changes nothing. `/12/reset` yields the starting session and renders the empty board. `/12/random-board` renders the board dealt from the next sixteen draws, advances the stream by sixteen and keeps the stored board. A move is answered exactly as `PlaceStep` answers it, a column outside 0..255 being a BadRequest. BadRequest and Unavailable come only from moves and leave the session unchanged. |
| GameSession.Run | src/day12.rs:26-31 | A sequence of requests gives one response each, and a BadRequest only ever answers a move. |
| GameSession.RunAnswers | src/day12.rs:26-74 | The k-th response of a run is the answer the k-th request gets in the session the first k requests lead to. |
| GameSession.RunSessions | src/day12.rs:24-74 | A run passes one session from request to request, as the single shared `Data` does: an empty run leaves the session as it was, and the session after request k is the one request k produces from the session before it. |
| GameSession.ParseTeam | src/day12.rs:60-64 | Only "cookie" and "milk" are accepted, as Cookie and Milk. No team name maps to Empty. |
| GameSession.ParseColumn | src/day12.rs:65-68 | Only route columns 1..4 are accepted, and each becomes the board column one less. |
| GameSession.ParseColumnOnto | src/day12.rs:65-68 | Every board column is reached by exactly the route column one greater. |
| GameSession.GetBoardStep | src/day12.rs:34-37 | Reading the board renders it and changes nothing. |
| GameSession.ResetStep | src/day12.rs:39-47 | A reset yields the starting session: the default board and the stream rewound to its seed. It renders the empty board. |
| GameSession.RandomBoardStep | src/day12.rs:49-53 | It renders the board dealt from the next sixteen draws, which always has a status line. The stream advances by sixteen and the session's board is unchanged. |
| GameSession.PlaceStep | src/day12.rs:55-74 | A bad team or column gives BadRequest with no change. A move the board refuses gives Unavailable with the unchanged board rendered. A successful move stores the new board and renders it. |
| GameSession.StartedSessionsReachable | src/day12.rs:20-74 | After any sequence of commands from the start, the board is settled under gravity and its winner is the one its cells call for. |
| GameSession.RunNeverEmptiesCells | src/day12.rs:49-74 | With no reset among the commands, no occupied cell changes or empties, and the empty count never grows. |
| GameSession.ResetForgetsHistory | src/day12.rs:39-47 | After a reset, the same commands give the same responses whatever the earlier history was. |
| IpCipher.WrappingAdd | src/day2.rs:27 | The overflow-corrected sum equals the sum modulo 256. |
| IpCipher.WrappingSub | src/day2.rs:47 | The underflow-corrected difference equals the difference modulo 256. |
| IpCipher.Dest | src/day2.rs:21-31 | Destination octet i is (from_i + key_i) mod 256. |
| IpCipher.Key | src/day2.rs:41-51 | Key octet i is (to_i - from_i) mod 256. |
| IpCipher.DestOfKey | src/day2.rs:21-51 | The key computed from `from` and `to` sends `from` to `to`. |
| IpCipher.KeyOfDest | src/day2.rs:21-51 | Recovering the key from the destination of a key gives that key back. |
| IpCipher.Xor | src/day2.rs:78-84 | The result has sixteen octets, so the conversion to `[u8; 16]` cannot fail. Each octet is the exclusive-or of the input octets. |
| IpCipher.BitXorInverse | src/day2.rs:81 | Exclusive-or with the same value twice restores the original bits. |
| IpCipher.XorSelfInverse | src/day2.rs:78-84 | xor(xor(a, b), b) == a. |
| IpCipher.XorCommutes | src/day2.rs:81 | xor(a, b) == xor(b, a). |
| IpCipher.XorSelfIsZero | src/day2.rs:81 | xor(a, a) is all zeros. |
| IpCipher.Dest6 | src/day2.rs:60-64 | The v6 destination is the address whose octet-wise exclusive-or with `from` gives back `key`; since that exclusive-or undoes itself, this fixes the destination. |
| IpCipher.Key6 | src/day2.rs:72-76 | The v6 key is one that `/2/v6/dest` turns, together with `from`, into `to`; since the exclusive-or undoes itself, this fixes the key. |
| IpCipher.Ipv6RoundTrips | src/day2.rs:60-76 | The key `/2/v6/key` finds from `from` to `to` leads `/2/v6/dest` from `from` to `to`, and the destination reached with a key gives that key back. |
| ManifestOrders.Orders | src/day5.rs:18-49 | A missing package gives NoContent. Missing keywords, or keywords without "Christmas 2024", give NoKeyword; this is decided before the metadata is read. Missing metadata or a missing `orders` entry gives NoContent. If no order is kept, the result is NoContent. Otherwise it is the trimmed text of the kept orders' lines. |
| ManifestOrders.WriteOrders | src/day5.rs:30-43 | The loop writes one "item: quantity" line for each kept order, in input order. It skips orders without an item, without a quantity, or with a non-integer quantity. |
| ManifestOrders.KeptOrdersAppend | src/day5.rs:31-43 | Filtering a concatenation gives the concatenation of the filtered parts, so kept orders keep their input order. |
| ManifestOrders.SkippedOrderIsInvisible | src/day5.rs:33-41 | A skipped order is dropped silently, wherever it stands, and does not reject the list. |
| ManifestOrders.NatDecimalRoundTrip | src/day5.rs:42 | The decimal digits written for a quantity read back as that quantity. |
| ManifestOrders.Decimal | src/day5.rs:42 | A quantity is written as a minus sign for negatives followed by the digits of its magnitude, with no leading zero. It ends in a digit. |
| ManifestOrders.TrimmedText | src/day5.rs:45-48 | If the first item does not start with white space, trimming removes only the final line break. The answer is then exactly the kept lines joined by line breaks. |
| ManifestOrders.TextEnd | src/day5.rs:42-48 | The text ends with a line break after a digit, so trimming its end removes exactly that line break. |
| ManifestOrders.EmptyText | src/day5.rs:45-47 | The text is empty exactly when no order was kept. |
| ManifestOrders.Get | src/day5.rs:29 | A key is found only in a table that has it; any other value yields nothing. |
| ManifestOrders.SelectFormat | src/day5.rs:97-114 | A Content-Type starting with "application/toml" selects TOML. Otherwise one starting with "application/yaml" or "application/json" selects YAML. Anything else, or no header, gives UnsupportedMedia. |
| ManifestOrders.ParametersKeepFormat | src/day5.rs:100-110 | Anything appended to a supported media type, such as parameters, leaves the chosen decoder unchanged. |
| Festive.NextColor | src/day23.rs:17-23 | Only red, blue and purple are accepted: red moves to blue, blue to purple and purple to red. Anything else gets the teapot answer. |
| Festive.ColorCycle | src/day23.rs:18-21 | Three clicks return a present to its colour, and two do not. |
| Festive.OrnamentStep | src/day23.rs:39-43 | Only "on" and "off" are accepted. Each asks next for the other state. "on" shows the class "ornament on" and "off" shows "ornament". |
| Festive.OrnamentToggle | src/day23.rs:39-42 | Two requests return an ornament to the state it started in. |

## Left out

- The `Arc<RwLock<Data>>` around the session and the async handlers (src/day12.rs:15-74): each command is one sequential step on a session value, so lock discipline and interleaving are not modelled.
- The `StdRng` generator and the seed 2024 (src/day12.rs:10, 13, 22, 43, 184): the generator's output is a parameter `nat -> bool`, and the session keeps only how many draws it has taken. The number of draws `rng.gen()` takes per boolean is modelled as one.
- The exact glyph bytes of the tiles and the frame (src/day12.rs:83-92, 209, 217): they are abstract tokens `Glyph(tile)` and `Frame`. The rendering is a list of lines, and the line break `writeln!` adds after each line is implicit.
- MilkCookie.Place: requires a column below 4. The handler only passes 0..3. For columns 16 and above the source's first test, `self.state[column]`, already indexes past the array and panics. For columns 4..15 that test reads a cell of another column, and the move either is refused or goes on to index past the array.
- Path extraction in the place handler: a column segment that is not a `u8` is rejected by the routing library before the handler runs. The model takes an integer in 0..255.
- Axum routing, HTTP status codes, `eprintln!` logging and `src/main.rs`.
- IPv4/IPv6 text parsing and formatting in `src/day2.rs`: the model works on octet sequences.
- The TOML, YAML and JSON decoders and the body reader in `src/day5.rs`: the handler's input is an abstract decoded `Manifest`, so the errors for a body that cannot be read or decoded are not modelled. A Content-Type header that is not visible ASCII is given to `SelectFormat` as a missing header, as `to_str().ok()` does.
- ManifestOrders.Orders: the `unwrap`s on the keywords, the orders array, each order table and each kept item are a precondition (`Unwrappable`); the source panics when one fails.
- ManifestOrders.Decimal: quantities are unbounded integers, not `i64`.
- The HTML templates, the `star` endpoint and the `html_escape` of the ornament id in `src/day23.rs`: only the state transitions are modelled.
- `src/day9.rs` (floating-point unit conversions and a rate limiter from a library), `src/day16.rs` (token and cookie wrappers around libraries) and `src/day19.rs` (SQL queries) are not part of this model.
