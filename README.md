# Shared pixel canvas — a Dafny model

This project models the core of a small collaborative pixel canvas (a "pixel war"
server). A canvas (`Carte` in the source) holds an `nx` by `ny` grid of RGB cells,
indexed `data[x][y]`. It also holds a set of access keys, a map from user id to that
user's state (`UserInfo`), and a write cooldown in nanoseconds. A client gets a key,
trades it for a user id, whose state is a private copy of the grid and the time of
the last accepted write. The client then polls for the cells that changed since its
previous poll and writes single cells, at most one per cooldown period.

Layout:

- `grid.dfy`, module `Grid`: the `Color` triple, the grid as a value of type
  `seq<seq<Color>>`, the blank grid, and the one-cell overwrite `Paint`.
- `delta.dfy`, module `Delta`: the poll's diff. `Changes` is a pure reference definition
  in the handler's scan order. `Scan` is the handler's nested loop, proved equal to it.
  Lemmas prove what `Changes` means: exactly the differing cells, each once, with the
  current colour, in `y`-outer / `x`-inner order, and nothing once the copy is in sync.
- `canvas.dfy`, module `Canvas`: the class `Canvas`, which has the source's fields and
  updates them in place. It holds the source's methods and the three handler bodies
  that belong to the core: registration, the checked write and the poll. It ends with
  two client methods whose contracts fix the outcome of a given sequence of calls.

Grids are values, so a user's copy can never alias the live grid. This is what the
source gets from `deepcopy` at main.py:22 and main.py:139. Non-determinism is passed
in as parameters. The clock (`time.time_ns()`) is the `now` argument. The random
tokens (`uuid4()`) are the `key` and `id` arguments of `CreateNewKey` and
`CreateNewUserId`. No freshness is required of them. A repeated key leaves the key set
as it was, as `set.add` does. A repeated user id replaces that entry, as a dict
assignment does.

The model follows the code in these details:

- The rate-limit wait is `int((timeout - elapsed) / 1e9)`, which truncates (main.py:68).
  It is never rounded up. Under the guard `elapsed < timeout` the numerator is
  positive, so the wait is exact integer division by 10^9. One nanosecond before the
  cooldown ends the wait is therefore 0 s (`CooldownBoundary`).
- Keys are never consumed: registration leaves the key set unchanged (main.py:54-57).
- The key is checked in the registration handler (main.py:102), not in
  `create_new_user_id`. Bounds are checked in the write handler (main.py:171), not in
  `set_pixel`. So `SetPixel` requires in-bounds coordinates, and `PutPixel` returns
  `OutOfBounds` instead.
- Colour components are any integers: nothing in the code range-checks them.

## Model

| member | source | states |
|---|---|---|
| `Grid.Blank` | main.py:38-41 | the new grid has `nx` columns of `ny` cells, and every cell is `(0,0,0)` |
| `Grid.Paint` | main.py:70 | after the overwrite the grid keeps its shape, `(x, y)` holds the new colour, and every other cell keeps its colour |
| `Delta.Scan` | main.py:133-137 | the nested `y`-outer / `x`-inner loop returns exactly the reference delta `Changes` |
| `Delta.RowChangesWithin` | main.py:135-137 | everything one pass of the inner loop over columns `0 .. n-1` collects lies in row `y`, left of column `n` |
| `Delta.RowChangesMembers` | main.py:135-137 | one pass of the inner loop collects exactly the cells of row `y` left of `n` that differ from the copy, each with its current colour |
| `Delta.RowChangesOrdered` | main.py:135 | within one row the collected cells come in strictly increasing `x` |
| `Delta.RowsWithin` | main.py:134 | everything the first `m` passes of the outer loop collect lies above row `m` |
| `Delta.RowsMembers` | main.py:134-137 | after `m` passes of the outer loop the list holds exactly the differing cells of rows below `m`, each with its current colour |
| `Delta.RowsOrdered` | main.py:134-135 | after `m` passes the list is strictly increasing in (`y`, `x`), so no cell appears twice |
| `Delta.ChangesExact` | main.py:133-137 | a cell is in the delta iff it differs from the user's copy and carries its current colour; the delta is in scan order with each cell once |
| `Delta.RowChangesOfSynced` | main.py:135-137 | a row scanned against an identical copy yields nothing |
| `Delta.RowsOfSynced` | main.py:134-137 | rows scanned against an identical copy yield nothing |
| `Delta.ChangesOfSynced` | main.py:133-139 | once the copy has been reset to the grid, the delta is empty, so a second poll with no write in between returns `[]` |
| `Delta.ChangesAfterPaint` | main.py:130-139 | one write after a poll shows up in the next delta exactly once, with its new colour; it does not show up if it rewrote the old colour |
| `Canvas.WaitSeconds` | main.py:68 | the reported wait is the remaining cooldown in whole seconds, truncated: `w * 10^9 <= remaining < (w + 1) * 10^9` |
| `Canvas.Canvas.constructor` | main.py:34-43 | a new canvas has the given dimensions and cooldown, a blank grid, no keys and no users |
| `Canvas.Canvas.CreateNewKey` | main.py:46-49 | the returned key is valid afterwards; the key set only gains it, so earlier keys stay valid; grid and users are untouched (frame) |
| `Canvas.Canvas.CreateNewUserId` | main.py:54-57 | the map gains one entry under the id, holding a copy of the current grid and last-edit time 0 (`UserInfo.__init__`, main.py:21-23); other users, the grid and the keys are untouched |
| `Canvas.Canvas.SetPixel` | main.py:62-72 | an unknown user gets `UnknownUser` and nothing changes; inside the cooldown the result carries the truncated wait and nothing changes; otherwise only `(x, y)` becomes the colour, only this user's last-edit time becomes `now`, and the coordinates and colour are echoed; with a non-negative cooldown the last-edit time never decreases |
| `Canvas.Canvas.Init` | main.py:102-109 | an invalid key gets `InvalidKey` and no user is added; a valid key registers the user and returns its id, the dimensions and the grid; the key set is unchanged either way |
| `Canvas.Canvas.PutPixel` | main.py:165-174 | checks the key, then the user, then the bounds (out-of-bounds coordinates leave grid and users unchanged), then behaves as `SetPixel` |
| `Canvas.Canvas.Deltas` | main.py:123-139 | after the key and user checks, returns the reference delta of the grid against the user's copy; afterwards that user's copy equals the grid; other users and the grid are untouched |
| `Canvas.Walkthrough` | main.py:62-139 | on a new canvas with the ten-second cooldown that contains cell (3,4), such as the 10 by 10 one at main.py:75: a write at (3,4) succeeds; an immediate second write waits 10 s; the first poll returns exactly `[(3,4,red)]` and the second returns `[]` |
| `Canvas.CooldownBoundary` | main.py:62-72 | for any positive cooldown, including the default ten seconds: a first write is refused before time `timeout`, because the initial last-edit time is 0 (main.py:23); it is accepted at or after `timeout`; a write one nanosecond before the cooldown ends is refused with wait 0; a write exactly at the end is accepted |

`IsValidKey` (main.py:51-52) and `IsValidUserId` (main.py:59-60) are the source's
membership checks, written as predicates with the same bodies.

## Left out

- HTTP routing, CORS, JSON responses and cookies (main.py:4-15, 81-112, 150-179 apart from the guards modelled in `Init`, `PutPixel` and `Deltas`): transport plumbing.
- The comparisons of query against cookie values (main.py:100, 125): two client-supplied strings compared for equality, which is transport validation.
- Error message texts: each error is a constructor of `Error`. This includes main.py:128, which gives the key message for an unknown user.
- The canvas registry `cartes` (main.py:75) and its lookup, including the `KeyError` raised before the membership or `None` checks (main.py:97-98, 120-121): a fixed one-entry dictionary and exception paths of the transport code.
- Random token generation (main.py:47, 55): tokens are parameters, and unguessability cannot be stated.
- The clock (main.py:65): `now` is a parameter and can be any integer, including one earlier than a stored time.
- Floating point: the default cooldown `10e9` is the integer `DefaultTimeout`, the constructor's default for `timeout`. The division `/1e9` is exact integer division.
- WaitSeconds: the model's wait is exact. Python computes it in floating point, which can differ for remaining times beyond about 2^53 ns.
- Negative dimensions: `nx` and `ny` are `nat`. In the source a negative size gives an empty grid or empty columns.
- SetPixel: requires in-bounds coordinates. Python's negative-index wrap inside `set_pixel` never happens, because its only caller checks bounds first.
- Concurrency: the handlers share state without locks. The model is sequential, one call at a time.
- Key and session expiry: the source has none. The cookie `max_age` is transport only.
