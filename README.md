# Ticket queue state machine

A model of the walk-up ticket queue in `sistema_colas/queue_system.py`.
Visitors take a sequential ticket number (from the web form or the ticket
printer). Staff call the next ticket, remove a ticket by its number, or
reset the whole queue. A public display receives the list of waiting
tickets after every change. A visitor can look up their place in the queue
with the hash of their number.

All of this is logic over one table of rows `(id, number, hash, status)`.
The model keeps that table as a sequence of rows in `id` order. A new row
gets the id one past the largest, or 1 in an empty table, as SQLite does for
an integer primary key; only the order of the ids matters. `Find` models
a `filter_by(...).first()` lookup as the first matching row in id order.
Only the lookup in `next_in_queue` (line 133) orders by id; the lookups by
hash (line 97) and by number (line 148) leave the order to the database.
For those two the choice does not matter: numbers are unique (line 23), so
at most one row matches a number, and hashes are unique when the digest is
injective (`HashesUnique`), so at most one row matches a hash.

- `decimal.dfy`, module `Decimal`: how a stored number is read back as an
  integer (`Parse`) and how the next one is written, zero-padded to width
  three (`Format03`). It proves that the two round-trip.
- `queue_state.dfy`, module `QueueState`: the rows and the
  `filter_by(...).first()` lookups (`Find`). It also holds the next-number
  rule (`NextNumber`), the active list and the broadcast snapshot
  (`Actives`, `SnapshotOf`) and the status-page lookup (`StatusOf`). Each
  handler's effect on the rows is a function (`AfterCreate`,
  `AfterAdvance`, `AfterRemove`). The lemmas prove what these promise.
- `queue_table.dfy`, module `QueueSystem`: the shared table as a class,
  `QueueTable`. Its methods `Create`, `Advance`, `Remove` and `Reset`
  update the rows in place, as the handlers do. Each method appends what
  the handler pushes to the displays to an `events` log.

Two invariants are kept. `Valid()` is what the schema and the creating
handlers guarantee together. The schema makes ids increase and numbers
unique. The handlers store the digest of each number as its hash.
`Numbered()` says that the row at index i has number i + 1, formatted. Every
operation preserves `Numbered()`, and `Reset` re-establishes it. So in a
table that these handlers built from empty, the next number is always one
past the row count, it is never a duplicate, and a create never fails.

Where the code differs from the intended design, the model follows the
code:
- `remove_from_queue` does not check the current status. A `called` ticket
  can therefore become `removed`. Removing a removed ticket again is
  accepted and leaves the rows unchanged, but it broadcasts the snapshot
  and the removed number again.
- Numbers are padded to at least three digits, not exactly three. After
  `"999"` comes `"1000"` (the `String(3)` column width is not enforced).
- The `hash` column has no uniqueness constraint. Hashes are unique only
  because numbers are unique and the digest is assumed injective
  (`Injective`, a precondition of the lemmas that need it).

## Model

| member | source | states |
|---|---|---|
| `Decimal.Parse` | sistema_colas/queue_system.py:35 | exactly the non-empty strings of decimal digits parse, and the value fits in as many digits as the string has; every other string is a parse failure |
| `Decimal.Format03` | sistema_colas/queue_system.py:36 | a formatted number is a digit string of exactly 3 characters below 1000, and of its unpadded length (more than 3) from 1000 on |
| `Decimal.Format03RoundTrip` | sistema_colas/queue_system.py:35-36 | parsing a formatted number gives back the value that was formatted |
| `Decimal.Format03Width` | sistema_colas/queue_system.py:36 | a formatted number has at least 3 characters, and exactly 3 precisely for values below 1000 |
| `Decimal.Format03Injective` | sistema_colas/queue_system.py:36 | distinct values are formatted as distinct numbers |
| `Decimal.Format03Examples` | sistema_colas/queue_system.py:36 | 1, 2 and 3 format as "001", "002" and "003"; 999 formats as "999" and 1000 as "1000" |
| `Decimal.ShowDigits` | sistema_colas/queue_system.py:36 | the unpadded decimal text of n is non-empty, all digits, and reads back as n |
| `Decimal.ZerosValue` | sistema_colas/queue_system.py:35-36 | leading zeros do not change the parsed value |
| `QueueState.Find` | sistema_colas/queue_system.py:97 | the result is the least index of a row that passes the filter, or None exactly when no row passes |
| `QueueState.FindFirst` | sistema_colas/queue_system.py:133 | a matching row with no match before it is the row `first()` returns |
| `QueueState.NextNumber` | sistema_colas/queue_system.py:31-40 | the next number is always a digit string of at least 3 characters; when the newest row's number parses as v, the next number parses as v + 1 and has exactly 3 characters below 1000 and the unpadded length of v + 1 (no leading zeros) from 1000 on (the "001" cases are in `NextNumberFallback`) |
| `QueueState.NextId` | sistema_colas/queue_system.py:22 | the id a new row gets is positive and, in a table with increasing ids, larger than every stored id |
| `QueueState.NextNumberFallback` | sistema_colas/queue_system.py:31-40 | the next number is "001" when the table is empty or the newest number does not parse |
| `QueueState.NextNumberSequential` | sistema_colas/queue_system.py:32-36 | in a sequentially numbered table the next number is the row count + 1, formatted, and no row carries it yet |
| `QueueState.SequentialIncreasing` | sistema_colas/queue_system.py:32-36 | in a sequentially numbered table, numbers strictly increase in id order, so they are distinct |
| `QueueState.SequentialUnique` | sistema_colas/queue_system.py:23 | sequential numbering satisfies the uniqueness constraint on `number` |
| `QueueState.HashesUnique` | sistema_colas/queue_system.py:28-29 | with an injective digest, a hash identifies exactly one row |
| `QueueState.Actives` | sistema_colas/queue_system.py:100 | the active list is no longer than the table and holds only active rows (`ActiveRank` and `RankMonotone` give its order) |
| `QueueState.ActiveRank` | sistema_colas/queue_system.py:100-101 | the active row with k active rows before it is the k-th element of the active list |
| `QueueState.ActivesIncreasing` | sistema_colas/queue_system.py:100 | in a table with increasing ids, the active list has increasing ids too, as `order_by(QueueEntry.id)` requires |
| `QueueState.RankMonotone` | sistema_colas/queue_system.py:100 | an active row has fewer active rows before it than any later position in the table has, so ranks follow row order |
| `QueueState.SnapshotOf` | sistema_colas/queue_system.py:57-60 | the snapshot has one item per active row, and a current number exactly when its queue is not empty, namely the number of its first item |
| `QueueState.SnapshotQueue` | sistema_colas/queue_system.py:57-59 | the snapshot is exactly the active rows in id order: it has as many items as there are active rows, each item shows an active row that has k active rows before it at index k, and every active row is listed that way |
| `QueueState.SnapshotCurrent` | sistema_colas/queue_system.py:60 | `current` is the oldest active row's number; it is None exactly when no row is active, and the snapshot is then empty |
| `QueueState.StatusOf` | sistema_colas/queue_system.py:97-110 | the view is 'invalid' exactly when no row carries the hash; otherwise it shows the number and status of a row with that hash, and a position only for an active ticket, between 1 and the number of active rows |
| `QueueState.StatusOfActive` | sistema_colas/queue_system.py:97-105 | an active ticket's position is 1 + the number of active tickets with a smaller id, between 1 and the snapshot's length |
| `QueueState.StatusOfInactive` | sistema_colas/queue_system.py:106-108 | a called or removed ticket is reported with its number and status and no position |
| `QueueState.StatusOfUnknown` | sistema_colas/queue_system.py:109-110 | the status is 'invalid' exactly when no row carries the hash |
| `QueueState.AfterCreate` | sistema_colas/queue_system.py:50-55 | create keeps every existing row as it was and adds one active row at the end whose hash is the digest of its number |
| `QueueState.CreateSpec` | sistema_colas/queue_system.py:50-55 | create adds one active row at the end with the next number and its digest, leaves every existing row unchanged, and appends that ticket to the snapshot |
| `QueueState.CreateWellFormed` | sistema_colas/queue_system.py:53-55 | when the new number is not yet stored, create keeps the table well formed |
| `QueueState.CreateSequential` | sistema_colas/queue_system.py:50-55 | create keeps sequential numbering; the new row gets the row count + 1 |
| `QueueState.AfterAdvance` | sistema_colas/queue_system.py:133-135 | advance keeps the row count, and only changes statuses, never making a row active |
| `QueueState.AdvanceSpec` | sistema_colas/queue_system.py:133-135 | advance changes only the oldest active row, from active to called; with no active row nothing changes |
| `QueueState.AdvanceActives` | sistema_colas/queue_system.py:133-138 | advance removes the head of the active list and nothing else from it |
| `QueueState.AdvanceSnapshot` | sistema_colas/queue_system.py:138-141 | after advance the snapshot queue loses its head, and the second ticket (or None) becomes current |
| `QueueState.AfterRemove` | sistema_colas/queue_system.py:148-150 | remove keeps the row count, and only changes statuses, never making a row active |
| `QueueState.RemoveSpec` | sistema_colas/queue_system.py:148-150 | remove marks the row with that number as removed, whatever its status, and changes nothing else; an unknown number changes nothing |
| `QueueState.RemoveIdempotent` | sistema_colas/queue_system.py:148-150 | removing the same number twice gives the same table as removing it once |
| `QueueState.RemoveActives` | sistema_colas/queue_system.py:148-153 | after remove, the active list is the old one less the removed row |
| `QueueState.RemoveSnapshot` | sistema_colas/queue_system.py:153-156 | after remove, no ticket in the snapshot carries the removed number |
| `QueueState.EvolvesSequential` | sistema_colas/queue_system.py:135 | a change of statuses alone keeps sequential numbering |
| `QueueState.TransitionsPreserve` | sistema_colas/queue_system.py:135-150 | advance and remove keep the table well formed and sequentially numbered |
| `QueueState.ResetSpec` | sistema_colas/queue_system.py:168-171 | the empty table's snapshot is `{queue: [], current: None}`, its next number is "001", and it is sequentially numbered |
| `QueueState.SessionCreate` | sistema_colas/queue_system.py:50-60 | three tickets taken from an empty table are "001", "002", "003", all active, and "001" is current |
| `QueueState.SessionAdvance` | sistema_colas/queue_system.py:133-141 | calling the next ticket then marks "001" called and makes "002" current |
| `QueueState.SessionRemove` | sistema_colas/queue_system.py:148-156 | removing "003" then leaves "002" alone in the snapshot, as current |
| `QueueSystem.QueueTable.constructor` | sistema_colas/queue_system.py:21-26 | opens the table with well-formed stored rows and an empty message log |
| `QueueSystem.QueueTable.Create` | sistema_colas/queue_system.py:47-61 | appends an active row with the next number and its digest and broadcasts the snapshot; a duplicate number is rejected with nothing changed; in a numbered table the ticket is the row count + 1 and numbering is kept |
| `QueueSystem.QueueTable.Advance` | sistema_colas/queue_system.py:131-144 | marks the oldest active row as called, broadcasting only when there was one, and always replies success; the snapshot queue loses its head |
| `QueueSystem.QueueTable.Remove` | sistema_colas/queue_system.py:146-163 | marks the row with that number as removed, broadcasts the snapshot and the removed number and hash, and replies success; an unknown number replies error with nothing changed |
| `QueueSystem.QueueTable.Reset` | sistema_colas/queue_system.py:165-172 | deletes every row, broadcasts an empty queue with no current ticket, and restarts numbering at "001" |

## Left out

- HTTP routing, templates, `flash` messages and redirects (`index`, `display`, `public`, the GET form of `join`). Handler results are plain return values. `StatusOf` stands for the data the status page renders, and `SnapshotOf` for the JSON of `status_data`.
- The push channel. Each `emit` is modelled as a message appended to `QueueTable.events`; transport and delivery failures are not modelled.
- The database session and its failures. The table is an in-memory sequence. The only commit failure modelled is the uniqueness constraint on `number`, which `QueueTable.Create` reports as `DuplicateNumber`. A store that cannot be reached is not modelled.
- SHA-256. The digest is a parameter of the table. Injectivity is stated as `Injective` and required only by the lemmas that need it.
- The random `token` column. It is never read by the logic.
- QR-code generation, USB ticket printing (the print handler differs from join only in whether the printer succeeded, which only changes the flash message), debug output and the start-up code.
- Concurrent requests. Every operation is modelled as one atomic step.
- `Decimal.Parse` accepts only non-empty strings of ASCII digits. Python's `int()` also accepts signs, surrounding whitespace, `_` separators and the decimal digits of other Unicode scripts (such as `"٣"`). So a stored `" 7"`, `"-5"` or `"٣"` falls back to "001" here, but not in the code. In the other direction, Python (3.11 on, and the patched earlier releases) refuses to convert strings of more than 4300 digits, both in `int()` and in the zero-padded format, and the code then falls back to "001"; the model reads and formats numbers of any length. Stored numbers are only ever written by `Format03`, so these strings do not arise from the handlers.
- `Decimal.Format03` pads values of any size and never truncates; the `String(3)` width of the `number` column is not enforced, as in the stored data.
