# Connection hand-off of a thread-pool TCP server

The server (`server.c`) accepts TCP connections in one dispatcher loop and hands
them to a fixed pool of worker threads through a shared `int` array of
`arraysize` slots, where 0 means "empty". A counting semaphore counts the
connections posted and not yet waited for. This project models that array, its
round-robin cursor `next_index` and the semaphore count as one class,
`Server.ConnectionTable`. Each operation is one atomic step:

- the constructor is the zeroed allocation with cursor 0 and semaphore 0;
- `Place` is the dispatcher's step: test the cursor's slot, write the accepted
  descriptor there, advance the cursor with wrap-around, post the semaphore;
- `Take` is the worker's step as written: wait on the semaphore (`pending > 0`,
  then one less), scan the whole array, keep the value of the LAST occupied slot,
  and empty EVERY occupied slot, since the loop never breaks.

The worker scans the whole array rather than a slot dedicated to it, because
that is what `server.c` does.

`Slots` holds the value-level specification: the cursor step `Advance`, the
cursor after j placements `CursorAfter`, the scan's result `LastOccupied` and
the occupied-slot count `Occupied`, with the lemmas connecting them.

Descriptors are `int`s. `Place` requires the descriptor to be nonzero: 0 is the
empty marker, and `wait_for_connection` exits instead of returning -1.

## Model

| member | source | states |
|---|---|---|
| `Slots.Advance` | server.c:211-214 | the wrapped cursor step equals `(cursor + 1) mod arraysize` and stays in `[0, arraysize)` |
| `Slots.CursorAfter` | server.c:199-214 | starting from 0, the cursor stays in `[0, arraysize)` after any number of placements |
| `Slots.CursorAfterIsModulo` | server.c:199-214 | the j-th placement, counting from 0, goes to slot `j mod arraysize` |
| `Slots.LastOccupied` | server.c:117-126 | the scan yields nothing exactly when every slot is 0; otherwise it yields a nonzero value held by some slot with only empty slots above it (the highest-index occupied slot) |
| `Slots.Occupied` | server.c:120 | the number of occupied slots is at most `arraysize` and is 0 exactly when every slot is empty |
| `Slots.OccupiedAfterWrite` | server.c:208 | writing one slot changes the occupied count by minus one if it held a connection and plus one if the new value is a connection |
| `Server.ConnectionTable.constructor` | server.c:172-199 | a fresh array of `arraysize` zero slots, cursor 0, semaphore 0 (the semaphore is set up at server.c:187) |
| `Server.ConnectionTable.AdvanceCursor` | server.c:211-214 | the cursor becomes `Advance` of the old cursor, that is `(cursor + 1) mod arraysize`, and stays in bounds; a sub-step of `Place` |
| `Server.ConnectionTable.Place` | server.c:201-218 | reports whether the cursor's slot was occupied (the test at line 203); the array changes only at the old cursor, which now holds the descriptor; the cursor advances round-robin and equals the placement count mod `arraysize`; the semaphore count goes up by one |
| `Server.ConnectionTable.Take` | server.c:112-128 | requires a positive semaphore count and lowers it by one; returns the value of the highest-index occupied slot; afterwards every slot is 0; an all-empty array is left unchanged and no connection is returned; from a state whose count matched two or more occupied slots, the count no longer matches |
| `Server.ConnectionTable.TakeOne` | server.c:117-126 | corrected worker step: same result as `Take`, but only the returned slot, the highest-index occupied one, is emptied; when the semaphore count matched the occupied slots it still does, and a connection is always returned |
| `Server.ScanDropsConnection` | server.c:112-128 | two descriptors 5 and 6 placed in a two-slot array: the first scan returns 6, and the second scan, let through by the semaphore, finds no connection |
| `Server.TakeOneServesBoth` | server.c:117-126 | the same scenario with the corrected step serves 6 and then 5 |

## Findings

| source | as written | input that shows it | evidently intended | confidence | as-written member | corrected member |
|---|---|---|---|---|---|---|
| server.c:119-126 | the scan sets every occupied slot to 0 but keeps only the last one in `connectionfd` | `arraysize` 2, connections 5 and 6 placed, two workers wake: the first serves 6, connection 5 is never served, and the second worker passes `sem_wait` with an all-empty array and uses `connectionfd` uninitialised | extract one connection: empty only the slot whose value is returned, so the semaphore count keeps matching the occupied slots | high; not executed | `Server.ScanDropsConnection` | `Server.ConnectionTable.TakeOne` |

## Left out

- Socket setup and I/O (`bind_socket`, `open_server_socket`, `wait_for_connection`, `recv`, `send`, `close`): system calls outside the model; an accepted descriptor is a parameter of `Place`.
- `client.c`: socket plumbing with no state of its own.
- Threads, the mutex and blocking: each method is one atomic step, `sem_wait` is the precondition `pending > 0`, and the dispatcher's unlocked accesses to the array are not modelled.
- The `pthread_join` backpressure at server.c:203-205: `Place` reports the occupied slot and then writes as the code does after the join. When `arraysize <= numthreads` the join waits on a worker that loops forever, so it never returns and an occupied slot is never overwritten. Otherwise `threadpool[next_index]` (declared with `numthreads` entries at server.c:171) is read out of bounds, the join may return, and the overwrite that `Place` models can happen.
- Place: excludes descriptor 0. If the server starts with its standard input closed, `accept` can return 0; the program then stores 0, which reads as an empty slot, and still posts the semaphore (server.c:208, server.c:217). The model does not cover that case.
- Take: the uninitialised `connectionfd` after a scan of an all-empty array is modelled as `None`; the garbage value C would read is not modelled.
- The request transformation (`sscanf`, times 10, `snprintf`): C library parsing and formatting and C `int` overflow.
- Command-line parsing (`strtol`, `errx`, `printf`): `arraysize > 0` is the constructor's precondition.
- Integer width: `arraysize` is parsed as a `long` (server.c:164) but the workers' loop bound is the `int` field of `arguments` (server.c:16, server.c:181), and `next_index` is an `int` (server.c:199). The model assumes `arraysize` fits in an `int`; for a larger value the workers would scan only a truncated prefix.
