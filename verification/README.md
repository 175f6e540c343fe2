# gopaste, modelled and proved in Dafny

gopaste is a pastebin server: clients POST a text, get an id back, and anyone holding the id
can read the text until it expires. This project models the parts of the server whose
correctness does not show in any one function body, and proves what clients, operators and
the browser page rely on. `dafny verify dfyconfig.toml` checks all of it.

## The system, file by file

**Pastes under interleaving.** A POST probes generated keys with a `SELECT`, then runs an
`INSERT`; a GET runs a `SELECT`, then, to slide the deadline, an `UPDATE`. Each statement is
atomic, the pairs are not, and every clock reading is a step of its own, so it may be stale
when the statement that uses it runs.

- `Pastes.dfy` is the table (ids never reused, slugs unique, rows filtered by deadline when
  read) with each SQL statement of the sqlite and postgres backends as a function on it.
- `Serving.dfy` is the running server: any number of requests, each with a program counter,
  two clocks, the limiter, the table, and a log of the statements run, with the clock
  readings they were given. It starts on any database and preloads its document, which a row
  already there keeps out. `Interleavings.dfy` proves over every run that the log determines
  the table, deadlines included, and what every request holds. `Bodies.dfy` says what a
  blank body is in terms of characters and UTF-8.
- `Guarantees.dfy` draws the conclusions for clients (what is read is what was posted or
  found, when a POST fails, when a paste is no longer found), `Progress.dfy` counts the steps
  a request takes to its answer, `Deadlines.dfy` says exactly when deadlines only move
  forward and when the expired stay expired, `StorageGrowth.dfy` bounds the table by the
  limiter, `Preloaded.dfy` follows the rows under static keys, restarts included.
  `Scenarios.dfy` has the requests nobody disturbs, and interleavings in which a late UPDATE
  or an overtaken INSERT breaks what only uninterrupted requests promise.
- `AtomicStore.dfy` takes the operations as atomic and relates the lazily filtered table to
  one that expires eagerly, and to the history of what was stored and read; `EagerMap.dfy`
  relates it to a map that knows neither rows nor filtering.
- `SqlStore.dfy` and `Handler.dfy` are the store and the handlers as objects with state.

**The rate limiter.** `RateLimits.dfy` has the fixed-window limiter as a transition function
and its theorems over runs; `RateLimiter.dfy` is the mutable map of window objects, each
method tied to that function; `ClientAddress.dfy` is the choice of the client's address.

**Sessions.** `Sessions.dfy` relates the session map to its history and treats logout and the
signed cookie; `SessionStore.dfy` is the mutable store.

**Keys, themes, files.** `Phonetics.dfy` and `RandomKeys.dfy` are the two key generators over
a random source given as a sequence of draws, and `PhoneticCount.dfy` counts the keys of the
harder one. `Themes.dfy` and `Switcher.dfy` follow a theme
from a directory entry to the click of the page's button. `FileHandles.dfy`,
`FilePastes.dfy` and `FileStore.dfy` are the file backend and the map it stands for.
`Text.dfy` has the string operations all of them use.

## What turned out not to hold

The code was followed wherever it differs from its comments and documentation.

- `internal/store/store.go:16-17` says the handler retries on a duplicate key. It does not
  (`internal/handler/handler.go:181-185`): a POST ends in 500 exactly when some row, live or
  expired, has its key when the INSERT runs (`Guarantees.RefusedExactlyWhenHeld`). That row
  had expired at the probe's clock reading or came in after the probe
  (`Guarantees.HolderCameInBetween`); two POSTs that draw the same key show the second kind
  with nothing expired at all (`Scenarios.RacedPostFails`).
- `MAX_LENGTH=0` is documented as unlimited (`README.md:76`), but then a raw body is read one
  byte long: it is refused when that byte is white space and stored as that byte otherwise
  (`Guarantees.AcceptedBodies`, `Guarantees.WholeBody`, `Guarantees.UnlimitedTruncates`).
- Preloaded documents are said never to expire (`internal/handler/handler.go:45`) and to be
  always reachable (`cmd/gopaste/main.go:124-126`). The start leaves a row it finds under the
  key as it is, and no read moves the deadline of a row under a static key
  (`Preloads.PreloadedLifetime`). So with a lifetime configured the document can be read until
  one lifetime after the start that stored it (`Preloads.FreshStart`); a start later than that
  finds the expired row and shows nothing from the first request until a purge, and a start on
  a live row with another text shows that text (`Preloads.RestartOutcome`,
  `Preloads.MissingUntilPurged`, `Preloads.RestartLosesDocument`). On the file backend nothing
  expires, but the console deletes the document through its file name, which its guard does
  not know (`FilePastes.PreloadedKept`).
- A read is said to slide the deadline forward (`internal/store/store.go:43-46`). When its
  two statements are separated it can shorten a deadline or revive an expired paste
  (`Scenarios.StaleBumpShortens`, `Scenarios.StaleBumpRevives`), and an uninterrupted read
  shortens a deadline that a longer lifetime, configured earlier, has left further ahead than
  the present one (`Scenarios.FoundDeadlineShortens`, `AtomicStore.DeadlinesMoveForward`).
  Over a whole execution no deadline is shortened exactly when the statements on each paste
  run in the order of their clock readings and no UPDATE sets a row found in the database a
  deadline before the one found (`Deadlines.ForwardExactlyInOrder`), and nothing expired comes
  back exactly when every UPDATE that sets a deadline still ahead ran before the old one had
  passed (`Deadlines.DeadStaysDeadExactlyWhenTimely`).
- A purge is invisible to readers exactly as long as no later POST comes upon a row it would
  have removed (`AtomicStore.PurgeInvisible`, `AtomicStore.PurgeSeen`), and reading lazily is
  the same as expiring eagerly exactly as long as no write comes upon an expired row
  (`AtomicStore.LazyRefinesEager`).
- The page lists every theme discovery finds, but a link to a directory or to nothing is
  found and not served: for its stylesheet the page gets the application shell
  (`Themes.ListedThemesAreServed`, `Themes.DeadLinkListed`).

## Assumptions

- The limiter's interval and sweep theorems take its timestamps to be nondecreasing in the
  order of its lock; the code reads them before taking it.
- Session ids are not handed out twice, and the digest of the file backend is injective on
  the keys used. Digest, signature and random source are parameters.
- Time is counted in integer ticks: whole seconds for the store, a finer unit for the limiter.

## Model

| member | source | states |
|---|---|---|
| Pastes.SelectMeaning | internal/store/sqlite.go:57-63 | a SELECT by key returns an id exactly when that id's row has the key and is not expired |
| Pastes.InsertMeaning | internal/store/sqlite.go:78-96 | an INSERT succeeds exactly when no row at all, live or expired, has the key, and keeps ids below the counter and keys unique |
| Pastes.LiveIdsMeaning | internal/store/sqlite.go:103-106 | the query's rows are precisely the live ones, in strictly descending id order |
| Pastes.ListMeaning | internal/store/sqlite.go:98-128 | List shows live rows only, each with its own key, size, creation and deadline, newest first; as many as are live but no more than the limit, or than 500 when the limit is not positive; none left out is newer than one shown |
| Pastes.StatsMatchList | internal/store/sqlite.go:139-150 | Stats is the length and the summed sizes of an uncapped List |
| Pastes.StatsMeaning | internal/store/sqlite.go:139-150 | Stats is the number of live rows and the bytes those rows hold |
| Pastes.PurgeCounts | internal/store/sqlite.go:152-161 | the purge reports rows before minus rows after, and leaves as many rows as Stats counted |
| Pastes.QueriesIgnoreExpired | internal/store/postgres.go:160-207 | tables that differ in expired rows only give the same List and the same Stats |
| SqlStores.SqlStore.constructor | internal/store/sqlite.go:37-48 | a new store has no rows |
| SqlStores.SqlStore.Get | internal/store/sqlite.go:51-76 | missing exactly when no live row has the key; else that row's body, and its deadline alone moves to now + lifetime when asked to and it has one |
| SqlStores.SqlStore.Set | internal/store/postgres.go:140-158 | refused exactly when some row has the key, and then no row changes; else one row with a never-used id and the deadline is added |
| SqlStores.SqlStore.List | internal/store/sqlite.go:112-127 | the loop builds the specified listing entry by entry, with as many entries as rows are live up to the limit, or to 500 when it is not positive |
| SqlStores.SqlStore.Delete | internal/store/sqlite.go:130-137 | removes exactly the rows with the key and says whether there were any |
| SqlStores.SqlStore.Statistics | internal/store/sqlite.go:139-150 | the number of live rows and the sum of their sizes |
| SqlStores.SqlStore.PurgeExpired | internal/store/postgres.go:209-219 | keeps exactly the live rows and returns how many rows went |
| AtomicStore.PlayAlike | internal/store/sqlite.go:51-161 | from tables that cannot be told apart by reading, lazy or eager, runs whose writes meet the same fate give the same Get, List and Stats answers throughout |
| AtomicStore.ReadersAgreeExactly | internal/store/store.go:1-5 | readers cannot tell two runs from such tables apart if and only if every write meets the same fate in both |
| AtomicStore.DifferenceShows | internal/store/sqlite.go:57-63 | the first write whose fate differs is seen by a Get of its key right after it |
| AtomicStore.LazyRefinesEager | internal/store/store.go:1-5 | no reader, at any point of a run, can tell filtering at read time from eager expiry, if and only if no write of the run comes upon an expired row; then List and Stats agree too |
| AtomicStore.PurgeInvisible | internal/store/sqlite.go:152-161 | no reader can tell that a purge was slipped in at any point of a run, if and only if no later write comes upon a row it removed; then List and Stats do not change either |
| AtomicStore.PurgeFreesExpiredSlugs | internal/store/sqlite.go:78-96 | what a purge does change: Set and Delete of a key answer differently exactly when an expired row holds it |
| AtomicStore.PurgeSeen | internal/store/sqlite.go:152-161 | a run in which a reader does see the purge |
| EagerMaps.EagerIsMap | internal/store/store.go:43-73 | the table run eagerly answers every operation of every run as a map from keys to pastes that drops each at its deadline |
| EagerMaps.LazyTableIsMap | internal/store/store.go:43-73 | no reader, at any point of a run, can tell the lazily filtered table from that map, and writes are answered alike, if and only if no write comes upon an expired row; then List and Stats agree too |
| EagerMaps.EveryTableIsMap | internal/store/sqlite.go:37-44 | every table with distinct keys holds one such map, its entries being the rows, so both theorems start from any of them |
| AtomicStore.FreeProbeCanFail | internal/handler/handler.go:175-185 | with nothing in between, the insert after a probe that found nothing fails exactly when an expired row holds the key |
| AtomicStore.FreeProbeFails | internal/handler/handler.go:181-185 | a concrete table on which that happens |
| AtomicStore.ExpiredStaysExpired | internal/store/sqlite.go:51-76 | with atomic operations and a forward clock a row once expired never changes or comes back to life |
| AtomicStore.SlidingDeadline | internal/store/sqlite.go:68-83 | over every history from the empty table, Get finds a paste exactly while less than the lifetime has passed since it was stored or last read with bumping, and returns the body then stored |
| AtomicStore.ProbesTouchNothing | internal/handler/handler.go:240-253 | a read without bumping leaves the table as it was |
| AtomicStore.DeadlinesMoveForward | internal/store/store.go:43-46 | with atomic operations and a forward clock no run ever shortens a deadline, if and only if none lies further ahead at the start than the lifetime |
| AtomicStore.RemovedForGood | internal/store/sqlite.go:37-44 | a used id that has gone never reappears |
| Interleavings.ActIsOneStatement | internal/handler/handler.go:148-188 | a step changes table and limiter by the one SQL statement or limiter call its phase says, logged with its clock reading, and by nothing only where its phase has none to run; a DELETE takes precisely the rows of its key, a purge precisely the expired ones |
| Interleavings.InsertKeepsTable | internal/store/sqlite.go:84-94 | an INSERT keeps the table what the log determines: every row an insert not removed since, its deadline from the last write, no key twice, ids increasing |
| Interleavings.ActKeepsAnswers | internal/handler/handler.go:175-187 | every insert logged for a request stays the one that request is answered 201 for, with that key, id and body |
| Interleavings.NextKeepsInv | internal/handler/handler.go:148-253 | any step of any request, any arrival and any tick keeps the whole invariant |
| Interleavings.Invariant | internal/handler/handler.go:148-253 | the invariant (table against log, where clock readings come from, inserts against answers, pending UPDATEs against rows, limiter, each request's own data) holds after every run from a start on any database |
| Guarantees.NeverRewritten | internal/store/sqlite.go:37-96 | in every execution a row, found or stored, keeps key, body and creation time as long as it exists, and a gone id never returns |
| Guarantees.ReuseNeedsRemoval | internal/store/sqlite.go:37-44 | between a row's appearance, found or inserted, and a later insert of its key the row was removed |
| Guarantees.CreatedMeansStored | internal/handler/handler.go:148-188 | a 201 means that request's own accepted body was inserted under the returned key, which no paste then in the table had |
| Guarantees.SameKeyCreatedTwice | internal/handler/handler.go:175-187 | two 201s with one key have a removal of the first paste between their inserts |
| Guarantees.FoundIsLatest | internal/store/sqlite.go:57-63 | a SELECT that finds something returns the body of the latest paste of its key, found in the database or inserted, not removed since |
| Guarantees.FetchedMeansFound | internal/handler/handler.go:114-127 | what a reader is shown was found by its own SELECT for the key it asked for |
| Guarantees.MissingMeansGone | internal/store/sqlite.go:57-63 | in every interleaving, on any database, a SELECT finds nothing exactly when each surviving paste of its key had reached its deadline, found or written, by the reading it was given |
| Guarantees.IdleExpiry | internal/store/sqlite.go:51-83 | in every interleaving a paste neither stored nor read with bumping after t is not found by a clock reading of t + lifetime or later, unless the database held it with no deadline or one still ahead |
| Guarantees.BumpTarget | internal/store/sqlite.go:68-74 | a pending UPDATE names the very paste that was selected; if another row has the key now, the selected one is gone |
| Guarantees.BumpStaysHome | internal/store/postgres.go:128-136 | the UPDATE changes the selected paste's deadline and nothing else, or nothing at all when that paste is gone |
| Guarantees.EraseStep | internal/handler/admin.go:107-129 | whatever the others are doing, the console's DELETE is refused for an empty key with 400 and for a static one with 403; else no row of the key and every other row is left, and found is said exactly when there was one |
| Guarantees.PurgeStep | internal/handler/admin.go:131-140 | whatever the others are doing, a purge leaves precisely the rows whose deadline is ahead of its reading and answers the number gone |
| Bodies.BlankMeaning | internal/handler/handler.go:163-166 | a body counts as blank exactly when it is the UTF-8 encoding of white space characters, the empty body included |
| Bodies.BlankAscii | internal/handler/handler.go:163-166 | an ASCII body is blank exactly when every byte is a space or 9 to 13 |
| Bodies.PrintableIsNotBlank | internal/handler/handler.go:163-166 | a body with a printable ASCII byte anywhere is not blank |
| Bodies.BlankInFront | internal/handler/handler.go:163-166 | white space in front does not change whether a body is blank |
| Guarantees.AcceptedBodies | internal/handler/handler.go:153-166 | with a positive limit a body is accepted exactly when it fits and is no text of white space, and then read whole; with limit 0 exactly when its first byte is no ASCII white space; with a negative one never |
| Guarantees.WholeBody | internal/handler/handler.go:231-237 | an accepted body is the whole body exactly when there is a limit or at most one byte was sent |
| Guarantees.UnlimitedTruncates | internal/handler/handler.go:219-232 | with the limit off a two-byte body is accepted as its first byte |
| Guarantees.ReadWhatWasPosted | internal/handler/handler.go:114-188 | in every interleaving, whatever a SELECT finds under a key is a row the database held at the start, the document preloaded under it, or the raw body (under a length limit, byte for byte) of the POST answered 201 with that key and id, and nothing was stored under the key since |
| Guarantees.FetchedMeansPosted | internal/handler/handler.go:114-188 | in every interleaving, whatever a GET is answered with was found by its own SELECT and is the body of a row the database held, the preloaded document, or the raw body (under a length limit, byte for byte) of the POST answered 201 with that key and id, and nothing was stored under the key since |
| Guarantees.RefusedExactlyWhenHeld | internal/handler/handler.go:181-185 | in every execution the INSERT of a POST ends in 500 if and only if some row, live or expired, has its key, else in 201 |
| Guarantees.HolderCameInBetween | internal/handler/handler.go:175-185 | a row in the way had expired at the clock reading of the request's probe or was inserted after that probe |
| Deadlines.DeadlineIsLastWrite | internal/store/sqlite.go:68-83 | in every execution a row's deadline is the clock reading of the last INSERT or UPDATE run on it plus the lifetime, or the one found in the database if there was none |
| Deadlines.StaleBump | internal/store/sqlite.go:68-74 | a pending UPDATE shortens its paste's life if and only if its deadline comes before the last one written or found, against a statement of this run if and only if that had a later reading; it revives the paste if and only if that deadline has passed and its own has not |
| Deadlines.ForwardExactlyInOrder | internal/store/store.go:43-46 | over every execution on any database no step ever shortens a deadline, if and only if the statements on each paste ran in the order of their clock readings and no UPDATE set a found row's deadline before the one found |
| Deadlines.DeadStaysDeadExactlyWhenTimely | internal/store/store.go:1-5 | over every execution on any database no expired row ever comes back to life, if and only if every UPDATE that sets a deadline still ahead met one still ahead |
| Preloads.ActKeepsUntouched | internal/handler/admin.go:107-129 | no step of a request changes a row under a static key, except a purge after its deadline that removes it |
| Preloads.StaticLifetime | internal/handler/handler.go:114-127 | in every execution on any database a row under a static key is found exactly while its own deadline lies ahead, and stays as it was until a purge after it |
| Preloads.PreloadedLifetime | cmd/gopaste/main.go:124-138 | on any database one row answers for the preloaded key exactly until its own deadline and is never changed: the row found under the key if there is one, else the document with a deadline one lifetime after the start |
| Preloads.FreshStart | cmd/gopaste/main.go:124-138 | where the key is not held, the document can be read, with its own text, exactly until the lifetime has passed since the start, or for ever without one |
| Preloads.RestartOutcome | cmd/gopaste/main.go:124-138 | a start shows nothing under the key if and only if an expired row holds it, and another text if and only if a live row with another text does |
| Preloads.MissingUntilPurged | cmd/gopaste/main.go:124-138 | after a start on an expired row the key stays empty as long as that row is there |
| Preloads.RestartLosesDocument | cmd/gopaste/main.go:124-138 | two starts of one server, the second after the lifetime: the document of the first is missing after the second |
| Scenarios.UndisturbedPost | internal/handler/handler.go:148-188 | a POST nobody disturbs, under any limits, whose drawn key its probe does not find: which of 429, 403, 400, 500 and 201 it ends with, and the exact table and windows it leaves |
| Scenarios.UndisturbedFetch | internal/handler/handler.go:114-127 | a GET nobody disturbs, of any key under any limits, is refused by the limiter or returns what the atomic Get returns and leaves the table it leaves |
| Scenarios.UndisturbedErase | internal/handler/admin.go:107-129 | a console DELETE nobody disturbs ends with 429, 400, 403 or whether the key had a row, and leaves the table without that key's rows and the windows of one limiter call |
| Scenarios.UndisturbedClean | internal/handler/admin.go:131-140 | a purge nobody disturbs ends with 429 or the number of rows gone, and leaves exactly those whose deadline is ahead |
| Scenarios.StaleBumpRevives | internal/store/sqlite.go:68-74 | an execution in which a late UPDATE makes an expired row live again |
| Scenarios.StaleBumpShortens | internal/store/sqlite.go:68-74 | an execution in which a late UPDATE lowers a deadline |
| Scenarios.FoundDeadlineShortens | internal/store/sqlite.go:68-74 | an execution on a row kept from a longer lifetime: one undisturbed GET lowers its deadline |
| Scenarios.RacedPostFails | internal/handler/handler.go:175-185 | an execution in which a POST ends in 500 because another stored the same key after its probe, nothing having expired |
| StorageGrowth.GrowthPerClient | internal/handler/handler.go:163-187 | the bytes of all INSERTs by a client's POSTs charged within an interval of length L are at most maxBytes * ((L+W)/(W+1) + 1) |
| StorageGrowth.GrowthBound | internal/handler/ratelimit.go:89-102 | the same for any set of clients, times their number |
| StorageGrowth.InsertWasCharged | internal/handler/handler.go:163-185 | every INSERT by a request comes after a charge of exactly its size granted to its client |
| StorageGrowth.StoreBound | internal/handler/ratelimit.go:86-102 | over a run whose charges fall to given clients within an interval, the table never holds more bytes than the database held at the start, the preloaded document and that bound for each client |
| Progress.RequestsFinish | internal/handler/handler.go:148-253 | however the others interleave, a request is answered within 8 steps of its own, 5 for a GET, and a POST within two more for each key its probes found taken; a POST that creates a paste takes precisely that many (one less without a request limit) |
| Progress.StepCounts | internal/handler/handler.go:240-253 | every step of an unanswered request brings its answer nearer, except a probe that finds its key taken, which takes one step back |
| Progress.NeverStuck | internal/handler/handler.go:240-253 | from any state whatever a request is answered by its own steps alone, within the bound, once it is offered a key no row has |
| Handlers.ChoiceCollides | internal/handler/handler.go:175-185 | with nothing in between, some row has the chosen key exactly when an expired one has |
| Handlers.Handler.constructor | internal/handler/handler.go:55-94 | a new handler has an empty store and limiter |
| Handlers.Handler.ChooseKey | internal/handler/handler.go:240-253 | the first drawn key that no live row has, and the table as it was |
| Handlers.Handler.StoreUnderFreeKey | internal/handler/handler.go:175-187 | 500 exactly when a row has the chosen key; accepted, that key was held by no row and its row is the one added; otherwise no row changes |
| Handlers.Handler.ChargeFor | internal/handler/handler.go:166-173 | granted exactly when the body fits what is left of the client's window, and then its whole size is added there and no other window left changes |
| Handlers.Handler.HandlePost | internal/handler/handler.go:148-188 | each status exactly when its condition holds; accepted: one new row with a fresh id, the body read and a key no row had, charged in full; otherwise no row changes |
| Handlers.Handler.HandleGet | internal/handler/handler.go:114-127 | found exactly when a live row has the key of the id, with that row's body; only its deadline may move, never for a static key |
| Handlers.Handler.PostThenRead | internal/handler/handler.go:114-188 | an accepted paste is read back unchanged under id.ext until it expires |
| RateLimits.SpendMeaning | internal/handler/ratelimit.go:74-102 | a call is granted exactly when its cost still fits its budget, and is then added to that budget only |
| RateLimits.ServeWithinLimits | internal/handler/ratelimit.go:64-102 | no call takes a window over an active limit |
| RateLimits.IntervalBound | internal/handler/ratelimit.go:64-102 | with a positive window W and a positive budget, over any closed interval of length L a client is granted at most budget * ((L+W)/(W+1) + 1), whatever other clients do |
| RateLimits.TwiceTheLimit | internal/handler/ratelimit.go:11-14 | for 1 <= L <= W that is twice the limit |
| RateLimits.WindowIsCounted | internal/handler/ratelimit.go:64-102 | from a time at which a client has no window and for one window length, its calls are answered as by two plain counters, a budget that is not positive refusing nothing |
| RateLimits.FirstMaxPass | internal/handler/ratelimit.go:74-84 | of the requests in one window precisely the first max pass, so call number max + 1 is refused |
| RateLimits.OffExactly | internal/handler/ratelimit.go:47-50 | a budget passes every call and keeps no account of it if and only if it or the window is zero or less |
| RateLimits.BoundAttained | internal/handler/ratelimit.go:64-102 | for every interval and every largest body some run of charges up to that size is granted exactly the tight bound: the interval bound, or one less where the length is no multiple of W+1 and no call can open a window without counting in the budget |
| RateLimits.TightBound | internal/handler/ratelimit.go:64-102 | no run of such calls from an empty limiter is granted more than the tight bound |
| RateLimits.SweepInvisible | internal/handler/ratelimit.go:104-115 | the sweeping limiter answers every run as one that never drops a window |
| RateLimits.ClientsIsolated | internal/handler/ratelimit.go:64-102 | a client's answers are those of a limiter fed only that client's calls |
| RateLimits.MapSmallOrRecent | internal/handler/ratelimit.go:104-115 | after a window is opened the map has fewer than 1024 entries or only windows opened within the last W |
| RateLimiters.WindowObject.Grant | internal/handler/ratelimit.go:79-83 | the counters of a window equal the calls granted on that object and stay within the limits |
| RateLimiters.RateLimiter.constructor | internal/handler/ratelimit.go:35-43 | a new limiter has no windows |
| RateLimiters.RateLimiter.DropExpired | internal/handler/ratelimit.go:104-115 | below 1024 entries nothing goes, else exactly the windows that are over; the others stay the same objects |
| RateLimiters.RateLimiter.GetWindow | internal/handler/ratelimit.go:64-72 | the window returned is the map's own object for the client, fresh exactly when none was running |
| RateLimiters.RateLimiter.GrantInPlace | internal/handler/ratelimit.go:78-83 | granting on the returned object changes the map's value at that client and nowhere else |
| RateLimiters.RateLimiter.Allow | internal/handler/ratelimit.go:74-84 | answer and new state are the specification's, and the call joins the ledger of the client's current window |
| RateLimiters.RateLimiter.ChargeBytes | internal/handler/ratelimit.go:89-102 | with a positive byte limit and window true exactly when the bytes fit the client's window, else true and nothing changes; answer, state and ledger follow the specification |
| RateLimiters.RateLimiter.Admit | internal/handler/ratelimit.go:47-60 | with a positive request limit and window true exactly when the client's window has counted fewer than max, else everything passes and nothing changes |
| ClientAddress.SpoofingIgnored | internal/handler/handler.go:421-442 | whatever header a client sends, N trusted proxies make it known by the entry the outermost one appended, or by the direct peer if that entry is blank |
| ClientAddress.AddressCounts | internal/handler/handler.go:421-442 | that entry is the address itself, behind a comma and a space when the client sent a header of its own |
| ClientAddress.OneBucket | internal/handler/handler.go:421-442 | so two requests with different forged headers are the same client to the limiter |
| ClientAddress.TooFewEntries | internal/handler/handler.go:427-441 | with fewer entries than trusted proxies, or none trusted, the direct peer counts |
| ClientAddress.PeerHostDropsPort | internal/handler/handler.go:437-441 | the peer's host is its address without the port |
| ClientAddress.ExtensionIgnored | internal/handler/handler.go:105-112 | a dot-free key is named by itself with and without any extension |
| ClientAddress.KeyParamMeaning | internal/handler/handler.go:105-112 | the key of an id is dot-free and the id is it, alone or with a dot and an extension |
| Sessions.RunAgrees | internal/auth/session.go:37-77 | after every run the map agrees with the history and may have forgotten expired sessions only |
| Sessions.GetMatchesHistory | internal/auth/session.go:48-61 | get succeeds exactly while the session the history grants has not passed its fixed expiry |
| Sessions.GrantedMeaning | internal/auth/session.go:37-67 | a session is granted exactly when some create of its id has neither a revoke nor another create of that id after it |
| Sessions.RevokedStaysRevoked | internal/auth/session.go:63-67 | a revoked id stays out of the map through any operations that do not create it |
| Sessions.SecondLogoutTerminates | internal/auth/auth.go:140-160 | a logout that starts after another one revoked the same created session finds none, whatever happens in between |
| Sessions.CookieAccepted | internal/auth/auth.go:197-211 | a cookie value names sid exactly when sid is nonempty and dot-free and the value is sid, a dot and the signature of sid; no cookie names none |
| Sessions.OwnCookieOnly | internal/auth/auth.go:177-211 | the cookie set for a session is read back as it, and one with any other signature is read as none |
| SessionStores.SessionStore.Create | internal/auth/session.go:37-46 | the map stays what the history, now with this create and its sweep, makes it |
| SessionStores.SessionStore.SweepLocked | internal/auth/session.go:69-77 | exactly the expired sessions are dropped |
| SessionStores.SessionStore.Get | internal/auth/session.go:48-61 | with a forward clock the answer is what the history grants and has not expired; an expired session is dropped |
| SessionStores.SessionStore.Revoke | internal/auth/session.go:63-67 | exactly that session is removed |
| SessionStores.SessionStore.Logout | internal/auth/auth.go:140-160 | redirects exactly when there was a live session and a logout address; the session is gone afterwards |
| SessionStores.LogoutTwice | internal/auth/auth.go:140-160 | the second of two logouts with one cookie never redirects |
| PhoneticKeys.AppendSyllable | internal/keygen/keygen.go:86-92 | the inner loop appends the template's letters as far as there is room |
| PhoneticKeys.CreatePhonetic | internal/keygen/keygen.go:81-95 | the nested loops end with the specified key, of exactly the length asked for |
| PhoneticKeys.PhoneticSound | internal/keygen/keygen.go:74-95 | for all draws the key is a prefix of a concatenation of syllables of the templates |
| PhoneticKeys.PhoneticComplete | internal/keygen/keygen.go:74-95 | every prefix of every such concatenation is the key for some draws |
| PhoneticKeys.SyllableMeaning | internal/keygen/keygen.go:68-77 | the syllables, letter kinds spelt out: cv, cvc, vc, cvv and ccv over a, e, i, o, u and the other letters to z |
| PhoneticKeys.NoFourInARow | internal/keygen/keygen.go:64-77 | four letters in a row are never all vowels nor all consonants |
| RandomKeys.CreateRandom | internal/keygen/keygen.go:41-58 | the loop spells the drawn symbols in order, each the character of A-Z, a-z, 0-9 at the draw's place |
| RandomKeys.ProducibleKeys | internal/keygen/keygen.go:41-58 | the enumerated keys of length n are exactly those some draws spell |
| RandomKeys.KeyCount | internal/keygen/keygen.go:41-58 | there are 62^n of them |
| RandomKeys.FreeKeyCanBeDrawn | internal/handler/handler.go:240-253 | while fewer than 62^n keys are live some draw lets chooseKey's loop return |
| RandomKeys.NoKeyLeft | internal/handler/handler.go:240-253 | when every producible key is live no draw does |
| RandomKeys.DrawnKeyWithExtension | internal/handler/handler.go:105-112 | a drawn key names its paste with any extension |
| PhoneticCount.AcceptedIsProduced | internal/keygen/keygen.go:74-95 | some draws spell a key if and only if a letter-by-letter reading by the templates, all ways at once, gets to its end |
| PhoneticCount.AcceptedCount | internal/keygen/keygen.go:68-95 | the number of phonetic keys of each length, exactly, by a recursion on the length |
| PhoneticCount.ManyKeys | internal/keygen/keygen.go:68-95 | there are at least 105^(n/2) of even length n |
| PhoneticCount.FreePhoneticKey | internal/handler/handler.go:240-253 | while fewer keys are live than there are phonetic keys some draws let chooseKey's loop return |
| PhoneticCount.NoPhoneticKeyLeft | internal/handler/handler.go:240-253 | when all of them are live no draws do |
| Text.SplitJoin | internal/handler/themes.go:129 | splitting undoes joining for separator-free parts |
| Text.JoinSplit | web/static/application.js:327 | joining undoes splitting, and no part has a separator |
| Text.TrimMeaning | internal/handler/handler.go:431 | trimming removes blank ends and nothing else |
| Text.TrimPrintable | internal/handler/handler.go:431 | a printable ASCII text loses the spaces and tabs around it and nothing else |
| Themes.ThemeFileMeaning | internal/handler/themes.go:29-32 | a file is accepted exactly when it is a nonempty name of a-z, 0-9, _ and -, the first no _ or -, followed by ".css" |
| Themes.ThemeFileIsPlain | internal/handler/themes.go:29-32 | an accepted file name has no separator and does not start with a dot |
| Themes.ThemeNameMeaning | internal/handler/themes.go:110-116 | an entry is theme n exactly when it is no directory and called n.css with n a valid name |
| Themes.SortedUnique | internal/handler/themes.go:85-89 | the sorted list does not depend on the order the set is walked in |
| Themes.LessMeaning | internal/handler/themes.go:85-89 | the order is by the first differing character, the end first |
| Themes.SortedNames | internal/handler/themes.go:85-89 | the names of the set, strictly ascending |
| Themes.Discover | internal/handler/themes.go:48-108 | the list is rake, then exactly the other themes of the listings in order; default, forced and initial are resolved against it |
| Themes.ListedIn | internal/handler/themes.go:63-80 | a theme is found when the program has it or, with a directory configured, the overlay |
| Themes.OverlayFirst | internal/handler/themes.go:137-157 | a stylesheet is served from the overlay exactly when that is configured, the file is a theme's and is there, and else from the program exactly when it is there |
| Themes.ResolvedThemes | internal/handler/themes.go:91-107 | the list begins with rake and has no duplicates, default and initial are in it, forced is empty or in it and then initial |
| Themes.ClientSeesNames | internal/handler/themes.go:125-131 | the browser's split of the rendered attribute gives the server's list back |
| Themes.ListedThemesAreServed | internal/handler/themes.go:137-157 | a valid theme name has a stylesheet behind its URL if and only if the directories list it at that moment and not everything listed under it is a link to a directory or to nothing |
| Themes.DeadLinkListed | internal/handler/themes.go:137-157 | a broken link is listed as a theme and answered with the application shell |
| Themes.EmbeddedThemesStay | internal/handler/themes.go:63-69 | a theme found in the program stays listed and served whatever becomes of the overlay directory |
| Switchers.Revisit | web/static/application.js:325-352 | opened, clicked k times and opened again, the page comes back with the theme it was left with, which is one of its list exactly after a click or when the first one shown was |
| Switchers.Switcher.Click | web/static/application.js:348-352 | the next theme of the list is shown and saved |
| Switchers.Switcher.ClickTimes | web/static/application.js:348-352 | k clicks show the k-th theme from the current one |
| Switchers.ClickedPosition | web/static/application.js:348-352 | k clicks, up to one turn, lead k places on in the list, from the last to the first |
| Switchers.FullCycle | web/static/application.js:348-352 | as many clicks as there are themes show each theme once and end at the first |
| Switchers.UnknownThemeRestarts | web/static/application.js:348-352 | from a theme not in the list a click leads to its first entry |
| Switchers.PageAgrees | web/static/application.js:327-340 | the page's list is the server's, without duplicates, and it opens with a theme of the list whatever was saved |
| Switchers.NoThemesAttribute | web/static/application.js:327 | without the attribute the list is rake alone |
| FileHandles.CheckHandle | internal/store/file.go:144-158 | the scan accepts exactly names of 64 characters from 0-9 and a-f |
| FileHandles.EncodedDigits | internal/store/file.go:38-41 | each byte is written as the lowercase digit of its upper half, then that of its lower half |
| FileHandles.DecodeEncode | internal/store/file.go:38-41 | decoding undoes encoding, for every byte sequence |
| FileHandles.EncodeDecode | internal/store/file.go:38-41 | encoding undoes decoding, for every even-length hex string |
| FileHandles.HandlesAreEncodings | internal/store/file.go:144-158 | accepted names are exactly the encodings of 32 bytes |
| FilePastes.FilenameIsHandle | internal/store/file.go:38-41 | every derived file name is accepted as a handle |
| FilePastes.HandleOwner | internal/store/file.go:38-41 | the file name of a used key belongs to that key alone |
| FilePastes.StepAgrees | internal/store/file.go:43-140 | on any directory at all, every operation answers as the write-once store it stands for does, and does to it what the store does |
| FilePastes.DirectoryRefinesMap | internal/store/file.go:43-140 | so does every run from every directory, for keys the digest tells apart |
| FilePastes.StraysUntouched | internal/store/file.go:144-158 | entries whose names are no handles come through every run unchanged, and none is created |
| FilePastes.StatsCountPastes | internal/store/file.go:119-137 | a full listing has one entry per file of the store and adds up to their bytes, strays left out |
| FilePastes.CappedListing | internal/store/file.go:70-101 | the front of a full listing has files named by a handle only, each with its own size and time, none twice, newest first, as many as there are up to the limit or to 500; none left out is newer than one shown |
| FilePastes.ListedHandleDeletes | internal/store/file.go:103-117 | deleting by a listed handle succeeds and removes exactly one paste, that of the key with this file name or the foreign file so called |
| FilePastes.DeletedByName | internal/store/file.go:103-117 | deleting by a handle removes the paste of a key if and only if it is the name of that paste's file, and then no other paste |
| FilePastes.PreloadedKept | internal/handler/admin.go:107-117 | over every run of deletes the guard lets through and other operations, the preloaded paste stays untouched if and only if its file name is never deleted; the guard stops that delete only if the name is itself a static key, which it is not when no static key has 64 characters |
| FileStores.SortByCreated | internal/store/file.go:95-97 | the same entries, newest first |
| FileStores.FileStore.Get | internal/store/file.go:43-52 | missing exactly when no entry has the key's file name, the file's content, or an error for a directory |
| FileStores.FileStore.Set | internal/store/file.go:54-68 | stores exactly when no entry has the file name; existing entries stay as they are |
| FileStores.FileStore.List | internal/store/file.go:70-101 | the loop and the sort show precisely that, and the front of the full listing sorted newest first |
| FileStores.FileStore.Delete | internal/store/file.go:103-117 | only names that are handles are looked up; a file or an empty directory of that name goes, nothing else |
| FileStores.FileStore.Statistics | internal/store/file.go:119-137 | number and total size of the files named by a handle |
| FileStores.FileStore.PurgeExpired | internal/store/file.go:139-140 | nothing expires: the answer is 0 and nothing changes |

## Left out

- FileStores.SortByCreated: leaves the order of equal times open, as the library sort does.
- Handlers.Handler.ChooseKey: loops over the finitely many draws it is given and reports when they run out; the loop of the server goes on.
- HTTP routing, headers, the cross-origin check behind the 403, CORS and CSP strings, JSON, logging and panic recovery: library behaviour with no state to get wrong.
- Errors, timeouts and cancellation of the database, the file system and the network; a file is written in one step, so a reader never sees half of one.
- Times below a tick, and the `created_at` of postgres, which the database server's clock supplies.
- A negative limiter window: both callers guard against it before it matters.
- SHA-256, HMAC, bcrypt, base64 and the random source are parameters; no strength is claimed for them.
- OIDC discovery, code exchange and token verification, and bcrypt login: network calls and libraries.
- Multipart bodies: only the raw body is modelled.
- Bodies are bytes; the keyspace of the random generator is its default one, and dictionary keys, made of arbitrary file content, are not covered.
- Header values are strings of characters; invalid UTF-8 in them is not covered.
- Entropy estimates and human-readable sizes: floating point for display.
- Configuration files, environment variables and connection strings.
- The rest of the page: editor, highlighting, styles and the admin console.
