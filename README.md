# Program supervisor, brute-force service and cinema store in Dafny

This project models the core of three Python programs from one repository and
proves properties of those models.

- **The program supervisor** (`1lab/server.py`). A daemon that keeps a
  set of command lines registered, each with an `active` flag, and re-runs
  every active one on a global interval through a per-program runner
  thread. Over a small JSON protocol it handles `add`, `stop`, `resume`,
  `set_interval` and `get_output`. After every change it rewrites a JSON
  state file, and on shutdown it stops every runner and saves once more.
  - The model (modules `Server`, `OutputArchive` and `PyStr`) is a class
    `Server.Supervisor`. Its fields are the in-memory state
    (`programs_data`), the map of runner handles (`program_threads`) and
    the last snapshot written to the state file.
  - Each runner's `threading.Event` is a `StopEvent` object, so setting it
    is a heap update.
  - Every request method keeps the invariant `Valid()`: a program is active
    exactly when it has a handle whose event is not set. It also keeps
    `Persisted()`: loading the state file gives back the in-memory state.
  - `get_output` is modelled with Python's string ordering for `sorted`.
    Its accumulation loop is modelled as well.
  - The parts of Python's `str.split`, `str.strip` and `int(str)` that the
    supervisor relies on are written out in `PyStr`.
- **The brute-force task** (`2lab/app/services/tasks.py`, module
  `BruteForce`). The task enumerates every password over a character set,
  up to a maximum length, and stops at `"test"`. Every thousand
  candidates it reports its progress.
  - The enumeration is specified by `Candidates`, which follows
    `itertools.product`.
  - The method `BrutForceTask` keeps the source's nested loops and early
    return. It is proved to return `Outcome(charset, maxLength)` and to
    send exactly the progress values `Reports(...)`.
- **The task status endpoints** (`2lab/app/api/brut.py`, module
  `BrutApi`).
  - `start_brut` guards the length and creates the record.
  - `get_status` maps the state the task queue reports to a response, and
    possibly to a rewrite of the stored record. This mapping is the pure
    function `Decide`. The table of records is the class `TaskStore`.
- **The cinema store** (`4lab/main.py`, module `CinemaStore`). It has two
  tables, with a cascading foreign key from movies to cinemas.
  - Each table is a sequence of rows in id order. New ids follow SQLite's
    rule for rowids.
  - The class `Database` keeps unique ascending ids and the foreign key
    through every endpoint.

The model follows these details of the code:

- `set_interval` stores whatever `int(...)` yields, zero and negative
  values included (1lab/server.py:120-121).
- `int()` skips less whitespace than `strip()` and `split()`: only tab to
  carriage return, space, U+0085 and U+00A0. An interval text padded with
  U+001C..U+001F is refused (1lab/server.py:120, 125-127).
- `resume` gives one answer for a missing name and for an active one
  (1lab/server.py:115).
- `stop` succeeds for any name with an installed handle, even one that
  was already stopped, and the handle stays installed
  (1lab/server.py:94-97).
- An unknown task id in `get_status` is answered with 500, not 404: the
  404 is raised inside the `try` whose handler turns every exception into
  a 500.
- The text fields of the cinema store are checked for `min_length=1`
  before they are stripped, so an all-whitespace name is stored as `""`.
  The response models `CinemaOut` and `MovieOut` keep `min_length=1`, so
  FastAPI refuses such a row on the way out with 500: the create or
  update answers 500 after its commit, and from then on every listing
  that includes the row answers 500 (4lab/main.py:49-51, 56, 61-63,
  72, 87, 94, 111, 133, 152, 179). See "## Findings".

Randomness, I/O and library calls are parameters of the model:

- The fresh `uuid4` id is a parameter of `StartBrut`.
- The commands `shutil.which` resolves are a set `onPath`.
- The output directories are a map from program name to the directory
  listing, in whatever order `os.listdir` returns it.
- The state the task queue reports is a `CeleryState` value.
- The event states seen by the runner's wait loop are a function
  `setAtCheck`.

## Model

| member | source | states |
|---|---|---|
| PyStr.Strip | 4lab/main.py:98 | `strip()` is empty exactly for an all-whitespace text; otherwise it begins and ends with a non-space character |
| PyStr.StripPadded | 4lab/main.py:163-164 | stripping removes exactly the whitespace padding around a text with non-space ends, so it is idempotent |
| PyStr.FirstField | 1lab/server.py:26 | `split()[0]` fails (IndexError) exactly for an all-whitespace name; otherwise it is a non-empty word without whitespace |
| PyStr.FirstFieldOf | 1lab/server.py:26 | the first field is the word after the leading whitespace, up to the next whitespace |
| PyStr.ParseInt | 1lab/server.py:120 | `int()` of a text converts only if the text holds a digit; around the text it skips only tab to carriage return, space, U+0085 and U+00A0 |
| PyStr.ParseStrippedInt | 1lab/server.py:120 | after stripping, a converted text ends in a digit, and the number has the sign written |
| PyStr.ParseDecimalText | 1lab/server.py:120 | `int(str(n)) == n` for every integer, also with the whitespace `int()` skips around the text |
| PyStr.ParseRefusesSeparator | 1lab/server.py:120 | a text that begins with one of U+001C..U+001F raises ValueError under `int()`, although `strip()` drops that character |
| PyStr.ParseRejectsWithoutDigits | 1lab/server.py:120 | `int()` of a text without any decimal digit raises ValueError |
| OutputArchive.SortByName | 1lab/server.py:132 | `sorted(os.listdir(...))` yields the same artifacts in ascending name order |
| OutputArchive.SortedUnique | 1lab/server.py:132 | two name-sorted orderings of the same directory are equal |
| OutputArchive.ListingOrderIrrelevant | 1lab/server.py:131-137 | the `get_output` text does not depend on the order of the directory listing |
| OutputArchive.Section | 1lab/server.py:136 | one file's section: a delimiter line naming the file, then its content, then a line feed |
| OutputArchive.Combined | 1lab/server.py:133-137 | the joined output is empty exactly for an empty folder |
| OutputArchive.CombinedAppend | 1lab/server.py:133-136 | the output for two listings one after the other is the first output followed by the second |
| OutputArchive.Concatenate | 1lab/server.py:133-137 | the accumulation loop produces the delimiter line and then the content of every file, in order |
| Server.LoadPrograms | 1lab/server.py:29-33 | a written state file is read back as written; without one the state has interval 10 and no program |
| Server.IsProgramSafe | 1lab/server.py:25-27 | `split()[0]` fails (a server error) exactly for an all-whitespace name |
| Server.ProgramSafeByCommand | 1lab/server.py:25-27 | only the command word decides safety: whether it is on the search path; arguments and padding play no part |
| Server.Truncate | 1lab/server.py:120 | `int()` of a finite float truncates toward zero: the result is within one of the float, on the side of zero |
| Server.IntervalOf | 1lab/server.py:120 | a missing field gives `INTERVAL`, 10; ValueError only from text and NaN; TypeError exactly for null, a list or an object; OverflowError exactly for ±Infinity; numbers and booleans always convert |
| Server.IntervalOfDecimalText | 1lab/server.py:119-121 | every integer, including zero and negative ones, sent as decimal text with or without the padding `int()` skips is stored as the new interval |
| Server.IntervalRefusesSeparator | 1lab/server.py:119-127 | an interval text that begins with one of U+001C..U+001F is refused with the invalid-interval answer |
| Server.IntervalRefusesNonNumericText | 1lab/server.py:119-127 | a digit-free text is refused with the invalid-interval answer |
| Server.CommandOf | 1lab/server.py:74-129 | the `if`/`elif` chain falls through to the unknown-command answer exactly for an action other than the five known ones |
| Server.GetOutput | 1lab/server.py:129-141 | no program gives a server error (TypeError); a missing folder gives the not-found answer; otherwise the sections of the folder's files in name order, and `""` for an empty folder |
| Server.WaitInterval | 1lab/server.py:54-57 | the wait takes at most max(interval, 0) one-second sleeps, and it stops at the first check that sees the event set |
| Server.Supervisor.RunningIsActive | 1lab/server.py:59-65 | under the invariant, the programs with a live runner are exactly the active ones |
| Server.Supervisor.Start | 1lab/server.py:29-33 | startup loads the state file, or the default state with interval 10 when there is none, and starts one fresh runner per active program; the invariant and persistence hold |
| Server.Supervisor.StartPrograms | 1lab/server.py:59-65 | one fresh, uncancelled handle with the current interval for exactly the active programs; nothing else changes |
| Server.Supervisor.Save | 1lab/server.py:35-37 | the state file is rewritten with the full in-memory state |
| Server.Supervisor.Add | 1lab/server.py:76-91 | an unresolvable or already registered name changes nothing; a blank name is a server error; a new name becomes active with a fresh handle at the current interval, is saved, and no other entry changes; no runner's event is set |
| Server.Supervisor.Stop | 1lab/server.py:93-102 | any name with a handle, even a stopped one, gets its event set and its flag cleared; the handle stays and the state is saved; otherwise nothing changes; no other event is touched; the set of registered names never changes, so under the invariant line 96 cannot raise KeyError |
| Server.Supervisor.Resume | 1lab/server.py:104-116 | only a registered inactive name gets a fresh handle at the current interval, which replaces any old one, and becomes active and saved; otherwise nothing changes; no runner's event is set |
| Server.Supervisor.SetInterval | 1lab/server.py:118-127 | the converted value is stored and saved, whatever its sign; a ValueError changes nothing; a TypeError (null, list, object) or an OverflowError (±Infinity) is a server error; handles keep their interval |
| Server.Supervisor.HandleRequest | 1lab/server.py:67-149 | routing by action; every answer that reports a change was given by its own action for the request's program or value, with the new programs, handles and interval that action gives, and rewrites the state file to equal the in-memory state; every other answer leaves the whole state unchanged; no event is set except by `stop`; the output answers name the request's program; conversely, `add` of a safe new name is answered `Added`, of a stored one `AlreadyExists`, of an unsafe one `Unsafe` and of an all-whitespace one 500, `stop` answers `Stopped` exactly for a name with a handle, `resume` answers `Resumed` exactly for a stored inactive name, `set_interval` answers `IntervalSet` for a converted value, `InvalidInterval` for a `ValueError` and 500 for a `TypeError` or `OverflowError`, and `get_output` fails with 500 exactly when no program is given; the invariant is kept |
| Server.Supervisor.Shutdown | 1lab/server.py:151-157 | every handle's event is set and the state is saved with the active flags unchanged |
| Server.Restart | 1lab/server.py:151-162 | after a shutdown and a restart from the saved file, the state is the same and exactly the previously active programs have live runners |
| Server.StopThenResume | 1lab/server.py:93-116 | `stop` followed by `resume` leaves exactly one handle for the program, a fresh live one, and the runner it replaced has been told to stop |
| BruteForce.TotalGeometric | 2lab/app/services/tasks.py:8 | `(n - 1) * total == n^(L+1) - n`, the closed form of the sum of len(charset)^i for i = 1..L |
| BruteForce.Pow | 2lab/app/services/tasks.py:8 | `len(charset) ** i` is positive for a non-empty character set and 0 for an empty one |
| BruteForce.Total | 2lab/app/services/tasks.py:8 | the total is 0 exactly for an empty character set or a non-positive length |
| BruteForce.Product | 2lab/app/services/tasks.py:13 | one length yields exactly len(charset)^length candidates |
| BruteForce.Candidates | 2lab/app/services/tasks.py:12-14 | the whole enumeration has exactly `total` candidates |
| BruteForce.ProductAt | 2lab/app/services/tasks.py:13 | within one length the first character varies slowest: candidate `c * len(cs)^n + j` is `cs[c]` followed by candidate j of length n |
| BruteForce.ProductMember | 2lab/app/services/tasks.py:13-14 | the candidates of length n are exactly the words of length n over the character set |
| BruteForce.CandidateMember | 2lab/app/services/tasks.py:12-14 | the candidates are exactly the words of length 1..max_length over the character set |
| BruteForce.CandidatesByLength | 2lab/app/services/tasks.py:12 | shorter candidates are visited first |
| BruteForce.CandidatesPrefix | 2lab/app/services/tasks.py:12 | the enumeration up to a shorter length is a prefix of the enumeration up to a longer one |
| BruteForce.TestReachable | 2lab/app/services/tasks.py:12-17 | "test" is a candidate exactly when max_length >= 4 and 't', 'e' and 's' are all in the character set |
| BruteForce.Outcome | 2lab/app/services/tasks.py:17-23 | the completed answer exactly in that case, otherwise the failed answer; the archive hash plays no part |
| BruteForce.Scanned | 2lab/app/services/tasks.py:15 | the counter never exceeds `total` |
| BruteForce.Progress | 2lab/app/services/tasks.py:21 | the progress of a count within the total is a percentage, 0..100 |
| BruteForce.Reports | 2lab/app/services/tasks.py:20-22 | one report per multiple of 1000 counted |
| BruteForce.ReportsAt | 2lab/app/services/tasks.py:20-22 | one report per multiple of 1000, and report j is `(j + 1) * 1000 * 100 / total` |
| BruteForce.ReportsShape | 2lab/app/services/tasks.py:20-22 | the reported values lie in 0..100 and never decrease |
| BruteForce.FoundAt | 2lab/app/services/tasks.py:15-18 | where the scan meets "test", it has counted every earlier candidate |
| BruteForce.BrutForceTask | 2lab/app/services/tasks.py:7-23 | the nested loops return `Outcome(charset, max_length)` and send exactly the values `Reports(...)` for the candidates counted before the stop |
| BrutApi.Decide | 2lab/app/api/brut.py:43-78 | the record is written exactly on SUCCESS and FAILURE; after SUCCESS the written record equals the response; FAILURE is reported failed with the stored progress (`or 0`) and stored with that progress and `""`; PENDING and other states report pending with the stored values (`or 0`, `or ""`); PROGRESS reports running with the info's progress when there is one; SUCCESS with a non-empty result takes status, progress and result from it, defaulting to "completed", 100 and `""`, a `None` result read as `""`; SUCCESS with an empty result is completed at 100 |
| BrutApi.SuccessPollIdempotent | 2lab/app/api/brut.py:54-68 | polling a finished task again gives the same answer and writes the same record |
| BrutApi.FailurePollForgetsResult | 2lab/app/api/brut.py:69-72 | after a failure, the next poll reports the same progress and an empty result |
| BrutApi.TaskOutcomeReported | 2lab/app/api/brut.py:54-59 | a finished brute-force task is reported completed with "test" exactly when that password is reachable, and failed with `""` otherwise, at progress 100 |
| BrutApi.RunningProgressInRange | 2lab/app/api/brut.py:50-53 | every progress value the running task sends reaches the client as running, within 0..100 |
| BrutApi.TaskStore.StartBrut | 2lab/app/api/brut.py:20-30 | max_length > 8 gives 400 without a record; otherwise exactly one record (running, 0, no result) under the fresh id, which is returned; a clashing id creates nothing |
| BrutApi.TaskStore.GetStatus | 2lab/app/api/brut.py:33-83 | an unknown id gives 500 and changes nothing; otherwise the answer of `Decide`, whose record update alone is applied |
| BrutApi.StartThenPoll | 2lab/app/api/brut.py:20-49 | a freshly started task reads as pending, with progress 0 and an empty result |
| CinemaStore.NextId | 4lab/main.py:29 | a new row's id is greater than every id in use, and 1 for an empty table |
| CinemaStore.FindId | 4lab/main.py:113 | the position of the row with the id in a table's id column, or proof that no row has it; used for cinemas and for movies (line 183) |
| CinemaStore.MoviesOf | 4lab/main.py:146 | exactly the movies with the given cinema id |
| CinemaStore.MoviesNotOf | 4lab/main.py:35-36 | exactly the movies of other cinemas, which are those a cascading delete keeps |
| CinemaStore.CinemasNot | 4lab/main.py:129-130 | exactly the cinemas with another id |
| CinemaStore.CascadePartition | 4lab/main.py:44 | the movies deleted with a cinema and the movies kept are together exactly the old movies |
| CinemaStore.Patched | 4lab/main.py:189-195 | the update keeps the movie's id and cinema |
| CinemaStore.MovieList | 4lab/main.py:133 | the rows, or 500 exactly when one of them fails `MovieOut` |
| CinemaStore.Database.ListCinemas | 4lab/main.py:87-90 | every cinema, each once; 500 exactly when a cinema has an empty name or address |
| CinemaStore.Database.ListMovies | 4lab/main.py:133-148 | every movie without a filter; 404 for a missing cinema; otherwise exactly the movies of that cinema; 500 exactly when a listed movie has an empty name or genre |
| CinemaStore.Database.ListMoviesByCinema | 4lab/main.py:111-119 | 404 for a missing cinema; otherwise exactly its movies, or 500 exactly when one of them has an empty name or genre |
| CinemaStore.Database.ListingsAgree | 4lab/main.py:111-148 | the two listings of a cinema's movies agree, the 404 included |
| CinemaStore.Database.CreateCinema | 4lab/main.py:92-109 | 422 for an empty field; otherwise exactly one new cinema with the stripped fields, under an id not in use; movies unchanged; the foreign key is kept; the answer is the new row, or 500 (with the row still committed) exactly when a field is all whitespace |
| CinemaStore.Database.CreateMovie | 4lab/main.py:150-177 | 422 for an empty field; 404 for a missing cinema with nothing changed; otherwise exactly one new movie with the stripped fields, linked to that cinema; the answer is the new row, or 500 (with the row still committed) exactly when a field is all whitespace |
| CinemaStore.Database.DeleteCinema | 4lab/main.py:121-131 | 404 for a missing id with nothing changed; otherwise that cinema and exactly its movies are removed, nothing else, and the foreign key is kept; if every row passed its response model, every row still does |
| CinemaStore.Database.UpdateMovie | 4lab/main.py:179-210 | 422 for an empty given field; 404 for a missing movie; 400 when no field is given; otherwise only the given fields are replaced by their stripped text, and id, cinema and every other row are unchanged; the answer is the updated row, or 500 (with the change committed) when it has an empty name or genre |
| CinemaStore.DeleteThenList | 4lab/main.py:111-131 | after a delete the cinema's movie listing is 404, and another cinema still lists all its movies, or answers 500 exactly when one of them fails `MovieOut` |
| CinemaStore.BlankNameCommitted | 4lab/main.py:97-109 | a cinema named `" "` passes the body check, is committed as `""`, is answered with 500, and every later listing of the cinemas answers 500 |
| CinemaStore.ShownListsAnswer | 4lab/main.py:87-148 | when every stored row passes its response model, no listing answers 500 |
| CinemaStore.CreateCinemaChecked | 4lab/main.py:97-109 | `create_cinema` with the check on the stripped fields: 422 with nothing changed for a field that strips to `""`; otherwise the one new cinema under the next id with the stripped fields is the answer and the only change; never 500, and every stored row keeps passing its response model |
| CinemaStore.CreateMovieChecked | 4lab/main.py:155-177 | `create_movie` with the check on the stripped fields: 422 or 404 with nothing changed; otherwise the one new movie under the next id with the stripped fields and the cinema is the answer and the only change; never 500, and every stored row keeps passing its response model |
| CinemaStore.UpdateMovieChecked | 4lab/main.py:179-210 | `update_movie` with the check on each given stripped field: 422, 404 or 400 (when no field is given) with the movies unchanged; otherwise the patched row is the answer and replaces the old one in place; never 500, and every stored row keeps passing its response model |

## Findings

| source | as written | input that shows it | evidently intended | confidence | as-written member | corrected member |
|---|---|---|---|---|---|---|
| 4lab/main.py:97-109 | `min_length=1` is checked on the raw text, then the text is stripped and committed; the response model then refuses the `""` with 500, and the row makes every later listing answer 500 (the same holds for `create_movie` at 4lab/main.py:163-164 and `update_movie` at 4lab/main.py:190-194) | POST /cinemas with `{"name": " ", "address": "A"}` | refuse a field that strips to `""` with 422, so that no stored row fails its response model | not executed; high | CinemaStore.BlankNameCommitted | CinemaStore.CreateCinemaChecked |

`CreateMovieChecked` and `UpdateMovieChecked` correct the other two endpoints
in the same way, and `ShownListsAnswer` shows that with the corrected
endpoints no listing answers 500. The rest of the model keeps the code as
written.

## Left out

- Sockets, `recv(4096)`, `sendall`, the accept loop and the per-connection threads are I/O and concurrency. Requests are handled one at a time, and racing requests on one name are not modelled.
- The response texts are one variant per message, not the Russian wording. Logging is left out.
- `run_program` is left out except for its wait loop: the subprocess, the cp866 decoding, the artifact file, the timestamp and the outer run loop are I/O.
- The JSON state file is left out: a snapshot value stands for it, and a hand-edited or malformed file is not modelled.
- `os.path.join` and `os.path.exists` are a map lookup. A folder name that joins onto another directory, such as `""`, is not modelled.
- Signal registration and `sys.exit` are not modelled. Only the state effect of `graceful_shutdown` is kept.
- JSON values of the wrong type for `action` or `program`, such as numbers or lists, are not modelled. Both fields are optional strings.
- PyStr.IsSpace: Python whitespace and `int()` digits above U+00FF are not covered; the same holds for PyStr.IsIntSpace.
- PyStr.ParseInt: the limit of 4300 digits that Python 3.11 and later (and the 2022 security releases of earlier versions) put on `int()` of a text is not modelled. A longer text converts here, where those versions raise ValueError.
- PyStr.ParseDecimalText: holds for every integer, including those over 4300 digits, which the versions with that limit refuse.
- Server.IntervalOfDecimalText: likewise an interval over 4300 digits is stored here, where the versions with that limit answer invalid interval.
- BruteForce.Progress: computed in exact integers as `checked * 100 / total`. The source computes `int(checked / total * 100)` in floating point, which can differ by one from that.
- The task queue's `send_task` and `AsyncResult` are left out; the reported state is a parameter.
- BrutApi.Meta: the values in the task's dictionary are typed. A progress or status of another type, which fails the response schema, is not modelled.
- SQLAlchemy sessions, commits, rollbacks and the `IntegrityError` branches are left out. With the checks before them, the unique and foreign-key constraints cannot fail here. The id clash in `start_brut` is modelled as a failure.
- The unrestricted `SELECT` order is taken to be id order, which is SQLite's rowid scan order.
- 1lab/client.py and the user and JWT endpoints are not part of this model.
- The pydantic declarations are modelled only through the `min_length=1` checks: on the request bodies (422) and on the response models `CinemaOut` and `MovieOut` (500). Their other field types are taken as given.
