# audit-check: the advisory-report pipeline, modelled in Dafny

audit-check is a CI step that runs `cargo audit`, relays the tool's stdout
and stderr line by line, decides pass or fail from the exit code and, on
failure, can file a GitHub issue that lists the advisories found. This
project models the part of `src/runtime/mod.rs` that runs after the audit
subprocess and the relay threads have finished:

- **the report parser** (`parse`, `parse_rustsec`, `parse_caps`, the
  `Rustsec` record): the captured stdout is split on `"\n\n"`, the first
  block loses its first four lines, each block becomes a record of eight
  text fields, and the (raw block, record) pairs are collected into a
  `BTreeMap` keyed by advisory ID;
- **the issue composer** (`generate_title`, `generate_body`): folds over
  that map in ascending key order;
- **the receivers and the verdict** (`receive_stdout`, `receive_stderr`,
  `receive_code`, and lines 60-80 of `run`: the audit thread's result,
  then the verdict).

Files, one module each:

| file | module | models |
|---|---|---|
| `text.dfy` | `Text` | `str::split("\n\n")`, `str::lines`, `join`, and the order of `String` keys |
| `options.dfy` | `Options` | Rust's `Option` and `unwrap_or` |
| `ordered_map.dfy` | `OrderedMap` | `BTreeMap<String, V>`: `insert`, `keys`, and `collect` from pairs |
| `report.dfy` | `Report` | the field patterns, `parse_caps`, `parse_rustsec`, `parse` |
| `composer.dfy` | `Composer` | `generate_title`, `generate_body`, and the unit tests |
| `runtime.dfy` | `Runtime` | the channel receivers, the issue payload, the verdict of `run` |

How the model stands in for the code:

- **`BTreeMap`** is its iteration order: a list of (key, value) entries whose
  keys strictly ascend (`OMap.Valid`), plus the `map` it denotes (`ToMap`).
  `Canonical` proves that the list is fixed by the map, so folding over the
  list is folding over the map in ascending key order.
- **String order** is lexicographic on characters. Rust compares the UTF-8
  bytes, which orders strings the same way as comparing code points.
- **The compiled patterns** `Field: +(Prefix.*)` are explicit scans
  (`SpacesEnd`, `FindNl`, `TryAt`, `FirstCapture`). The declarative
  predicate `MatchShape` says what a match is:
  - the field name, at any position (the pattern is not anchored to a line);
  - then a maximal, non-empty run of spaces;
  - then the rest of that line, which must start with the prefix.

  Nothing is trimmed, and a trailing `'\r'` stays in the value. For the six
  `(.*)` patterns the greedy `+` takes the whole run of spaces first, and
  `(.*)` then always matches. For `RUSTSEC` and `https:` the whole run is
  the only one that can match, because neither prefix starts with a space.
- **`str::lines`** follows the current standard library. A line ended by
  `"\n"` loses it, and also a `'\r'` just before it. A last line without
  `"\n"` is kept as it is, and an empty last piece is dropped.
- **Channels** are `Receiver` objects. A receiver holds the messages its
  sender sent that have not been received yet. The sender has already
  finished, because `run` joins every thread before it reads the results.
  `recv` returns `None` once that queue is empty.
- **The HTTP exchange** of `create_issue` is the function parameter
  `publish`. **Creating the async runtime** (`Runtime::new()?`, line 68) is
  the boolean `runtimeStarts`, and a failure there ends `run` with that
  error instead of the RustSec error.
- **The audit thread's outcome** (line 60) is the boolean `auditOk`. When it
  is false, `run` returns the audit error (`AuditFailed`) before it looks at
  the code, so then no issue is filed.

Further behaviour the model keeps as the code has it:
- a block without an ID is keyed `"No ID"`;
- the values are not trimmed, and the match is not tied to the start of a line;
- `ComposeDeterministic` proves that title and body depend only on the
  map's contents.

## Model

| member | source | states |
|---|---|---|
| `Text.Split` | src/runtime/mod.rs:211 | `output.split("\n\n")` always yields at least one piece |
| `Text.SplitIsSplit` | src/runtime/mod.rs:211 | splitting on `"\n\n"` yields at least one piece, the pieces rejoined with `"\n\n"` give the input back, no piece contains `"\n\n"`, and no piece but the last ends in `'\n'` |
| `Text.SplitUnique` | src/runtime/mod.rs:211 | any list of pieces with those properties is exactly the split: it is leftmost, non-overlapping matching |
| `Text.LinesAfterTerminated` | src/runtime/mod.rs:213 | after n newline-terminated lines, `lines()` yields exactly the lines of the rest of the text |
| `Text.JoinLines` | src/runtime/mod.rs:213 | a text with no `'\r'` and no final `'\n'` is its lines rejoined with `"\n"` |
| `Text.SkipHeader` | src/runtime/mod.rs:213 | `lines().skip(n)` joined with `"\n"` drops exactly an n-line header and keeps the rest verbatim, provided the rest has no `'\r'` and does not end in `'\n'` |
| `Text.LessIrreflexive` | src/runtime/mod.rs:215-219 | the `String` key order is irreflexive |
| `Text.LessTransitive` | src/runtime/mod.rs:215-219 | the key order is transitive |
| `Text.LessTotal` | src/runtime/mod.rs:215-219 | any two distinct keys are ordered one way or the other |
| `Text.LessCommonPrefix` | src/runtime/mod.rs:215-219 | a common prefix does not change how two keys compare |
| `OrderedMap.InsertEntry` | src/runtime/mod.rs:215-219 | inserting into the ascending entry list keeps it ascending, the result denotes the old map with k bound to v, and it grows by one entry exactly when k was absent |
| `OrderedMap.OMap.Insert` | src/runtime/mod.rs:215-219 | the same for `BTreeMap::insert`: stays valid, map updated at k (overwrite), size grows only for a new key |
| `OrderedMap.MapOfHead` | src/runtime/mod.rs:255 | in key order the first key is below every later key and is not repeated |
| `OrderedMap.KeysOfMapOf` | src/runtime/mod.rs:255 | the map's keys are exactly the entries' keys |
| `OrderedMap.MapOfEntries` | src/runtime/mod.rs:265 | in an ascending list each entry is the map's value for its key, and there is one key per entry |
| `OrderedMap.Canonical` | src/runtime/mod.rs:254-268 | two ascending entry lists denoting the same map are equal: iteration order depends on the contents only |
| `OrderedMap.KeysInOrder` | src/runtime/mod.rs:255 | the keys of a map, visited in order, are its unique strictly ascending listing |
| `OrderedMap.FromPairs` | src/runtime/mod.rs:215-219 | `collect()` into a `BTreeMap`, one `insert` per pair in order, always gives a valid map with strictly ascending keys |
| `OrderedMap.FromPairsKeys` | src/runtime/mod.rs:215-219 | after `collect()` the keys are exactly the keys of the pairs |
| `OrderedMap.FromPairsValues` | src/runtime/mod.rs:215-219 | every collected entry is one of the pairs |
| `OrderedMap.FromPairsLastWins` | src/runtime/mod.rs:215-219 | a pair whose key no later pair repeats is the one kept |
| `OrderedMap.FromPairsSize` | src/runtime/mod.rs:215-219 | at most one entry per pair, and exactly one when the keys are distinct |
| `Report.ShapeUnique` | src/runtime/mod.rs:135-143 | a match at a given position has one shape: the capture starts after the whole run of spaces and ends at the next `'\n'` or the end of the text |
| `Report.NoMatchAt` | src/runtime/mod.rs:135-143 | when the label is absent at p, is followed by no space, or the rest of its line does not start with the prefix, the pattern has no match at p |
| `Report.TryAt` | src/runtime/mod.rs:135-143 | the scan at one position finds a capture exactly when the pattern matches there, and it is that match's capture |
| `Report.FirstCapture` | src/runtime/mod.rs:244-252 | there is no capture exactly when the pattern matches nowhere from p on; otherwise it is the leftmost match's capture, which starts with the prefix |
| `Report.ParseCaps` | src/runtime/mod.rs:244-252 | the default when the pattern occurs nowhere, otherwise the leftmost match's text from after the spaces to the end of its line; either way the default or a value starting with the prefix |
| `Report.ParseRustsec` | src/runtime/mod.rs:222-242 | the ID is `"No ID"` or starts with `RUSTSEC`; the URL is `"No URL"` or starts with `https:` |
| `Report.EmptyBlock` | src/runtime/mod.rs:222-231 | an empty block gives every placeholder: No ID, No URL, No Crate, No Version, No Warning, No Title, No Date, No Solution |
| `Report.Parse` | src/runtime/mod.rs:210-220 | the parse is total, and its result is the blocks collected in order. The map is valid, has no more entries than `"\n\n"`-separated pieces, every key is `"No ID"` or starts with `RUSTSEC`, is the ID of its record, and every record is the parse of its stored raw block |
| `Report.CollectStep` | src/runtime/mod.rs:215-219 | collecting one more block is one more `insert` of (its ID, (block, record)) into the map of the earlier blocks |
| `Report.CollectKeys` | src/runtime/mod.rs:215-219 | a key is in the map exactly when some block has that ID |
| `Report.CollectValues` | src/runtime/mod.rs:218 | every entry is (one of the blocks verbatim, its record), the key equals the record's ID and is never empty |
| `Report.CollectLastWins` | src/runtime/mod.rs:215-219 | when IDs repeat, the last block with that ID is the one stored |
| `Report.CollectSize` | src/runtime/mod.rs:215-219 | at most one entry per block, and exactly one per block when the IDs are distinct |
| `Report.OnlyFirstBlockAltered` | src/runtime/mod.rs:211-213 | the blocks are the split pieces with only the first altered. It is piece 0 after `skip(4)`, and when piece 0 is a 4-line preamble then text, it is exactly that text, provided that text has no `'\r'` and does not end in `'\n'` |
| `Report.ParseEmpty` | src/runtime/mod.rs:210-231 | parsing `""` gives exactly one entry, keyed `"No ID"`, holding the empty block and every placeholder |
| `Composer.Title` | src/runtime/mod.rs:254-262 | the title of an empty map is `""` |
| `Composer.TitleFoldAppends` | src/runtime/mod.rs:255-261 | from a non-empty accumulator the fold appends `", "` and the keys joined by `", "` |
| `Composer.TitleIsJoin` | src/runtime/mod.rs:254-262 | when no key is empty the title is the keys in ascending order joined by `", "` |
| `Composer.ReportTitle` | src/runtime/mod.rs:254-262 | for every parsed report the title is its IDs joined by `", "`, and they strictly ascend |
| `Composer.Body` | src/runtime/mod.rs:264-268 | the body of an empty map is `""` |
| `Composer.BodyFoldAppends` | src/runtime/mod.rs:265-267 | the body fold appends the entries' sections, one after another |
| `Composer.SectionsAppend` | src/runtime/mod.rs:265-267 | the sections of two runs of entries are the sections of each, concatenated |
| `Composer.BodySections` | src/runtime/mod.rs:264-268 | the body is the sections in ascending key order. Section i is `"# ‼️ " + key + " ‼️\n" + url + "\n\n````\n" + raw + "\n````\n\n"` with the raw block verbatim. It comes after the sections of the entries before it and before those of the entries after it, which for a valid map are exactly the smaller and the greater keys |
| `Composer.ComposeDeterministic` | src/runtime/mod.rs:254-268 | title and body depend only on the map's contents |
| `Composer.TestIdsOrdered` | src/runtime/mod.rs:328-333 | the test's IDs compare as 2018-0018 < 2020-0099 < 2021-0065 < 2022-0040 |
| `Composer.FourKeys` | src/runtime/mod.rs:324 | four pairs collect into a map whose keys are exactly their four keys |
| `Composer.FourInOrder` | src/runtime/mod.rs:328-333 | four keys arriving in the test's order are listed in ascending order |
| `Composer.FourTitle` | src/runtime/mod.rs:328-333 | the title of four non-empty keys is them joined by `", "` |
| `Composer.TestTitleText` | src/runtime/mod.rs:331 | the test's sorted IDs joined by `", "` are the expected title text |
| `Composer.FourBlocks` | src/runtime/mod.rs:322-334 | four blocks whose IDs arrive in the order b, d, c, a with a < b < c < d give four entries and the title `a, b, c, d` |
| `Composer.TestReport` | src/runtime/mod.rs:322-334 | four blocks with the test's IDs give exactly 4 entries and the title `"RUSTSEC-2018-0018, RUSTSEC-2020-0099, RUSTSEC-2021-0065, RUSTSEC-2022-0040"` |
| `Runtime.Receiver.Recv` | src/runtime/mod.rs:94 | `recv()` yields the oldest queued message and removes it, or `None` once the closed channel is empty |
| `Runtime.ReceiveLines` | src/runtime/mod.rs:93-98 | the buffer is every queued message in arrival order, and the channel is drained |
| `Runtime.ReceiveStdout` | src/runtime/mod.rs:92-99 | the stdout buffer is every stdout line in order |
| `Runtime.ReceiveStderr` | src/runtime/mod.rs:101-108 | the stderr buffer is every stderr line in order |
| `Runtime.ReceiveCode` | src/runtime/mod.rs:110-112 | the code sent, or -1 when the channel closed without one; the code, if any, is removed from the queue |
| `Runtime.ComposeIssue` | src/runtime/mod.rs:159-192 | the payload is the title and body of the report parsed from the stdout lines joined with `"\n"`. The title is its IDs joined by `", "`, the body is present, and milestone, labels and assignees are absent |
| `Runtime.Conclude` | src/runtime/mod.rs:64-80 | passes exactly when the code is 0, and then no issue is attempted. Any other code fails with the RustSec error whether or not `createIssue` is set and whatever the publish outcome is; the one exception is that the async runtime cannot start. An issue is attempted exactly when the code is non-zero, filing is enabled and the runtime starts, and the attempt is the issue for the stdout lines with the publish outcome |
| `Runtime.Finish` | src/runtime/mod.rs:60-80 | when the audit thread failed, the run ends with that error, attempts no issue and leaves the channels alone. Otherwise it drains the stdout and stderr channels and takes the code. It passes exactly when that code is 0, and fails with the RustSec error, or the runtime error, otherwise. An issue is attempted exactly when the code is non-zero, filing is enabled and the runtime starts, and the issue is built from all stdout lines |

## Left out

- src/audit.rs: spawning `sh -c "cargo audit -D…"`, attaching the pipes, the relay threads and the `try_wait` poll with its 500 ms sleep are process I/O and concurrency. The model starts from the channel contents they leave behind.
- Thread and channel wiring in `run` (lines 47-59, 61-63): creating the channels, spawning the four threads, and a panic in a receiver thread are not modelled. `Finish` takes the receivers after every sender has finished. It takes the result of joining the audit thread at line 60 as the flag `auditOk`, and requires that a successful audit has sent its exit code, as `handle_status` does (src/audit.rs:43-52, 75-79).
- The HTTP request in `create_issue` (lines 171-207): headers, client construction, the POST and the status-201 check are network I/O. Its result is the abstract `publish` outcome.
- Logging: the `info!`/`error!` calls in the receivers and in `run` are not modelled. `Conclude` returns the publish outcome that `run` would log.
- `Issue`/`Resp` serialization (lines 114-130): the skip-if-none JSON encoding is serde behaviour. `Issue` is modelled as a value with its optional fields.
- The regex engine: each pattern is a hand-written scan, equivalent for these eight patterns as described above.
- src/config.rs, src/log.rs, src/check/installed.rs, src/check/rustc.rs, src/main.rs, src/error.rs and src/utils.rs: environment reads, logging setup, the version preflight checks (lines 38-46 and 81-89 of `run`), a stale entry point and an error enum. None of them is part of this model.
- Composer.TestReport: does not evaluate the test's literal report text (mod.rs:274-320). The verifier cannot unfold the field scans and the separator search over that 1252-character literal; the first block alone, 322 characters, is already out of reach for proving it holds no `"\n\n"`. So the lemma assumes four blocks whose parsed IDs are the test's four IDs, in the test's order, and proves the entry count and the title from that.
