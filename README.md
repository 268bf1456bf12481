# MaFileManager ASF converter: credential reconciliation, modelled in Dafny

This project models the core of the ASF conversion in MaFileManager v1.3.0: the part that
turns a set of Steam Guard maFiles and a `login:password` roster into ArchiSteamFarm
bot files. It covers these pieces:

- **The roster parser** (`AsfConverter._parse_logpass`). It tries six text encodings in
  a fixed order and keeps the first decoding that yields an entry. Each stripped,
  non-blank line is cut once, at the first occurrence of the highest-priority delimiter
  it holds (`:` `;` `,` `|` space tab). Entries go into an insertion-ordered dict: the
  last value wins, and the key keeps its first position.
- **The matcher** (`AsfConverter._find_best_match`). It builds a candidate set from the
  identifier and the filename stem: the Steam64 slices and the separator-split parts. It
  tries an exact key lookup over that set, in no fixed order. Failing that, it runs a
  case-folded substring test over the pool in insertion order.
- **The engine** (`AsfConverter.convert`), which runs in this order:
  1. It creates the output folder and raises on an empty roster.
  2. It reads the maFiles and resolves each identifier through `account_name`, then
     `Session.SteamID`, then the filename stem.
  3. The greedy primary pass writes `<safe>.maFile` and `<safe>.json` for each match. A
     login leaves the pool only after both writes succeeded.
  4. The fallback pass pairs the j-th deferred record with the j-th login of a snapshot of
     the pool.
  5. It tracks the success count, the failure list, the log events and the integer
     progress values.
- **The filename helpers** (`fs.remove_mafile_extension`, `fs.list_mafiles`).

The model is split into these modules:

- `Text` covers the Python string operations used: `strip`, `lower`, `in`/`find`,
  `split`, slices, `replace` and string ordering.
- `OrderedDict` covers Python's insertion-ordered `dict`, with assignment and `pop`.
- `Fs`, `Roster` / `RosterProperties`, `MaFile`, `Matcher` and `Asf` model the source.
- `Progress` computes `int(i * c / n)` by repeated subtraction, proves that this is floor
  division, and proves the bounds and monotonicity the progress values need.
- `AsfScenarios` states what both passes give on small concrete inputs: an exact login match, and a
  roster with fewer logins than deferred maFiles.

The code has loops in `_parse_logpass`, `list_mafiles`, the exact pass of
`_find_best_match`, the substring pass and both passes of `convert`. Each of these
becomes a method with a loop, proved against a specification function or stated
invariants. Pure code becomes functions and lemmas.

The file system, JSON and the callbacks are passed in as parameters:

- A roster decoding is a function from an encoding name to `None` (the open or decode
  raised) or the list of lines.
- A maFile is its base name with its parsed document, or `None` when reading it raised.
- Creating the output folder is a boolean.
- Writing is an oracle that says which output file names can be written.
- The log and progress callbacks become the returned sequences of events and progress
  values.

Some behaviours of the code are easy to misread, and the model states them as the code has
them:

- The roster parser tries six encodings, in this order: utf-8, cp1251, latin-1,
  iso-8859-1, utf-16, cp866.
- A Steam64 identifier adds five slices: `sid[7:]`, `sid[3:]` and the last 8, 10 and 12
  characters.
- Read failures are entries of `failed`. So, when nothing is dropped, the success count
  plus the failures equals the number of input paths, not the number of records loaded.
- When the pool is empty after the primary pass, the fallback pass does not run. The
  deferred records then land in neither the successes nor the failures. The model proves
  this happens only when every login of the roster was used (`Asf.Convert`).
- A match whose files cannot be written is a processing failure, not a deferred record.
  Its login stays in the pool.

## Model

| member | source | states |
|---|---|---|
| Roster.SplitLine | MaFileManager_v1.3.0/core/asf.py:25-31 | the delimiter loop on one stripped line gives exactly the entry of the first delimiter present in priority order, cut once, or nothing |
| Roster.ReadLines | MaFileManager_v1.3.0/core/asf.py:19-31 | the line loop builds the same insertion-ordered dict as assigning each kept entry in line order |
| Roster.ParseLogpass | MaFileManager_v1.3.0/core/asf.py:15-36 | the encoding loop returns the dict of the first decoding that succeeds and yields an entry, else the empty dict |
| RosterProperties.ParseLineCutsAtFirstDelimiter | MaFileManager_v1.3.0/core/asf.py:22-30 | a kept line is cut at the first occurrence of the highest-priority delimiter it contains, and both stripped parts are non-empty |
| RosterProperties.ParseLineIsFirstCut | MaFileManager_v1.3.0/core/asf.py:25-31 | conversely, that cut decides the line: if either stripped part is empty the line is dropped, and no lower-priority delimiter is tried |
| RosterProperties.ParseLineWellFormed | MaFileManager_v1.3.0/core/asf.py:27-30 | every kept entry has a non-empty, stripped login and password, and its login never contains `:` |
| RosterProperties.EntriesWellFormed | MaFileManager_v1.3.0/core/asf.py:21-30 | every entry taken from a decoding is well formed |
| RosterProperties.ParsedRoster | MaFileManager_v1.3.0/core/asf.py:19-31 | keys come in order of first appearance, each value is the password of the login's last line, every entry is well formed, and there are as many keys as distinct logins |
| RosterProperties.BlankLinesYieldNothing | MaFileManager_v1.3.0/core/asf.py:22-24 | blank lines contribute nothing |
| RosterProperties.ParseRosterFirstYield | MaFileManager_v1.3.0/core/asf.py:16-36 | the roster is non-empty iff some encoding decodes and yields an entry; it is then the dict of the first such encoding, and `{}` when there is none |
| RosterProperties.ParseFromWellFormed | MaFileManager_v1.3.0/core/asf.py:16-36 | every entry of the dict from the encodings tried from a given one on is well formed |
| RosterProperties.RosterWellFormed | MaFileManager_v1.3.0/core/asf.py:16-36 | every entry of the roster has a non-empty, stripped login without `:` and a non-empty, stripped password |
| RosterProperties.BlankRosterIsEmpty | MaFileManager_v1.3.0/core/asf.py:16-36 | a roster blank under every encoding gives `{}` |
| OrderedDict.Pop | MaFileManager_v1.3.0/core/asf.py:110 | `available.pop(login, None)` removes exactly that login from the keys and the mapping; the other keys keep their order; the dict stays distinct and consistent and is one shorter when the login was there |
| OrderedDict.WithoutFiltered | MaFileManager_v1.3.0/core/asf.py:110 | removing one key from the key list is filtering that key out |
| OrderedDict.FilteredSnoc | MaFileManager_v1.3.0/core/asf.py:76-110 | popping logins one after another leaves the roster's keys with all of them filtered out, in the roster's order |
| Fs.SplitextRoot | MaFileManager_v1.3.0/core/fs.py:22 | the splitext root is a prefix of the name; anything it drops starts at the last `.`, which follows a non-dot character of the last path component; a name without `.` is unchanged; conversely, a last component with a `.` after a non-dot character always loses a suffix |
| Fs.SplitextRootUnique | MaFileManager_v1.3.0/core/fs.py:22 | any string meeting the contract of Fs.SplitextRoot is the `splitext` root, so that contract determines the result |
| Fs.SplitextRootExamples | MaFileManager_v1.3.0/core/fs.py:22 | `archive.tar.gz` gives `archive.tar`; a leading dot (`.profile`, also `dir/.profile`) and a dot in a directory part are not extensions |
| Fs.LowerMafileExtensions | MaFileManager_v1.3.0/core/fs.py:19-20 | the four listed spellings collapse to `.mafile` and `.mafiles` once lower-cased |
| Fs.MafileSuffixesExclusive | MaFileManager_v1.3.0/core/fs.py:19-21 | no name ends in both `.mafile` and `.mafiles` case-insensitively |
| Fs.RemoveMafileExtension | MaFileManager_v1.3.0/core/fs.py:18-22 | returns a prefix of its input: the name minus 7 characters for `.mafile`, minus 8 for `.mafiles` (any case, rest of the name untouched), otherwise the splitext root |
| Fs.RemoveMafileExtensionOfMafile | MaFileManager_v1.3.0/core/fs.py:19-21 | `alice.maFile` gives `alice` |
| Fs.RemoveMafileExtensionOfUpperCase | MaFileManager_v1.3.0/core/fs.py:19-21 | `Bob.MAFILES` gives `Bob`: the suffix test ignores case |
| Fs.RemoveMafileExtensionOfJson | MaFileManager_v1.3.0/core/fs.py:22 | `export.json` gives `export` through the splitext branch |
| Fs.SortStrings | MaFileManager_v1.3.0/core/fs.py:16 | `sorted` returns an ascending permutation of its input |
| Fs.CollectMafileNames | MaFileManager_v1.3.0/core/fs.py:8-11 | the first loop keeps every listed name with a case-insensitive `.mafile`/`.mafiles` suffix, as often as it is listed, and nothing else |
| Fs.AddExactSpellings | MaFileManager_v1.3.0/core/fs.py:12-15 | the second loop, over names already collected case-insensitively, appends nothing |
| Fs.ListMafiles | MaFileManager_v1.3.0/core/fs.py:4-16 | an empty or missing folder gives `[]`; otherwise the result is a permutation of exactly the entries with a case-insensitive `.mafile`/`.mafiles` suffix, sorted, and duplicate-free when the listing is |
| Fs.ExactSpellingIsMafileName | MaFileManager_v1.3.0/core/fs.py:12-15 | an exact `.maFile`/`.maFiles` suffix implies the case-insensitive one, so the second loop adds nothing |
| MaFile.ResolveIdentifier | MaFileManager_v1.3.0/core/asf.py:88 | the identifier is truthy or is the extension-stripped filename; the expression raises exactly for a non-object document, or for a falsy `account_name` with a non-object `Session` |
| MaFile.ResolveIdentifierChain | MaFileManager_v1.3.0/core/asf.py:88 | the identifier is `account_name` if truthy, else a truthy `Session.SteamID`, else the extension-stripped filename, even an empty one |
| MaFile.IdentifierFromFilename | MaFileManager_v1.3.0/core/asf.py:88 | a document without `account_name` or `Session` read from `export.json` is identified as `export` |
| MaFile.Sanitize | MaFileManager_v1.3.0/core/asf.py:101 | every `:`, `/` and `\` becomes `_`, every other character stays in place, the length is kept and none of the three is left |
| MaFile.SanitizeIdempotent | MaFileManager_v1.3.0/core/asf.py:101 | sanitising twice equals sanitising once |
| MaFile.SafeName | MaFileManager_v1.3.0/core/asf.py:129 | the output stem is as long as `str(sid)` and holds no unsafe character |
| Matcher.Variants | MaFileManager_v1.3.0/core/asf.py:39-52 | the candidates always hold the stripped identifier and the stripped, extension-stripped filename, and the Steam64 slices of the identifier |
| Matcher.VariantsHaveSteamSlices | MaFileManager_v1.3.0/core/asf.py:43-44 | an identifier starting `7656119` offers `sid[7:]`, `sid[3:]` and its last 8, 10 and 12 characters, with Python's slice semantics for short strings |
| Matcher.VariantsHaveParts | MaFileManager_v1.3.0/core/asf.py:46-52 | for each separator present in the stem, every non-empty split part is a candidate |
| Matcher.VariantsOccur | MaFileManager_v1.3.0/core/asf.py:39-52 | every candidate is a substring of the identifier or of the stem |
| Matcher.VariantsOfUnderscoreName | MaFileManager_v1.3.0/core/asf.py:46-49 | the stem `alice_main` offers `alice` and `main` |
| Matcher.SteamIdOffersLastEightDigits | MaFileManager_v1.3.0/core/asf.py:43-44 | `76561197960287930` offers its last eight digits `60287930` |
| Matcher.SteamIdFromFilename | MaFileManager_v1.3.0/core/asf.py:88 | a bare `76561197960287930.maFile` is identified by that Steam64 id, which strips to itself |
| Matcher.EmptyCandidateOverlapsEveryLogin | MaFileManager_v1.3.0/core/asf.py:58-63 | an empty identifier or stem is contained in every login, so the substring pass then accepts the first login |
| Matcher.ExactLookup | MaFileManager_v1.3.0/core/asf.py:54-56 | the loop over the candidate set returns a candidate that is a key of the pool, with its value, and returns nothing iff no candidate is a key |
| Matcher.FirstOverlapIndex | MaFileManager_v1.3.0/core/asf.py:60-63 | the loop over the logins in order stops at the first one that overlaps the identifier or the stem, and runs out iff none does |
| Matcher.FirstOverlapping | MaFileManager_v1.3.0/core/asf.py:58-65 | the substring pass returns a pool entry with its password, namely the first login in insertion order that overlaps; no match iff no login overlaps |
| Matcher.FindBestMatch | MaFileManager_v1.3.0/core/asf.py:38-65 | a match is a key of the pool with its value; an exact candidate hit wins, with some candidate that is a key (order left open); otherwise the first overlapping login; `(None, None)` only when neither pass hits |
| Asf.OutputFolder | MaFileManager_v1.3.0/core/asf.py:68 | the output folder is never empty and is the given one when that is non-empty |
| Asf.LoadRecords | MaFileManager_v1.3.0/core/asf.py:82-92 | the read loop keeps the readable maFiles in order, with their identifiers, and logs one read error per unreadable one |
| Asf.LoadCount | MaFileManager_v1.3.0/core/asf.py:82-92 | every path is either a loaded record or a read failure |
| Asf.LoadPartition | MaFileManager_v1.3.0/core/asf.py:82-92 | every path is either a record or a read failure, every record comes from a readable input with a resolved identifier, and every failure is a read failure |
| Asf.ReadFailuresCounted | MaFileManager_v1.3.0/core/asf.py:80-92 | the report counts one read failure per unreadable maFile, whatever the passes add after them |
| Asf.WriteArtifactsSpec | MaFileManager_v1.3.0/core/asf.py:100-106 | the copy is written before the configuration under the same sanitised stem, and only writable files are written; the attempt succeeds iff both files can be written, and the configuration is enabled, status 7, remote communication 0, holding the login and password |
| Asf.PoolStart | MaFileManager_v1.3.0/core/asf.py:76 | the pool starts as the whole roster, with nothing written |
| Asf.PoolStep | MaFileManager_v1.3.0/core/asf.py:99-113 | a matched login leaves the pool only when both writes succeed, and the pool invariant survives either way |
| Asf.UnmatchedHasNoHit | MaFileManager_v1.3.0/core/asf.py:98-115 | a record deferred from a pool without empty entries has no exact hit and no overlapping login in it |
| Asf.NoHitNoMatch | MaFileManager_v1.3.0/core/asf.py:98 | with no candidate among the logins and no overlapping login, the matcher answers `(None, None)` |
| Asf.MatchRecord | MaFileManager_v1.3.0/core/asf.py:96-115 | the answer is one `_find_best_match` may give against the pool as it stands at this turn, and the new state is the matching turn on that answer |
| Asf.ApplyMatch | MaFileManager_v1.3.0/core/asf.py:99-115 | the `if login and pwd` branch, its writes and its `pop` give exactly the matching turn |
| Asf.MatchStepOutcome | MaFileManager_v1.3.0/core/asf.py:99-115 | an answer with an empty or missing login or password defers the record and changes nothing else; a usable one writes `<safe>.maFile` and `<safe>.json`; the turn is a success iff both can be written, and then the configuration holds the matched login and password and that login leaves the pool; otherwise it is a processing failure and the pool stays |
| Asf.MatchStepKeeps | MaFileManager_v1.3.0/core/asf.py:99-115 | a turn keeps the pool invariant, accounts for its record exactly once, adds only processing failures and never adds a login to the pool |
| Asf.MatchStepDefers | MaFileManager_v1.3.0/core/asf.py:98-115 | with no empty login or password in the pool, no deferred record has a hit in the pool, before or after later turns |
| Asf.NothingMatchedAllDeferred | MaFileManager_v1.3.0/core/asf.py:94-115 | when no record has a hit in the roster, the matching loop writes nothing, defers every record in order and leaves the whole roster in the pool |
| Asf.PrimaryRunFacts | MaFileManager_v1.3.0/core/asf.py:94-117 | over answers the matcher may give, the matching loop keeps the pool invariant, accounts for each record once and fails only as processing failures |
| Asf.PrimaryRunDefers | MaFileManager_v1.3.0/core/asf.py:114-115 | the deferred records are exactly the records without a usable answer, in their order |
| Asf.ParsedRosterNonEmpty | MaFileManager_v1.3.0/core/asf.py:28-30 | a roster read by `_parse_logpass` has no empty login or password |
| Asf.ParsedRosterDeferredNoHit | MaFileManager_v1.3.0/core/asf.py:94-115 | over a parsed roster, no deferred record has an exact or substring hit in the pool the matching loop leaves |
| Asf.PrimaryPass | MaFileManager_v1.3.0/core/asf.py:94-117 | each record gets an answer the matcher may give against the pool left by the earlier turns; the pool ends as the roster minus the logins written, in the roster's order; those logins are distinct roster entries; successes, failures and deferrals add up to the records; the deferred records are those without a usable answer, in order, with no hit in the final pool; progress is `i*60 div max(1,total)` |
| Progress.QuotIsFloor | MaFileManager_v1.3.0/core/asf.py:117 | `Quot(a, n)` is the floor of `a / n`, as `int()` of a non-negative float quotient is |
| Progress.ScaledBounds | MaFileManager_v1.3.0/core/asf.py:117 | `int(i*c/n)` grows with `i` and stays at most `c` while `i <= n` |
| Asf.PrimaryProgressBounds | MaFileManager_v1.3.0/core/asf.py:117 | primary progress values are non-decreasing and at most 60 |
| Asf.Items | MaFileManager_v1.3.0/core/asf.py:122 | the snapshot lists the pool's logins in insertion order with their passwords |
| Asf.AssignStepOutcome | MaFileManager_v1.3.0/core/asf.py:123-142 | with a j-th snapshot entry the record's two files are attempted under its sanitised stem, and the turn is a success iff both can be written, the configuration then holding that entry's login and password; otherwise an auto-processing failure; with no j-th entry the record fails for want of logins and nothing is written |
| Asf.AssignStepKeeps | MaFileManager_v1.3.0/core/asf.py:123-142 | a fallback turn keeps the pairing of record j with entry j and accounts for its record exactly once |
| Asf.AssignStepFailures | MaFileManager_v1.3.0/core/asf.py:137-142 | a fallback turn fails only as an auto-processing failure or for want of logins, and for want of logins exactly when the snapshot has no j-th entry |
| Asf.AssignRecord | MaFileManager_v1.3.0/core/asf.py:124-142 | one fallback turn on the j-th deferred record is the turn stated by Asf.AssignStepOutcome |
| Asf.FallbackRunSpec | MaFileManager_v1.3.0/core/asf.py:123-142 | each configuration pairs deferred record j with snapshot entry j; logins are distinct snapshot logins; successes and failures add up to the deferred records; exactly `max(0, deferred - logins)` fail for want of logins |
| Asf.FallbackPass | MaFileManager_v1.3.0/core/asf.py:123-143 | the loop computes the fallback run, with every property of Asf.FallbackRunSpec; progress is `60 + j*40 div max(1,r)` |
| Asf.FallbackProgressBounds | MaFileManager_v1.3.0/core/asf.py:143 | fallback progress values are non-decreasing and lie between 60 and 100 |
| Asf.LeftoversSpec | MaFileManager_v1.3.0/core/asf.py:119-143 | the fallback over `list(available.items())` writes only logins still available, each with the pool's password for it and at most once, and accounts for every deferred record |
| Asf.AssignLeftovers | MaFileManager_v1.3.0/core/asf.py:119-143 | runs the fallback over the snapshot of the pool, with every property of Asf.LeftoversSpec |
| Asf.CombinePasses | MaFileManager_v1.3.0/core/asf.py:94-143 | across both passes no login is used twice, every configuration holds a roster entry, and the successes are the configurations written, at most the roster size |
| Asf.FinishPasses | MaFileManager_v1.3.0/core/asf.py:119-143 | the fallback runs exactly when records were deferred and logins are left, and its progress is added only then |
| Asf.BothPassesSpec | MaFileManager_v1.3.0/core/asf.py:94-143 | after both passes the configurations hold distinct roster logins with their passwords, each after its maFile copy; every record is a success or a failure when no record was deferred or logins are left after the matching loop; otherwise exactly the deferred records are dropped, and every roster login was used |
| Asf.RunProgress | MaFileManager_v1.3.0/core/asf.py:117-145 | the progress of a run is non-decreasing, lies in 0..100 and ends at 100 |
| Asf.Reconcile | MaFileManager_v1.3.0/core/asf.py:94-145 | the result is both passes over answers the matcher may give, with every property of Asf.BothPassesSpec; progress is exactly `i*60 div max(1,total)` per record, then `60 + j*40 div max(1,r)` per deferred record when the fallback runs, and is well shaped with a final 100 |
| Asf.Convert | MaFileManager_v1.3.0/core/asf.py:67-147 | raises iff the folder cannot be made, or (after that) the roster is empty, and then writes nothing; otherwise the files written and the report are both passes over the parsed roster and the loaded records, so Asf.MatchStepOutcome and Asf.AssignStepOutcome decide each record; the success count is the number of configurations, their logins are distinct roster entries with their passwords, each right after its maFile copy; one failure per unreadable maFile; every input is a success or a failure when no record was deferred or logins are left after the matching loop, otherwise all but exactly the deferred records are; progress is exactly the values of both passes followed by 100; the log is the roster size, one read error per unreadable maFile in order, the events of both passes, and the totals |
| Asf.ProcessPaths | MaFileManager_v1.3.0/core/asf.py:76-147 | after the roster is read: the same results as Asf.Convert over a given roster, with the exact progress and log |
| AsfScenarios.ColonLine | MaFileManager_v1.3.0/core/asf.py:25-31 | a line `login:password` with no colon in the login and no surrounding whitespace gives exactly that entry |
| AsfScenarios.TwoLines | MaFileManager_v1.3.0/core/asf.py:19-31 | two lines with distinct logins give a dict of those two, in line order |
| AsfScenarios.AliceAndBobParsed | MaFileManager_v1.3.0/core/asf.py:15-36 | the roster file `alice:pw1` / `bob:pw2` gives `{alice: pw1, bob: pw2}` |
| AsfScenarios.AliceRosterRead | MaFileManager_v1.3.0/core/asf.py:15-36 | a roster file reading `alice:pw1` / `bob:pw2` under UTF-8 gives that roster |
| AsfScenarios.AliceLoaded | MaFileManager_v1.3.0/core/asf.py:82-89 | `alice.maFile` with `account_name` `alice` loads as one record identified by `alice` |
| AsfScenarios.ExactAnswer | MaFileManager_v1.3.0/core/asf.py:53-56 | when some candidate is a login, the matcher's answer is a candidate that is a login, with its password |
| AsfScenarios.OnlyCandidate | MaFileManager_v1.3.0/core/asf.py:38-56 | when every candidate is a piece of login `x` and the only other login is not, that answer is `x` |
| AsfScenarios.AliceMatchesAlice | MaFileManager_v1.3.0/core/asf.py:38-56 | against `alice`/`bob`, `alice.maFile` of account `alice` is matched to `alice` with `pw1` |
| AsfScenarios.OneRecordWritten | MaFileManager_v1.3.0/core/asf.py:99-113 | one record with a usable answer and writable files gives its copy and configuration, one success and no failure |
| AsfScenarios.ExactLoginRun | MaFileManager_v1.3.0/core/asf.py:94-119 | both passes over that roster and record write `alice.maFile` and `alice.json` with `alice`/`pw1`, one success, no failure |
| AsfScenarios.ExactLoginScenario | MaFileManager_v1.3.0/core/asf.py:67-147 | a roster file `alice:pw1` / `bob:pw2` and a maFile `alice.maFile` of account `alice` give exactly `alice.maFile` and `alice.json` holding `alice` and `pw1`, one success and no failure |
| AsfScenarios.ThreeDeferred | MaFileManager_v1.3.0/core/asf.py:123-142 | the fallback over three records and one entry pairs the first record with it and fails the other two for want of logins |
| AsfScenarios.TooFewLoginsScenario | MaFileManager_v1.3.0/core/asf.py:94-143 | three maFiles without a hit against a one-login roster: the first is written with that login by the fallback, the other two fail for want of logins, one success in all |

## Left out

- File I/O, text decoding, `json.load` and `json.dump` are replaced by parameters: a
  decoding function for the roster, parsed documents for the maFiles, and a write oracle.
  JSON formatting and file contents beyond the documents and configurations are not
  modelled.
- `os.path.basename` is not modelled: each input already carries its base name. `os.path.join`
  is not modelled: output files are named by stem and suffix within the output folder.
- `os.makedirs` is a boolean saying whether it succeeds. `output_folder` being `None` is
  modelled as the empty string, which `or` treats the same way.
- Exception messages and the wording of log messages are left out. Log events keep only
  their kind and data.
- Only `account_name` and `Session.SteamID` of a maFile document are modelled. The rest of
  the document is carried along opaquely.
- Asf.PrimaryProgressBounds, Asf.FallbackProgressBounds: progress uses integer division on
  naturals rather than Python's float division followed by `int()`. They agree for the
  non-negative operands used, but float rounding is not modelled.
- Text.Lower: lowercases ASCII, Latin-1 and Cyrillic capitals only. Other characters,
  and lowercasings that change the length, are left unchanged.
- Fs.ListMafiles: the two `os.listdir` calls are modelled as one listing, so a folder
  changing between the calls is not captured. File-system errors other than a missing
  folder are not modelled.
- Matcher.FindBestMatch: the exact pass picks the hit in no fixed order, as the source's
  set iteration does. It does not fix which candidate wins when several are keys.
- Matcher.Variants: `parts[0]` and `parts[-1]` are added again after all non-empty parts.
  The model adds the parts once, which gives the same set.
- Asf.Convert: its contract states the files written and the report as both passes over the
  parsed roster and the loaded records. The per-record outcomes are stated on that run by
  Asf.MatchStepOutcome, Asf.AssignStepOutcome and Asf.PrimaryRunDefers, not repeated in
  Convert's own `ensures`.
- Path rules are those of Windows: both `/` and `\` separate path components in
  `os.path.splitext`, and `\` is replaced in output names. On POSIX, `\` is an ordinary
  file-name character; that platform is not modelled.
- The write oracle says, for each output file name, whether it can be written. A write
  that fails because of what is written (say `json.dump` of a string holding a lone
  surrogate) cannot be expressed, since the oracle does not see the content.
- The files written are a log of write attempts, not the contents of the output folder.
  Two records with the same sanitised stem both count as successes, as in the source, and
  the second overwrites the first one's `.maFile` and `.json`; the final folder contents
  are not modelled.
- The log and progress callbacks are returned as two separate sequences, so the order in
  which the source interleaves them is lost: each matching turn logs before its progress
  call, and the final 100 comes before the closing log line. No user interface is modelled.
- The GUI, the worker thread, the console menu and the plain copy/trim modes are outside
  this model.
