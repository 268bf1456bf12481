/** `AsfConverter.convert`: maFiles are paired with logins of the roster and, for each pair, a copy
    of the maFile and an ASF bot configuration are written. Reading and writing files are given as
    inputs: the parsed documents (or a read error) and an oracle telling which file names can be
    written. Log and progress callbacks become the sequences of events they receive. */
module Asf {
  import opened Wrappers
  import opened Text
  import opened OrderedDict
  import opened Roster
  import RosterProperties
  import opened MaFile
  import opened Matcher
  import opened Progress

  /** The folder written to when none is given. */
  const DefaultOutputFolder: string := "ASFmaFiles"

  /** One maFile path: its base name and its parsed document, or `None` when opening or
      `json.load` raised. */
  datatype MaFileInput = MaFileInput(filename: string, content: Option<Doc>)

  /** A maFile read successfully, with its resolved identifier. */
  datatype Record = Record(filename: string, steamId: Value, doc: Doc)

  datatype FailReason = ReadFailed | ProcessingFailed | AutoProcessingFailed | NotEnoughLogins

  /** An entry of the `failed` list: the file name and why it failed. */
  datatype Failure = Failure(filename: string, reason: FailReason)

  /** The bot configuration written as `<stem>.json`. */
  datatype BotConfig = BotConfig(enabled: bool, onlineStatus: int, remoteCommunication: int, steamLogin: string, steamPassword: string)

  /** A file written into the output folder: `<stem>.maFile` holding the document, or
      `<stem>.json` holding a bot configuration. */
  datatype Artifact = MaFileCopy(stem: string, doc: Doc) | ConfigFile(stem: string, config: BotConfig)

  /** The dict `convert` returns. */
  datatype Report = Report(success: nat, failed: seq<Failure>, outputFolder: string)

  /** What `convert` raises instead of returning: `os.makedirs` failed, or the roster has no
      entry. */
  datatype ConvertError = MakeDirsFailed | NoRosterEntries

  datatype Outcome = Done(report: Report) | Raised(error: ConvertError)

  /** The messages passed to the log callback, without their wording. */
  datatype LogEvent =
    | RosterLoaded(count: nat)
    | ReadError(filename: string)
    | MatchedLogin(filename: string, login: string)
    | ProcessError(filename: string)
    | LeftOver(files: nat, logins: nat)
    | AssigningInOrder
    | AutoAssigned(filename: string, login: string)
    | AutoProcessError(filename: string)
    | NotEnoughLoginsFor(filename: string)
    | Finished(success: nat, total: nat)

  /** Which file names in the output folder can be opened for writing. */
  type Writable = string -> bool

  function FileName(a: Artifact): string {
    match a
    case MaFileCopy(stem, _) => stem + ".maFile"
    case ConfigFile(stem, _) => stem + ".json"
  }

  /** The configuration written for a login: enabled, online status 7, remote communication 0. */
  function ConfigFor(login: string, password: string): BotConfig {
    BotConfig(true, 7, 0, login, password)
  }

  /** The configurations among the written files, in writing order. */
  function ConfigsOf(ws: seq<Artifact>): seq<BotConfig> {
    if ws == [] then []
    else ConfigsOf(ws[..|ws| - 1]) + (if ws[|ws| - 1].ConfigFile? then [ws[|ws| - 1].config] else [])
  }

  function LoginsOf(cs: seq<BotConfig>): (r: seq<string>)
    ensures |r| == |cs| && forall i :: 0 <= i < |cs| ==> r[i] == cs[i].steamLogin
  {
    seq(|cs|, i requires 0 <= i < |cs| => cs[i].steamLogin)
  }

  /** Every configuration file comes right after the maFile copy of the same stem. */
  ghost predicate Paired(ws: seq<Artifact>) {
    forall i :: 0 <= i < |ws| && ws[i].ConfigFile? ==> 0 < i && ws[i - 1].MaFileCopy? && ws[i - 1].stem == ws[i].stem
  }

  ghost predicate SafeStems(ws: seq<Artifact>) {
    forall a :: a in ws ==> SafeStem(a.stem)
  }

  /** What one attempt to write a record's two files leaves behind. */
  datatype Attempt = Attempt(written: seq<Artifact>, ok: bool)

  /** The `try` block of both passes: `<stem>.maFile` is written first, then `<stem>.json`; when a
      write fails the files already written stay. */
  function WriteArtifacts(record: Record, login: string, password: string, writable: Writable): Attempt {
    var stem := SafeName(record.steamId);
    var copy := MaFileCopy(stem, record.doc);
    var config := ConfigFile(stem, ConfigFor(login, password));
    if !writable(FileName(copy)) then Attempt([], false)
    else if !writable(FileName(config)) then Attempt([copy], false)
    else Attempt([copy, config], true)
  }

  /** The attempt succeeds exactly when both files can be written, and then the configuration
      holds the login and password given; the copy comes first and the configuration right after
      it, under the same sanitised stem. */
  lemma WriteArtifactsSpec(record: Record, login: string, password: string, writable: Writable)
    ensures WellWritten(WriteArtifacts(record, login, password, writable), SafeName(record.steamId), record.doc, ConfigFor(login, password), writable)
  {
    var stem := SafeName(record.steamId);
    var config := ConfigFor(login, password);
    if !writable(stem + ".maFile") {
      WroteNothing(stem, record.doc, config, writable);
    } else if !writable(stem + ".json") {
      WroteCopy(stem, record.doc, config, writable);
    } else {
      WroteBoth(stem, record.doc, config, writable);
    }
  }

  /** What a write attempt for the stem `stem` leaves behind: it succeeded exactly when both files
      can be written, and then it holds `config`; only writable files of that stem were written,
      the copy of `doc` first and the configuration right after it. */
  ghost predicate WellWritten(a: Attempt, stem: string, doc: Doc, config: BotConfig, writable: Writable) {
    && (a.ok <==> writable(stem + ".maFile") && writable(stem + ".json"))
    && ConfigsOf(a.written) == (if a.ok then [config] else [])
    && (a.written != [] ==> a.written[0] == MaFileCopy(stem, doc))
    && Paired(a.written)
    && (forall x :: x in a.written ==> writable(FileName(x)) && x.stem == stem)
    && (forall x :: x in a.written && x.ConfigFile? ==> x == ConfigFile(stem, config))
  }

  lemma WroteNothing(stem: string, doc: Doc, config: BotConfig, writable: Writable)
    requires !writable(stem + ".maFile")
    ensures WellWritten(Attempt([], false), stem, doc, config, writable)
  {
    assert ConfigsOf([]) == [];
  }

  lemma WroteCopy(stem: string, doc: Doc, config: BotConfig, writable: Writable)
    requires writable(stem + ".maFile") && !writable(stem + ".json")
    ensures WellWritten(Attempt([MaFileCopy(stem, doc)], false), stem, doc, config, writable)
  {
    WrittenCopy(stem, doc);
  }

  lemma WroteBoth(stem: string, doc: Doc, config: BotConfig, writable: Writable)
    requires writable(stem + ".maFile") && writable(stem + ".json")
    ensures WellWritten(Attempt([MaFileCopy(stem, doc), ConfigFile(stem, config)], true), stem, doc, config, writable)
  {
    WrittenPair(stem, doc, config);
  }

  /** Only the maFile copy written: no configuration. */
  lemma WrittenCopy(stem: string, doc: Doc)
    ensures ConfigsOf([MaFileCopy(stem, doc)]) == [] && Paired([MaFileCopy(stem, doc)])
  {
    assert [MaFileCopy(stem, doc)][..0] == [];
  }

  /** Both files written: one configuration, right after the copy of the same stem. */
  lemma WrittenPair(stem: string, doc: Doc, config: BotConfig)
    ensures ConfigsOf([MaFileCopy(stem, doc), ConfigFile(stem, config)]) == [config]
    ensures Paired([MaFileCopy(stem, doc), ConfigFile(stem, config)])
  {
    var ws := [MaFileCopy(stem, doc), ConfigFile(stem, config)];
    assert ws[..1] == [MaFileCopy(stem, doc)];
    WrittenCopy(stem, doc);
  }

  lemma {:induction false} ConfigsOfAppend(a: seq<Artifact>, b: seq<Artifact>)
    ensures ConfigsOf(a + b) == ConfigsOf(a) + ConfigsOf(b)
  {
    if b != [] {
      var b' := b[..|b| - 1];
      assert (a + b)[..|a + b| - 1] == a + b';
      ConfigsOfAppend(a, b');
    } else {
      assert a + b == a;
    }
  }

  lemma PairedAppend(a: seq<Artifact>, b: seq<Artifact>)
    requires Paired(a) && Paired(b) && SafeStems(a) && SafeStems(b)
    ensures Paired(a + b) && SafeStems(a + b)
  {
    var ab := a + b;
    forall i | 0 <= i < |ab| && ab[i].ConfigFile?
      ensures 0 < i && ab[i - 1].MaFileCopy? && ab[i - 1].stem == ab[i].stem
    {
      if i >= |a| {
        assert ab[i] == b[i - |a|];
        assert ab[i - 1] == b[i - |a| - 1];
      }
    }
  }

  lemma NoDuplicatesConcat(a: seq<string>, b: seq<string>)
    requires NoDuplicates(a) && NoDuplicates(b)
    requires forall x :: x in a ==> x !in b
    ensures NoDuplicates(a + b)
  {
    var ab := a + b;
    forall i, j | 0 <= i < j < |ab| ensures ab[i] != ab[j] {
      if i < |a| && j >= |a| {
        assert ab[i] in a && ab[j] == b[j - |a|];
      } else if i >= |a| {
        assert ab[i] == b[i - |a|] && ab[j] == b[j - |a|];
      }
    }
  }

  // ---------------------------------------------------------------------------------------------
  // Loading

  /** One maFile read: its document, then its identifier; either step raising is a read error. */
  function Load(input: MaFileInput): Option<Record> {
    match input.content
    case None => None
    case Some(doc) =>
      match ResolveIdentifier(doc, input.filename)
      case None => None
      case Some(id) => Some(Record(input.filename, id, doc))
  }

  function LoadedRecords(inputs: seq<MaFileInput>): seq<Record> {
    if inputs == [] then []
    else
      var r := Load(inputs[|inputs| - 1]);
      LoadedRecords(inputs[..|inputs| - 1]) + (if r.Some? then [r.value] else [])
  }

  function ReadFailures(inputs: seq<MaFileInput>): seq<Failure> {
    if inputs == [] then []
    else
      var last := inputs[|inputs| - 1];
      ReadFailures(inputs[..|inputs| - 1]) + (if Load(last).None? then [Failure(last.filename, ReadFailed)] else [])
  }

  /** Every input is either loaded or a read failure. */
  lemma {:induction false} LoadCount(inputs: seq<MaFileInput>)
    ensures |LoadedRecords(inputs)| + |ReadFailures(inputs)| == |inputs|
  {
    if inputs != [] {
      LoadCount(inputs[..|inputs| - 1]);
    }
  }

  /** Every input is either loaded or a read failure; a loaded record carries its file name, its
      document and the identifier the chain resolves for it. */
  lemma {:induction false} LoadPartition(inputs: seq<MaFileInput>)
    ensures |LoadedRecords(inputs)| + |ReadFailures(inputs)| == |inputs|
    ensures forall f :: f in ReadFailures(inputs) ==> f.reason == ReadFailed
    ensures forall r :: r in LoadedRecords(inputs) ==>
      exists i :: 0 <= i < |inputs| && inputs[i] == MaFileInput(r.filename, Some(r.doc))
        && ResolveIdentifier(r.doc, r.filename) == Some(r.steamId)
  {
    if inputs != [] {
      var p := inputs[..|inputs| - 1];
      LoadPartition(p);
      forall r | r in LoadedRecords(inputs)
        ensures exists i :: (0 <= i < |inputs| && inputs[i] == MaFileInput(r.filename, Some(r.doc))
          && ResolveIdentifier(r.doc, r.filename) == Some(r.steamId))
      {
        if r in LoadedRecords(p) {
          var i :| 0 <= i < |p| && p[i] == MaFileInput(r.filename, Some(r.doc)) && ResolveIdentifier(r.doc, r.filename) == Some(r.steamId);
          assert inputs[i] == p[i];
        } else {
          assert inputs[|inputs| - 1] == MaFileInput(r.filename, Some(r.doc));
        }
      }
    }
  }

  /** Read failures come first in the report: counting them again after failures of other kinds
      finds exactly one per unreadable input, and records and read failures add up to the
      inputs. */
  lemma ReadFailuresCounted(inputs: seq<MaFileInput>, later: seq<Failure>)
    requires forall f :: f in later ==> f.reason != ReadFailed
    ensures |LoadedRecords(inputs)| + |ReadFailures(inputs)| == |inputs|
    ensures CountReason(ReadFailures(inputs) + later, ReadFailed) == |ReadFailures(inputs)|
  {
    LoadCount(inputs);
    LoadPartition(inputs);
    CountReasonAll(ReadFailures(inputs), ReadFailed);
    CountReasonAll(later, ReadFailed);
    CountReasonAppend(ReadFailures(inputs), later, ReadFailed);
  }

  /** The log lines for the maFiles that could not be read, one per failure, in order. */
  function ReadErrors(failed: seq<Failure>): (events: seq<LogEvent>)
    ensures |events| == |failed| && forall i :: 0 <= i < |failed| ==> events[i] == ReadError(failed[i].filename)
  {
    seq(|failed|, i requires 0 <= i < |failed| => ReadError(failed[i].filename))
  }

  /** The first loop of `convert`: each path is read in order; a record is kept for every
      readable maFile and a read error is recorded for every other. */
  method LoadRecords(inputs: seq<MaFileInput>) returns (records: seq<Record>, failed: seq<Failure>, events: seq<LogEvent>)
    ensures records == LoadedRecords(inputs) && failed == ReadFailures(inputs)
    ensures |events| == |failed| && forall i :: 0 <= i < |failed| ==> events[i] == ReadError(failed[i].filename)
    ensures events == ReadErrors(failed)
  {
    records, failed, events := [], [], [];
    for i := 0 to |inputs|
      invariant records == LoadedRecords(inputs[..i]) && failed == ReadFailures(inputs[..i])
      invariant |events| == |failed| && forall k :: 0 <= k < |failed| ==> events[k] == ReadError(failed[k].filename)
    {
      assert inputs[..i + 1][..i] == inputs[..i];
      var input := inputs[i];
      var loaded := Load(input);
      if loaded.Some? {
        records := records + [loaded.value];
      } else {
        failed := failed + [Failure(input.filename, ReadFailed)];
        events := events + [ReadError(input.filename)];
      }
    }
    assert inputs[..|inputs|] == inputs;
  }

  // ---------------------------------------------------------------------------------------------
  // The login pool

  /** A configuration whose login and password are an entry of the roster. */
  predicate FromRoster(c: BotConfig, roster: Dict) {
    c == ConfigFor(c.steamLogin, c.steamPassword) && c.steamLogin in roster.vals && c.steamPassword == roster.vals[c.steamLogin]
  }

  /** The state the primary pass keeps: `available` is the roster without the logins of the
      configurations written so far, the others in the roster's order; those logins are distinct
      roster entries, one per success. */
  ghost predicate PoolInvariant(roster: Dict, available: Dict, written: seq<Artifact>, ok: nat) {
    var logins := LoginsOf(ConfigsOf(written));
    && roster.Valid() && available.Valid()
    && (forall k :: k in available.vals ==> k in roster.vals && available.vals[k] == roster.vals[k])
    && (forall k :: k in roster.vals ==> (k in available.vals <==> k !in logins))
    && available.keys == Filtered(roster.keys, logins)
    && (forall c :: c in ConfigsOf(written) ==> FromRoster(c, roster))
    && NoDuplicates(logins)
    && ok == |ConfigsOf(written)|
    && |available.keys| + ok == |roster.keys|
    && Paired(written) && SafeStems(written)
  }

  lemma PoolStart(roster: Dict)
    requires roster.Valid()
    ensures PoolInvariant(roster, roster, [], 0)
  {
    FilteredNothing(roster.keys);
  }

  /** A matched login is popped from the pool only when both files were written. */
  lemma PoolStep(roster: Dict, available: Dict, written: seq<Artifact>, ok: nat, record: Record, login: string, writable: Writable)
    requires PoolInvariant(roster, available, written, ok) && login in available.vals
    ensures var a := WriteArtifacts(record, login, available.vals[login], writable);
      PoolInvariant(roster, if a.ok then Pop(available, login) else available, written + a.written, if a.ok then ok + 1 else ok)
  {
    var a := WriteArtifacts(record, login, available.vals[login], writable);
    WriteArtifactsSpec(record, login, available.vals[login], writable);
    ConfigsOfAppend(written, a.written);
    PairedAppend(written, a.written);
    if a.ok {
      PoolAfterWrite(roster, available, written, ok, login, a.written);
    } else {
      PoolAfterFailedWrite(roster, available, written, ok, a.written);
    }
  }

  lemma PoolAfterFailedWrite(roster: Dict, available: Dict, written: seq<Artifact>, ok: nat, more: seq<Artifact>)
    requires PoolInvariant(roster, available, written, ok)
    requires ConfigsOf(written + more) == ConfigsOf(written)
    requires Paired(written + more) && SafeStems(written + more)
    ensures PoolInvariant(roster, available, written + more, ok)
  {
  }

  lemma PoolAfterWrite(roster: Dict, available: Dict, written: seq<Artifact>, ok: nat, login: string, more: seq<Artifact>)
    requires PoolInvariant(roster, available, written, ok) && login in available.vals
    requires ConfigsOf(written + more) == ConfigsOf(written) + [ConfigFor(login, available.vals[login])]
    requires Paired(written + more) && SafeStems(written + more)
    ensures PoolInvariant(roster, Pop(available, login), written + more, ok + 1)
  {
    var before := LoginsOf(ConfigsOf(written));
    var after := LoginsOf(ConfigsOf(written + more));
    var cfg := ConfigFor(login, available.vals[login]);
    var popped := Pop(available, login);
    assert after == before + [login];
    FilteredSnoc(roster.keys, before, login);
    assert login !in before;
    NoDuplicatesConcat(before, [login]);
    forall k | k in roster.vals ensures k in popped.vals <==> k !in after {
      assert k in after <==> k in before || k == login;
    }
    forall c | c in ConfigsOf(written + more) ensures FromRoster(c, roster) {
      if c != cfg {
        assert c in ConfigsOf(written);
      }
    }
  }

  function Max1(n: nat): nat {
    if n < 1 then 1 else n
  }

  /** `int(i * 60 / max(1, total))`, reported after the `i`-th record of the matching loop. */
  function PrimaryTick(i: nat, total: nat): int {
    Scaled(i, 60, Max1(total))
  }

  /** The progress the matching loop reports for records 1 to `n`. */
  function PrimaryProgress(n: nat, total: nat): (p: seq<int>)
    ensures |p| == n
  {
    seq(n, i requires 0 <= i < n => PrimaryTick(i + 1, total))
  }

  lemma PrimaryProgressSnoc(n: nat, total: nat)
    ensures PrimaryProgress(n + 1, total) == PrimaryProgress(n, total) + [PrimaryTick(n + 1, total)]
  {
    var a, b := PrimaryProgress(n + 1, total), PrimaryProgress(n, total) + [PrimaryTick(n + 1, total)];
    assert forall i :: 0 <= i < n ==> a[i] == b[i];
  }

  /** `60 + int(j * 40 / max(1, r))`, reported after the `j`-th of `r` deferred records. */
  function FallbackTick(j: nat, r: nat): int {
    60 + Scaled(j, 40, Max1(r))
  }

  /** The progress the fallback loop reports for deferred records 1 to `r`. */
  function FallbackProgress(r: nat): (p: seq<int>)
    ensures |p| == r
  {
    seq(r, j requires 0 <= j < r => FallbackTick(j + 1, r))
  }

  /** Every login of the roster and every password is non-empty, as every parsed roster's are. */
  predicate NonEmptyEntries(roster: Dict) {
    forall k :: k in roster.vals ==> k != [] && roster.vals[k] != []
  }

  /** The matcher finds nothing for `r` in `pool`: no candidate of `r` is a login, and no login
      overlaps its identifier or stem. */
  predicate NoHit(r: Record, pool: Dict) {
    var sid, fn := Identifier(r.steamId), FileStem(r.filename);
    !ExactHit(Variants(sid, fn), pool) && forall k :: k in pool.vals ==> !LoginOverlaps(k, sid, fn)
  }

  /** A pool holding fewer logins keeps every record it had no hit for without one. */
  lemma NoHitShrinks(r: Record, pool: Dict, smaller: Dict)
    requires NoHit(r, pool) && forall k :: k in smaller.vals ==> k in pool.vals
    ensures NoHit(r, smaller)
  {
  }

  /** A record the matcher left without a usable login, in a pool without empty logins or
      passwords, has no hit in it at all. */
  lemma UnmatchedHasNoHit(item: Record, pool: Dict, m: Match)
    requires pool.Valid() && NonEmptyEntries(pool)
    requires IsBestMatch(m, item.steamId, item.filename, pool) && !Usable(m)
    ensures NoHit(item, pool)
  {
    forall k | k in pool.vals ensures !LoginOverlaps(k, Identifier(item.steamId), FileStem(item.filename)) {
      var i :| 0 <= i < |pool.keys| && pool.keys[i] == k;
    }
  }

  /** A match the matching loop writes: a non-empty login with a non-empty password. */
  predicate Usable(m: Match) {
    m.Matched? && m.login != [] && m.password != []
  }

  /** The state of the matching loop: the logins still available, the files written, the
      successes, the failures, the deferred records and the log. */
  datatype PrimaryState = PrimaryState(pool: Dict, written: seq<Artifact>, ok: nat, failed: seq<Failure>, remaining: seq<Record>, events: seq<LogEvent>)

  /** One turn of the matching loop on `item`, given the matcher's answer `m`. A usable match is
      written; when both files were written it is a success and its login leaves the pool,
      otherwise it is a processing failure and the pool stays. Any other answer defers the
      record. */
  function MatchStep(s: PrimaryState, item: Record, m: Match, writable: Writable): (s': PrimaryState)
    requires s.pool.Valid()
    ensures s'.pool.Valid()
  {
    if !Usable(m) then PrimaryState(s.pool, s.written, s.ok, s.failed, s.remaining + [item], s.events)
    else
      var a := WriteArtifacts(item, m.login, m.password, writable);
      if a.ok then
        PrimaryState(Pop(s.pool, m.login), s.written + a.written, s.ok + 1, s.failed, s.remaining,
                     s.events + [MatchedLogin(item.filename, m.login)])
      else
        PrimaryState(s.pool, s.written + a.written, s.ok, s.failed + [Failure(item.filename, ProcessingFailed)], s.remaining,
                     s.events + [ProcessError(item.filename)])
  }

  /** The matching loop over `records` from the whole roster, the `i`-th record getting the answer
      `matches[i]`. */
  function PrimaryRun(roster: Dict, records: seq<Record>, matches: seq<Match>, writable: Writable): (s: PrimaryState)
    requires roster.Valid() && |matches| == |records|
    ensures s.pool.Valid()
  {
    if records == [] then PrimaryState(roster, [], 0, [], [], [])
    else
      var n := |records| - 1;
      MatchStep(PrimaryRun(roster, records[..n], matches[..n], writable), records[n], matches[n], writable)
  }

  /** Each answer is one `_find_best_match` may give for its record against the pool as the
      earlier turns left it. */
  ghost predicate Answered(roster: Dict, records: seq<Record>, matches: seq<Match>, writable: Writable)
    requires roster.Valid() && |matches| == |records|
  {
    if records == [] then true
    else
      var n := |records| - 1;
      && Answered(roster, records[..n], matches[..n], writable)
      && IsBestMatch(matches[n], records[n].steamId, records[n].filename, PrimaryRun(roster, records[..n], matches[..n], writable).pool)
  }

  /** The records without a usable answer, in their order. */
  function Deferred(records: seq<Record>, matches: seq<Match>): (r: seq<Record>)
    requires |matches| == |records|
    ensures forall x :: x in r ==> x in records
  {
    if records == [] then []
    else
      var n := |records| - 1;
      Deferred(records[..n], matches[..n]) + (if Usable(matches[n]) then [] else [records[n]])
  }

  /** One more turn of the matching loop. */
  lemma PrimaryRunSnoc(roster: Dict, records: seq<Record>, matches: seq<Match>, m: Match, writable: Writable)
    requires roster.Valid() && |matches| < |records|
    ensures var i := |matches|;
      && PrimaryRun(roster, records[..i + 1], matches + [m], writable) == MatchStep(PrimaryRun(roster, records[..i], matches, writable), records[i], m, writable)
      && Deferred(records[..i + 1], matches + [m]) == Deferred(records[..i], matches) + (if Usable(m) then [] else [records[i]])
      && (Answered(roster, records[..i + 1], matches + [m], writable) <==>
            Answered(roster, records[..i], matches, writable)
            && IsBestMatch(m, records[i].steamId, records[i].filename, PrimaryRun(roster, records[..i], matches, writable).pool))
  {
    var i := |matches|;
    assert records[..i + 1][..i] == records[..i];
    assert (matches + [m])[..i] == matches;
  }

  /** A turn keeps the pool invariant, accounts for its record exactly once, and only shrinks the
      pool. */
  lemma MatchStepKeeps(roster: Dict, s: PrimaryState, item: Record, m: Match, writable: Writable)
    requires PoolInvariant(roster, s.pool, s.written, s.ok) && FromPool(m, s.pool)
    ensures var s' := MatchStep(s, item, m, writable);
      && PoolInvariant(roster, s'.pool, s'.written, s'.ok)
      && s'.ok + |s'.failed| + |s'.remaining| == s.ok + |s.failed| + |s.remaining| + 1
      && (forall f :: f in s'.failed ==> f in s.failed || f.reason == ProcessingFailed)
      && (forall k :: k in s'.pool.vals ==> k in s.pool.vals)
  {
    if Usable(m) {
      var a := WriteArtifacts(item, m.login, m.password, writable);
      PoolStep(roster, s.pool, s.written, s.ok, item, m.login, writable);
      if a.ok {
        assert MatchStep(s, item, m, writable) == PrimaryState(Pop(s.pool, m.login), s.written + a.written, s.ok + 1, s.failed, s.remaining,
                                                                s.events + [MatchedLogin(item.filename, m.login)]);
      } else {
        assert MatchStep(s, item, m, writable) == PrimaryState(s.pool, s.written + a.written, s.ok, s.failed + [Failure(item.filename, ProcessingFailed)], s.remaining,
                                                                s.events + [ProcessError(item.filename)]);
      }
    } else {
      assert MatchStep(s, item, m, writable) == PrimaryState(s.pool, s.written, s.ok, s.failed, s.remaining + [item], s.events);
    }
  }

  /** With a roster without empty logins or passwords, every deferred record had no hit in the
      pool at its turn, and keeps having none as the pool shrinks. */
  lemma MatchStepDefers(s: PrimaryState, item: Record, m: Match, writable: Writable)
    requires s.pool.Valid() && NonEmptyEntries(s.pool) && IsBestMatch(m, item.steamId, item.filename, s.pool)
    requires forall r :: r in s.remaining ==> NoHit(r, s.pool)
    ensures var s' := MatchStep(s, item, m, writable); forall r :: r in s'.remaining ==> NoHit(r, s'.pool)
  {
    if Usable(m) {
      WrittenTurnKeepsNoHit(s, item, m, writable);
    } else {
      UnmatchedHasNoHit(item, s.pool, m);
      assert MatchStep(s, item, m, writable) == PrimaryState(s.pool, s.written, s.ok, s.failed, s.remaining + [item], s.events);
    }
  }

  lemma WrittenTurnKeepsNoHit(s: PrimaryState, item: Record, m: Match, writable: Writable)
    requires s.pool.Valid() && Usable(m)
    requires forall r :: r in s.remaining ==> NoHit(r, s.pool)
    ensures var s' := MatchStep(s, item, m, writable); forall r :: r in s'.remaining ==> NoHit(r, s'.pool)
  {
    var s' := MatchStep(s, item, m, writable);
    assert s'.remaining == s.remaining && forall k :: k in s'.pool.vals ==> k in s.pool.vals;
    forall r | r in s'.remaining ensures NoHit(r, s'.pool) {
      NoHitShrinks(r, s.pool, s'.pool);
    }
  }

  /** What one turn of the matching loop does with a usable answer: both files of the record are
      attempted under its sanitised stem; the turn is a success exactly when both can be written,
      and then the copy and a configuration holding the matched login and password are written
      and the login leaves the pool; otherwise the record fails and the pool stays. Any other
      answer defers the record and writes nothing. */
  lemma MatchStepOutcome(s: PrimaryState, item: Record, m: Match, writable: Writable)
    requires s.pool.Valid()
    ensures var s', stem := MatchStep(s, item, m, writable), SafeName(item.steamId);
      && (!Usable(m) ==> s' == PrimaryState(s.pool, s.written, s.ok, s.failed, s.remaining + [item], s.events))
      && (Usable(m) ==> s'.remaining == s.remaining)
      && (Usable(m) ==> (s'.ok == s.ok + 1 <==> writable(stem + ".maFile") && writable(stem + ".json")))
      && (Usable(m) && s'.ok == s.ok + 1 ==>
            s'.written == s.written + [MaFileCopy(stem, item.doc), ConfigFile(stem, ConfigFor(m.login, m.password))]
            && s'.pool == Pop(s.pool, m.login) && s'.failed == s.failed)
      && (Usable(m) && s'.ok != s.ok + 1 ==>
            s'.ok == s.ok && s'.pool == s.pool && s'.failed == s.failed + [Failure(item.filename, ProcessingFailed)])
  {
  }

  lemma SplitLast<T>(s: seq<T>)
    requires s != []
    ensures s[..|s| - 1] + [s[|s| - 1]] == s
  {
  }

  /** With no hit in the pool, the matcher has no answer at all. */
  lemma NoHitNoMatch(item: Record, pool: Dict, m: Match)
    requires pool.Valid() && NoHit(item, pool) && IsBestMatch(m, item.steamId, item.filename, pool)
    ensures m == NoMatch
  {
    assert forall i :: 0 <= i < |pool.keys| ==> pool.keys[i] in pool.vals;
  }

  /** When the matcher finds nothing for any record, the matching loop writes nothing and defers
      every record, in order, leaving the whole roster in the pool. */
  lemma {:induction false} NothingMatchedAllDeferred(roster: Dict, records: seq<Record>, matches: seq<Match>, writable: Writable)
    requires roster.Valid() && |matches| == |records| && Answered(roster, records, matches, writable)
    requires forall r :: r in records ==> NoHit(r, roster)
    ensures PrimaryRun(roster, records, matches, writable) == PrimaryState(roster, [], 0, [], records, [])
  {
    if records != [] {
      var n := |records| - 1;
      var pre, last := records[..n], records[n];
      SplitLast(records);
      assert forall r :: r in pre ==> r in records;
      NothingMatchedAllDeferred(roster, pre, matches[..n], writable);
      assert IsBestMatch(matches[n], last.steamId, last.filename, roster);
      NoHitNoMatch(last, roster, matches[n]);
      assert PrimaryRun(roster, records, matches, writable) == MatchStep(PrimaryState(roster, [], 0, [], pre, []), last, NoMatch, writable);
    }
  }

  /** One turn of the matching loop: the matcher's answer for `item` against the logins still
      available, and the state after the turn. */
  method MatchRecord(item: Record, s: PrimaryState, writable: Writable) returns (m: Match, s': PrimaryState)
    requires s.pool.Valid()
    ensures IsBestMatch(m, item.steamId, item.filename, s.pool)
    ensures s' == MatchStep(s, item, m, writable)
  {
    m := FindBestMatch(item.steamId, item.filename, s.pool);
    s' := ApplyMatch(item, s, m, writable);
  }

  /** The `if login and pwd:` branch of a matching turn, given the matcher's answer. */
  method ApplyMatch(item: Record, s: PrimaryState, m: Match, writable: Writable) returns (s': PrimaryState)
    requires s.pool.Valid()
    ensures s' == MatchStep(s, item, m, writable)
  {
    if Usable(m) {
      var attempt := WriteArtifacts(item, m.login, m.password, writable);
      if attempt.ok {
        s' := PrimaryState(Pop(s.pool, m.login), s.written + attempt.written, s.ok + 1, s.failed, s.remaining,
                           s.events + [MatchedLogin(item.filename, m.login)]);
      } else {
        s' := PrimaryState(s.pool, s.written + attempt.written, s.ok, s.failed + [Failure(item.filename, ProcessingFailed)], s.remaining,
                           s.events + [ProcessError(item.filename)]);
      }
    } else {
      s' := PrimaryState(s.pool, s.written, s.ok, s.failed, s.remaining + [item], s.events);
    }
  }

  /** The matching loop of `convert`, over the records in order, starting from the whole roster
      as the pool. Each record gets the matcher's answer against the pool the earlier turns left.
      The pool ends as the roster without the logins written, in the roster's order; those logins
      are distinct roster entries; successes, failures and deferrals add up to the records; the
      deferred records are those without a usable answer, in their order, and none of them has a
      hit in the final pool. */
  method PrimaryPass(records: seq<Record>, total: nat, roster: Dict, writable: Writable)
    returns (s: PrimaryState, ghost matches: seq<Match>, progress: seq<int>)
    requires roster.Valid()
    ensures |matches| == |records| && Answered(roster, records, matches, writable)
    ensures s == PrimaryRun(roster, records, matches, writable)
    ensures PoolInvariant(roster, s.pool, s.written, s.ok)
    ensures s.ok + |s.failed| + |s.remaining| == |records|
    ensures forall f :: f in s.failed ==> f.reason == ProcessingFailed
    ensures s.remaining == Deferred(records, matches)
    ensures NonEmptyEntries(roster) ==> forall r :: r in s.remaining ==> NoHit(r, s.pool)
    ensures progress == PrimaryProgress(|records|, total)
  {
    s, matches, progress := PrimaryState(roster, [], 0, [], [], []), [], [];
    for i := 0 to |records|
      invariant |matches| == i && Answered(roster, records[..i], matches, writable)
      invariant s == PrimaryRun(roster, records[..i], matches, writable)
      invariant progress == PrimaryProgress(i, total)
    {
      var m, next := MatchRecord(records[i], s, writable);
      PrimaryRunSnoc(roster, records, matches, m, writable);
      s, matches := next, matches + [m];
      PrimaryProgressSnoc(i, total);
      progress := progress + [PrimaryTick(i + 1, total)];
    }
    assert records[..|records|] == records;
    PrimaryRunFacts(roster, records, matches, writable);
    PrimaryRunDefers(roster, records, matches, writable);
  }

  /** The matching loop over records whose answers the matcher may give keeps the pool invariant,
      accounts for every record once, fails only as a processing failure, and leaves no deferred
      record a hit in the final pool when the roster has no empty login or password. */
  lemma {:induction false} PrimaryRunFacts(roster: Dict, records: seq<Record>, matches: seq<Match>, writable: Writable)
    requires roster.Valid() && |matches| == |records| && Answered(roster, records, matches, writable)
    ensures PrimaryFacts(roster, PrimaryRun(roster, records, matches, writable), |records|)
  {
    if records == [] {
      PoolStart(roster);
    } else {
      var n := |records| - 1;
      PrimaryRunFacts(roster, records[..n], matches[..n], writable);
      FactsTurn(roster, PrimaryRun(roster, records[..n], matches[..n], writable), n, records[n], matches[n], writable);
    }
  }

  /** The records the matching loop defers are those without a usable answer, in their order. */
  lemma {:induction false} PrimaryRunDefers(roster: Dict, records: seq<Record>, matches: seq<Match>, writable: Writable)
    requires roster.Valid() && |matches| == |records|
    ensures PrimaryRun(roster, records, matches, writable).remaining == Deferred(records, matches)
  {
    if records != [] {
      var n := |records| - 1;
      PrimaryRunDefers(roster, records[..n], matches[..n], writable);
    }
  }

  /** A roster read by `_parse_logpass` has no empty login or password. */
  lemma ParsedRosterNonEmpty(decode: Decoder)
    ensures NonEmptyEntries(ParseRoster(decode))
  {
    RosterProperties.RosterWellFormed(decode);
  }

  /** Over a roster read by `_parse_logpass`, no record the matching loop defers has a hit in
      the pool it leaves: the fallback loop gets only records the matcher could not place. */
  lemma ParsedRosterDeferredNoHit(decode: Decoder, records: seq<Record>, matches: seq<Match>, writable: Writable)
    requires |matches| == |records| && Answered(ParseRoster(decode), records, matches, writable)
    ensures var p := PrimaryRun(ParseRoster(decode), records, matches, writable);
      forall r :: r in p.remaining ==> NoHit(r, p.pool)
  {
    ParsedRosterNonEmpty(decode);
    PrimaryRunFacts(ParseRoster(decode), records, matches, writable);
  }

  /** What the state of the matching loop keeps after `i` turns. */
  ghost predicate PrimaryFacts(roster: Dict, s: PrimaryState, i: nat) {
    && PoolInvariant(roster, s.pool, s.written, s.ok)
    && s.ok + |s.failed| + |s.remaining| == i
    && (forall f :: f in s.failed ==> f.reason == ProcessingFailed)
    && (NonEmptyEntries(roster) ==> forall r :: r in s.remaining ==> NoHit(r, s.pool))
  }

  lemma FactsTurn(roster: Dict, s: PrimaryState, i: nat, item: Record, m: Match, writable: Writable)
    requires PrimaryFacts(roster, s, i) && IsBestMatch(m, item.steamId, item.filename, s.pool)
    ensures PrimaryFacts(roster, MatchStep(s, item, m, writable), i + 1)
  {
    MatchStepKeeps(roster, s, item, m, writable);
    if NonEmptyEntries(roster) {
      assert NonEmptyEntries(s.pool);
      MatchStepDefers(s, item, m, writable);
    }
  }

  /** The entries of a dict in insertion order: `list(available.items())`. */
  function Items(d: Dict): (items: seq<Entry>)
    requires d.Valid()
    ensures |items| == |d.keys|
    ensures forall i :: 0 <= i < |items| ==> items[i].login == d.keys[i] && items[i].password == d.vals[d.keys[i]]
  {
    seq(|d.keys|, i requires 0 <= i < |d.keys| => Entry(d.keys[i], d.vals[d.keys[i]]))
  }

  function CountReason(failed: seq<Failure>, reason: FailReason): nat {
    if failed == [] then 0
    else CountReason(failed[..|failed| - 1], reason) + (if failed[|failed| - 1].reason == reason then 1 else 0)
  }

  lemma {:induction false} CountReasonAppend(a: seq<Failure>, b: seq<Failure>, reason: FailReason)
    ensures CountReason(a + b, reason) == CountReason(a, reason) + CountReason(b, reason)
  {
    if b != [] {
      assert (a + b)[..|a + b| - 1] == a + b[..|b| - 1];
      CountReasonAppend(a, b[..|b| - 1], reason);
    } else {
      assert a + b == a;
    }
  }

  /** The configuration file written for the `j`-th deferred record paired with the `j`-th
      snapshot entry. */
  predicate PairedByIndex(a: Artifact, remaining: seq<Record>, pool: seq<Entry>, j: int) {
    0 <= j < |remaining| && j < |pool|
    && a == ConfigFile(SafeName(remaining[j].steamId), ConfigFor(pool[j].login, pool[j].password))
  }

  /** Every configuration among `ws` pairs a deferred record before `j` with the snapshot entry
      of the same index. */
  ghost predicate PairedBelow(ws: seq<Artifact>, remaining: seq<Record>, pool: seq<Entry>, j: nat) {
    forall i :: 0 <= i < |ws| && ws[i].ConfigFile? ==> exists k :: k < j && PairedByIndex(ws[i], remaining, pool, k)
  }

  /** Every login among `logins` is a snapshot entry before `j`. */
  ghost predicate LoginsBelow(logins: seq<string>, pool: seq<Entry>, j: nat) {
    forall x :: x in logins ==> exists k :: 0 <= k < j && k < |pool| && pool[k].login == x
  }

  /** The state of the fallback loop after `j` deferred records. */
  ghost predicate FallbackInvariant(remaining: seq<Record>, pool: seq<Entry>, j: nat, written: seq<Artifact>, ok: nat) {
    var logins := LoginsOf(ConfigsOf(written));
    && PairedBelow(written, remaining, pool, j)
    && LoginsBelow(logins, pool, j)
    && NoDuplicates(logins)
    && ok == |ConfigsOf(written)| && ok <= j && ok <= |pool|
    && Paired(written) && SafeStems(written)
  }

  lemma PairedBelowExtends(ws: seq<Artifact>, more: seq<Artifact>, remaining: seq<Record>, pool: seq<Entry>, j: nat)
    requires PairedBelow(ws, remaining, pool, j)
    requires forall x :: x in more && x.ConfigFile? ==> PairedByIndex(x, remaining, pool, j)
    ensures PairedBelow(ws + more, remaining, pool, j + 1)
  {
    var w := ws + more;
    forall i | 0 <= i < |w| && w[i].ConfigFile? ensures exists k :: k < j + 1 && PairedByIndex(w[i], remaining, pool, k) {
      if i < |ws| {
        assert w[i] == ws[i];
      } else {
        assert w[i] in more;
      }
    }
  }

  lemma LoginsBelowExtends(logins: seq<string>, pool: seq<Entry>, j: nat)
    requires j < |pool| && NoDuplicates(Logins(pool))
    requires LoginsBelow(logins, pool, j) && NoDuplicates(logins)
    ensures LoginsBelow(logins + [pool[j].login], pool, j + 1) && NoDuplicates(logins + [pool[j].login])
  {
    var login := pool[j].login;
    forall k | 0 <= k < j && k < |pool| ensures pool[k].login != login {
      assert Logins(pool)[k] != Logins(pool)[j];
    }
    NoDuplicatesConcat(logins, [login]);
  }

  lemma FallbackStep(remaining: seq<Record>, pool: seq<Entry>, j: nat, written: seq<Artifact>, ok: nat, writable: Writable)
    requires j < |remaining| && j < |pool| && NoDuplicates(Logins(pool))
    requires FallbackInvariant(remaining, pool, j, written, ok)
    ensures var a := WriteArtifacts(remaining[j], pool[j].login, pool[j].password, writable);
      FallbackInvariant(remaining, pool, j + 1, written + a.written, if a.ok then ok + 1 else ok)
  {
    var a := WriteArtifacts(remaining[j], pool[j].login, pool[j].password, writable);
    WriteArtifactsSpec(remaining[j], pool[j].login, pool[j].password, writable);
    ConfigsOfAppend(written, a.written);
    PairedAppend(written, a.written);
    PairedBelowExtends(written, a.written, remaining, pool, j);
    if a.ok {
      FallbackAfterWrite(remaining, pool, j, written, ok, a.written);
    } else {
      FallbackAfterFailedWrite(remaining, pool, j, written, ok, a.written);
    }
  }

  lemma FallbackAfterWrite(remaining: seq<Record>, pool: seq<Entry>, j: nat, written: seq<Artifact>, ok: nat, more: seq<Artifact>)
    requires j < |remaining| && j < |pool| && NoDuplicates(Logins(pool))
    requires FallbackInvariant(remaining, pool, j, written, ok)
    requires ConfigsOf(written + more) == ConfigsOf(written) + [ConfigFor(pool[j].login, pool[j].password)]
    requires PairedBelow(written + more, remaining, pool, j + 1)
    requires Paired(written + more) && SafeStems(written + more)
    ensures FallbackInvariant(remaining, pool, j + 1, written + more, ok + 1)
  {
    var before := LoginsOf(ConfigsOf(written));
    assert LoginsOf(ConfigsOf(written + more)) == before + [pool[j].login];
    LoginsBelowExtends(before, pool, j);
  }

  lemma FallbackAfterFailedWrite(remaining: seq<Record>, pool: seq<Entry>, j: nat, written: seq<Artifact>, ok: nat, more: seq<Artifact>)
    requires FallbackInvariant(remaining, pool, j, written, ok)
    requires ConfigsOf(written + more) == ConfigsOf(written)
    requires PairedBelow(written + more, remaining, pool, j + 1)
    requires Paired(written + more) && SafeStems(written + more)
    ensures FallbackInvariant(remaining, pool, j + 1, written + more, ok)
  {
  }


  /** What a pass adds up: the files written, the successes, the failures and the log. */
  datatype Tally = Tally(written: seq<Artifact>, ok: nat, failed: seq<Failure>, events: seq<LogEvent>)

  /** One turn of the fallback loop for `item`, the `j`-th deferred record: paired with the
      `j`-th snapshot entry when there is one, a success when both files were written and an
      auto-processing failure otherwise; with no entry left it fails for want of logins. */
  function AssignStep(t: Tally, item: Record, pool: seq<Entry>, j: nat, writable: Writable): Tally {
    if j < |pool| then
      var a := WriteArtifacts(item, pool[j].login, pool[j].password, writable);
      if a.ok then Tally(t.written + a.written, t.ok + 1, t.failed, t.events + [AutoAssigned(item.filename, pool[j].login)])
      else Tally(t.written + a.written, t.ok, t.failed + [Failure(item.filename, AutoProcessingFailed)], t.events + [AutoProcessError(item.filename)])
    else Tally(t.written, t.ok, t.failed + [Failure(item.filename, NotEnoughLogins)], t.events + [NotEnoughLoginsFor(item.filename)])
  }

  /** The fallback loop over the deferred records against the snapshot `pool`. */
  function FallbackRun(remaining: seq<Record>, pool: seq<Entry>, writable: Writable): Tally {
    if remaining == [] then Tally([], 0, [], [])
    else
      var n := |remaining| - 1;
      AssignStep(FallbackRun(remaining[..n], pool, writable), remaining[n], pool, n, writable)
  }

  lemma FallbackRunSnoc(remaining: seq<Record>, pool: seq<Entry>, j: nat, writable: Writable)
    requires j < |remaining|
    ensures FallbackRun(remaining[..j + 1], pool, writable) == AssignStep(FallbackRun(remaining[..j], pool, writable), remaining[j], pool, j, writable)
  {
    assert remaining[..j + 1][..j] == remaining[..j];
  }

  /** A fallback turn keeps the pairing invariant and accounts for its record exactly once. */
  lemma AssignStepKeeps(remaining: seq<Record>, pool: seq<Entry>, j: nat, t: Tally, writable: Writable)
    requires j < |remaining| && NoDuplicates(Logins(pool))
    requires FallbackInvariant(remaining, pool, j, t.written, t.ok)
    ensures var t' := AssignStep(t, remaining[j], pool, j, writable);
      && FallbackInvariant(remaining, pool, j + 1, t'.written, t'.ok)
      && t'.ok + |t'.failed| == t.ok + |t.failed| + 1
  {
    if j < |pool| {
      FallbackStep(remaining, pool, j, t.written, t.ok, writable);
    }
  }

  /** A fallback turn fails only as an auto-processing failure or for want of logins, and the
      latter exactly when the snapshot has no `j`-th entry. */
  lemma AssignStepFailures(remaining: seq<Record>, pool: seq<Entry>, j: nat, t: Tally, writable: Writable)
    requires j < |remaining|
    ensures var t' := AssignStep(t, remaining[j], pool, j, writable);
      && (forall f :: f in t'.failed ==> f in t.failed || f.reason == AutoProcessingFailed || f.reason == NotEnoughLogins)
      && CountReason(t'.failed, NotEnoughLogins) == CountReason(t.failed, NotEnoughLogins) + (if j < |pool| then 0 else 1)
  {
    var item := remaining[j];
    if j < |pool| && WriteArtifacts(item, pool[j].login, pool[j].password, writable).ok {
      assert AssignStep(t, item, pool, j, writable).failed == t.failed;
    } else {
      var f := Failure(item.filename, if j < |pool| then AutoProcessingFailed else NotEnoughLogins);
      assert AssignStep(t, item, pool, j, writable).failed == t.failed + [f];
      assert (t.failed + [f])[..|t.failed|] == t.failed;
    }
  }

  /** What one turn of the fallback loop does: with a `j`-th snapshot entry, both files of the
      record are attempted under its sanitised stem, and the turn is a success exactly when both
      can be written, the configuration then holding that entry's login and password; without
      one, the record fails for want of logins and nothing is written. */
  lemma AssignStepOutcome(t: Tally, item: Record, pool: seq<Entry>, j: nat, writable: Writable)
    ensures var t', stem := AssignStep(t, item, pool, j, writable), SafeName(item.steamId);
      && (j >= |pool| ==> t' == Tally(t.written, t.ok, t.failed + [Failure(item.filename, NotEnoughLogins)], t.events + [NotEnoughLoginsFor(item.filename)]))
      && (j < |pool| ==> (t'.ok == t.ok + 1 <==> writable(stem + ".maFile") && writable(stem + ".json")))
      && (j < |pool| && t'.ok == t.ok + 1 ==>
            t'.written == t.written + [MaFileCopy(stem, item.doc), ConfigFile(stem, ConfigFor(pool[j].login, pool[j].password))]
            && t'.failed == t.failed)
      && (j < |pool| && t'.ok != t.ok + 1 ==>
            t'.ok == t.ok && t'.failed == t.failed + [Failure(item.filename, AutoProcessingFailed)])
  {
  }

  /** One turn of the fallback loop for the `j`-th deferred record. */
  method AssignRecord(remaining: seq<Record>, pool: seq<Entry>, j: nat, t: Tally, writable: Writable) returns (t': Tally)
    requires j < |remaining|
    ensures t' == AssignStep(t, remaining[j], pool, j, writable)
  {
    var item := remaining[j];
    if j < |pool| {
      var entry := pool[j];
      var attempt := WriteArtifacts(item, entry.login, entry.password, writable);
      if attempt.ok {
        t' := Tally(t.written + attempt.written, t.ok + 1, t.failed, t.events + [AutoAssigned(item.filename, entry.login)]);
      } else {
        t' := Tally(t.written + attempt.written, t.ok, t.failed + [Failure(item.filename, AutoProcessingFailed)], t.events + [AutoProcessError(item.filename)]);
      }
    } else {
      t' := Tally(t.written, t.ok, t.failed + [Failure(item.filename, NotEnoughLogins)], t.events + [NotEnoughLoginsFor(item.filename)]);
    }
  }

  lemma FallbackProgressPrefix(r: nat, j: nat)
    requires j < r
    ensures FallbackProgress(r)[..j + 1] == FallbackProgress(r)[..j] + [FallbackTick(j + 1, r)]
  {
  }

  /** The fallback loop of `convert`: the `j`-th deferred record is paired with the `j`-th entry of
      the snapshot of the pool; records past the end of the snapshot fail for want of logins. No
      login is used twice, and every configuration is the pairing by index. */
  method FallbackPass(remaining: seq<Record>, pool: seq<Entry>, writable: Writable) returns (t: Tally, progress: seq<int>)
    requires NoDuplicates(Logins(pool))
    ensures t == FallbackRun(remaining, pool, writable)
    ensures t.ok + |t.failed| == |remaining|
    ensures forall i :: 0 <= i < |t.written| && t.written[i].ConfigFile? ==> exists j :: PairedByIndex(t.written[i], remaining, pool, j)
    ensures forall x :: x in LoginsOf(ConfigsOf(t.written)) ==> x in Logins(pool)
    ensures NoDuplicates(LoginsOf(ConfigsOf(t.written)))
    ensures t.ok == |ConfigsOf(t.written)| && t.ok <= |pool|
    ensures Paired(t.written) && SafeStems(t.written)
    ensures forall f :: f in t.failed ==> f.reason == AutoProcessingFailed || f.reason == NotEnoughLogins
    ensures CountReason(t.failed, NotEnoughLogins) == if |remaining| > |pool| then |remaining| - |pool| else 0
    ensures progress == FallbackProgress(|remaining|)
  {
    t, progress := Tally([], 0, [], []), [];
    for j := 0 to |remaining|
      invariant t == FallbackRun(remaining[..j], pool, writable)
      invariant progress == FallbackProgress(|remaining|)[..j]
    {
      var next := AssignRecord(remaining, pool, j, t, writable);
      FallbackRunSnoc(remaining, pool, j, writable);
      t := next;
      FallbackProgressPrefix(|remaining|, j);
      progress := progress + [FallbackTick(j + 1, |remaining|)];
    }
    assert remaining[..|remaining|] == remaining;
    FallbackRunSpec(remaining, pool, writable);
  }

  /** What the fallback loop keeps after its first `j` turns. */
  ghost predicate FallbackFacts(remaining: seq<Record>, pool: seq<Entry>, j: nat, t: Tally) {
    && FallbackInvariant(remaining, pool, j, t.written, t.ok)
    && t.ok + |t.failed| == j
    && (forall f :: f in t.failed ==> f.reason == AutoProcessingFailed || f.reason == NotEnoughLogins)
    && CountReason(t.failed, NotEnoughLogins) == if j > |pool| then j - |pool| else 0
  }

  /** A turn of the fallback loop keeps what it keeps. */
  lemma AssignTurn(remaining: seq<Record>, pool: seq<Entry>, j: nat, t: Tally, writable: Writable)
    requires NoDuplicates(Logins(pool)) && j < |remaining| && FallbackFacts(remaining, pool, j, t)
    ensures FallbackFacts(remaining, pool, j + 1, AssignStep(t, remaining[j], pool, j, writable))
  {
    AssignStepKeeps(remaining, pool, j, t, writable);
    AssignStepFailures(remaining, pool, j, t, writable);
  }

  /** The fallback loop over the first `n` deferred records. */
  lemma {:induction false} FallbackRunFacts(remaining: seq<Record>, pool: seq<Entry>, n: nat, writable: Writable)
    requires n <= |remaining| && NoDuplicates(Logins(pool))
    ensures FallbackFacts(remaining, pool, n, FallbackRun(remaining[..n], pool, writable))
  {
    if n == 0 {
      assert remaining[..0] == [] && ConfigsOf([]) == [];
    } else {
      var j := n - 1;
      var t := FallbackRun(remaining[..j], pool, writable);
      FallbackRunSnoc(remaining, pool, j, writable);
      assert FallbackRun(remaining[..n], pool, writable) == AssignStep(t, remaining[j], pool, j, writable);
      FallbackRunFacts(remaining, pool, j, writable);
      AssignTurn(remaining, pool, j, t, writable);
    }
  }

  /** The fallback loop pairs the `j`-th deferred record with the `j`-th snapshot entry: every
      configuration is such a pairing, no login is used twice, every login is a snapshot entry,
      each record is a success or a failure, and exactly the records past the end of the
      snapshot fail for want of logins. */
  lemma FallbackRunSpec(remaining: seq<Record>, pool: seq<Entry>, writable: Writable)
    requires NoDuplicates(Logins(pool))
    ensures var t := FallbackRun(remaining, pool, writable);
      && t.ok + |t.failed| == |remaining|
      && (forall i :: 0 <= i < |t.written| && t.written[i].ConfigFile? ==> exists j :: PairedByIndex(t.written[i], remaining, pool, j))
      && (forall x :: x in LoginsOf(ConfigsOf(t.written)) ==> x in Logins(pool))
      && NoDuplicates(LoginsOf(ConfigsOf(t.written)))
      && t.ok == |ConfigsOf(t.written)| && t.ok <= |pool|
      && Paired(t.written) && SafeStems(t.written)
      && (forall f :: f in t.failed ==> f.reason == AutoProcessingFailed || f.reason == NotEnoughLogins)
      && CountReason(t.failed, NotEnoughLogins) == if |remaining| > |pool| then |remaining| - |pool| else 0
  {
    var t := FallbackRun(remaining, pool, writable);
    FallbackRunFacts(remaining, pool, |remaining|, writable);
    assert remaining[..|remaining|] == remaining;
    forall x | x in LoginsOf(ConfigsOf(t.written)) ensures x in Logins(pool) {
      var k :| 0 <= k < |remaining| && k < |pool| && pool[k].login == x;
      assert Logins(pool)[k] == x;
    }
  }

  lemma PrimaryProgressBounds(n: nat, total: nat)
    requires n <= total
    ensures forall i, j :: 0 <= i <= j < n ==> 0 <= PrimaryProgress(n, total)[i] <= PrimaryProgress(n, total)[j] <= 60
  {
    var p := PrimaryProgress(n, total);
    forall i, j | 0 <= i <= j < n ensures 0 <= p[i] <= p[j] <= 60 {
      var t := Max1(total);
      assert j + 1 <= t;
      ScaledBounds(i + 1, j + 1, 60, t);
      assert p[i] == Scaled(i + 1, 60, t) && p[j] == Scaled(j + 1, 60, t);
    }
  }

  lemma FallbackProgressBounds(r: nat)
    ensures forall i, j :: 0 <= i <= j < r ==> 60 <= FallbackProgress(r)[i] <= FallbackProgress(r)[j] <= 100
  {
    var p := FallbackProgress(r);
    forall i, j | 0 <= i <= j < r ensures 60 <= p[i] <= p[j] <= 100 {
      var t := Max1(r);
      ScaledBounds(i + 1, j + 1, 40, t);
      assert p[i] == 60 + Scaled(i + 1, 40, t) && p[j] == 60 + Scaled(j + 1, 40, t);
    }
  }

  /** Progress values never go down, stay within 0 to 100, and end at 100. */
  ghost predicate ProgressShape(p: seq<int>) {
    p != [] && p[|p| - 1] == 100 && forall i, j :: 0 <= i <= j < |p| ==> 0 <= p[i] <= p[j] <= 100
  }

  /** The progress values of a whole run: the matching loop over `n` of `total` paths, the
      fallback loop over `r` deferred records when it runs, then 100. */
  lemma RunProgress(n: nat, total: nat, r: nat, fallback: bool)
    requires n <= total
    ensures ProgressShape(PrimaryProgress(n, total) + (if fallback then FallbackProgress(r) else []) + [100])
  {
    var p1, p2 := PrimaryProgress(n, total), if fallback then FallbackProgress(r) else [];
    var p := p1 + p2 + [100];
    PrimaryProgressBounds(n, total);
    FallbackProgressBounds(r);
    forall i, j | 0 <= i <= j < |p| ensures 0 <= p[i] <= p[j] <= 100 {
      if j < |p1| {
        assert p[i] == p1[i] && p[j] == p1[j];
      } else if j < |p1| + |p2| {
        assert p[j] == p2[j - |p1|];
        if i < |p1| { assert p[i] == p1[i]; } else { assert p[i] == p2[i - |p1|]; }
      } else if i < |p1| {
        assert p[i] == p1[i];
      } else if i < |p1| + |p2| {
        assert p[i] == p2[i - |p1|];
      }
    }
  }

  lemma CountReasonAll(failed: seq<Failure>, reason: FailReason)
    ensures (forall f :: f in failed ==> f.reason == reason) ==> CountReason(failed, reason) == |failed|
    ensures (forall f :: f in failed ==> f.reason != reason) ==> CountReason(failed, reason) == 0
  {
    if failed != [] {
      var p := failed[..|failed| - 1];
      assert forall f :: f in p ==> f in failed;
      CountReasonAll(p, reason);
    }
  }

  /** Both passes together: the logins of the configurations are distinct roster entries, at most
      one per roster login. */
  lemma CombinePasses(roster: Dict, available: Dict, written1: seq<Artifact>, ok1: nat, written2: seq<Artifact>, ok2: nat)
    requires PoolInvariant(roster, available, written1, ok1)
    requires forall x :: x in LoginsOf(ConfigsOf(written2)) ==> x in available.keys
    requires forall c :: c in ConfigsOf(written2) ==> c == ConfigFor(c.steamLogin, available.vals[c.steamLogin])
    requires NoDuplicates(LoginsOf(ConfigsOf(written2)))
    requires ok2 == |ConfigsOf(written2)| && ok2 <= |available.keys|
    requires Paired(written2) && SafeStems(written2)
    ensures var configs := ConfigsOf(written1 + written2);
      && NoDuplicates(LoginsOf(configs))
      && (forall c :: c in configs ==> FromRoster(c, roster))
      && ok1 + ok2 == |configs| <= |roster.keys|
      && Paired(written1 + written2) && SafeStems(written1 + written2)
  {
    ConfigsOfAppend(written1, written2);
    PairedAppend(written1, written2);
    CombineDistinct(roster, available, written1, written2);
    CombineFromRoster(roster, available, written1, ok1, written2);
  }

  lemma CombineDistinct(roster: Dict, available: Dict, written1: seq<Artifact>, written2: seq<Artifact>)
    requires available.Valid() && forall k :: k in available.vals ==> k in roster.vals
    requires forall k :: k in roster.vals ==> (k in available.vals <==> k !in LoginsOf(ConfigsOf(written1)))
    requires NoDuplicates(LoginsOf(ConfigsOf(written1)))
    requires forall x :: x in LoginsOf(ConfigsOf(written2)) ==> x in available.keys
    requires NoDuplicates(LoginsOf(ConfigsOf(written2)))
    ensures NoDuplicates(LoginsOf(ConfigsOf(written1) + ConfigsOf(written2)))
  {
    var c1, c2 := ConfigsOf(written1), ConfigsOf(written2);
    var l1, l2 := LoginsOf(c1), LoginsOf(c2);
    assert LoginsOf(c1 + c2) == l1 + l2;
    SecondPassDisjoint(roster, available, l1, l2);
    NoDuplicatesConcat(l1, l2);
  }

  lemma CombineFromRoster(roster: Dict, available: Dict, written1: seq<Artifact>, ok1: nat, written2: seq<Artifact>)
    requires PoolInvariant(roster, available, written1, ok1)
    requires forall x :: x in LoginsOf(ConfigsOf(written2)) ==> x in available.keys
    requires forall c :: c in ConfigsOf(written2) ==> c == ConfigFor(c.steamLogin, available.vals[c.steamLogin])
    ensures forall c :: c in ConfigsOf(written1) + ConfigsOf(written2) ==> FromRoster(c, roster)
  {
    var c1, c2 := ConfigsOf(written1), ConfigsOf(written2);
    SecondPassFromRoster(roster, available, c2);
    assert forall c :: c in c1 + c2 ==> c in c1 || c in c2;
  }

  /** The logins the fallback writes were still available, so none was written by the primary
      pass. */
  lemma SecondPassDisjoint(roster: Dict, available: Dict, l1: seq<string>, l2: seq<string>)
    requires available.Valid()
    requires forall k :: k in available.vals ==> k in roster.vals
    requires forall k :: k in roster.vals ==> (k in available.vals <==> k !in l1)
    requires forall x :: x in l2 ==> x in available.keys
    ensures forall x :: x in l1 ==> x !in l2
  {
  }

  /** The configurations the fallback writes hold available logins with their passwords, which
      are the roster's. */
  lemma SecondPassFromRoster(roster: Dict, available: Dict, cs: seq<BotConfig>)
    requires available.Valid()
    requires forall k :: k in available.vals ==> k in roster.vals && available.vals[k] == roster.vals[k]
    requires forall x :: x in LoginsOf(cs) ==> x in available.keys
    requires forall c :: c in cs ==> c == ConfigFor(c.steamLogin, available.vals[c.steamLogin])
    ensures forall c :: c in cs ==> FromRoster(c, roster)
  {
    forall c | c in cs ensures FromRoster(c, roster) {
      var i :| 0 <= i < |cs| && cs[i] == c;
      assert LoginsOf(cs)[i] == c.steamLogin;
    }
  }

  /** `output_folder or "ASFmaFiles"`. */
  function OutputFolder(outputFolder: string): (dir: string)
    ensures dir != []
    ensures outputFolder != [] ==> dir == outputFolder
  {
    if outputFolder == [] then DefaultOutputFolder else outputFolder
  }

  /** Both passes of `convert` after the matching loop left `p`: when records were deferred and
      logins are left, the fallback loop over `list(available.items())` follows. */
  function BothPasses(p: PrimaryState, writable: Writable): Tally
    requires p.pool.Valid()
  {
    if p.remaining != [] && p.pool.keys != [] then
      var f := FallbackRun(p.remaining, Items(p.pool), writable);
      Tally(p.written + f.written, p.ok + f.ok, p.failed + f.failed,
            p.events + [LeftOver(|p.remaining|, |p.pool.keys|), AssigningInOrder] + f.events)
    else Tally(p.written, p.ok, p.failed, p.events)
  }

  /** The progress values both passes report: one per record of the matching loop, then, when
      the fallback loop runs, one per deferred record. */
  function PassesProgress(n: nat, total: nat, p: PrimaryState): seq<int> {
    PrimaryProgress(n, total) + if p.remaining != [] && p.pool.keys != [] then FallbackProgress(|p.remaining|) else []
  }

  /** Both passes of `convert` over the records read: the matching loop, then, when records were
      deferred and logins are left, the fallback loop over a snapshot of the pool. Every
      configuration holds a distinct login of the roster with its password; every record is a
      success or a failure except when the pool ran dry, which happens only when every login of
      the roster was matched. */
  method Reconcile(records: seq<Record>, total: nat, roster: Dict, writable: Writable)
    returns (t: Tally, ghost matches: seq<Match>, progress: seq<int>)
    requires roster.Valid() && |records| <= total
    ensures |matches| == |records| && Answered(roster, records, matches, writable)
      && t == BothPasses(PrimaryRun(roster, records, matches, writable), writable)
    ensures t.ok == |ConfigsOf(t.written)| <= |roster.keys|
    ensures NoDuplicates(LoginsOf(ConfigsOf(t.written)))
    ensures forall c :: c in ConfigsOf(t.written) ==> FromRoster(c, roster)
    ensures Paired(t.written) && SafeStems(t.written)
    ensures t.ok + |t.failed| <= |records|
    ensures t.ok + |t.failed| < |records| ==> t.ok == |roster.keys|
    ensures forall f :: f in t.failed ==> f.reason != ReadFailed
    ensures var p := PrimaryRun(roster, records, matches, writable);
      && (p.remaining == [] || p.pool.keys != [] ==> t.ok + |t.failed| == |records|)
      && (p.remaining != [] && p.pool.keys == [] ==> t.ok + |t.failed| + |p.remaining| == |records|)
    ensures progress == PassesProgress(|records|, total, PrimaryRun(roster, records, matches, writable))
    ensures ProgressShape(progress + [100])
  {
    var p, more;
    p, matches, progress := PrimaryPass(records, total, roster, writable);
    t, more := FinishPasses(p, writable);
    var fallback := p.remaining != [] && p.pool.keys != [];
    progress := progress + more;
    BothPassesSpec(roster, records, matches, writable);
    RunProgress(|records|, total, |p.remaining|, fallback);
  }

  /** What follows the matching loop: when records were deferred and logins are left, the
      fallback loop over `list(available.items())`. */
  method FinishPasses(p: PrimaryState, writable: Writable) returns (t: Tally, progress: seq<int>)
    requires p.pool.Valid()
    ensures t == BothPasses(p, writable)
    ensures progress == if p.remaining != [] && p.pool.keys != [] then FallbackProgress(|p.remaining|) else []
  {
    if p.remaining != [] && p.pool.keys != [] {
      var f;
      f, progress := AssignLeftovers(p.remaining, p.pool, writable);
      t := Tally(p.written + f.written, p.ok + f.ok, p.failed + f.failed,
                 p.events + [LeftOver(|p.remaining|, |p.pool.keys|), AssigningInOrder] + f.events);
    } else {
      t, progress := Tally(p.written, p.ok, p.failed, p.events), [];
    }
  }

  /** Both passes over records whose answers the matcher may give: every configuration holds a
      distinct login of the roster with its password; every record is a success or a failure
      except when the pool ran dry, which happens only when every login of the roster was
      matched. */
  lemma BothPassesSpec(roster: Dict, records: seq<Record>, matches: seq<Match>, writable: Writable)
    requires roster.Valid() && |matches| == |records| && Answered(roster, records, matches, writable)
    ensures var t := BothPasses(PrimaryRun(roster, records, matches, writable), writable);
      && t.ok == |ConfigsOf(t.written)| <= |roster.keys|
      && NoDuplicates(LoginsOf(ConfigsOf(t.written)))
      && (forall c :: c in ConfigsOf(t.written) ==> FromRoster(c, roster))
      && Paired(t.written) && SafeStems(t.written)
      && t.ok + |t.failed| <= |records|
      && (t.ok + |t.failed| < |records| ==> t.ok == |roster.keys|)
      && (forall f :: f in t.failed ==> f.reason != ReadFailed)
    ensures var p := PrimaryRun(roster, records, matches, writable);
      var t := BothPasses(p, writable);
      && (p.remaining == [] || p.pool.keys != [] ==> t.ok + |t.failed| == |records|)
      && (p.remaining != [] && p.pool.keys == [] ==> t.ok + |t.failed| + |p.remaining| == |records|)
  {
    var p := PrimaryRun(roster, records, matches, writable);
    PrimaryRunFacts(roster, records, matches, writable);
    if p.remaining != [] && p.pool.keys != [] {
      var f := FallbackRun(p.remaining, Items(p.pool), writable);
      LeftoversSpec(p.remaining, p.pool, writable);
      CombinePasses(roster, p.pool, p.written, p.ok, f.written, f.ok);
    } else {
      assert p.written + [] == p.written;
      CombinePasses(roster, p.pool, p.written, p.ok, [], 0);
    }
  }

  /** `list(available.items())` handed to the fallback loop; each configuration it writes holds
      a login of the pool with the pool's password for it. */
  method AssignLeftovers(remaining: seq<Record>, available: Dict, writable: Writable) returns (t: Tally, progress: seq<int>)
    requires available.Valid()
    ensures t == FallbackRun(remaining, Items(available), writable)
    ensures forall x :: x in LoginsOf(ConfigsOf(t.written)) ==> x in available.keys
    ensures forall c :: c in ConfigsOf(t.written) ==> c == ConfigFor(c.steamLogin, available.vals[c.steamLogin])
    ensures NoDuplicates(LoginsOf(ConfigsOf(t.written)))
    ensures t.ok == |ConfigsOf(t.written)| && t.ok <= |available.keys|
    ensures Paired(t.written) && SafeStems(t.written)
    ensures t.ok + |t.failed| == |remaining|
    ensures forall f :: f in t.failed ==> f.reason != ReadFailed
    ensures progress == FallbackProgress(|remaining|)
  {
    var pool := Items(available);
    assert Logins(pool) == available.keys;
    t, progress := FallbackPass(remaining, pool, writable);
    LeftoversSpec(remaining, available, writable);
  }

  /** The fallback loop over `list(available.items())`: each configuration holds a login of the
      pool with the pool's password for it, no login twice. */
  lemma LeftoversSpec(remaining: seq<Record>, available: Dict, writable: Writable)
    requires available.Valid()
    ensures var t := FallbackRun(remaining, Items(available), writable);
      && (forall x :: x in LoginsOf(ConfigsOf(t.written)) ==> x in available.keys)
      && (forall c :: c in ConfigsOf(t.written) ==> c == ConfigFor(c.steamLogin, available.vals[c.steamLogin]))
      && NoDuplicates(LoginsOf(ConfigsOf(t.written)))
      && t.ok == |ConfigsOf(t.written)| && t.ok <= |available.keys|
      && Paired(t.written) && SafeStems(t.written)
      && t.ok + |t.failed| == |remaining|
      && (forall f :: f in t.failed ==> f.reason != ReadFailed)
  {
    var pool := Items(available);
    assert Logins(pool) == available.keys;
    FallbackRunSpec(remaining, pool, writable);
    PoolConfigs(remaining, available, FallbackRun(remaining, pool, writable).written);
  }

  /** A configuration paired with an entry of the snapshot holds that entry's login and the
      pool's password for it. */
  lemma {:induction false} PoolConfigs(remaining: seq<Record>, available: Dict, written: seq<Artifact>)
    requires available.Valid()
    requires forall i :: 0 <= i < |written| && written[i].ConfigFile? ==> exists j :: PairedByIndex(written[i], remaining, Items(available), j)
    ensures forall c :: c in ConfigsOf(written) ==> c.steamLogin in available.vals && c == ConfigFor(c.steamLogin, available.vals[c.steamLogin])
  {
    if written != [] {
      var n := |written| - 1;
      var p := written[..n];
      assert forall i :: 0 <= i < |p| ==> p[i] == written[i];
      PoolConfigs(remaining, available, p);
      if written[n].ConfigFile? {
        var j :| PairedByIndex(written[n], remaining, Items(available), j);
        PoolConfig(remaining, available, written[n], j);
      }
    }
  }

  lemma PoolConfig(remaining: seq<Record>, available: Dict, a: Artifact, j: int)
    requires available.Valid() && PairedByIndex(a, remaining, Items(available), j)
    ensures a.config.steamLogin in available.vals && a.config == ConfigFor(a.config.steamLogin, available.vals[a.config.steamLogin])
  {
    assert available.keys[j] in available.keys;
  }

  /** `convert(paths, logpass_path, output_folder)`. The output folder is created first; then the
      roster is read, and an empty roster raises before any maFile is read or any file written.
      Otherwise every written configuration holds a distinct login of the roster with its
      password, right after the maFile copy of the same sanitised stem; the success count is the
      number of configurations; read errors are reported one per unreadable maFile; every input
      is a success or a failure, except that the records deferred by the matching loop are
      dropped when it leaves no login, which happens only when every login was matched; and
      progress climbs to 100. */
  method Convert(inputs: seq<MaFileInput>, decode: Decoder, outputFolder: string, canMakeDirs: bool, writable: Writable)
    returns (outcome: Outcome, written: seq<Artifact>, events: seq<LogEvent>, progress: seq<int>, ghost matches: seq<Match>)
    ensures outcome == Raised(MakeDirsFailed) <==> !canMakeDirs
    ensures outcome == Raised(NoRosterEntries) <==> canMakeDirs && ParseRoster(decode).keys == []
    ensures outcome.Raised? ==> written == [] && events == [] && progress == []
    ensures outcome.Done? ==> outcome.report.outputFolder == OutputFolder(outputFolder)
    ensures outcome.Done? ==>
      var roster, records := ParseRoster(decode), LoadedRecords(inputs);
      && |matches| == |records| && Answered(roster, records, matches, writable)
      && var p := PrimaryRun(roster, records, matches, writable);
      && var t := BothPasses(p, writable);
      && written == t.written && outcome.report.success == t.ok
      && outcome.report.failed == ReadFailures(inputs) + t.failed
      && (p.remaining == [] || p.pool.keys != [] ==> outcome.report.success + |outcome.report.failed| == |inputs|)
      && (p.remaining != [] && p.pool.keys == [] ==> outcome.report.success + |outcome.report.failed| + |p.remaining| == |inputs|)
      && progress == PassesProgress(|records|, |inputs|, p) + [100]
      && events == [RosterLoaded(|roster.keys|)] + ReadErrors(ReadFailures(inputs)) + t.events + [Finished(t.ok, |inputs|)]
    ensures outcome.Done? ==>
      && outcome.report.success == |ConfigsOf(written)| <= |ParseRoster(decode).keys|
      && NoDuplicates(LoginsOf(ConfigsOf(written)))
      && (forall c :: c in ConfigsOf(written) ==> FromRoster(c, ParseRoster(decode)))
      && Paired(written) && SafeStems(written)
    ensures outcome.Done? ==>
      && outcome.report.success + |outcome.report.failed| <= |inputs|
      && (outcome.report.success + |outcome.report.failed| < |inputs| ==> outcome.report.success == |ParseRoster(decode).keys|)
      && CountReason(outcome.report.failed, ReadFailed) == |ReadFailures(inputs)|
    ensures outcome.Done? ==> ProgressShape(progress)
    ensures outcome.Done? ==>
      events != [] && events[0] == RosterLoaded(|ParseRoster(decode).keys|)
      && events[|events| - 1] == Finished(outcome.report.success, |inputs|)
  {
    written, events, progress, matches := [], [], [], [];
    var outDir := OutputFolder(outputFolder);
    if !canMakeDirs {
      return Raised(MakeDirsFailed), written, events, progress, matches;
    }
    var roster := ParseLogpass(decode);
    if roster.keys == [] {
      return Raised(NoRosterEntries), written, events, progress, matches;
    }
    var report;
    report, written, events, progress, matches := ProcessPaths(inputs, roster, outDir, writable);
    outcome := Done(report);
  }

  /** What `convert` does once the roster is read: the maFiles are read, both passes run, and
      the report is built, with the log opened by the roster size and closed by the totals. */
  method ProcessPaths(inputs: seq<MaFileInput>, roster: Dict, outDir: string, writable: Writable)
    returns (report: Report, written: seq<Artifact>, events: seq<LogEvent>, progress: seq<int>, ghost matches: seq<Match>)
    requires roster.Valid()
    ensures report.outputFolder == outDir
    ensures
      var records := LoadedRecords(inputs);
      && |matches| == |records| && Answered(roster, records, matches, writable)
      && var p := PrimaryRun(roster, records, matches, writable);
      && var t := BothPasses(p, writable);
      && written == t.written && report.success == t.ok
      && report.failed == ReadFailures(inputs) + t.failed
      && (p.remaining == [] || p.pool.keys != [] ==> report.success + |report.failed| == |inputs|)
      && (p.remaining != [] && p.pool.keys == [] ==> report.success + |report.failed| + |p.remaining| == |inputs|)
      && progress == PassesProgress(|records|, |inputs|, p) + [100]
      && events == [RosterLoaded(|roster.keys|)] + ReadErrors(ReadFailures(inputs)) + t.events + [Finished(t.ok, |inputs|)]
    ensures report.success == |ConfigsOf(written)| <= |roster.keys|
    ensures NoDuplicates(LoginsOf(ConfigsOf(written)))
    ensures forall c :: c in ConfigsOf(written) ==> FromRoster(c, roster)
    ensures Paired(written) && SafeStems(written)
    ensures report.success + |report.failed| <= |inputs|
    ensures report.success + |report.failed| < |inputs| ==> report.success == |roster.keys|
    ensures CountReason(report.failed, ReadFailed) == |ReadFailures(inputs)|
    ensures ProgressShape(progress)
  {
    var total := |inputs|;
    var records, readFailed, loadEvents := LoadRecords(inputs);
    LoadCount(inputs);
    var t;
    t, matches, progress := Reconcile(records, total, roster, writable);
    written := t.written;
    ReadFailuresCounted(inputs, t.failed);
    progress := progress + [100];
    events := [RosterLoaded(|roster.keys|)] + loadEvents + t.events + [Finished(t.ok, total)];
    report := Report(t.ok, readFailed + t.failed, outDir);
  }
}
