/** Whole runs of both passes of `AsfConverter.convert` on small inputs, with every output file
    writable. */
module AsfScenarios {
  import opened Wrappers
  import opened Text
  import opened Fs
  import opened OrderedDict
  import opened Roster
  import opened RosterProperties
  import opened MaFile
  import opened Matcher
  import opened Asf

  /** Every output file can be opened for writing. */
  const AllWritable: Writable := (name: string) => true

  /** The roster read from the two lines `alice:pw1` and `bob:pw2`. */
  const AliceAndBob: Dict := Dict(["alice", "bob"], map["alice" := "pw1", "bob" := "pw2"])

  /** A line `login:password` whose login holds no colon and whose parts have no surrounding
      whitespace gives exactly that entry. */
  lemma ColonLine(login: string, password: string)
    requires login != [] && password != [] && IsStripped(login) && IsStripped(password) && ':' !in login
    ensures ParseLine(login + ":" + password) == Some(Entry(login, password))
  {
    var line := login + ":" + password;
    assert line[0] == login[0] && line[|line| - 1] == password[|password| - 1];
    assert IsStripped(line);
    assert Delimiters[0] == ':' && line[|login|] == ':' && line[..|login|] == login;
    CharIndex(line, ':');
    assert line[|login| + 1..] == password;
  }

  /** Two lines giving entries of distinct logins make a roster of those two, in line order. */
  lemma TwoLines(l1: string, l2: string, e1: Entry, e2: Entry)
    requires ParseLine(l1) == Some(e1) && ParseLine(l2) == Some(e2) && e1.login != e2.login
    ensures ParseLines([l1, l2]) == Dict([e1.login, e2.login], map[e1.login := e1.password, e2.login := e2.password])
  {
    EntriesOfTwo(l1, l2);
    assert Entries([l1, l2]) == [e1, e2];
    CollectTwo(e1, e2);
  }

  lemma EntriesOfTwo(l1: string, l2: string)
    ensures Entries([l1, l2]) == Entries([l1]) + (if ParseLine(l2).Some? then [ParseLine(l2).value] else [])
    ensures Entries([l1]) == if ParseLine(l1).Some? then [ParseLine(l1).value] else []
  {
    assert [l1, l2][..1] == [l1] && [l1][..0] == [];
  }

  lemma CollectTwo(e1: Entry, e2: Entry)
    requires e1.login != e2.login
    ensures Collect([e1, e2]) == Dict([e1.login, e2.login], map[e1.login := e1.password, e2.login := e2.password])
  {
    assert [e1, e2][..1] == [e1] && [e1][..0] == [];
    var d1 := Collect([e1]);
    assert Collect([e1][..0]) == Empty;
    assert d1 == Put(Empty, e1.login, e1.password);
    assert Empty.keys + [e1.login] == [e1.login];
    assert e2.login !in d1.vals && [e1.login] + [e2.login] == [e1.login, e2.login];
  }

  /** `_parse_logpass` over the lines `alice:pw1` and `bob:pw2` yields that roster. */
  lemma AliceAndBobParsed()
    ensures ParseLines(["alice:pw1", "bob:pw2"]) == AliceAndBob
  {
    AliceLine();
    BobLine();
    TwoLines("alice:pw1", "bob:pw2", Entry("alice", "pw1"), Entry("bob", "pw2"));
  }

  lemma AliceLine()
    ensures ParseLine("alice:pw1") == Some(Entry("alice", "pw1"))
  {
    assert "alice" + ":" + "pw1" == "alice:pw1";
    assert IsStripped("alice") && IsStripped("pw1");
    ColonLine("alice", "pw1");
  }

  lemma BobLine()
    ensures ParseLine("bob:pw2") == Some(Entry("bob", "pw2"))
  {
    assert "bob" + ":" + "pw2" == "bob:pw2";
    assert IsStripped("bob") && IsStripped("pw2");
    ColonLine("bob", "pw2");
  }

  /** A name holding none of the three unsafe characters is its own sanitised form. */
  lemma SafeNameKeeps(s: string)
    requires forall i :: 0 <= i < |s| ==> !IsUnsafe(s[i])
    ensures SafeName(Str(s)) == s
  {
  }

  /** A pattern whose first character never appears in `s` does not occur in it. */
  lemma AbsentFirstChar(s: string, pat: string)
    requires pat != [] && forall i :: 0 <= i < |s| ==> s[i] != pat[0]
    ensures !Contains(s, pat)
  {
    forall k ensures !OccursAt(s, pat, k) {
      if 0 <= k && k + |pat| <= |s| {
        assert s[k..k + |pat|][0] == s[k] != pat[0];
      }
    }
  }

  /** The identifier and the stem of a maFile `alice.maFile` whose `account_name` is `alice`. */
  lemma AliceNames()
    ensures Identifier(Str("alice")) == "alice" && FileStem("alice.maFile") == "alice"
  {
    assert IsStripped("alice");
    RemoveMafileExtensionOfMafile();
  }

  /** The stem of both output files of that maFile. */
  lemma AliceSafeName()
    ensures SafeName(Str("alice")) == "alice"
  {
    SafeNameKeeps("alice");
  }

  /** `bob` is no piece of `alice`. */
  lemma BobNotInAlice()
    ensures !Contains("alice", "bob")
  {
    var a := "alice";
    assert a[0] == 'a' && a[1] == 'l' && a[2] == 'i' && a[3] == 'c' && a[4] == 'e';
    AbsentFirstChar(a, "bob");
  }

  /** When some candidate is a login, the matcher answers with a candidate that is a login of
      the pool, with its password. */
  lemma ExactAnswer(m: Match, steamId: Value, filename: string, pool: Dict, x: string)
    requires IsBestMatch(m, steamId, filename, pool)
    requires x in Variants(Identifier(steamId), FileStem(filename)) && x in pool.vals
    ensures m.Matched? && m.login in Variants(Identifier(steamId), FileStem(filename)) && FromPool(m, pool)
  {
  }

  /** When every candidate is a piece of the login `x`, and the only other login of the pool is
      no piece of `x`, a candidate that is a login of the pool is `x`. */
  lemma OnlyCandidate(m: Match, v: set<string>, pool: Dict, x: string, y: string)
    requires m.Matched? && m.login in v && FromPool(m, pool)
    requires forall w :: w in v ==> Contains(x, w)
    requires (forall k :: k in pool.vals ==> k == x || k == y) && !Contains(x, y)
    ensures m == Matched(x, pool.vals[x])
  {
  }

  /** The logins of the roster `alice:pw1`, `bob:pw2`. */
  lemma AliceAndBobLogins()
    ensures "alice" in AliceAndBob.vals && AliceAndBob.vals["alice"] == "pw1"
    ensures forall k :: k in AliceAndBob.vals ==> k == "alice" || k == "bob"
  {
  }

  /** The matcher's answer for `alice.maFile` of account `alice` against the whole roster is
      `alice`: `bob` is no piece of the identifier or the stem. */
  lemma AliceMatchesAlice(m: Match)
    requires IsBestMatch(m, Str("alice"), "alice.maFile", AliceAndBob)
    ensures m == Matched("alice", "pw1")
  {
    AliceNames();
    BobNotInAlice();
    AliceAndBobLogins();
    ExactAnswer(m, Str("alice"), "alice.maFile", AliceAndBob, "alice");
    VariantsOccur("alice", "alice");
    OnlyCandidate(m, Variants("alice", "alice"), AliceAndBob, "alice", "bob");
  }

  /** A maFile whose `account_name` is a roster login is matched to that login. With a roster
      file reading `alice:pw1` and `bob:pw2` under the first encoding, and one maFile
      `alice.maFile` whose `account_name` is `alice`, `convert` writes `alice.maFile` and
      `alice.json` holding `alice` and `pw1`, with one success and no failure: `Asf.Convert`
      states its written files and report as these passes over these roster and records. */
  lemma ExactLoginScenario(decode: Decoder, session: Session, matches: seq<Match>)
    requires decode("utf-8") == Some(["alice:pw1", "bob:pw2"])
    requires var roster, records := ParseRoster(decode), LoadedRecords([MaFileInput("alice.maFile", Some(JsonObject(Str("alice"), session)))]);
      |matches| == |records| && Answered(roster, records, matches, AllWritable)
    ensures var doc := JsonObject(Str("alice"), session);
      var roster, records := ParseRoster(decode), LoadedRecords([MaFileInput("alice.maFile", Some(doc))]);
      var t := BothPasses(PrimaryRun(roster, records, matches, AllWritable), AllWritable);
      && records == [Record("alice.maFile", Str("alice"), doc)]
      && t.written == [MaFileCopy("alice", doc), ConfigFile("alice", ConfigFor("alice", "pw1"))]
      && t.ok == 1 && t.failed == []
  {
    AliceRosterRead(decode);
    AliceLoaded(session);
    ExactLoginRun(JsonObject(Str("alice"), session), matches);
  }

  /** `_parse_logpass` on a roster file that reads `alice:pw1` and `bob:pw2` under UTF-8. */
  lemma AliceRosterRead(decode: Decoder)
    requires decode("utf-8") == Some(["alice:pw1", "bob:pw2"])
    ensures ParseRoster(decode) == AliceAndBob
  {
    AliceAndBobParsed();
    assert Encodings[0] == "utf-8" && Yields(decode, 0);
    ParseRosterFirstYield(decode);
  }

  /** Reading `alice.maFile` whose `account_name` is `alice` gives one record identified by it. */
  lemma AliceLoaded(session: Session)
    ensures var doc := JsonObject(Str("alice"), session);
      LoadedRecords([MaFileInput("alice.maFile", Some(doc))]) == [Record("alice.maFile", Str("alice"), doc)]
  {
    var inputs := [MaFileInput("alice.maFile", Some(JsonObject(Str("alice"), session)))];
    assert inputs[..0] == [];
  }

  /** Both passes over that roster and that one record. */
  lemma ExactLoginRun(doc: Doc, matches: seq<Match>)
    requires |matches| == 1 && Answered(AliceAndBob, [Record("alice.maFile", Str("alice"), doc)], matches, AllWritable)
    ensures var t := BothPasses(PrimaryRun(AliceAndBob, [Record("alice.maFile", Str("alice"), doc)], matches, AllWritable), AllWritable);
      && t.written == [MaFileCopy("alice", doc), ConfigFile("alice", ConfigFor("alice", "pw1"))]
      && t.ok == 1 && t.failed == []
  {
    var r := Record("alice.maFile", Str("alice"), doc);
    FirstTurn(AliceAndBob, r, matches, AllWritable);
    AliceMatchesAlice(matches[0]);
    AliceSafeName();
    OneRecordWritten(AliceAndBob, r, matches, AllWritable, "alice", "pw1");
  }

  /** One record whose answer is a usable login, with both of its files writable: it is
      written under its sanitised stem with that login, and nothing fails. */
  lemma OneRecordWritten(roster: Dict, r: Record, matches: seq<Match>, writable: Writable, login: string, password: string)
    requires roster.Valid() && |matches| == 1 && matches[0] == Matched(login, password) && login != [] && password != []
    requires writable(SafeName(r.steamId) + ".maFile") && writable(SafeName(r.steamId) + ".json")
    requires PrimaryRun(roster, [r], matches, writable) == MatchStep(PrimaryState(roster, [], 0, [], [], []), r, matches[0], writable)
    ensures var t, stem := BothPasses(PrimaryRun(roster, [r], matches, writable), writable), SafeName(r.steamId);
      && t.written == [MaFileCopy(stem, r.doc), ConfigFile(stem, ConfigFor(login, password))]
      && t.ok == 1 && t.failed == []
  {
    var s0 := PrimaryState(roster, [], 0, [], [], []);
    MatchStepOutcome(s0, r, matches[0], writable);
    var s1 := MatchStep(s0, r, matches[0], writable);
    assert s1.remaining == [] && s1.ok == 1;
    assert BothPasses(s1, writable) == Tally(s1.written, s1.ok, s1.failed, s1.events);
  }

  /** A run of the matching loop over one record is one turn on the whole roster. */
  lemma FirstTurn(roster: Dict, r: Record, matches: seq<Match>, writable: Writable)
    requires roster.Valid() && |matches| == 1 && Answered(roster, [r], matches, writable)
    ensures IsBestMatch(matches[0], r.steamId, r.filename, roster)
    ensures PrimaryRun(roster, [r], matches, writable) == MatchStep(PrimaryState(roster, [], 0, [], [], []), r, matches[0], writable)
  {
    assert [r][..0] == [] && matches[..0] == [];
  }

  /** Three maFiles of which none matches, and a roster of one login: the first is paired with
      that login by the fallback, the other two fail for want of logins. */
  lemma TooFewLoginsScenario(roster: Dict, records: seq<Record>, matches: seq<Match>)
    requires roster.Valid() && |roster.keys| == 1
    requires |records| == 3 && forall r :: r in records ==> NoHit(r, roster)
    requires |matches| == 3 && Answered(roster, records, matches, AllWritable)
    ensures var t, login, stem := BothPasses(PrimaryRun(roster, records, matches, AllWritable), AllWritable), roster.keys[0], SafeName(records[0].steamId);
      && t.ok == 1
      && t.written == [MaFileCopy(stem, records[0].doc), ConfigFile(stem, ConfigFor(login, roster.vals[login]))]
      && t.failed == [Failure(records[1].filename, NotEnoughLogins), Failure(records[2].filename, NotEnoughLogins)]
  {
    NothingMatchedAllDeferred(roster, records, matches, AllWritable);
    FallbackOnly(roster, records);
    ThreeDeferred(records, Items(roster));
  }

  /** When the matching loop wrote nothing and deferred every record, both passes come to the
      fallback loop alone. */
  lemma FallbackOnly(roster: Dict, records: seq<Record>)
    requires roster.Valid() && records != [] && roster.keys != []
    ensures var t, f := BothPasses(PrimaryState(roster, [], 0, [], records, []), AllWritable), FallbackRun(records, Items(roster), AllWritable);
      t.written == f.written && t.ok == f.ok && t.failed == f.failed
  {
  }

  /** The fallback loop over three deferred records and a snapshot of one entry. */
  lemma ThreeDeferred(records: seq<Record>, pool: seq<Entry>)
    requires |records| == 3 && |pool| == 1
    ensures var t, stem := FallbackRun(records, pool, AllWritable), SafeName(records[0].steamId);
      && t.ok == 1
      && t.written == [MaFileCopy(stem, records[0].doc), ConfigFile(stem, ConfigFor(pool[0].login, pool[0].password))]
      && t.failed == [Failure(records[1].filename, NotEnoughLogins), Failure(records[2].filename, NotEnoughLogins)]
  {
    var stem := SafeName(records[0].steamId);
    var t0 := Tally([], 0, [], []);
    AssignStepOutcome(t0, records[0], pool, 0, AllWritable);
    var t1 := AssignStep(t0, records[0], pool, 0, AllWritable);
    var t2 := AssignStep(t1, records[1], pool, 1, AllWritable);
    FallbackRunThree(records, pool, AllWritable);
  }

  /** The fallback loop over three records is three turns. */
  lemma FallbackRunThree(records: seq<Record>, pool: seq<Entry>, writable: Writable)
    requires |records| == 3
    ensures var t0 := Tally([], 0, [], []);
      FallbackRun(records, pool, writable)
        == AssignStep(AssignStep(AssignStep(t0, records[0], pool, 0, writable), records[1], pool, 1, writable), records[2], pool, 2, writable)
  {
    assert records[..0] == [] && records[..3] == records;
    FallbackRunSnoc(records, pool, 0, writable);
    FallbackRunSnoc(records, pool, 1, writable);
    FallbackRunSnoc(records, pool, 2, writable);
  }
}
