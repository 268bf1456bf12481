/** `AsfConverter._find_best_match`: the candidate strings built from a maFile's identifier and
    filename, and the two-pass search of the login pool. */
module Matcher {
  import opened Wrappers
  import opened Text
  import opened Fs
  import opened OrderedDict
  import opened MaFile

  /** Identifiers with this prefix are Steam64 ids and also yield their numeric tails. */
  const Steam64Prefix: string := "7656119"

  /** The separators the filename stem is split on, each checked on its own. */
  const Separators: seq<string> := ["_", "-", ".", " ", "__", "--", ".."]

  datatype Match = NoMatch | Matched(login: string, password: string)

  /** `str(steam_id).strip()`. */
  function Identifier(steamId: Value): string {
    Strip(AsText(steamId))
  }

  /** `remove_mafile_extension(filename).strip()`. */
  function FileStem(filename: string): string {
    Strip(RemoveMafileExtension(filename))
  }

  /** `sid[7:]`, `sid[3:]`, `sid[-8:]`, `sid[-10:]` and `sid[-12:]` for a Steam64 identifier. */
  function SteamSlices(sid: string): set<string> {
    if StartsWith(sid, Steam64Prefix) then {sid[7..], sid[3..], Last(sid, 8), Last(sid, 10), Last(sid, 12)}
    else {}
  }

  /** The non-empty parts of `fn.split(sep)` for every separator of `seps` that occurs in `fn`. */
  function SeparatorParts(fn: string, seps: seq<string>): set<string>
    requires forall i :: 0 <= i < |seps| ==> seps[i] != []
  {
    if seps == [] then {}
    else
      var here := if Contains(fn, seps[0]) then set p | p in Split(fn, seps[0]) && p != [] else {};
      here + SeparatorParts(fn, seps[1..])
  }

  /** The set `variants` of `_find_best_match`. */
  function Variants(sid: string, fn: string): (v: set<string>)
    ensures sid in v && fn in v
    ensures SteamSlices(sid) <= v
  {
    {sid, fn} + SteamSlices(sid) + SeparatorParts(fn, Separators)
  }

  /** For each separator the stem contains, every non-empty part of the split is a candidate. */
  lemma VariantsHaveParts(sid: string, fn: string, i: nat, p: string)
    requires i < |Separators| && Contains(fn, Separators[i]) && p in Split(fn, Separators[i]) && p != []
    ensures p in Variants(sid, fn)
  {
    SeparatorPartsHas(fn, Separators, i, p);
  }

  /** A Steam64 identifier offers its tail after the prefix, its tail after three characters, and
      its last 8, 10 and 12 characters. */
  lemma VariantsHaveSteamSlices(sid: string, fn: string)
    requires StartsWith(sid, Steam64Prefix)
    ensures sid[7..] in Variants(sid, fn) && sid[3..] in Variants(sid, fn)
    ensures Last(sid, 8) in Variants(sid, fn) && Last(sid, 10) in Variants(sid, fn) && Last(sid, 12) in Variants(sid, fn)
  {
  }

  lemma {:induction false} SeparatorPartsHas(fn: string, seps: seq<string>, i: nat, p: string)
    requires forall k :: 0 <= k < |seps| ==> seps[k] != []
    requires i < |seps| && Contains(fn, seps[i]) && p in Split(fn, seps[i]) && p != []
    ensures p in SeparatorParts(fn, seps)
  {
    if i > 0 {
      assert seps[1..][i - 1] == seps[i];
      SeparatorPartsHas(fn, seps[1..], i - 1, p);
    }
  }

  lemma {:induction false} SeparatorPartsOccur(fn: string, seps: seq<string>)
    requires forall k :: 0 <= k < |seps| ==> seps[k] != []
    ensures forall p :: p in SeparatorParts(fn, seps) ==> Contains(fn, p) && p != []
  {
    if seps != [] {
      SeparatorPartsOccur(fn, seps[1..]);
      forall p | p in Split(fn, seps[0]) ensures Contains(fn, p) {
        SplitPartsOccur(fn, seps[0], p);
      }
    }
  }

  lemma SteamSlicesOccur(sid: string)
    ensures forall v :: v in SteamSlices(sid) ==> Contains(sid, v)
  {
    if StartsWith(sid, Steam64Prefix) {
      forall v | v in SteamSlices(sid) ensures Contains(sid, v) {
        if v == sid[7..] {
          ContainsTail(sid, 7);
        } else if v == sid[3..] {
          ContainsTail(sid, 3);
        } else {
          assert v == Last(sid, 8) || v == Last(sid, 10) || v == Last(sid, 12);
          ContainsSuffix(sid, v);
        }
      }
    }
  }

  /** Every candidate is a piece of the identifier or of the filename stem: nothing is invented. */
  lemma VariantsOccur(sid: string, fn: string)
    ensures forall v :: v in Variants(sid, fn) ==> Contains(sid, v) || Contains(fn, v)
  {
    SeparatorPartsOccur(fn, Separators);
    SteamSlicesOccur(sid);
    ContainsAt(sid, sid, 0);
    ContainsAt(fn, fn, 0);
  }

  lemma UnderscoreAtFive()
    ensures IndexOf("alice_main", "_") == 5
  {
    var fn := "alice_main";
    assert OccursAt(fn, "_", 5);
    forall k | 0 <= k < 5 ensures !OccursAt(fn, "_", k) { assert fn[k..k + 1][0] == fn[k] != '_'; }
  }

  lemma SplitAliceMain()
    ensures Contains("alice_main", "_") && Split("alice_main", "_") == ["alice"] + Split("main", "_")
  {
    var fn := "alice_main";
    UnderscoreAtFive();
    assert fn[..5] == "alice" && fn[5 + 1..] == "main";
  }

  lemma SplitMain()
    ensures Split("main", "_") == ["main"]
  {
    var rest := "main";
    forall k | 0 <= k < 4 ensures !OccursAt(rest, "_", k) { assert rest[k..k + 1][0] == rest[k] != '_'; }
    assert IndexOf(rest, "_") == -1;
  }

  lemma SplitAtUnderscore()
    ensures Contains("alice_main", "_") && Split("alice_main", "_") == ["alice", "main"]
  {
    SplitAliceMain();
    SplitMain();
  }

  /** A filename stem split on `_` yields both its halves as candidates. */
  lemma VariantsOfUnderscoreName(sid: string)
    ensures "alice" in Variants(sid, "alice_main") && "main" in Variants(sid, "alice_main")
  {
    SplitAtUnderscore();
    assert Separators[0] == "_";
    VariantsHaveParts(sid, "alice_main", 0, "alice");
    VariantsHaveParts(sid, "alice_main", 0, "main");
  }

  /** A Steam64 identifier offers its last eight digits: `76561197960287930` can match the login
      `60287930`. */
  lemma SteamIdOffersLastEightDigits(fn: string)
    ensures "60287930" in Variants("76561197960287930", fn)
  {
    var sid := "76561197960287930";
    assert sid[..7] == Steam64Prefix;
    assert Last(sid, 8) == "60287930";
  }

  /** The identifier of a maFile named `76561197960287930.maFile` whose document has neither
      `account_name` nor `Session` is that Steam64 id. */
  lemma SteamIdFromFilename()
    ensures ResolveIdentifier(JsonObject(Null, NoSession), "76561197960287930.maFile") == Some(Str("76561197960287930"))
    ensures Identifier(Str("76561197960287930")) == "76561197960287930"
  {
    var name := "76561197960287930.maFile";
    assert Lower(name)[17..] == ".mafile" by {
      assert forall i :: 0 <= i < 7 ==> Lower(name)[17 + i] == ".mafile"[i];
    }
    assert name[..17] == "76561197960287930";
    assert IsStripped("76561197960287930");
  }

  /** The substring test of the second pass on one login, already stripped and lowered: it lies
      inside the identifier or the stem, or holds one of them. */
  predicate Overlaps(lc: string, sidL: string, fnL: string) {
    Contains(sidL, lc) || Contains(lc, sidL) || Contains(fnL, lc) || Contains(lc, fnL)
  }

  /** The second pass's test on a login of the pool. */
  predicate LoginOverlaps(login: string, sid: string, fn: string) {
    Overlaps(Lower(Strip(login)), Lower(sid), Lower(fn))
  }

  /** An empty identifier or stem is a substring of every login, so the second pass then accepts
      the first login of the pool. */
  lemma EmptyCandidateOverlapsEveryLogin(login: string, sid: string, fn: string)
    requires sid == [] || fn == []
    ensures LoginOverlaps(login, sid, fn)
  {
    ContainsEmpty(Lower(Strip(login)));
  }

  /** Some candidate is a login of the pool. */
  predicate ExactHit(variants: set<string>, pool: Dict) {
    exists v :: v in variants && v in pool.vals
  }

  /** What `_find_best_match(steam_id, filename, pool)` may answer. A match is always a login of
      the pool with its password. When some candidate is a login, the answer is one such
      candidate; which one, when several are, is left open, as for the set the source iterates.
      Otherwise the answer is the first login in pool order whose stripped, lower-cased form
      overlaps the lower-cased identifier or stem, and there is no match exactly when no login
      overlaps. */
  ghost predicate IsBestMatch(m: Match, steamId: Value, filename: string, pool: Dict) {
    var sid, fn := Identifier(steamId), FileStem(filename);
    && FromPool(m, pool)
    && (ExactHit(Variants(sid, fn), pool) ==> m.Matched? && m.login in Variants(sid, fn))
    && (!ExactHit(Variants(sid, fn), pool) ==>
          (m.NoMatch? <==> forall i :: 0 <= i < |pool.keys| ==> !LoginOverlaps(pool.keys[i], sid, fn)))
    && (!ExactHit(Variants(sid, fn), pool) && m.Matched? ==>
          exists i :: 0 <= i < |pool.keys| && pool.keys[i] == m.login && LoginOverlaps(pool.keys[i], sid, fn)
            && forall j :: 0 <= j < i ==> !LoginOverlaps(pool.keys[j], sid, fn))
  }

  /** A match names a login of the pool with its password. */
  predicate FromPool(m: Match, pool: Dict) {
    m.Matched? ==> m.login in pool.vals && m.password == pool.vals[m.login]
  }

  /** `_find_best_match(steam_id, filename, pool)`: the exact pass over the candidates, then the
      substring pass over the logins in pool order. */
  method FindBestMatch(steamId: Value, filename: string, pool: Dict) returns (m: Match)
    requires pool.Valid()
    ensures IsBestMatch(m, steamId, filename, pool)
  {
    var fn := FileStem(filename);
    var sid := Identifier(steamId);
    m := ExactLookup(Variants(sid, fn), pool);
    if m.NoMatch? {
      m := FirstOverlapping(pool, sid, fn);
    }
  }

  /** The first pass of `_find_best_match`: the candidates in no fixed order, the first one that
      is a login of the pool. */
  method ExactLookup(variants: set<string>, pool: Dict) returns (m: Match)
    ensures m.Matched? ==> m.login in variants && m.login in pool.vals && m.password == pool.vals[m.login]
    ensures m.NoMatch? <==> !ExactHit(variants, pool)
  {
    var unseen := variants;
    while unseen != {}
      invariant unseen <= variants
      invariant forall v :: v in variants - unseen ==> v !in pool.vals
      decreases |unseen|
    {
      var v :| v in unseen;
      if v in pool.vals {
        return Matched(v, pool.vals[v]);
      }
      unseen := unseen - {v};
    }
    return NoMatch;
  }

  /** The second pass of `_find_best_match`: the logins of the pool in insertion order, the first
      one whose stripped, lower-cased form overlaps the lower-cased identifier or stem. */
  method FirstOverlapping(pool: Dict, sid: string, fn: string) returns (m: Match)
    requires pool.Valid()
    ensures m.Matched? ==> m.login in pool.vals && m.password == pool.vals[m.login]
    ensures m.NoMatch? <==> forall i :: 0 <= i < |pool.keys| ==> !LoginOverlaps(pool.keys[i], sid, fn)
    ensures m.Matched? ==>
      exists i :: 0 <= i < |pool.keys| && pool.keys[i] == m.login && LoginOverlaps(pool.keys[i], sid, fn)
        && forall j :: 0 <= j < i ==> !LoginOverlaps(pool.keys[j], sid, fn)
  {
    var i := FirstOverlapIndex(pool.keys, sid, fn);
    if i < 0 {
      return NoMatch;
    }
    var login := pool.keys[i];
    return Matched(login, pool.vals[login]);
  }

  /** The index of the first login of `logins` that overlaps, or -1 when none does. */
  method FirstOverlapIndex(logins: seq<string>, sid: string, fn: string) returns (r: int)
    ensures -1 <= r < |logins|
    ensures r < 0 <==> forall i :: 0 <= i < |logins| ==> !LoginOverlaps(logins[i], sid, fn)
    ensures r >= 0 ==> LoginOverlaps(logins[r], sid, fn) && forall j :: 0 <= j < r ==> !LoginOverlaps(logins[j], sid, fn)
  {
    for i := 0 to |logins|
      invariant forall j :: 0 <= j < i ==> !LoginOverlaps(logins[j], sid, fn)
    {
      var hit := LoginOverlaps(logins[i], sid, fn);
      if hit {
        return i;
      }
      NoOverlapExtends(logins, i, sid, fn);
    }
    return -1;
  }

  lemma NoOverlapExtends(logins: seq<string>, i: nat, sid: string, fn: string)
    requires i < |logins| && !LoginOverlaps(logins[i], sid, fn)
    requires forall j :: 0 <= j < i ==> !LoginOverlaps(logins[j], sid, fn)
    ensures forall j :: 0 <= j < i + 1 ==> !LoginOverlaps(logins[j], sid, fn)
  {
  }
}
