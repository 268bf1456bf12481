/** The login:password roster (`AsfConverter._parse_logpass`): text lines, one `login<delim>password`
    pair per line, read under the first encoding that decodes and yields an entry. */
module Roster {
  import opened Wrappers
  import opened Text
  import opened OrderedDict

  /** The encodings tried, in order. */
  const Encodings: seq<string> := ["utf-8", "cp1251", "latin-1", "iso-8859-1", "utf-16", "cp866"]

  /** The delimiters tried on each line, highest priority first. */
  const Delimiters: seq<char> := [':', ';', ',', '|', ' ', '\t']

  datatype Entry = Entry(login: string, password: string)

  /** The logins of a list of entries, in order. */
  function Logins(entries: seq<Entry>): (r: seq<string>)
    ensures |r| == |entries| && forall i :: 0 <= i < |entries| ==> r[i] == entries[i].login
  {
    seq(|entries|, i requires 0 <= i < |entries| => entries[i].login)
  }

  /** A decoding of the roster file: the lines read under one encoding, or `None` when opening or
      decoding the file raised. */
  type Decoder = string -> Option<seq<string>>

  /** The split of a stripped, non-blank line at the first delimiter present, trying delimiters
      from priority `d` on. The first delimiter present decides: when either trimmed part is empty
      the line gives nothing and no later delimiter is tried. */
  function SplitFrom(line: string, d: nat): Option<Entry>
    decreases |Delimiters| - d
  {
    if d >= |Delimiters| then None
    else
      var at := IndexOf(line, [Delimiters[d]]);
      if at < 0 then SplitFrom(line, d + 1) else SplitAt(line, at)
  }

  /** `login, pwd = line.split(delim, 1)` with the delimiter at `at`, both parts stripped; the
      entry only when both are non-empty. */
  function SplitAt(line: string, at: nat): Option<Entry>
    requires at < |line|
  {
    var login, password := Strip(line[..at]), Strip(line[at + 1..]);
    if login != [] && password != [] then Some(Entry(login, password)) else None
  }

  /** The entry one raw line contributes, if any. */
  function ParseLine(raw: string): Option<Entry> {
    var line := Strip(raw);
    if line == [] then None else SplitFrom(line, 0)
  }

  /** The entries of `lines`, in line order. */
  function Entries(lines: seq<string>): seq<Entry> {
    if lines == [] then []
    else
      var last := ParseLine(lines[|lines| - 1]);
      Entries(lines[..|lines| - 1]) + (if last.Some? then [last.value] else [])
  }

  /** The dict built by assigning `out[login] = password` for each entry in turn. */
  function Collect(entries: seq<Entry>): (d: Dict)
    ensures d.Valid()
  {
    if entries == [] then Empty
    else
      var e := entries[|entries| - 1];
      Put(Collect(entries[..|entries| - 1]), e.login, e.password)
  }

  /** The dict one decoding of the roster yields. */
  function ParseLines(lines: seq<string>): (d: Dict)
    ensures d.Valid()
  {
    Collect(Entries(lines))
  }

  /** Encoding `e` decodes and yields at least one entry. */
  predicate Yields(decode: Decoder, e: nat)
    requires e < |Encodings|
  {
    decode(Encodings[e]).Some? && ParseLines(decode(Encodings[e]).value).keys != []
  }

  /** The roster as read from encoding `e` on. */
  function ParseFrom(decode: Decoder, e: nat): (d: Dict)
    ensures d.Valid()
    decreases |Encodings| - e
  {
    if e >= |Encodings| then Empty
    else if Yields(decode, e) then ParseLines(decode(Encodings[e]).value)
    else ParseFrom(decode, e + 1)
  }

  /** The roster `_parse_logpass` returns. */
  function ParseRoster(decode: Decoder): (d: Dict)
    ensures d.Valid()
  {
    ParseFrom(decode, 0)
  }

  /** One more line read: its entry, if it has one, is assigned into the dict. */
  lemma ParseLinesStep(lines: seq<string>, i: nat)
    requires i < |lines|
    ensures ParseLines(lines[..i + 1]) ==
      match ParseLine(lines[i])
      case None => ParseLines(lines[..i])
      case Some(e) => Put(ParseLines(lines[..i]), e.login, e.password)
  {
    var prefix := lines[..i + 1];
    assert prefix[..|prefix| - 1] == lines[..i];
    assert prefix[|prefix| - 1] == lines[i];
    var es := Entries(prefix);
    match ParseLine(lines[i])
    case None =>
      assert es == Entries(lines[..i]);
    case Some(e) =>
      assert es == Entries(lines[..i]) + [e];
      assert es[..|es| - 1] == Entries(lines[..i]) && es[|es| - 1] == e;
  }

  /** The delimiter loop for one stripped, non-blank line: the first delimiter present splits the
      line once; the loop stops there whether or not both parts are non-empty. */
  method SplitLine(line: string) returns (entry: Option<Entry>)
    ensures entry == SplitFrom(line, 0)
  {
    entry := None;
    var d := 0;
    while d < |Delimiters|
      invariant d <= |Delimiters|
      invariant SplitFrom(line, d) == SplitFrom(line, 0)
    {
      var at := IndexOf(line, [Delimiters[d]]);
      if at >= 0 {
        entry := SplitAt(line, at);
        return;
      }
      d := d + 1;
    }
  }

  /** The body of the `with open(...)` block: every line of one decoding read into a fresh dict. */
  method ReadLines(lines: seq<string>) returns (out: Dict)
    ensures out == ParseLines(lines)
  {
    out := Empty;
    for i := 0 to |lines|
      invariant out == ParseLines(lines[..i])
    {
      ParseLinesStep(lines, i);
      var line := Strip(lines[i]);
      if line == [] {
        continue;
      }
      var entry := SplitLine(line);
      if entry.Some? {
        out := Put(out, entry.value.login, entry.value.password);
      }
    }
    assert lines[..|lines|] == lines;
  }

  /** `_parse_logpass`: for each encoding in turn, read every line into a fresh dict and return
      it if it is not empty; a decoding that raises is skipped. With no such encoding, `{}`. */
  method ParseLogpass(decode: Decoder) returns (out: Dict)
    ensures out == ParseRoster(decode)
  {
    for e := 0 to |Encodings|
      invariant ParseFrom(decode, e) == ParseRoster(decode)
    {
      var decoded := decode(Encodings[e]);
      if decoded.Some? {
        out := ReadLines(decoded.value);
        if out.keys != [] {
          return;
        }
      }
    }
    out := Empty;
  }
}

/** What the roster parser promises about the entries it keeps. */
module RosterProperties {
  import opened Wrappers
  import opened Text
  import opened OrderedDict
  import opened Roster

  /** `c in s`, through `find`. */
  lemma CharIndex(s: string, c: char)
    ensures IndexOf(s, [c]) < 0 ==> c !in s
    ensures IndexOf(s, [c]) >= 0 ==> s[IndexOf(s, [c])] == c && c !in s[..IndexOf(s, [c])]
  {
    var at := IndexOf(s, [c]);
    forall k | 0 <= k < |s| && s[k] == c ensures at >= 0 && at <= k {
      assert s[k..k + 1] == [c];
      assert OccursAt(s, [c], k);
    }
    if at >= 0 {
      assert s[at..at + 1] == [c];
    }
  }

  /** The line is cut at `at`, the first occurrence of delimiter `d`, and no delimiter of higher
      priority occurs in the line at all. */
  ghost predicate CutAt(line: string, d: nat, at: nat, e: Entry) {
    && d < |Delimiters| && at < |line|
    && line[at] == Delimiters[d] && Delimiters[d] !in line[..at]
    && (forall d' :: 0 <= d' < d ==> Delimiters[d'] !in line)
    && e.login == Strip(line[..at]) && e.password == Strip(line[at + 1..])
  }

  lemma {:induction false} SplitFromCuts(line: string, d: nat) returns (d2: nat, at: nat)
    requires SplitFrom(line, d).Some?
    requires forall d' :: 0 <= d' < d ==> Delimiters[d'] !in line
    ensures CutAt(line, d2, at, SplitFrom(line, d).value)
    ensures SplitFrom(line, d).value.login != [] && SplitFrom(line, d).value.password != []
    decreases |Delimiters| - d
  {
    CharIndex(line, Delimiters[d]);
    var i := IndexOf(line, [Delimiters[d]]);
    if i < 0 {
      d2, at := SplitFromCuts(line, d + 1);
    } else {
      d2, at := d, i;
    }
  }

  /** A kept line is `login <delim> password` around the first occurrence of the highest-priority
      delimiter it contains, each part stripped and non-empty. */
  lemma ParseLineCutsAtFirstDelimiter(raw: string) returns (d: nat, at: nat)
    requires ParseLine(raw).Some?
    ensures CutAt(Strip(raw), d, at, ParseLine(raw).value)
    ensures ParseLine(raw).value.login != [] && ParseLine(raw).value.password != []
  {
    d, at := SplitFromCuts(Strip(raw), 0);
  }

  /** Two first occurrences of the same character are the same position. */
  lemma FirstOccurrenceUnique(s: string, c: char, i: nat, j: nat)
    requires i < |s| && j < |s| && s[i] == c && s[j] == c && c !in s[..i] && c !in s[..j]
    ensures i == j
  {
    assert forall k :: 0 <= k < i ==> s[..i][k] == s[k];
    assert forall k :: 0 <= k < j ==> s[..j][k] == s[k];
  }

  lemma {:induction false} SplitFromFirst(line: string, k: nat, d: nat, at: nat)
    requires k <= d < |Delimiters| && at < |line|
    requires line[at] == Delimiters[d] && Delimiters[d] !in line[..at]
    requires forall d' :: k <= d' < d ==> Delimiters[d'] !in line
    ensures SplitFrom(line, k) == SplitAt(line, at)
    decreases d - k
  {
    CharIndex(line, Delimiters[k]);
    if k < d {
      SplitFromFirst(line, k + 1, d, at);
    } else {
      assert Delimiters[d] in line;
      FirstOccurrenceUnique(line, Delimiters[d], IndexOf(line, [Delimiters[d]]), at);
    }
  }

  /** The converse of the cut: the first occurrence of the highest-priority delimiter a stripped,
      non-blank line contains decides it; when a trimmed part around it is empty the line gives
      nothing, whatever other delimiters it holds. */
  lemma ParseLineIsFirstCut(raw: string, d: nat, at: nat)
    requires d < |Delimiters| && at < |Strip(raw)|
    requires Strip(raw)[at] == Delimiters[d] && Delimiters[d] !in Strip(raw)[..at]
    requires forall d' :: 0 <= d' < d ==> Delimiters[d'] !in Strip(raw)
    ensures var login, password := Strip(Strip(raw)[..at]), Strip(Strip(raw)[at + 1..]);
      ParseLine(raw) == if login != [] && password != [] then Some(Entry(login, password)) else None
  {
    SplitFromFirst(Strip(raw), 0, d, at);
  }

  /** An entry as the roster keeps it: login and password non-empty and stripped, and the login
      free of `:`. */
  predicate WellFormed(e: Entry) {
    e.login != [] && e.password != [] && IsStripped(e.login) && IsStripped(e.password) && ':' !in e.login
  }

  lemma CutWellFormed(line: string, d: nat, at: nat, e: Entry)
    requires CutAt(line, d, at, e) && e.login != [] && e.password != []
    ensures WellFormed(e)
  {
    var head := line[..at];
    assert ':' !in head by {
      if d == 0 {
        assert Delimiters[0] == ':';
      } else {
        assert Delimiters[0] !in line;
        assert forall c :: c in head ==> c in line;
      }
    }
    assert e.login == Strip(head);
  }

  lemma ParseLineWellFormed(raw: string)
    requires ParseLine(raw).Some?
    ensures WellFormed(ParseLine(raw).value)
  {
    var d, at := ParseLineCutsAtFirstDelimiter(raw);
    CutWellFormed(Strip(raw), d, at, ParseLine(raw).value);
  }

  lemma {:induction false} EntriesWellFormed(lines: seq<string>)
    ensures forall e :: e in Entries(lines) ==> WellFormed(e)
  {
    if lines != [] {
      EntriesWellFormed(lines[..|lines| - 1]);
      if ParseLine(lines[|lines| - 1]).Some? {
        ParseLineWellFormed(lines[|lines| - 1]);
      }
    }
  }

  /** The password of the last entry for `login`, if any. */
  function LastValue(entries: seq<Entry>, login: string): Option<string> {
    if entries == [] then None
    else if entries[|entries| - 1].login == login then Some(entries[|entries| - 1].password)
    else LastValue(entries[..|entries| - 1], login)
  }

  lemma LoginsSnoc(p: seq<Entry>, e: Entry)
    ensures Logins(p + [e]) == Logins(p) + [e.login]
  {
    var a, b := Logins(p + [e]), Logins(p) + [e.login];
    assert |a| == |b|;
    forall i | 0 <= i < |a| ensures a[i] == b[i] {
      if i < |p| { assert (p + [e])[i] == p[i]; }
    }
  }

  lemma ConsFresh(h: string, t: seq<string>)
    requires NoDuplicates(t) && h !in t
    ensures NoDuplicates([h] + t)
  {
    var ht := [h] + t;
    forall i, j | 0 <= i < j < |ht| ensures ht[i] != ht[j] {
      assert ht[j] == t[j - 1];
      if 0 < i { assert ht[i] == t[i - 1]; }
    }
  }

  /** The distinct elements of `s`, each where it first occurs. */
  function FirstOccurrences(s: seq<string>): (r: seq<string>)
    ensures forall x :: x in r <==> x in s
    ensures NoDuplicates(r)
    decreases |s|
  {
    if s == [] then []
    else
      var t := FirstOccurrences(Without(s[1..], s[0]));
      assert s[0] !in t;
      ConsFresh(s[0], t);
      assert forall x :: x in s <==> x == s[0] || x in s[1..];
      [s[0]] + t
  }

  lemma {:induction false} WithoutSnoc(s: seq<string>, x: string, k: string)
    ensures Without(s + [x], k) == Without(s, k) + (if x == k then [] else [x])
  {
    if s != [] {
      assert (s + [x])[1..] == s[1..] + [x];
      WithoutSnoc(s[1..], x, k);
    }
  }

  lemma FirstOccurrencesCons(h: string, u: seq<string>)
    ensures FirstOccurrences([h] + u) == [h] + FirstOccurrences(Without(u, h))
  {
    assert ([h] + u)[0] == h && ([h] + u)[1..] == u;
  }

  lemma {:induction false} FirstOccurrencesSnoc(s: seq<string>, x: string)
    ensures FirstOccurrences(s + [x]) == if x in s then FirstOccurrences(s) else FirstOccurrences(s) + [x]
    decreases |s|
  {
    if s == [] {
      FirstOccurrencesCons(x, []);
      assert s + [x] == [x] + [];
    } else {
      var h, t := s[0], s[1..];
      assert s == [h] + t && s + [x] == [h] + (t + [x]);
      FirstOccurrencesCons(h, t);
      FirstOccurrencesCons(h, t + [x]);
      WithoutSnoc(t, x, h);
      var w := Without(t, h);
      assert FirstOccurrences(s) == [h] + FirstOccurrences(w);
      if x == h {
        assert Without(t + [x], h) == w + [] == w;
      } else {
        assert Without(t + [x], h) == w + [x];
        FirstOccurrencesSnoc(w, x);
        FirstOccurrencesSnocStep(h, t, x, w);
      }
    }
  }

  lemma FirstOccurrencesSnocStep(h: string, t: seq<string>, x: string, w: seq<string>)
    requires x != h && w == Without(t, h)
    requires FirstOccurrences(w + [x]) == if x in w then FirstOccurrences(w) else FirstOccurrences(w) + [x]
    ensures [h] + FirstOccurrences(w + [x]) == if x in [h] + t then [h] + FirstOccurrences(w) else [h] + FirstOccurrences(w) + [x]
  {
    assert x in w <==> x in t;
    if x in t {
      assert x in [h] + t;
    } else {
      assert x !in [h] + t;
      assert [h] + (FirstOccurrences(w) + [x]) == [h] + FirstOccurrences(w) + [x];
    }
  }

  lemma {:induction false} CollectOrder(entries: seq<Entry>)
    ensures Collect(entries).keys == FirstOccurrences(Logins(entries))
  {
    if entries != [] {
      var p, e := entries[..|entries| - 1], entries[|entries| - 1];
      assert entries == p + [e];
      CollectOrder(p);
      CollectOrderStep(p, e);
    }
  }

  lemma CollectOrderStep(p: seq<Entry>, e: Entry)
    requires Collect(p).keys == FirstOccurrences(Logins(p))
    ensures Collect(p + [e]).keys == FirstOccurrences(Logins(p + [e]))
  {
    LoginsSnoc(p, e);
    FirstOccurrencesSnoc(Logins(p), e.login);
    var before := Collect(p);
    assert (p + [e])[..|p|] == p;
    assert e.login in before.vals <==> e.login in Logins(p) by {
      assert e.login in before.vals <==> e.login in before.keys;
    }
  }

  lemma {:induction false} CollectValues(entries: seq<Entry>)
    ensures forall k :: k in Collect(entries).vals <==> LastValue(entries, k).Some?
    ensures forall k :: k in Collect(entries).vals ==> Collect(entries).vals[k] == LastValue(entries, k).value
  {
    if entries != [] {
      var p := entries[..|entries| - 1];
      CollectValues(p);
    }
  }

  lemma {:induction false} LastValueOccurs(entries: seq<Entry>, login: string)
    requires LastValue(entries, login).Some?
    ensures Entry(login, LastValue(entries, login).value) in entries
  {
    if entries[|entries| - 1].login != login {
      LastValueOccurs(entries[..|entries| - 1], login);
    }
  }

  /** One decoding of the roster: every entry kept is well formed; each login appears once, at the
      position of its first line, with the password of its last line; there are exactly as many
      entries as distinct logins. */
  lemma ParsedRoster(lines: seq<string>)
    ensures var d, es := ParseLines(lines), Entries(lines);
      && d.keys == FirstOccurrences(Logins(es))
      && (forall k :: k in d.vals <==> LastValue(es, k).Some?)
      && (forall k :: k in d.vals ==> d.vals[k] == LastValue(es, k).value && WellFormed(Entry(k, d.vals[k])))
      && |d.keys| == |set e | e in es :: e.login|
  {
    var es := Entries(lines);
    CollectOrder(es);
    CollectValues(es);
    ParsedRosterWellFormed(lines);
    ParsedRosterSize(lines);
  }

  lemma ParsedRosterWellFormed(lines: seq<string>)
    ensures forall k :: k in ParseLines(lines).vals ==> WellFormed(Entry(k, ParseLines(lines).vals[k]))
  {
    var d, es := ParseLines(lines), Entries(lines);
    CollectValues(es);
    EntriesWellFormed(lines);
    forall k | k in d.vals ensures WellFormed(Entry(k, d.vals[k])) {
      LastValueOccurs(es, k);
    }
  }

  lemma ParsedRosterSize(lines: seq<string>)
    ensures |ParseLines(lines).keys| == |set e | e in Entries(lines) :: e.login|
  {
    var d, es := ParseLines(lines), Entries(lines);
    CollectOrder(es);
    DistinctCardinality(d.keys);
    LoginSet(es);
    assert forall x :: x in d.keys <==> x in Logins(es);
    assert (set x | x in d.keys) == set x | x in Logins(es);
  }

  lemma LoginSet(es: seq<Entry>)
    ensures (set e | e in es :: e.login) == set x | x in Logins(es)
  {
    var ls := Logins(es);
    forall x | x in ls ensures x in set e | e in es :: e.login {
      var i :| 0 <= i < |ls| && ls[i] == x;
      assert es[i] in es;
    }
    forall e | e in es ensures e.login in ls {
      var i :| 0 <= i < |es| && es[i] == e;
      assert ls[i] == e.login;
    }
  }

  /** A roster whose every decoded line is blank yields no entry. */
  lemma {:induction false} BlankLinesYieldNothing(lines: seq<string>)
    requires forall i :: 0 <= i < |lines| ==> Strip(lines[i]) == []
    ensures Entries(lines) == [] && ParseLines(lines) == Empty
  {
    if lines != [] {
      BlankLinesYieldNothing(lines[..|lines| - 1]);
    }
  }

  lemma {:induction false} ParseFromFirstYield(decode: Decoder, e: nat)
    requires e <= |Encodings|
    ensures ParseFrom(decode, e).keys != [] <==> exists f :: e <= f < |Encodings| && Yields(decode, f)
    ensures forall f :: e <= f < |Encodings| && Yields(decode, f) && (forall g :: e <= g < f ==> !Yields(decode, g))
                       ==> ParseFrom(decode, e) == ParseLines(decode(Encodings[f]).value)
    ensures (forall f :: e <= f < |Encodings| ==> !Yields(decode, f)) ==> ParseFrom(decode, e) == Empty
    decreases |Encodings| - e
  {
    if e < |Encodings| {
      ParseFromFirstYield(decode, e + 1);
    }
  }

  /** `_parse_logpass` returns the dict of the first encoding that decodes and yields an entry;
      when none does, `{}`. */
  lemma ParseRosterFirstYield(decode: Decoder)
    ensures ParseRoster(decode).keys != [] <==> exists e :: 0 <= e < |Encodings| && Yields(decode, e)
    ensures forall e :: 0 <= e < |Encodings| && Yields(decode, e) && (forall f :: 0 <= f < e ==> !Yields(decode, f))
                        ==> ParseRoster(decode) == ParseLines(decode(Encodings[e]).value)
    ensures (forall e :: 0 <= e < |Encodings| ==> !Yields(decode, e)) ==> ParseRoster(decode) == Empty
  {
    ParseFromFirstYield(decode, 0);
  }

  /** A roster file that is blank under every encoding gives `{}`. */
  lemma BlankRosterIsEmpty(decode: Decoder)
    requires forall enc, line :: decode(enc).Some? && line in decode(enc).value ==> Strip(line) == []
    ensures ParseRoster(decode) == Empty
  {
    forall e | 0 <= e < |Encodings| ensures !Yields(decode, e) {
      var decoded := decode(Encodings[e]);
      if decoded.Some? {
        BlankLinesYieldNothing(decoded.value);
      }
    }
    ParseRosterFirstYield(decode);
  }

  /** Every entry of the dict parsed from encoding `e` on is well formed. */
  lemma {:induction false} ParseFromWellFormed(decode: Decoder, e: nat)
    ensures forall k :: k in ParseFrom(decode, e).vals ==> WellFormed(Entry(k, ParseFrom(decode, e).vals[k]))
    decreases |Encodings| - e
  {
    if e < |Encodings| {
      if Yields(decode, e) {
        ParsedRosterWellFormed(decode(Encodings[e]).value);
      } else {
        ParseFromWellFormed(decode, e + 1);
      }
    }
  }

  /** Every entry of the roster `_parse_logpass` returns has a non-empty, stripped login
      without `:` and a non-empty, stripped password. */
  lemma RosterWellFormed(decode: Decoder)
    ensures forall k :: k in ParseRoster(decode).vals ==> WellFormed(Entry(k, ParseRoster(decode).vals[k]))
  {
    ParseFromWellFormed(decode, 0);
  }
}
