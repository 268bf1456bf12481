/** The parts of a maFile document the converter reads, and the identifier it derives from them. */
module MaFile {
  import opened Wrappers
  import opened Text
  import opened Fs

  /** A JSON value as `dict.get` returns it; `Null` stands for both a missing key and `null`.
      `Other` is any other JSON value (a float, a list, an object) with its truthiness and its
      `str()` text. */
  datatype Value =
    | Null
    | Bool(b: bool)
    | Int(i: int)
    | Str(s: string)
    | Other(truthy: bool, text: string)

  /** The `Session` entry of a document: absent, an object (of which only `SteamID` is read), or
      present but not an object (`null` included), on which `.get` raises. */
  datatype Session = NoSession | SessionObject(steamId: Value) | SessionOther

  /** A parsed maFile: a JSON object (of which `account_name` and `Session` are read), or any other
      JSON value, on which `.get` raises. */
  datatype Doc = JsonObject(accountName: Value, session: Session) | JsonOther

  /** Python truthiness. */
  predicate Truthy(v: Value) {
    match v
    case Null => false
    case Bool(b) => b
    case Int(i) => i != 0
    case Str(s) => s != []
    case Other(t, _) => t
  }

  function DigitChar(d: nat): char
    requires d < 10
  {
    "0123456789"[d]
  }

  function Digits(n: nat): (r: string)
    ensures r != [] && forall c :: c in r ==> '0' <= c <= '9'
  {
    if n < 10 then [DigitChar(n)] else Digits(n / 10) + [DigitChar(n % 10)]
  }

  /** Python's `str()` of a value. */
  function AsText(v: Value): string {
    match v
    case Null => "None"
    case Bool(b) => if b then "True" else "False"
    case Int(i) => if i < 0 then "-" + Digits(-i) else Digits(i)
    case Str(s) => s
    case Other(_, t) => t
  }

  /** `data.get("account_name") or data.get("Session", {}).get("SteamID") or
      remove_mafile_extension(filename)`. `None` means the expression raised: the document is not
      an object, or `account_name` is falsy and `Session` is present but not an object. */
  function ResolveIdentifier(doc: Doc, filename: string): (r: Option<Value>)
    ensures r.Some? ==> Truthy(r.value) || r.value == Str(RemoveMafileExtension(filename))
    ensures r.None? <==> doc.JsonOther? || (!Truthy(doc.accountName) && doc.session.SessionOther?)
  {
    match doc
    case JsonOther => None
    case JsonObject(accountName, session) =>
      if Truthy(accountName) then Some(accountName)
      else
        match session
        case SessionOther => None
        case NoSession => Some(Str(RemoveMafileExtension(filename)))
        case SessionObject(steamId) =>
          if Truthy(steamId) then Some(steamId) else Some(Str(RemoveMafileExtension(filename)))
  }

  /** The identifier is the first truthy candidate of the chain; the filename stem comes last and
      is taken even when it is empty. */
  lemma ResolveIdentifierChain(doc: Doc, filename: string)
    requires doc.JsonObject?
    ensures Truthy(doc.accountName) ==> ResolveIdentifier(doc, filename) == Some(doc.accountName)
    ensures !Truthy(doc.accountName) && doc.session.SessionObject? && Truthy(doc.session.steamId)
            ==> ResolveIdentifier(doc, filename) == Some(doc.session.steamId)
    ensures !Truthy(doc.accountName) && (doc.session.NoSession? || (doc.session.SessionObject? && !Truthy(doc.session.steamId)))
            ==> ResolveIdentifier(doc, filename) == Some(Str(RemoveMafileExtension(filename)))
  {
  }

  /** A document without `account_name` or `Session`, read from `export.json`, is identified as
      `export`. */
  lemma IdentifierFromFilename()
    ensures ResolveIdentifier(JsonObject(Null, NoSession), "export.json") == Some(Str("export"))
  {
    RemoveMafileExtensionOfJson();
  }

  /** The characters that never reach an output file name. */
  predicate IsUnsafe(c: char) {
    c == ':' || c == '/' || c == '\\'
  }

  predicate SafeStem(s: string) {
    forall c :: c in s ==> !IsUnsafe(c)
  }

  /** `s.replace(":", "_").replace("/", "_").replace("\\", "_")`: each of the three characters
      becomes `_`, every other character stays where it is, and none of the three is left. */
  function Sanitize(s: string): (r: string)
    ensures |r| == |s|
    ensures forall i :: 0 <= i < |s| ==> r[i] == if IsUnsafe(s[i]) then '_' else s[i]
    ensures SafeStem(r)
  {
    ReplaceChar(ReplaceChar(ReplaceChar(s, ':', '_'), '/', '_'), '\\', '_')
  }

  /** Sanitising a sanitised name changes nothing. */
  lemma SanitizeIdempotent(s: string)
    ensures Sanitize(Sanitize(s)) == Sanitize(s)
  {
    var once := Sanitize(s);
    assert forall i :: 0 <= i < |once| ==> !IsUnsafe(once[i]) by {
      forall i | 0 <= i < |once| ensures !IsUnsafe(once[i]) { assert once[i] in once; }
    }
  }

  /** The stem of both output files of a record: its identifier as text, sanitised. */
  function SafeName(id: Value): (r: string)
    ensures SafeStem(r) && |r| == |AsText(id)|
  {
    Sanitize(AsText(id))
  }
}
