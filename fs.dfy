/** Filename helpers of the maFile manager: recognising maFile names, stripping their extension
    and listing the maFiles of a folder. Paths follow Windows rules (`\` and `/` both separate). */
module Fs {
  import opened Text

  /** The extension spellings `remove_mafile_extension` tries, in its order. */
  const MafileExtensions: seq<string> := [".mafile", ".mafiles", ".maFile", ".maFiles"]

  /** A name whose lower-case form ends with `.mafile` or `.mafiles`. */
  predicate IsMafileName(name: string) {
    IsSuffix(".mafile", Lower(name)) || IsSuffix(".mafiles", Lower(name))
  }

  predicate IsPathSeparator(c: char) {
    c == '\\' || c == '/'
  }

  /** `os.path.splitext(p)[0]`: `p` without its last `.` suffix. The suffix must lie in the last
      path component, and dots leading that component do not start a suffix. */
  function SplitextRoot(p: string): (root: string)
    ensures IsPrefix(root, p)
    ensures root != p ==> p[|root|] == '.' && forall k :: |root| < k < |p| ==> p[k] != '.' && !IsPathSeparator(p[k])
    ensures root != p ==> exists k :: 0 <= k < |root| && p[k] != '.' && forall m :: k <= m < |root| ==> !IsPathSeparator(p[m])
    ensures (forall k :: 0 <= k < |p| ==> p[k] != '.') ==> root == p
    ensures (exists k, d :: 0 <= k < d < |p| && p[k] != '.' && p[d] == '.' && forall m :: k <= m < |p| ==> !IsPathSeparator(p[m]))
            ==> root != p
  {
    var backslash, slash := LastIndexOf(p, '\\'), LastIndexOf(p, '/');
    var sepIndex := if backslash < slash then slash else backslash;
    var dotIndex := LastIndexOf(p, '.');
    if dotIndex > sepIndex && exists k :: sepIndex < k < dotIndex && p[k] != '.' then p[..dotIndex] else p
  }

  /** A cut after a non-dot character of the last path component is itself a dot that such a
      character precedes in the last component. */
  lemma CutWitness(p: string, root: string)
    ensures && IsPrefix(root, p) && root != p
            && (p[|root|] == '.' && forall k :: |root| < k < |p| ==> p[k] != '.' && !IsPathSeparator(p[k]))
            && (exists k :: 0 <= k < |root| && p[k] != '.' && forall m :: k <= m < |root| ==> !IsPathSeparator(p[m]))
            ==> exists k, d :: 0 <= k < d < |p| && p[k] != '.' && p[d] == '.' && forall m :: k <= m < |p| ==> !IsPathSeparator(p[m])
  {
    if && IsPrefix(root, p) && root != p
       && (p[|root|] == '.' && forall k :: |root| < k < |p| ==> p[k] != '.' && !IsPathSeparator(p[k]))
       && (exists k :: 0 <= k < |root| && p[k] != '.' && forall m :: k <= m < |root| ==> !IsPathSeparator(p[m]))
    {
      var k :| 0 <= k < |root| && p[k] != '.' && forall m :: k <= m < |root| ==> !IsPathSeparator(p[m]);
      var d := |root|;
      assert forall m :: k <= m < |p| ==> !IsPathSeparator(p[m]) by {
        forall m | k <= m < |p| ensures !IsPathSeparator(p[m]) {
          if m == d { assert p[m] == '.'; }
        }
      }
      assert 0 <= k < d < |p| && p[k] != '.' && p[d] == '.';
    }
  }

  /** The contract of `SplitextRoot` determines its result: any string that meets it is the
      `splitext` root. */
  lemma SplitextRootUnique(p: string, root: string)
    requires IsPrefix(root, p)
    requires root != p ==> p[|root|] == '.' && forall k :: |root| < k < |p| ==> p[k] != '.' && !IsPathSeparator(p[k])
    requires root != p ==> exists k :: 0 <= k < |root| && p[k] != '.' && forall m :: k <= m < |root| ==> !IsPathSeparator(p[m])
    requires (exists k, d :: 0 <= k < d < |p| && p[k] != '.' && p[d] == '.' && forall m :: k <= m < |p| ==> !IsPathSeparator(p[m]))
             ==> root != p
    ensures root == SplitextRoot(p)
  {
    var r := SplitextRoot(p);
    CutWitness(p, root);
    CutWitness(p, r);
    if root != p {
      assert |r| == |root|;
    }
  }

  /** The loop of `remove_mafile_extension` over the spellings still to try: the first spelling
      the name ends with, ignoring case, is cut off; with none, the `splitext` root is taken. */
  function StripExtension(name: string, extensions: seq<string>): (r: string)
    ensures IsPrefix(r, name)
    ensures (forall i :: 0 <= i < |extensions| ==> !IsSuffix(Lower(extensions[i]), Lower(name))) ==> r == SplitextRoot(name)
    ensures forall i :: 0 <= i < |extensions| && IsSuffix(Lower(extensions[i]), Lower(name))
                        && (forall j :: 0 <= j < i ==> !IsSuffix(Lower(extensions[j]), Lower(name)))
                        ==> r == name[..|name| - |extensions[i]|]
  {
    if extensions == [] then SplitextRoot(name)
    else if IsSuffix(Lower(extensions[0]), Lower(name)) then name[..|name| - |extensions[0]|]
    else
      var r := StripExtension(name, extensions[1..]);
      assert forall i :: 1 <= i < |extensions| ==> extensions[1..][i - 1] == extensions[i];
      r
  }

  lemma LowerMafileExtensions()
    ensures Lower(".mafile") == Lower(".maFile") == ".mafile"
    ensures Lower(".mafiles") == Lower(".maFiles") == ".mafiles"
  {
    assert forall i :: 0 <= i < 7 ==> Lower(".maFile")[i] == ".mafile"[i];
    assert forall i :: 0 <= i < 7 ==> Lower(".mafile")[i] == ".mafile"[i];
    assert forall i :: 0 <= i < 8 ==> Lower(".maFiles")[i] == ".mafiles"[i];
    assert forall i :: 0 <= i < 8 ==> Lower(".mafiles")[i] == ".mafiles"[i];
  }

  /** The two case-insensitive suffixes never both apply: one ends in `e`, the other in `s`. */
  lemma MafileSuffixesExclusive(name: string)
    ensures !(IsSuffix(".mafile", Lower(name)) && IsSuffix(".mafiles", Lower(name)))
  {
    var l := Lower(name);
    assert IsSuffix(".mafile", l) ==> l[|l| - 1] == 'e';
    assert IsSuffix(".mafiles", l) ==> l[|l| - 1] == 's';
  }

  /** `remove_mafile_extension`: a name ending in `.mafile` or `.mafiles` in any letter case loses
      exactly that suffix; any other name loses its `splitext` extension. The result is always a
      prefix of the name, so the characters kept keep their case. */
  function RemoveMafileExtension(filename: string): (r: string)
    ensures IsPrefix(r, filename)
    ensures IsSuffix(".mafile", Lower(filename)) ==> r == filename[..|filename| - 7]
    ensures IsSuffix(".mafiles", Lower(filename)) ==> r == filename[..|filename| - 8]
    ensures !IsMafileName(filename) ==> r == SplitextRoot(filename)
  {
    LowerMafileExtensions();
    MafileSuffixesExclusive(filename);
    var exts := MafileExtensions;
    assert Lower(exts[0]) == Lower(exts[2]) == ".mafile" && Lower(exts[1]) == Lower(exts[3]) == ".mafiles";
    StripExtension(filename, exts)
  }

  lemma RemoveMafileExtensionOfMafile()
    ensures RemoveMafileExtension("alice.maFile") == "alice"
  {
    AliceIsMafileName();
    assert "alice.maFile"[..5] == "alice";
  }

  lemma AliceIsMafileName()
    ensures IsSuffix(".mafile", Lower("alice.maFile"))
  {
    assert Lower("alice.maFile")[5..] == ".mafile" by {
      assert forall i :: 0 <= i < 7 ==> Lower("alice.maFile")[5 + i] == ".mafile"[i];
    }
  }

  lemma RemoveMafileExtensionOfUpperCase()
    ensures RemoveMafileExtension("Bob.MAFILES") == "Bob"
  {
    BobIsMafileName();
    assert "Bob.MAFILES"[..3] == "Bob";
  }

  lemma BobIsMafileName()
    ensures IsSuffix(".mafiles", Lower("Bob.MAFILES"))
  {
    assert Lower("Bob.MAFILES")[3..] == ".mafiles" by {
      assert forall i :: 0 <= i < 8 ==> Lower("Bob.MAFILES")[3 + i] == ".mafiles"[i];
    }
  }

  lemma RemoveMafileExtensionOfJson()
    ensures RemoveMafileExtension("export.json") == "export"
  {
    JsonIsNotMafileName();
    SplitextOfJson();
  }

  lemma JsonIsNotMafileName()
    ensures !IsMafileName("export.json")
  {
    var l := Lower("export.json");
    assert l[10] == 'n';
    assert l[4..][6] == 'n' != ".mafile"[6];
    assert l[3..][7] == 'n' != ".mafiles"[7];
  }

  lemma SplitextOfJson()
    ensures SplitextRoot("export.json") == "export"
  {
    var p := "export.json";
    assert p[6] == '.' && forall k :: 6 < k < |p| ==> p[k] != '.';
    assert LastIndexOf(p, '.') == 6;
    assert LastIndexOf(p, '/') == LastIndexOf(p, '\\') == -1;
    assert p[0] != '.';
  }

  /** `archive.tar.gz` loses only its last extension; a leading dot does not start one; a dot in
      a directory name is not an extension. */
  lemma SplitextRootExamples()
    ensures SplitextRoot("archive.tar.gz") == "archive.tar"
    ensures SplitextRoot(".profile") == ".profile"
    ensures SplitextRoot("dir.d\\file") == "dir.d\\file"
    ensures SplitextRoot("dir/.profile") == "dir/.profile"
  {
    SplitextOfArchive();
    SplitextOfDotfile();
    SplitextOfDirectory();
    SplitextOfDotfileInFolder();
  }

  lemma SplitextOfDotfileInFolder()
    ensures SplitextRoot("dir/.profile") == "dir/.profile"
  {
    var e := "dir/.profile";
    assert e[4] == '.' && forall k :: 4 < k < |e| ==> e[k] != '.';
    assert e[3] == '/';
  }

  lemma SplitextOfArchive()
    ensures SplitextRoot("archive.tar.gz") == "archive.tar"
  {
    var a := "archive.tar.gz";
    assert a[11] == '.' && forall k :: 11 < k < |a| ==> a[k] != '.';
    assert forall k :: 0 <= k < |a| ==> !IsPathSeparator(a[k]);
    assert a[0] != '.';
  }

  lemma SplitextOfDotfile()
    ensures SplitextRoot(".profile") == ".profile"
  {
    var b := ".profile";
    assert b[0] == '.' && forall k :: 0 < k < |b| ==> b[k] != '.';
  }

  lemma SplitextOfDirectory()
    ensures SplitextRoot("dir.d\\file") == "dir.d\\file"
  {
    var c := "dir.d\\file";
    assert c[3] == '.' && forall k :: 3 < k < |c| ==> c[k] != '.';
    assert c[5] == '\\';
  }

  /** Strings in ascending Python order. */
  predicate Sorted(s: seq<string>) {
    forall i, j :: 0 <= i < j < |s| ==> LexLe(s[i], s[j])
  }

  function Insert(x: string, s: seq<string>): (r: seq<string>)
    requires Sorted(s)
    ensures Sorted(r) && multiset(r) == multiset(s) + multiset{x}
  {
    if s == [] then [x]
    else if LexLe(x, s[0]) then
      InsertFront(x, s);
      [x] + s
    else
      LexLeTotal(x, s[0]);
      var t := Insert(x, s[1..]);
      InsertBehind(x, s, t);
      [s[0]] + t
  }

  lemma InsertFront(x: string, s: seq<string>)
    requires Sorted(s) && s != [] && LexLe(x, s[0])
    ensures Sorted([x] + s) && multiset([x] + s) == multiset(s) + multiset{x}
  {
    forall j | 0 <= j < |s| ensures LexLe(x, s[j]) {
      if j > 0 { LexLeTransitive(x, s[0], s[j]); }
    }
    var xs := [x] + s;
    forall i, j | 0 <= i < j < |xs| ensures LexLe(xs[i], xs[j]) {
      assert xs[j] == s[j - 1];
      if 0 < i { assert xs[i] == s[i - 1]; }
    }
  }

  lemma InsertBehind(x: string, s: seq<string>, t: seq<string>)
    requires Sorted(s) && s != [] && LexLe(s[0], x)
    requires Sorted(t) && multiset(t) == multiset(s[1..]) + multiset{x}
    ensures Sorted([s[0]] + t) && multiset([s[0]] + t) == multiset(s) + multiset{x}
  {
    assert s == [s[0]] + s[1..];
    forall j | 0 <= j < |t| ensures LexLe(s[0], t[j]) {
      assert t[j] in multiset(t);
      if t[j] != x {
        assert t[j] in multiset(s[1..]);
        var k :| 0 <= k < |s[1..]| && s[1..][k] == t[j];
        assert s[k + 1] == t[j];
      }
    }
    var st := [s[0]] + t;
    forall i, j | 0 <= i < j < |st| ensures LexLe(st[i], st[j]) {
      assert st[j] == t[j - 1];
      if 0 < i { assert st[i] == t[i - 1]; }
    }
  }

  /** Python's `sorted` on a list of `str`. */
  function SortStrings(s: seq<string>): (r: seq<string>)
    ensures Sorted(r) && multiset(r) == multiset(s)
  {
    if s == [] then []
    else
      assert s == [s[0]] + s[1..];
      Insert(s[0], SortStrings(s[1..]))
  }

  /** `list_mafiles(folder)`, with the folder's existence and its directory listing given. Every
      entry whose name ends in `.mafile` or `.mafiles` (any case) is returned as often as the
      listing holds it and nothing else is; the result is sorted. A missing or empty folder
      name gives `[]`. */
  method ListMafiles(folder: string, folderExists: bool, listing: seq<string>) returns (names: seq<string>)
    ensures folder == [] || !folderExists ==> names == []
    ensures folder != [] && folderExists ==>
      forall n :: multiset(names)[n] == if IsMafileName(n) then multiset(listing)[n] else 0
    ensures forall n :: n in names ==> n in listing && IsMafileName(n)
    ensures Sorted(names)
    ensures NoDuplicates(listing) ==> NoDuplicates(names)
  {
    if folder == [] || !folderExists {
      return [];
    }
    var found := CollectMafileNames(listing);
    found := AddExactSpellings(listing, found);
    names := SortStrings(found);
    forall n | n in names ensures n in listing && IsMafileName(n) {
      assert multiset(names)[n] > 0;
    }
    if NoDuplicates(listing) {
      NoDuplicatesCount(listing);
      NoDuplicatesCount(names);
    }
  }

  /** The first loop of `list_mafiles`: the entries whose lower-cased name ends in `.mafile` or
      `.mafiles`, in listing order. */
  method CollectMafileNames(listing: seq<string>) returns (found: seq<string>)
    ensures forall n :: multiset(found)[n] == if IsMafileName(n) then multiset(listing)[n] else 0
  {
    found := [];
    for i := 0 to |listing|
      invariant forall n :: multiset(found)[n] == if IsMafileName(n) then multiset(listing[..i])[n] else 0
    {
      var name := listing[i];
      assert listing[..i + 1] == listing[..i] + [name];
      if IsSuffix(".mafile", Lower(name)) || IsSuffix(".mafiles", Lower(name)) {
        found := found + [name];
      }
    }
    assert listing[..|listing|] == listing;
  }

  /** The second loop of `list_mafiles`: entries spelled exactly `.maFile` or `.maFiles` not yet
      found are appended. The first loop has found them all already, so nothing changes. */
  method AddExactSpellings(listing: seq<string>, found: seq<string>) returns (out: seq<string>)
    requires forall n :: multiset(found)[n] == if IsMafileName(n) then multiset(listing)[n] else 0
    ensures out == found
  {
    out := found;
    for i := 0 to |listing|
      invariant out == found
    {
      var name := listing[i];
      if IsSuffix(".maFile", name) || IsSuffix(".maFiles", name) {
        ExactSpellingIsMafileName(name);
        assert listing[i] in multiset(listing);
        assert name in out;
        if name !in out {
          out := out + [name];
        }
      }
    }
  }

  /** A name with the exact spelling `.maFile` or `.maFiles` is a maFile name case-insensitively. */
  lemma ExactSpellingIsMafileName(name: string)
    requires IsSuffix(".maFile", name) || IsSuffix(".maFiles", name)
    ensures IsMafileName(name)
  {
    LowerMafileExtensions();
    var l := Lower(name);
    if IsSuffix(".maFile", name) {
      assert l[|l| - 7..] == Lower(name[|name| - 7..]);
    } else {
      assert l[|l| - 8..] == Lower(name[|name| - 8..]);
    }
  }
}
