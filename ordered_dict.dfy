/** Python's insertion-ordered `dict[str, str]`: the keys in insertion order beside the mapping. */
module OrderedDict {
  import opened Text

  datatype Dict = Dict(keys: seq<string>, vals: map<string, string>) {
    /** Every key is listed exactly once, and only keys are listed. */
    ghost predicate Valid() {
      NoDuplicates(keys) && forall k :: k in vals <==> k in keys
    }
  }

  const Empty: Dict := Dict([], map[])

  /** `d[k] = v`: a new key goes last; a key already present keeps its place and takes `v`. */
  function Put(d: Dict, k: string, v: string): (r: Dict)
    requires d.Valid()
    ensures r.Valid()
  {
    if k in d.vals then Dict(d.keys, d.vals[k := v])
    else Dict(d.keys + [k], d.vals[k := v])
  }

  /** `s` without the elements of `drop`: the others, each kept in its order. */
  function Filtered(s: seq<string>, drop: seq<string>): seq<string> {
    if s == [] then [] else (if s[0] in drop then [] else [s[0]]) + Filtered(s[1..], drop)
  }

  /** Filtering out `drop` and then `k` is filtering out `drop` followed by `k`. */
  lemma {:induction false} FilteredSnoc(s: seq<string>, drop: seq<string>, k: string)
    ensures Without(Filtered(s, drop), k) == Filtered(s, drop + [k])
  {
    if s != [] {
      FilteredSnoc(s[1..], drop, k);
      var t, u := Filtered(s[1..], drop), Filtered(s[1..], drop + [k]);
      assert s[0] in drop + [k] <==> s[0] in drop || s[0] == k;
      if s[0] in drop {
        assert Filtered(s, drop) == [] + t == t;
      } else {
        var st := [s[0]] + t;
        assert Filtered(s, drop) == st;
        assert st[0] == s[0] && st[1..] == t;
        if s[0] == k {
          assert Without(st, k) == Without(t, k);
        } else {
          assert Without(st, k) == [s[0]] + Without(t, k);
          assert Filtered(s, drop + [k]) == [s[0]] + u;
        }
      }
    }
  }

  lemma {:induction false} FilteredNothing(s: seq<string>)
    ensures Filtered(s, []) == s
  {
    if s != [] {
      FilteredNothing(s[1..]);
      assert s == [s[0]] + s[1..];
    }
  }

  /** `s` without the element `k`, the others in their order. */
  function Without(s: seq<string>, k: string): (r: seq<string>)
    ensures forall x :: x in r <==> x in s && x != k
    ensures |r| <= |s|
    ensures NoDuplicates(s) ==> NoDuplicates(r)
    ensures NoDuplicates(s) && k in s ==> |r| == |s| - 1
    ensures k !in s ==> r == s
  {
    if s == [] then []
    else if s[0] == k then
      assert NoDuplicates(s) ==> k !in s[1..] by {
        if NoDuplicates(s) {
          forall j | 0 <= j < |s[1..]| ensures s[1..][j] != k { assert s[1..][j] == s[j + 1]; }
        }
      }
      Without(s[1..], k)
    else
      var t := Without(s[1..], k);
      assert NoDuplicates(s) ==> NoDuplicates(s[1..]) && s[0] !in s[1..] by {
        if NoDuplicates(s) {
          forall j | 0 <= j < |s[1..]| ensures s[1..][j] != s[0] { assert s[1..][j] == s[j + 1]; }
          forall i, j | 0 <= i < j < |s[1..]| ensures s[1..][i] != s[1..][j] { assert s[1..][i] == s[i + 1]; }
        }
      }
      assert NoDuplicates(s) ==> NoDuplicates([s[0]] + t) by {
        if NoDuplicates(s) {
          forall i, j | 0 <= i < j < |[s[0]] + t| ensures ([s[0]] + t)[i] != ([s[0]] + t)[j] {
            if i == 0 { assert ([s[0]] + t)[j] == t[j - 1] && t[j - 1] in t; }
          }
        }
      }
      assert s == [s[0]] + s[1..];
      [s[0]] + t
  }

  /** Dropping one element is filtering it out. */
  lemma {:induction false} WithoutFiltered(s: seq<string>, k: string)
    ensures Without(s, k) == Filtered(s, [k])
  {
    if s != [] {
      WithoutFiltered(s[1..], k);
    }
  }

  /** `d.pop(k, None)`: `k` leaves the keys and the mapping; the other keys keep their order. */
  function Pop(d: Dict, k: string): (r: Dict)
    requires d.Valid()
    ensures r.Valid()
    ensures r.keys == Filtered(d.keys, [k])
    ensures r.vals == d.vals - {k}
    ensures k in d.vals ==> |r.keys| == |d.keys| - 1
  {
    WithoutFiltered(d.keys, k);
    Dict(Without(d.keys, k), d.vals - {k})
  }

  /** A distinct sequence has as many elements as its set. */
  lemma {:induction false} DistinctCardinality(s: seq<string>)
    requires NoDuplicates(s)
    ensures |set x | x in s| == |s|
  {
    if s != [] {
      var t := s[1..];
      assert NoDuplicates(t) by {
        forall i, j | 0 <= i < j < |t| ensures t[i] != t[j] { assert t[i] == s[i + 1] && t[j] == s[j + 1]; }
      }
      assert s[0] !in t by {
        forall j | 0 <= j < |t| ensures t[j] != s[0] { assert t[j] == s[j + 1]; }
      }
      DistinctCardinality(t);
      assert (set x | x in s) == (set x | x in t) + {s[0]};
    }
  }
}
