/** sort_logs_by_time: the directory's (mtime, path) pairs in ascending tuple
    order, as Python's sorted() leaves them. */
module Ordering {

  /** One directory entry. The listing, os.stat and os.path.isfile are left
      out: each entry carries its modification time, its path, whether it is
      a regular file and, for a regular file, its text. */
  datatype FileEntry = FileEntry(mtime: int, path: string, isFile: bool, content: string)

  /** Python's `a <= b` on strings: lexicographic by code point, a proper
      prefix first. */
  predicate StrLe(a: string, b: string) {
    if |a| == 0 then true
    else if |b| == 0 then false
    else if a[0] != b[0] then a[0] < b[0]
    else StrLe(a[1..], b[1..])
  }

  lemma {:induction false} StrLeTotal(a: string, b: string)
    ensures StrLe(a, b) || StrLe(b, a)
  {
    if |a| > 0 && |b| > 0 && a[0] == b[0] {
      StrLeTotal(a[1..], b[1..]);
    }
  }

  lemma {:induction false} StrLeAntisymmetric(a: string, b: string)
    requires StrLe(a, b) && StrLe(b, a)
    ensures a == b
  {
    if |a| > 0 && |b| > 0 {
      StrLeAntisymmetric(a[1..], b[1..]);
      assert a == [a[0]] + a[1..] && b == [b[0]] + b[1..];
    }
  }

  lemma {:induction false} StrLeTransitive(a: string, b: string, c: string)
    requires StrLe(a, b) && StrLe(b, c)
    ensures StrLe(a, c)
  {
    if |a| > 0 && |b| > 0 && |c| > 0 && a[0] == b[0] && b[0] == c[0] {
      StrLeTransitive(a[1..], b[1..], c[1..]);
    }
  }

  /** `(x.mtime, x.path) <= (y.mtime, y.path)` on Python tuples. */
  predicate KeyLe(x: FileEntry, y: FileEntry) {
    x.mtime < y.mtime || (x.mtime == y.mtime && StrLe(x.path, y.path))
  }

  lemma KeyLeTotal(x: FileEntry, y: FileEntry)
    ensures KeyLe(x, y) || KeyLe(y, x)
  {
    StrLeTotal(x.path, y.path);
  }

  lemma KeyLeTransitive(x: FileEntry, y: FileEntry, z: FileEntry)
    requires KeyLe(x, y) && KeyLe(y, z)
    ensures KeyLe(x, z)
  {
    if x.mtime == y.mtime == z.mtime {
      StrLeTransitive(x.path, y.path, z.path);
    }
  }

  /** Two entries that are each <= the other have the same mtime and path. */
  lemma KeyLeAntisymmetric(x: FileEntry, y: FileEntry)
    requires KeyLe(x, y) && KeyLe(y, x)
    ensures x.mtime == y.mtime && x.path == y.path
  {
    StrLeAntisymmetric(x.path, y.path);
  }

  predicate Sorted(s: seq<FileEntry>) {
    forall i, j :: 0 <= i < j < |s| ==> KeyLe(s[i], s[j])
  }

  /** No two entries of a directory share a path. */
  predicate DistinctPaths(s: seq<FileEntry>) {
    forall i, j :: 0 <= i < j < |s| ==> s[i].path != s[j].path
  }

  /** In a sorted listing, an entry with a smaller mtime has a smaller index. */
  lemma SortedMtimeOrder(s: seq<FileEntry>, i: nat, j: nat)
    requires Sorted(s) && i < |s| && j < |s| && s[i].mtime < s[j].mtime
    ensures i < j
  {
  }

  /** `x` placed before the first entry it is <= to. */
  function Insert(x: FileEntry, s: seq<FileEntry>): (r: seq<FileEntry>)
    ensures multiset(r) == multiset(s) + multiset{x}
  {
    if s == [] then [x]
    else if KeyLe(x, s[0]) then [x] + s
    else
      assert s == [s[0]] + s[1..];
      [s[0]] + Insert(x, s[1..])
  }

  /** A lower bound of `x` and of every entry of `s` bounds every entry of
      `Insert(x, s)`. */
  lemma {:induction false} InsertBounded(y: FileEntry, x: FileEntry, s: seq<FileEntry>)
    requires KeyLe(y, x)
    requires forall k :: 0 <= k < |s| ==> KeyLe(y, s[k])
    ensures forall k :: 0 <= k < |Insert(x, s)| ==> KeyLe(y, Insert(x, s)[k])
  {
    if s != [] && !KeyLe(x, s[0]) {
      InsertBounded(y, x, s[1..]);
      var r := Insert(x, s);
      assert r == [s[0]] + Insert(x, s[1..]);
      forall k | 0 < k < |r| ensures KeyLe(y, r[k]) {
        assert r[k] == Insert(x, s[1..])[k - 1];
      }
    } else if s != [] {
      var r := Insert(x, s);
      forall k | 0 < k < |r| ensures KeyLe(y, r[k]) {
        assert r[k] == s[k - 1];
      }
    }
  }

  lemma {:induction false} InsertSorted(x: FileEntry, s: seq<FileEntry>)
    requires Sorted(s)
    ensures Sorted(Insert(x, s))
  {
    if s != [] && !KeyLe(x, s[0]) {
      var rest := Insert(x, s[1..]);
      InsertSorted(x, s[1..]);
      KeyLeTotal(x, s[0]);
      InsertBounded(s[0], x, s[1..]);
      var r := [s[0]] + rest;
      forall i, j | 0 <= i < j < |r| ensures KeyLe(r[i], r[j]) {
        if i > 0 {
          assert r[i] == rest[i - 1] && r[j] == rest[j - 1];
        } else {
          assert r[j] == rest[j - 1];
        }
      }
    } else if s != [] {
      forall k | 0 <= k < |s| ensures KeyLe(x, s[k]) {
        if k > 0 {
          KeyLeTransitive(x, s[0], s[k]);
        }
      }
    }
  }

  /** sorted(file_stats_details): an insertion sort, stable like Python's. */
  function SortLogsByTime(listing: seq<FileEntry>): (r: seq<FileEntry>)
    ensures Sorted(r)
    ensures multiset(r) == multiset(listing)
  {
    if listing == [] then []
    else
      var rest := SortLogsByTime(listing[1..]);
      InsertSorted(listing[0], rest);
      assert listing == [listing[0]] + listing[1..];
      Insert(listing[0], rest)
  }

  /** Inserting an entry whose path is new keeps the paths distinct. */
  lemma {:induction false} InsertDistinct(x: FileEntry, s: seq<FileEntry>)
    requires DistinctPaths(s)
    requires forall k :: 0 <= k < |s| ==> s[k].path != x.path
    ensures DistinctPaths(Insert(x, s))
  {
    if s != [] && !KeyLe(x, s[0]) {
      var rest := Insert(x, s[1..]);
      InsertDistinct(x, s[1..]);
      forall k | 0 <= k < |rest| ensures rest[k].path != s[0].path {
        assert rest[k] in multiset(rest);
        if rest[k] != x {
          assert rest[k] in multiset(s[1..]);
          var j :| 0 <= j < |s[1..]| && s[1..][j] == rest[k];
          assert s[j + 1] == rest[k];
        }
      }
    }
  }

  /** Sorting a listing with distinct paths keeps them distinct. */
  lemma {:induction false} SortDistinct(listing: seq<FileEntry>)
    requires DistinctPaths(listing)
    ensures DistinctPaths(SortLogsByTime(listing))
  {
    if listing != [] {
      var rest := SortLogsByTime(listing[1..]);
      SortDistinct(listing[1..]);
      forall k | 0 <= k < |rest| ensures rest[k].path != listing[0].path {
        assert rest[k] in multiset(listing[1..]);
        var j :| 0 <= j < |listing[1..]| && listing[1..][j] == rest[k];
        assert listing[j + 1] == rest[k];
      }
      InsertDistinct(listing[0], rest);
    }
  }

  /** Two sorted arrangements of the same entries with distinct paths start
      with the same entry. */
  lemma SortedSameHead(a: seq<FileEntry>, b: seq<FileEntry>)
    requires a != [] && Sorted(a) && Sorted(b) && multiset(a) == multiset(b) && DistinctPaths(a)
    ensures b != [] && a[0] == b[0]
  {
    assert a[0] in multiset(b);
    var j :| 0 <= j < |b| && b[j] == a[0];
    assert b[0] in multiset(a);
    var i :| 0 <= i < |a| && a[i] == b[0];
    StrLeTotal(a[0].path, a[0].path);
    StrLeTotal(b[0].path, b[0].path);
    assert KeyLe(a[0], a[i]);
    assert KeyLe(b[0], b[j]);
    KeyLeAntisymmetric(a[0], b[0]);
    assert a[0].path == a[i].path;
  }

  /** Removing an equal head from two equal multisets leaves equal tails. */
  lemma SameTails(a: seq<FileEntry>, b: seq<FileEntry>)
    requires a != [] && b != [] && a[0] == b[0] && multiset(a) == multiset(b)
    ensures multiset(a[1..]) == multiset(b[1..])
  {
    assert a == [a[0]] + a[1..] && b == [b[0]] + b[1..];
    assert multiset(a) == multiset{a[0]} + multiset(a[1..]);
    assert multiset(b) == multiset{b[0]} + multiset(b[1..]);
    forall e ensures multiset(a[1..])[e] == multiset(b[1..])[e] {
      assert multiset(a)[e] == multiset(b)[e];
    }
  }

  /** With distinct paths, the ascending (mtime, path) order is unique: two
      sorted arrangements of the same entries are equal. */
  lemma {:induction false} SortedUnique(a: seq<FileEntry>, b: seq<FileEntry>)
    requires Sorted(a) && Sorted(b) && multiset(a) == multiset(b) && DistinctPaths(a)
    ensures a == b
  {
    if a == [] {
      assert |b| == |multiset(b)| == 0;
    } else {
      SortedSameHead(a, b);
      SameTails(a, b);
      SortedUnique(a[1..], b[1..]);
      assert a == [a[0]] + a[1..] && b == [b[0]] + b[1..];
    }
  }

  /** The order get_usage_details visits files in is fully determined by
      (mtime, path): with distinct paths, any arrangement of the listing that
      is ascending by (mtime, path) is SortLogsByTime's. */
  lemma SortLogsByTimeUnique(listing: seq<FileEntry>, arranged: seq<FileEntry>)
    requires DistinctPaths(listing)
    requires Sorted(arranged) && multiset(arranged) == multiset(listing)
    ensures SortLogsByTime(listing) == arranged
  {
    SortDistinct(listing);
    SortedUnique(SortLogsByTime(listing), arranged);
  }
}
