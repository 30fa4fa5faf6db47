/** Tables as sequences of rows in primary-key order, and the sequence
    operations the SQL statements of the repositories are built from. */
module Seqs {
  import opened Common

  /** Keys strictly increase along the sequence: a table scanned in rowid order. */
  ghost predicate Ascending<T>(s: seq<T>, key: T -> int) {
    forall i, j :: 0 <= i < j < |s| ==> key(s[i]) < key(s[j])
  }

  /** Keys strictly decrease along the sequence: `ORDER BY id DESC`. */
  ghost predicate Descending<T>(s: seq<T>, key: T -> int) {
    forall i, j :: 0 <= i < j < |s| ==> key(s[i]) > key(s[j])
  }

  /** A table whose rows are stored by an increasing, positive primary key. */
  ghost predicate Keyed<T>(s: seq<T>, key: T -> int) {
    Ascending(s, key) && forall i :: 0 <= i < |s| ==> key(s[i]) >= 1
  }

  /** The set of primary keys present in a table. */
  ghost function KeySet<T>(s: seq<T>, key: T -> int): set<int> {
    set x | x in s :: key(x)
  }

  /** `WHERE key = k` on a table: the first row with that key, if any. */
  function FindByKey<T>(s: seq<T>, key: T -> int, k: int): (r: Option<T>)
    ensures r.Some? <==> exists i :: 0 <= i < |s| && key(s[i]) == k
    ensures r.Some? ==> r.value in s && key(r.value) == k
  {
    if s == [] then None
    else if key(s[0]) == k then Some(s[0])
    else
      var r := FindByKey(s[1..], key, k);
      assert r.Some? ==> exists i :: 0 <= i < |s| && key(s[i]) == k by {
        if r.Some? {
          var i :| 0 <= i < |s[1..]| && key(s[1..][i]) == k;
          assert key(s[i + 1]) == k;
        }
      }
      r
  }

  /** The rows of `s` that satisfy `p`, in their original order (a `WHERE` clause). */
  function Filter<T>(s: seq<T>, p: T -> bool): (r: seq<T>)
    ensures |r| <= |s|
    ensures forall i :: 0 <= i < |r| ==> r[i] in s && p(r[i])
    ensures forall i :: 0 <= i < |s| && p(s[i]) ==> s[i] in r
  {
    if s == [] then []
    else (if p(s[0]) then [s[0]] else []) + Filter(s[1..], p)
  }

  /** A condition no row satisfies keeps nothing. */
  lemma {:induction false} FilterKeepsNone<T>(s: seq<T>, p: T -> bool)
    requires forall i :: 0 <= i < |s| ==> !p(s[i])
    ensures Filter(s, p) == []
  {
    if s != [] {
      FilterKeepsNone(s[1..], p);
    }
  }

  /** `LIMIT offset, limit`: skip `offset` rows, then return at most `limit`. */
  function Page<T>(s: seq<T>, offset: int, limit: int): (r: seq<T>)
    requires 0 <= offset && 0 <= limit
    ensures |r| == Max(0, Min(limit, |s| - offset))
    ensures forall k :: 0 <= k < |r| ==> r[k] == s[offset + k]
  {
    if offset >= |s| then [] else s[offset..Min(offset + limit, |s|)]
  }

  /** The offset the paged statements pass to `LIMIT`: `(page - 1) * perPage`. */
  function Offset(perPage: int, page: int): (n: int)
    requires perPage >= 0 && page >= 1
    ensures n >= 0
    ensures page == 1 ==> n == 0
  {
    assert (page - 1) * perPage >= 0;
    (page - 1) * perPage
  }

  /** Filtering a table that grew by one row at its end. */
  lemma {:induction false} FilterAppend<T>(s: seq<T>, x: T, p: T -> bool)
    ensures Filter(s + [x], p) == Filter(s, p) + (if p(x) then [x] else [])
  {
    if s == [] {
      assert s + [x] == [x];
    } else {
      assert (s + [x])[1..] == s[1..] + [x];
      FilterAppend(s[1..], x, p);
    }
  }

  /** The key the engine gives the next inserted row: one more than the
      largest key present, or 1 in an empty table. */
  function NextKey<T>(s: seq<T>, key: T -> int): (k: int)
    requires Keyed(s, key)
    ensures k >= 1
    ensures forall x :: x in s ==> key(x) < k
  {
    if s == [] then 1 else key(s[|s| - 1]) + 1
  }

  /** Appending a row with the next key keeps the table keyed. */
  lemma AppendNextKey<T>(s: seq<T>, key: T -> int, x: T)
    requires Keyed(s, key) && key(x) == NextKey(s, key)
    ensures Keyed(s + [x], key)
  {
    var t := s + [x];
    forall i, j | 0 <= i < j < |t| ensures key(t[i]) < key(t[j]) {
      if j == |s| {
        assert t[i] in s;
      } else {
        assert t[i] == s[i] && t[j] == s[j];
      }
    }
  }

  /** In a table with increasing keys, looking up the key of a row finds that row. */
  lemma FindKeyOfRow<T>(s: seq<T>, key: T -> int, i: int)
    requires Ascending(s, key) && 0 <= i < |s|
    ensures FindByKey(s, key, key(s[i])) == Some(s[i])
  {
    var r := FindByKey(s, key, key(s[i]));
    var j :| 0 <= j < |s| && s[j] == r.value;
    if j < i {
      assert key(s[j]) < key(s[i]);
    } else if j > i {
      assert key(s[i]) < key(s[j]);
    }
  }

  /** A row whose key is below every key of an increasing table can go in front of it. */
  lemma PrependAscending<T>(x: T, rest: seq<T>, key: T -> int)
    requires Ascending(rest, key)
    requires forall j :: 0 <= j < |rest| ==> key(x) < key(rest[j])
    ensures Ascending([x] + rest, key)
  {
    var t := [x] + rest;
    forall i, j | 0 <= i < j < |t| ensures key(t[i]) < key(t[j]) {
      assert t[j] == rest[j - 1];
      if i > 0 { assert t[i] == rest[i - 1]; }
    }
  }

  /** Filtering keeps the rows in key order. */
  lemma {:induction false} FilterAscending<T>(s: seq<T>, p: T -> bool, key: T -> int)
    requires Ascending(s, key)
    ensures Ascending(Filter(s, p), key)
  {
    if s != [] {
      var tail := s[1..];
      assert Ascending(tail, key) by {
        forall i, j | 0 <= i < j < |tail| ensures key(tail[i]) < key(tail[j]) {
          assert tail[i] == s[i + 1] && tail[j] == s[j + 1];
        }
      }
      FilterAscending(tail, p, key);
      var rest := Filter(tail, p);
      if p(s[0]) {
        forall j | 0 <= j < |rest| ensures key(s[0]) < key(rest[j]) {
          var m :| 0 <= m < |tail| && tail[m] == rest[j];
          assert s[m + 1] == rest[j];
        }
        PrependAscending(s[0], rest, key);
      }
    }
  }

  /** Filtering keeps the table keyed. */
  lemma FilterKeyed<T>(s: seq<T>, p: T -> bool, key: T -> int)
    requires Keyed(s, key)
    ensures Keyed(Filter(s, p), key)
  {
    FilterAscending(s, p, key);
    var r := Filter(s, p);
    forall i | 0 <= i < |r| ensures key(r[i]) >= 1 {
      assert r[i] in s;
    }
  }

  /** A filter every row passes returns the table unchanged. */
  lemma {:induction false} FilterKeepsAll<T>(s: seq<T>, p: T -> bool)
    requires forall i :: 0 <= i < |s| ==> p(s[i])
    ensures Filter(s, p) == s
  {
    if s != [] {
      FilterKeepsAll(s[1..], p);
    }
  }

  /** A filter that exactly one row fails drops exactly that row. */
  lemma {:induction false} FilterDropsOne<T>(s: seq<T>, p: T -> bool, k: int)
    requires 0 <= k < |s| && !p(s[k])
    requires forall i :: 0 <= i < |s| && i != k ==> p(s[i])
    ensures |Filter(s, p)| == |s| - 1
  {
    if k == 0 {
      FilterKeepsAll(s[1..], p);
    } else {
      FilterDropsOne(s[1..], p, k - 1);
    }
  }

  /** Dropping the first row keeps keys increasing. */
  lemma AscendingTail<T>(s: seq<T>, key: T -> int)
    requires Ascending(s, key) && s != []
    ensures Ascending(s[1..], key)
  {
    var t := s[1..];
    forall i, j | 0 <= i < j < |t| ensures key(t[i]) < key(t[j]) {
      assert t[i] == s[i + 1] && t[j] == s[j + 1];
    }
  }

  /** Appending a row whose key is below every key keeps keys decreasing. */
  lemma DescendingAppend<T>(s: seq<T>, x: T, key: T -> int)
    requires Descending(s, key)
    requires forall j :: 0 <= j < |s| ==> key(s[j]) > key(x)
    ensures Descending(s + [x], key)
  {
    var t := s + [x];
    forall i, j | 0 <= i < j < |t| ensures key(t[i]) > key(t[j]) {
      assert t[i] == s[i];
      if j < |s| { assert t[j] == s[j]; } else { assert t[j] == x; }
    }
  }

  /** Distinct keys: a table with increasing keys has as many keys as rows. */
  lemma {:induction false} AscendingKeyCount<T>(s: seq<T>, key: T -> int)
    requires Ascending(s, key)
    ensures |KeySet(s, key)| == |s|
  {
    if s != [] {
      var rest := s[1..];
      AscendingTail(s, key);
      AscendingKeyCount(rest, key);
      assert s == [s[0]] + rest;
      assert KeySet(s, key) == {key(s[0])} + KeySet(rest, key);
      assert key(s[0]) !in KeySet(rest, key) by {
        forall x | x in rest ensures key(x) != key(s[0]) {
          var i :| 0 <= i < |rest| && rest[i] == x;
          assert s[i + 1] == x;
        }
      }
    }
  }

  /** How a page grows when the cursor yields one more row: the row joins the
      page exactly when it falls inside the window `[offset, offset + limit)`. */
  lemma PageExtend<T>(s: seq<T>, x: T, offset: int, limit: int)
    requires 0 <= offset && 0 <= limit
    ensures Page(s + [x], offset, limit)
         == if offset <= |s| < offset + limit then Page(s, offset, limit) + [x] else Page(s, offset, limit)
  {
    var t := s + [x];
    if offset <= |s| < offset + limit {
      assert Page(t, offset, limit) == t[offset..|t|];
      assert t[offset..|t|] == s[offset..|s|] + [x];
    } else if |s| < offset {
    } else {
      assert t[offset..offset + limit] == s[offset..offset + limit];
    }
  }

  /** No row occurs twice. */
  ghost predicate Distinct<T>(s: seq<T>) {
    forall i, j :: 0 <= i < j < |s| ==> s[i] != s[j]
  }

  /** Page `p` ends at or before the offset of any later page `q`. */
  lemma {:induction false} PageOffsetsApart(perPage: int, p: int, q: int)
    requires perPage >= 0 && 1 <= p < q
    ensures (p - 1) * perPage + perPage <= (q - 1) * perPage
  {
    if q > p + 1 {
      PageOffsetsApart(perPage, p, q - 1);
      assert (q - 1) * perPage == (q - 2) * perPage + perPage;
    } else {
      assert (q - 1) * perPage == (p - 1) * perPage + perPage;
    }
  }

  /** Two different pages of a listing without repeated rows share no row. */
  lemma PagesDisjoint<T>(s: seq<T>, perPage: int, p: int, q: int)
    requires Distinct(s) && perPage >= 0 && 1 <= p < q
    ensures var first, second := Page(s, Offset(perPage, p), perPage), Page(s, Offset(perPage, q), perPage);
      forall i, j :: 0 <= i < |first| && 0 <= j < |second| ==> first[i] != second[j]
  {
    var a, b := Offset(perPage, p), Offset(perPage, q);
    PageOffsetsApart(perPage, p, q);
    assert a == (p - 1) * perPage && b == (q - 1) * perPage;
    assert a + perPage <= b;
    var first, second := Page(s, a, perPage), Page(s, b, perPage);
    forall i, j | 0 <= i < |first| && 0 <= j < |second| ensures first[i] != second[j] {
      assert first[i] == s[a + i] && second[j] == s[b + j];
      assert a + i < a + perPage;
      assert a + i < b + j;
    }
  }
}
