/** Operations of the persistence layer that the controllers rely on, over a table
    held as a sequence of rows: lookup by primary key, removal, key generation,
    filtering and ordering. */
module Tables {
  import opened Models

  /** No two rows of `s` share a primary key. */
  ghost predicate UniqueKeys<T>(s: seq<T>, key: T -> int)
  {
    forall i, j :: 0 <= i < |s| && 0 <= j < |s| && i != j ==> key(s[i]) != key(s[j])
  }

  /** Position of the first row whose key is `id` (a lookup by primary key), or None. */
  function FindIndex<T>(s: seq<T>, key: T -> int, id: int): (r: Option<nat>)
    ensures r.Some? ==> r.value < |s| && key(s[r.value]) == id
    ensures r.Some? ==> forall i :: 0 <= i < r.value ==> key(s[i]) != id
    ensures r.None? <==> forall i :: 0 <= i < |s| ==> key(s[i]) != id
  {
    if |s| == 0 then None
    else if key(s[0]) == id then Some(0)
    else match FindIndex(s[1..], key, id)
      case None => None
      case Some(k) => Some(k + 1)
  }

  /** `s` without the row at position `k`; the other rows keep their order. */
  function RemoveAt<T>(s: seq<T>, k: nat): (r: seq<T>)
    requires k < |s|
    ensures |r| == |s| - 1
    ensures forall i :: 0 <= i < k ==> r[i] == s[i]
    ensures forall i :: k <= i < |r| ==> r[i] == s[i + 1]
  {
    s[..k] + s[k + 1..]
  }

  /** A key greater than every key in `s`, as an auto-increment column hands out. */
  function FreshKey<T>(s: seq<T>, key: T -> int): (k: int)
    ensures k >= 1
    ensures forall i :: 0 <= i < |s| ==> key(s[i]) < k
  {
    if |s| == 0 then 1
    else
      var rest := FreshKey(s[..|s| - 1], key);
      var last := key(s[|s| - 1]);
      if last < rest then rest else last + 1
  }

  /** The rows of `s` that satisfy `keep`, in table order. */
  function Where<T(==, !new)>(s: seq<T>, keep: T -> bool): (r: seq<T>)
    ensures forall x :: multiset(r)[x] == if keep(x) then multiset(s)[x] else 0
    ensures forall x :: x in r <==> x in s && keep(x)
  {
    if |s| == 0 then []
    else
      var rest := Where(s[..|s| - 1], keep);
      var last := s[|s| - 1];
      assert s == s[..|s| - 1] + [last];
      if keep(last) then rest + [last] else rest
  }

  /** Rows ordered from the latest start to the earliest. */
  ghost predicate StartDescending(s: seq<Appointment>)
  {
    forall i, j :: 0 <= i < j < |s| ==> s[i].startTime >= s[j].startTime
  }

  /** Places `a` before the first row that starts no later than it. */
  function InsertByStartDescending(a: Appointment, s: seq<Appointment>): (r: seq<Appointment>)
    ensures multiset(r) == multiset(s) + multiset{a}
  {
    if s == [] || a.startTime >= s[0].startTime then [a] + s
    else
      assert s == [s[0]] + s[1..];
      [s[0]] + InsertByStartDescending(a, s[1..])
  }

  /** Inserting into a list ordered by descending start keeps it ordered. */
  lemma {:induction false} InsertKeepsStartDescending(a: Appointment, s: seq<Appointment>)
    requires StartDescending(s)
    ensures StartDescending(InsertByStartDescending(a, s))
  {
    if s == [] || a.startTime >= s[0].startTime {
      forall x | x in s
        ensures x.startTime <= a.startTime
      {
        var k :| 0 <= k < |s| && s[k] == x;
        assert k == 0 || s[0].startTime >= s[k].startTime;
      }
      PrependKeepsStartDescending(a, s);
    } else {
      var tail := s[1..];
      forall i, j | 0 <= i < j < |tail|
        ensures tail[i].startTime >= tail[j].startTime
      {
        assert tail[i] == s[i + 1] && tail[j] == s[j + 1];
      }
      InsertKeepsStartDescending(a, tail);
      var rest := InsertByStartDescending(a, tail);
      forall x | x in rest
        ensures x.startTime <= s[0].startTime
      {
        assert x in multiset(rest);
        assert x == a || x in tail;
      }
      PrependKeepsStartDescending(s[0], rest);
    }
  }

  /** A row that starts no earlier than every row of an ordered list may go in front. */
  lemma PrependKeepsStartDescending(b: Appointment, s: seq<Appointment>)
    requires StartDescending(s)
    requires forall x :: x in s ==> x.startTime <= b.startTime
    ensures StartDescending([b] + s)
  {
    var r := [b] + s;
    forall i, j | 0 <= i < j < |r|
      ensures r[i].startTime >= r[j].startTime
    {
      assert r[j] == s[j - 1];
      if i > 0 {
        assert r[i] == s[i - 1];
      }
    }
  }

  /** `s` ordered by descending start (ORDER BY StartTime DESC); rows with equal
      starts may come in either order. */
  function OrderByStartDescending(s: seq<Appointment>): (r: seq<Appointment>)
    ensures StartDescending(r)
    ensures multiset(r) == multiset(s)
  {
    if s == [] then []
    else
      assert s == [s[0]] + s[1..];
      var rest := OrderByStartDescending(s[1..]);
      InsertKeepsStartDescending(s[0], rest);
      InsertByStartDescending(s[0], rest)
  }

  /** Removing the row at `k` from a table with unique keys removes exactly the
      rows with that key and keeps the keys unique. */
  lemma {:induction false} RemoveKeyExactly<T>(s: seq<T>, key: T -> int, k: nat)
    requires UniqueKeys(s, key)
    requires k < |s|
    ensures UniqueKeys(RemoveAt(s, k), key)
    ensures forall x :: x in RemoveAt(s, k) <==> x in s && key(x) != key(s[k])
  {
    var r := RemoveAt(s, k);
    forall x | x in r
      ensures x in s && key(x) != key(s[k])
    {
      var i :| 0 <= i < |r| && r[i] == x;
      if i < k {
        assert s[i] == x;
      } else {
        assert s[i + 1] == x;
      }
    }
    forall x | x in s && key(x) != key(s[k])
      ensures x in r
    {
      var i :| 0 <= i < |s| && s[i] == x;
      if i < k {
        assert r[i] == x;
      } else {
        assert i != k;
        assert r[i - 1] == x;
      }
    }
    forall i, j | 0 <= i < |r| && 0 <= j < |r| && i != j
      ensures key(r[i]) != key(r[j])
    {
      var i' := if i < k then i else i + 1;
      var j' := if j < k then j else j + 1;
      assert r[i] == s[i'] && r[j] == s[j'];
    }
  }

  /** Filtering a table with unique keys keeps the keys unique. */
  lemma {:induction false} WhereKeepsUniqueKeys<T(!new)>(s: seq<T>, key: T -> int, keep: T -> bool)
    requires UniqueKeys(s, key)
    ensures UniqueKeys(Where(s, keep), key)
  {
    if |s| > 0 {
      var init := s[..|s| - 1];
      var last := s[|s| - 1];
      forall i, j | 0 <= i < |init| && 0 <= j < |init| && i != j
        ensures key(init[i]) != key(init[j])
      {
        assert init[i] == s[i] && init[j] == s[j];
      }
      WhereKeepsUniqueKeys(init, key, keep);
      var rest := Where(init, keep);
      if keep(last) {
        var r := rest + [last];
        forall x | x in rest
          ensures key(x) != key(last)
        {
          var k :| 0 <= k < |init| && init[k] == x;
          assert s[k] == x;
        }
        forall i, j | 0 <= i < |r| && 0 <= j < |r| && i != j
          ensures key(r[i]) != key(r[j])
        {
          if i < |rest| && j < |rest| {
            assert r[i] == rest[i] && r[j] == rest[j];
          } else if i < |rest| {
            assert r[i] == rest[i] && r[j] == last;
          } else {
            assert r[j] == rest[j] && r[i] == last;
          }
        }
      }
    }
  }

  /** Appending a row under a fresh key keeps the keys unique. */
  lemma AppendFreshKey<T>(s: seq<T>, key: T -> int, x: T)
    requires UniqueKeys(s, key)
    requires key(x) == FreshKey(s, key)
    ensures UniqueKeys(s + [x], key)
  {
  }
}
