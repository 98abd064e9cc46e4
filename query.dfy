/**
 * The pieces of a single-table SELECT, on a table held as a sequence of rows:
 * `WHERE` (Where), `ORDER BY` (OrderBy), `fetchone` (First), and a primary key
 * (UniqueBy).
 */
module Query {
  import opened Wrappers

  /** An integer `sqlite3` can bind as a parameter: a signed 64-bit value.
      Binding any other integer raises an overflow error before the statement runs. */
  predicate Bindable(x: int)
  {
    -0x8000_0000_0000_0000 <= x < 0x8000_0000_0000_0000
  }

  /** The rows that satisfy `keep`, each as often as it is stored, in storage order. */
  function Where<T(!new)>(s: seq<T>, keep: T -> bool): (r: seq<T>)
    ensures forall x :: multiset(r)[x] == if keep(x) then multiset(s)[x] else 0
  {
    if s == [] then []
    else
      assert s == [s[0]] + s[1..];
      if keep(s[0]) then [s[0]] + Where(s[1..], keep) else Where(s[1..], keep)
  }

  /** Two conditions that agree on every stored row select the same rows. */
  lemma {:induction false} WhereSame<T(!new)>(s: seq<T>, keep: T -> bool, keep': T -> bool)
    requires forall x :: x in s ==> keep(x) == keep'(x)
    ensures Where(s, keep) == Where(s, keep')
  {
    if s != [] {
      WhereSame(s[1..], keep, keep');
    }
  }

  /** A condition every stored row satisfies selects the table as stored. */
  lemma {:induction false} WhereAll<T(!new)>(s: seq<T>, keep: T -> bool)
    requires forall x :: x in s ==> keep(x)
    ensures Where(s, keep) == s
  {
    if s != [] {
      WhereAll(s[1..], keep);
      assert s == [s[0]] + s[1..];
    }
  }

  /** `fetchone`: the first row of a result, or none. */
  function First<T>(s: seq<T>): Option<T>
  {
    if s == [] then None else Some(s[0])
  }

  ghost predicate TotalPreorder<T(!new)>(le: (T, T) -> bool)
  {
    && (forall a, b :: le(a, b) || le(b, a))
    && (forall a, b, c :: le(a, b) && le(b, c) ==> le(a, c))
  }

  ghost predicate SortedBy<T>(s: seq<T>, le: (T, T) -> bool)
  {
    forall i, j :: 0 <= i < j < |s| ==> le(s[i], s[j])
  }

  /** Places `x` into the sorted `s` after every row that sorts before it. */
  function Insert<T(!new)>(x: T, s: seq<T>, le: (T, T) -> bool): (r: seq<T>)
    requires TotalPreorder(le) && SortedBy(s, le)
    ensures SortedBy(r, le)
    ensures multiset(r) == multiset(s) + multiset{x}
  {
    if s == [] then [x]
    else if le(x, s[0]) then [x] + s
    else
      assert s == [s[0]] + s[1..];
      var rest := Insert(x, s[1..], le);
      assert forall k :: 0 <= k < |rest| ==> le(s[0], rest[k]) by {
        forall k | 0 <= k < |rest|
          ensures le(s[0], rest[k])
        {
          assert rest[k] in multiset(rest);
          if rest[k] != x {
            assert rest[k] in multiset(s[1..]);
          }
        }
      }
      [s[0]] + rest
  }

  /** `ORDER BY`: the rows of `s`, rearranged so that `le` holds between any two in order.
      Rows that `le` ranks equal may come out in either order. */
  function OrderBy<T(!new)>(s: seq<T>, le: (T, T) -> bool): (r: seq<T>)
    requires TotalPreorder(le)
    ensures SortedBy(r, le)
    ensures multiset(r) == multiset(s)
  {
    if s == [] then []
    else
      assert s == [s[0]] + s[1..];
      Insert(s[0], OrderBy(s[1..], le), le)
  }

  /** No two rows share a `key`: the key is the table's primary key. */
  ghost predicate UniqueBy<T, K>(s: seq<T>, key: T -> K)
  {
    forall i, j :: 0 <= i < j < |s| ==> key(s[i]) != key(s[j])
  }

  /** In a table with a primary key, no row is stored twice. */
  lemma {:induction false} UniqueRowsOnce<T, K>(s: seq<T>, key: T -> K, x: T)
    requires UniqueBy(s, key)
    ensures multiset(s)[x] <= 1
  {
    if s != [] {
      assert s == [s[0]] + s[1..];
      UniqueRowsOnce(s[1..], key, x);
      if s[0] == x {
        assert x !in s[1..] by {
          forall k | 0 <= k < |s[1..]|
            ensures s[1..][k] != x
          {
            assert key(s[0]) != key(s[k + 1]);
          }
        }
      }
    }
  }

  /** Every selection or rearrangement of a table with a primary key keeps it a key. */
  lemma SubMultisetKeepsUnique<T, K>(s: seq<T>, r: seq<T>, key: T -> K)
    requires UniqueBy(s, key)
    requires multiset(r) <= multiset(s)
    ensures UniqueBy(r, key)
  {
    forall i, j | 0 <= i < j < |r|
      ensures key(r[i]) != key(r[j])
    {
      if r[i] == r[j] {
        assert r == r[..j] + r[j..];
        assert r[i] in multiset(r[..j]) && r[j] in multiset(r[j..]);
        assert multiset(r)[r[i]] >= 2;
        UniqueRowsOnce(s, key, r[i]);
      } else {
        assert r[i] in multiset(s) && r[j] in multiset(s);
        var i' :| 0 <= i' < |s| && s[i'] == r[i];
        var j' :| 0 <= j' < |s| && s[j'] == r[j];
        if i' < j' {
          assert key(s[i']) != key(s[j']);
        } else {
          assert key(s[j']) != key(s[i']);
        }
      }
    }
  }
}
