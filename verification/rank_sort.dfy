/** `sort_values(by=col, ascending=False)`: rows ordered by a column's value,
    largest first, with missing values last (pandas' default `na_position`).
    The pandas default algorithm is not stable, so only the order of the
    values and the permutation are specified, not the order among ties. */
module RankSort {
  import opened Seqs
  import opened Frame

  /** A row with key `a` may come before a row with key `b` in a descending
      sort: `b` is missing, or both are present and `a >= b`. */
  predicate RanksBefore(a: Option<real>, b: Option<real>) {
    b.None? || (a.Some? && a.value >= b.value)
  }

  /** Every row may come before every later row: values never increase
      and no value follows a missing one. */
  ghost predicate SortedDescending(rows: seq<Row>, key: string) {
    forall i, j :: 0 <= i < j < |rows| ==> RanksBefore(NumAt(rows[i], key), NumAt(rows[j], key))
  }

  /** `x` may come before every row of `rows`. */
  ghost predicate RanksBeforeAll(x: Row, rows: seq<Row>, key: string) {
    forall y :: y in rows ==> RanksBefore(NumAt(x, key), NumAt(y, key))
  }

  /** `x` placed into a sorted sequence, after the rows that may precede it. */
  function Insert(x: Row, rows: seq<Row>, key: string): (r: seq<Row>)
    requires SortedDescending(rows, key)
    ensures SortedDescending(r, key)
    ensures multiset(r) == multiset(rows) + multiset{x}
  {
    if rows == [] then [x]
    else if RanksBefore(NumAt(x, key), NumAt(rows[0], key)) then
      assert RanksBeforeAll(rows[0], rows[1..], key) by {
        forall y | y in rows[1..] ensures RanksBefore(NumAt(rows[0], key), NumAt(y, key)) {
          var j :| 0 <= j < |rows[1..]| && rows[1..][j] == y;
          assert rows[j + 1] == y;
        }
      }
      [x] + rows
    else
      var rest := Insert(x, rows[1..], key);
      assert RanksBeforeAll(rows[0], rest, key) by {
        forall y | y in rest ensures RanksBefore(NumAt(rows[0], key), NumAt(y, key)) {
          assert y in multiset(rest);
          if y != x {
            assert y in multiset(rows[1..]);
            var j :| 0 <= j < |rows[1..]| && rows[1..][j] == y;
            assert rows[j + 1] == y;
          }
        }
      }
      assert rows == [rows[0]] + rows[1..];
      [rows[0]] + rest
  }

  /** The rows sorted by `key`, descending (insertion sort). */
  function SortDescending(rows: seq<Row>, key: string): (r: seq<Row>)
    ensures SortedDescending(r, key)
    ensures multiset(r) == multiset(rows)
  {
    if rows == [] then []
    else
      assert rows == [rows[0]] + rows[1..];
      Insert(rows[0], SortDescending(rows[1..], key), key)
  }

  /** Removing one row keeps a sorted sequence sorted. */
  lemma SortedRemove(rows: seq<Row>, j: nat, key: string)
    requires SortedDescending(rows, key)
    requires j < |rows|
    ensures SortedDescending(rows[..j] + rows[j + 1..], key)
  {
    var rest := rows[..j] + rows[j + 1..];
    forall p, q | 0 <= p < q < |rest|
      ensures RanksBefore(NumAt(rest[p], key), NumAt(rest[q], key))
    {
      var p' := if p < j then p else p + 1;
      var q' := if q < j then q else q + 1;
      assert rest[p] == rows[p'] && rest[q] == rows[q'];
    }
  }

  /** Two sorted arrangements of the same rows start with the same key. */
  lemma FirstKeyAgrees(a: seq<Row>, b: seq<Row>, key: string)
    requires SortedDescending(a, key) && SortedDescending(b, key)
    requires multiset(a) == multiset(b)
    requires a != []
    ensures b != [] && NumAt(a[0], key) == NumAt(b[0], key)
  {
    assert a[0] in multiset(b);
    var m :| 0 <= m < |b| && b[m] == a[0];
    assert b[0] in multiset(a);
    var n :| 0 <= n < |a| && a[n] == b[0];
    assert RanksBefore(NumAt(a[0], key), NumAt(b[0], key)) by {
      if n > 0 { assert NumAt(b[0], key) == NumAt(a[n], key); }
    }
    assert RanksBefore(NumAt(b[0], key), NumAt(a[0], key)) by {
      if m > 0 { assert NumAt(a[0], key) == NumAt(b[m], key); }
    }
  }

  /** The sort is not stable, yet the key column it produces is determined:
      any two sorted arrangements of the same rows agree on it position by
      position, and differ at most in the order of rows with equal keys. */
  lemma {:induction false} SortedKeysAgree(a: seq<Row>, b: seq<Row>, key: string)
    requires SortedDescending(a, key) && SortedDescending(b, key)
    requires multiset(a) == multiset(b)
    ensures |a| == |b|
    ensures forall i :: 0 <= i < |a| ==> NumAt(a[i], key) == NumAt(b[i], key)
    decreases |a|
  {
    assert |a| == |multiset(a)| == |multiset(b)| == |b|;
    if a != [] {
      FirstKeyAgrees(a, b, key);
      assert a[0] in multiset(b);
      var j :| 0 <= j < |b| && b[j] == a[0];
      var rest := b[..j] + b[j + 1..];
      MultisetRemove(a, b, j);
      assert SortedDescending(a[1..], key) by {
        forall p, q | 0 <= p < q < |a| - 1
          ensures RanksBefore(NumAt(a[1..][p], key), NumAt(a[1..][q], key))
        {
          assert a[1..][p] == a[p + 1] && a[1..][q] == a[q + 1];
        }
      }
      SortedRemove(b, j, key);
      SortedKeysAgree(a[1..], rest, key);
      KeysAfterRemoval(a, b, j, key);
    }
  }

  /** Taking the same row out of two arrangements of the same rows leaves
      arrangements of the same rows. */
  lemma MultisetRemove(a: seq<Row>, b: seq<Row>, j: nat)
    requires multiset(a) == multiset(b)
    requires a != [] && j < |b| && b[j] == a[0]
    ensures multiset(a[1..]) == multiset(b[..j] + b[j + 1..])
  {
    var rest := b[..j] + b[j + 1..];
    assert a == [a[0]] + a[1..];
    assert multiset(a) == multiset{a[0]} + multiset(a[1..]);
    assert b == b[..j] + [b[j]] + b[j + 1..];
    assert multiset(b) == multiset(b[..j]) + multiset{b[j]} + multiset(b[j + 1..]);
    assert multiset(rest) == multiset(b[..j]) + multiset(b[j + 1..]);
    assert multiset(a[1..]) == multiset(a) - multiset{a[0]};
    assert multiset(rest) == multiset(b) - multiset{b[j]};
  }

  /** The inductive step of SortedKeysAgree: when `a` without its first row
      and `b` without its row `j` agree on the key, and that row carries the
      top key of `b`, then `a` and `b` agree on the key. */
  lemma KeysAfterRemoval(a: seq<Row>, b: seq<Row>, j: nat, key: string)
    requires SortedDescending(b, key)
    requires 0 < |a| == |b| && j < |b|
    requires NumAt(a[0], key) == NumAt(b[0], key) == NumAt(b[j], key)
    requires var rest := b[..j] + b[j + 1..];
      forall i :: 0 <= i < |a| - 1 ==> NumAt(a[1..][i], key) == NumAt(rest[i], key)
    ensures forall i :: 0 <= i < |a| ==> NumAt(a[i], key) == NumAt(b[i], key)
  {
    var top := NumAt(a[0], key);
    var rest := b[..j] + b[j + 1..];
    forall i | 0 <= i < |a| ensures NumAt(a[i], key) == NumAt(b[i], key) {
      if i == 0 {
      } else {
        assert NumAt(a[i], key) == NumAt(rest[i - 1], key) by {
          assert a[1..][i - 1] == a[i];
        }
        if i <= j {
          // b[0], ..., b[j] lie between two rows whose key is `top`.
          assert NumAt(b[i], key) == top by {
            assert RanksBefore(NumAt(b[0], key), NumAt(b[i], key));
            assert i < j ==> RanksBefore(NumAt(b[i], key), NumAt(b[j], key));
          }
          assert NumAt(b[i - 1], key) == top by {
            assert i - 1 > 0 ==> RanksBefore(NumAt(b[0], key), NumAt(b[i - 1], key));
            assert RanksBefore(NumAt(b[i - 1], key), NumAt(b[j], key));
          }
          assert rest[i - 1] == b[i - 1];
        } else {
          assert rest[i - 1] == b[i];
        }
      }
    }
  }
}
