/** In-memory tables standing for the SQLite store: ordered sequences of rows,
    each carrying the integer surrogate `_id` the engine assigns, and the
    set-difference-then-append step every loader is built from. */
module Tables {

  datatype Option<T> = None | Some(value: T)

  /** A stored row: its `_id` and the record held in its other columns. */
  datatype Row<T> = Row(id: int, rec: T)

  function RowId<T>(r: Row<T>): int { r.id }

  /** The records of a table, in row order. */
  function Recs<T>(t: seq<Row<T>>): (r: seq<T>)
    ensures |r| == |t|
    ensures forall i :: 0 <= i < |t| ==> r[i] == t[i].rec
  {
    seq(|t|, i requires 0 <= i < |t| => t[i].rec)
  }

  /** The set of keys that `key` gives to the elements of `s`. */
  function KeysOf<T(==), K(==)>(s: seq<T>, key: T -> K): set<K>
  {
    set x | x in s :: key(x)
  }

  /** No two elements of `s` share a key. */
  predicate KeysDistinct<T, K(==)>(s: seq<T>, key: T -> K)
  {
    forall i, j :: 0 <= i < j < |s| ==> key(s[i]) != key(s[j])
  }

  /** The `_id` primary key: no two rows share an id. */
  predicate UniqueIds<T>(t: seq<Row<T>>)
  {
    KeysDistinct(t, RowId)
  }

  /** A natural key (a function of the record) that no two rows share. */
  predicate NaturalKeyUnique<T, K(==)>(t: seq<Row<T>>, key: T -> K)
  {
    KeysDistinct(Recs(t), key)
  }

  /** `SELECT _id FROM t ORDER BY _id DESC` and the first row's id, or 0 when the
      table is empty. */
  function LastRowId<T>(t: seq<Row<T>>): (m: int)
    ensures |t| == 0 ==> m == 0
    ensures forall r :: r in t ==> r.id <= m
    ensures |t| > 0 ==> exists r :: r in t && r.id == m
    decreases |t|
  {
    if |t| == 0 then 0
    else
      var init := t[..|t| - 1];
      assert t == init + [t[|t| - 1]];
      if |t| == 1 || t[|t| - 1].id > LastRowId(init) then t[|t| - 1].id else LastRowId(init)
  }

  /** Appends one record under the rowid SQLite picks when none is given: one
      more than the largest stored `_id`, so 1 in an empty table. */
  function Insert<T>(t: seq<Row<T>>, rec: T): (r: seq<Row<T>>)
    ensures |r| == |t| + 1 && r[..|t|] == t && r[|t|].rec == rec
    ensures forall x :: x in t ==> x.id < r[|t|].id
    ensures LastRowId(r) == r[|t|].id == LastRowId(t) + 1
    ensures UniqueIds(t) ==> UniqueIds(r)
  {
    var r := t + [Row(LastRowId(t) + 1, rec)];
    assert r[..|t|] == t;
    assert forall i :: 0 <= i < |t| ==> t[i] in t;
    r
  }

  /** A multi-row INSERT: the records are appended in order, the k-th under
      rowid LastRowId(t) + 1 + k, which is what inserting them one at a time
      with `Insert` gives. */
  function InsertAll<T>(t: seq<Row<T>>, recs: seq<T>): (r: seq<Row<T>>)
    ensures |r| == |t| + |recs| && r[..|t|] == t
    ensures Recs(r) == Recs(t) + recs
    ensures UniqueIds(t) ==> UniqueIds(r)
  {
    var added := NewRows(LastRowId(t) + 1, recs);
    InsertAllShape(t, recs);
    InsertAllFacts(t, recs);
    t + added
  }

  /** The k-th appended record gets rowid LastRowId(t) + 1 + k. */
  lemma InsertAllNumbers<T>(t: seq<Row<T>>, recs: seq<T>)
    ensures var r := InsertAll(t, recs);
      forall k :: 0 <= k < |recs| ==> r[|t| + k] == Row(LastRowId(t) + 1 + k, recs[k])
  {
    InsertAllShape(t, recs);
  }

  /** The rows `recs` get when numbered from `first` on. */
  function NewRows<T>(first: int, recs: seq<T>): seq<Row<T>>
  {
    seq(|recs|, k requires 0 <= k < |recs| => Row(first + k, recs[k]))
  }

  lemma InsertAllShape<T>(t: seq<Row<T>>, recs: seq<T>)
    ensures var r := t + NewRows(LastRowId(t) + 1, recs);
      && |r| == |t| + |recs| && r[..|t|] == t
      && (forall k :: 0 <= k < |recs| ==> r[|t| + k] == Row(LastRowId(t) + 1 + k, recs[k]))
  {
    var added := NewRows(LastRowId(t) + 1, recs);
    var r := t + added;
    assert r[..|t|] == t;
    forall k | 0 <= k < |recs| ensures r[|t| + k] == added[k] {
    }
  }

  lemma InsertAllFacts<T>(t: seq<Row<T>>, recs: seq<T>)
    ensures var r := t + NewRows(LastRowId(t) + 1, recs);
      && Recs(r) == Recs(t) + recs
      && (UniqueIds(t) ==> UniqueIds(r))
  {
    var last := LastRowId(t);
    var added := NewRows(last + 1, recs);
    var r := t + added;
    assert Recs(r) == Recs(t) + recs by {
      forall i | 0 <= i < |r| ensures Recs(r)[i] == (Recs(t) + recs)[i] {
        if i < |t| {
          assert r[i] == t[i];
        } else {
          assert r[i] == added[i - |t|];
        }
      }
    }
    if UniqueIds(t) {
      forall i, j | 0 <= i < j < |r| ensures r[i].id != r[j].id {
        if j < |t| {
          assert r[i] == t[i] && r[j] == t[j];
        } else if i < |t| {
          assert r[i] == t[i] && t[i] in t;
          assert r[j] == added[j - |t|];
        } else {
          assert r[i] == added[i - |t|] && r[j] == added[j - |t|];
        }
      }
    }
  }

  /** The elements of `s`, in order, whose key is not in `ks` (a filter such as
      `~df[key].isin(ks)` or a `DELETE ... WHERE key = ...`). */
  function ExcludeKeys<T(!new), K(==)>(s: seq<T>, key: T -> K, ks: set<K>): (r: seq<T>)
    ensures forall x :: x in r <==> x in s && key(x) !in ks
    ensures |r| <= |s|
    ensures |r| == |s| <==> forall x :: x in s ==> key(x) !in ks
    ensures ks == {} ==> r == s
    ensures (forall x :: x in s ==> key(x) in ks) ==> r == []
    decreases |s|
  {
    if |s| == 0 then []
    else
      var init := s[..|s| - 1];
      assert s == init + [s[|s| - 1]];
      if key(s[|s| - 1]) in ks then ExcludeKeys(init, key, ks)
      else ExcludeKeys(init, key, ks) + [s[|s| - 1]]
  }

  /** Filtering out keys no element has keeps the sequence as it is. */
  lemma {:induction false} ExcludeKeysNone<T(!new), K>(s: seq<T>, key: T -> K, ks: set<K>)
    requires forall x :: x in s ==> key(x) !in ks
    ensures ExcludeKeys(s, key, ks) == s
    decreases |s|
  {
    if |s| > 0 {
      var init := s[..|s| - 1];
      assert s == init + [s[|s| - 1]];
      assert s[|s| - 1] in s;
      forall x | x in init ensures key(x) !in ks {
        assert x in s;
      }
      ExcludeKeysNone(init, key, ks);
    }
  }

  /** Filtering works element by element and keeps the order: a filtered
      concatenation is the concatenation of the filtered parts, and one element
      stays exactly when its key is not excluded. */
  lemma {:induction false} ExcludeKeysConcat<T(!new), K>(a: seq<T>, b: seq<T>, key: T -> K, ks: set<K>)
    ensures ExcludeKeys(a + b, key, ks) == ExcludeKeys(a, key, ks) + ExcludeKeys(b, key, ks)
    decreases |b|
  {
    if |b| == 0 {
      assert a + b == a;
    } else {
      var n := |b| - 1;
      var init := b[..n];
      var last := if key(b[n]) in ks then [] else [b[n]];
      var ea, ei := ExcludeKeys(a, key, ks), ExcludeKeys(init, key, ks);
      assert ExcludeKeys(b, key, ks) == ei + last by {
        assert b == init + [b[n]];
        ExcludeKeysSnoc(init, b[n], key, ks);
      }
      assert ExcludeKeys(a + b, key, ks) == ExcludeKeys(a + init, key, ks) + last by {
        assert b == init + [b[n]];
        ConcatAssoc(a, init, [b[n]]);
        ExcludeKeysSnoc(a + init, b[n], key, ks);
      }
      assert ExcludeKeys(a + init, key, ks) == ea + ei by {
        ExcludeKeysConcat(a, init, key, ks);
      }
      ConcatAssoc(ea, ei, last);
    }
  }

  lemma ConcatAssoc<T>(a: seq<T>, b: seq<T>, c: seq<T>)
    ensures (a + b) + c == a + (b + c)
  {
  }

  /** An element added at the end stays, at the end, exactly when its key is
      not excluded. */
  lemma ExcludeKeysSnoc<T(!new), K>(s: seq<T>, x: T, key: T -> K, ks: set<K>)
    ensures ExcludeKeys(s + [x], key, ks) == ExcludeKeys(s, key, ks) + (if key(x) in ks then [] else [x])
  {
    assert (s + [x])[..|s|] == s;
  }

  lemma ExcludeKeysSingleton<T(!new), K>(x: T, key: T -> K, ks: set<K>)
    ensures ExcludeKeys([x], key, ks) == if key(x) in ks then [] else [x]
  {
    assert [x][..0] == [];
  }

  /** `drop_duplicates` / `unique()`: the first element of `s` with each key, in
      the order of those first occurrences. */
  function DistinctBy<T(==), K(==)>(s: seq<T>, key: T -> K): (r: seq<T>)
    ensures KeysDistinct(r, key)
    ensures KeysOf(r, key) == KeysOf(s, key)
    ensures forall x :: x in r ==> x in s
    ensures |r| <= |s|
    decreases |s|
  {
    if |s| == 0 then []
    else
      var init := s[..|s| - 1];
      var x := s[|s| - 1];
      assert s == init + [x];
      var d := DistinctBy(init, key);
      KeysOfConcat(init, [x], key);
      if key(x) in KeysOf(init, key) then d
      else
        KeysOfConcat(d, [x], key);
        assert forall y :: y in d ==> key(y) in KeysOf(init, key);
        d + [x]
  }

  /** Where equal keys mean equal elements, `DistinctBy` drops only repeats. */
  lemma DistinctByKeepsAll<T, K>(s: seq<T>, key: T -> K)
    requires forall x, y :: x in s && y in s && key(x) == key(y) ==> x == y
    ensures forall x :: x in DistinctBy(s, key) <==> x in s
  {
    var r := DistinctBy(s, key);
    forall x | x in s ensures x in r {
      assert key(x) in KeysOf(r, key);
      var y :| y in r && key(y) == key(x);
    }
  }

  function Identity<T>(x: T): T { x }

  /** `unique()` on plain values. */
  function Distinct<T(==)>(s: seq<T>): seq<T>
  {
    DistinctBy(s, Identity)
  }

  /** The whole reconciliation step on one entity table: the candidates whose
      natural key is not stored yet are appended (all of them when the read of
      the stored keys failed). */
  function AppendMissing<T(==,!new), K(==)>(t: seq<Row<T>>, cands: seq<T>, key: T -> K, readFails: bool): (r: seq<Row<T>>)
    ensures |r| >= |t| && r[..|t|] == t
    ensures UniqueIds(t) ==> UniqueIds(r)
  {
    if readFails then InsertAll(t, cands)
    else InsertAll(t, ExcludeKeys(cands, key, KeysOf(Recs(t), key)))
  }

  /** What the step appends: every candidate when the read failed, otherwise
      exactly the candidates with a key not stored yet; so afterwards the
      stored keys are the old ones plus the candidates', no key is doubled
      without a failed read, and a step whose candidates are all stored
      changes nothing. */
  lemma AppendMissingSpec<T(!new), K>(t: seq<Row<T>>, cands: seq<T>, key: T -> K, readFails: bool)
    ensures var r := AppendMissing(t, cands, key, readFails);
      && (readFails ==> Recs(r) == Recs(t) + cands)
      && (!readFails ==> forall x :: x in Recs(r)[|t|..] <==> x in cands && key(x) !in KeysOf(Recs(t), key))
      && (!readFails ==> Recs(r)[|t|..] == ExcludeKeys(cands, key, KeysOf(Recs(t), key)))
      && KeysOf(Recs(r), key) == KeysOf(Recs(t), key) + KeysOf(cands, key)
      && (!readFails && NaturalKeyUnique(t, key) && KeysDistinct(cands, key) ==> NaturalKeyUnique(r, key))
      && (!readFails && KeysOf(cands, key) <= KeysOf(Recs(t), key) ==> r == t)
  {
    if readFails {
      KeysOfConcat(Recs(t), cands, key);
    } else {
      AppendMissingFacts(t, cands, key);
    }
  }

  /** Each appended row holds a candidate, and without a failed read one
      whose key was not stored. */
  lemma AppendMissingRows<T(!new), K>(t: seq<Row<T>>, cands: seq<T>, key: T -> K, readFails: bool)
    ensures var r := AppendMissing(t, cands, key, readFails);
      forall i :: |t| <= i < |r| ==>
        r[i].rec in cands && (!readFails ==> key(r[i].rec) !in KeysOf(Recs(t), key))
  {
    var r := AppendMissing(t, cands, key, readFails);
    AppendMissingSpec(t, cands, key, readFails);
    forall i | |t| <= i < |r|
      ensures r[i].rec in cands && (!readFails ==> key(r[i].rec) !in KeysOf(Recs(t), key))
    {
      assert r[i].rec == Recs(r)[i];
      if readFails {
        assert Recs(r)[i] == cands[i - |t|];
      } else {
        assert Recs(r)[i] in Recs(r)[|t|..];
      }
    }
  }

  lemma AppendMissingFacts<T(!new), K>(t: seq<Row<T>>, cands: seq<T>, key: T -> K)
    ensures var r := InsertAll(t, ExcludeKeys(cands, key, KeysOf(Recs(t), key)));
      && (forall x :: x in Recs(r)[|t|..] <==> x in cands && key(x) !in KeysOf(Recs(t), key))
      && Recs(r)[|t|..] == ExcludeKeys(cands, key, KeysOf(Recs(t), key))
      && KeysOf(Recs(r), key) == KeysOf(Recs(t), key) + KeysOf(cands, key)
      && (NaturalKeyUnique(t, key) && KeysDistinct(cands, key) ==> NaturalKeyUnique(r, key))
      && (KeysOf(cands, key) <= KeysOf(Recs(t), key) ==> r == t)
  {
    var stored := KeysOf(Recs(t), key);
    var added := ExcludeKeys(cands, key, stored);
    var r := InsertAll(t, added);
    assert Recs(r) == Recs(t) + added;
    assert Recs(r)[|t|..] == added;
    assert KeysOf(Recs(r), key) == stored + KeysOf(cands, key) by {
      KeysOfConcat(Recs(t), added, key);
      ExcludeKeysCovers(cands, key, stored);
      assert KeysOf(added, key) <= KeysOf(cands, key);
    }
    assert NaturalKeyUnique(t, key) && KeysDistinct(cands, key) ==> NaturalKeyUnique(r, key) by {
      if NaturalKeyUnique(t, key) && KeysDistinct(cands, key) {
        ExcludeKeysKeepsDistinct(cands, key, stored, key);
        KeysDistinctConcat(Recs(t), added, key);
      }
    }
    assert KeysOf(cands, key) <= stored ==> r == t by {
      if KeysOf(cands, key) <= stored {
        assert |added| == 0 by {
          forall x | x in cands ensures key(x) in stored {
            assert key(x) in KeysOf(cands, key);
          }
        }
      }
    }
  }

  lemma KeysOfConcat<T, K>(a: seq<T>, b: seq<T>, key: T -> K)
    ensures KeysOf(a + b, key) == KeysOf(a, key) + KeysOf(b, key)
  {
    forall k | k in KeysOf(a + b, key) ensures k in KeysOf(a, key) + KeysOf(b, key) {
      var x :| x in a + b && key(x) == k;
    }
    forall k | k in KeysOf(a, key) + KeysOf(b, key) ensures k in KeysOf(a + b, key) {
      if k in KeysOf(a, key) {
        var x :| x in a && key(x) == k;
        assert x in a + b;
      } else {
        var x :| x in b && key(x) == k;
        assert x in a + b;
      }
    }
  }

  lemma KeysOfSingleton<T, K>(x: T, key: T -> K)
    ensures KeysOf([x], key) == {key(x)}
  {
    assert x in [x];
  }

  /** The keys `ExcludeKeys` leaves, together with the excluded ones, are all
      the keys of the input. */
  lemma ExcludeKeysCovers<T(!new), K>(s: seq<T>, key: T -> K, ks: set<K>)
    ensures KeysOf(s, key) <= KeysOf(ExcludeKeys(s, key, ks), key) + ks
  {
    forall k | k in KeysOf(s, key) ensures k in KeysOf(ExcludeKeys(s, key, ks), key) + ks {
      var x :| x in s && key(x) == k;
      if k !in ks {
        assert x in ExcludeKeys(s, key, ks);
      }
    }
  }

  /** Filtering keeps every distinctness the input had, under any key. */
  lemma {:induction false} ExcludeKeysKeepsDistinct<T(!new), K, J>(s: seq<T>, key: T -> K, ks: set<K>, other: T -> J)
    requires KeysDistinct(s, other)
    ensures KeysDistinct(ExcludeKeys(s, key, ks), other)
    decreases |s|
  {
    if |s| > 0 {
      var init := s[..|s| - 1];
      var x := s[|s| - 1];
      assert s == init + [x];
      assert KeysDistinct(init, other);
      ExcludeKeysKeepsDistinct(init, key, ks, other);
      var e := ExcludeKeys(init, key, ks);
      if key(x) !in ks {
        forall i | 0 <= i < |e| ensures other(e[i]) != other(x) {
          assert e[i] in init;
          var j :| 0 <= j < |init| && init[j] == e[i];
          assert s[j] == e[i];
        }
        assert ExcludeKeys(s, key, ks) == e + [x];
      }
    }
  }

  /** Two sequences concatenate without a repeated key exactly when each has
      none and they share none. */
  lemma KeysDistinctConcat<T, K>(a: seq<T>, b: seq<T>, key: T -> K)
    ensures KeysDistinct(a + b, key) <==>
      KeysDistinct(a, key) && KeysDistinct(b, key) && KeysOf(a, key) !! KeysOf(b, key)
  {
    var c := a + b;
    if KeysDistinct(c, key) {
      forall i, j | 0 <= i < j < |b| ensures key(b[i]) != key(b[j]) {
        assert c[|a| + i] == b[i] && c[|a| + j] == b[j];
      }
      forall i, j | 0 <= i < j < |a| ensures key(a[i]) != key(a[j]) {
        assert c[i] == a[i] && c[j] == a[j];
      }
      forall x, y | x in a && y in b ensures key(x) != key(y) {
        var i :| 0 <= i < |a| && a[i] == x;
        var j :| 0 <= j < |b| && b[j] == y;
        assert c[i] == x && c[|a| + j] == y;
      }
    }
    if KeysDistinct(a, key) && KeysDistinct(b, key) && KeysOf(a, key) !! KeysOf(b, key) {
      forall i, j | 0 <= i < j < |c| ensures key(c[i]) != key(c[j]) {
        if j < |a| {
          assert c[i] == a[i] && c[j] == a[j];
        } else if i >= |a| {
          assert c[i] == b[i - |a|] && c[j] == b[j - |a|];
        } else {
          assert c[i] == a[i] && c[j] == b[j - |a|];
          assert key(a[i]) in KeysOf(a, key);
          assert key(b[j - |a|]) in KeysOf(b, key);
        }
      }
    }
  }

  /** Every first occurrence of a key in `s` survives deduplication. */
  lemma {:induction false} DistinctByKeepsFirst<T, K>(s: seq<T>, key: T -> K, i: int)
    requires 0 <= i < |s| && key(s[i]) !in KeysOf(s[..i], key)
    ensures s[i] in DistinctBy(s, key)
    decreases |s|
  {
    var init := s[..|s| - 1];
    assert s == init + [s[|s| - 1]];
    if i < |s| - 1 {
      assert init[..i] == s[..i];
      DistinctByKeepsFirst(init, key, i);
    } else {
      assert s[..i] == init;
    }
  }

  /** Only first occurrences survive deduplication: what is kept is an element
      of `s` whose key no earlier element has. */
  lemma {:induction false} DistinctByOnlyFirst<T, K>(s: seq<T>, key: T -> K, x: T)
    requires x in DistinctBy(s, key)
    ensures exists i :: 0 <= i < |s| && s[i] == x && key(x) !in KeysOf(s[..i], key)
    decreases |s|
  {
    assert |s| > 0;
    var n := |s| - 1;
    var init := s[..n];
    assert s == init + [s[n]];
    if x in DistinctBy(init, key) {
      DistinctByOnlyFirst(init, key, x);
      var i :| 0 <= i < n && init[i] == x && key(x) !in KeysOf(init[..i], key);
      assert init[..i] == s[..i];
      assert s[i] == x;
    } else {
      assert x == s[n] && key(x) !in KeysOf(init, key);
    }
  }

  /** Deduplicating a prefix gives a prefix of the deduplicated whole: the output
      keeps the input's order. */
  lemma {:induction false} DistinctByPrefix<T, K>(s: seq<T>, key: T -> K, n: int)
    requires 0 <= n <= |s|
    ensures DistinctBy(s[..n], key) <= DistinctBy(s, key)
    decreases |s|
  {
    if n < |s| {
      var init := s[..|s| - 1];
      assert s == init + [s[|s| - 1]];
      assert init[..n] == s[..n];
      DistinctByPrefix(init, key, n);
    } else {
      assert s[..n] == s;
    }
  }

  /** `dict(zip(keys, ids))` over the rows of a table in order: a key maps to
      the id of the LAST row that has it (`IdIndexSpec`). */
  function IdIndex<T, K(==)>(t: seq<Row<T>>, key: T -> K): map<K, int>
    decreases |t|
  {
    if |t| == 0 then map[]
    else IdIndex(t[..|t| - 1], key)[key(t[|t| - 1].rec) := t[|t| - 1].id]
  }

  /** The index holds exactly the stored keys, each mapped to the id of the
      last row with that key. */
  lemma {:induction false} IdIndexSpec<T, K>(t: seq<Row<T>>, key: T -> K)
    ensures var m := IdIndex(t, key);
      && m.Keys == KeysOf(Recs(t), key)
      && forall k :: k in m ==>
        exists i :: 0 <= i < |t| && key(t[i].rec) == k && t[i].id == m[k] && forall j :: i < j < |t| ==> key(t[j].rec) != k
    decreases |t|
  {
    if |t| > 0 {
      var n := |t| - 1;
      IdIndexSpec(t[..n], key);
      var m0 := IdIndex(t[..n], key);
      var m := IdIndex(t, key);
      assert Recs(t) == Recs(t[..n]) + [t[n].rec];
      KeysOfConcat(Recs(t[..n]), [t[n].rec], key);
      KeysOfSingleton(t[n].rec, key);
      forall k | k in m ensures
        exists i :: 0 <= i < |t| && key(t[i].rec) == k && t[i].id == m[k] && forall j :: i < j < |t| ==> key(t[j].rec) != k
      {
        if k == key(t[n].rec) {
          assert key(t[n].rec) == k && t[n].id == m[k];
        } else {
          assert k in m0;
          var i :| 0 <= i < n && key(t[..n][i].rec) == k && t[..n][i].id == m0[k]
            && forall j :: i < j < n ==> key(t[..n][j].rec) != k;
          assert t[..n][i] == t[i];
          forall j | i < j < |t| ensures key(t[j].rec) != k {
            if j < n {
              assert t[..n][j] == t[j];
            }
          }
        }
      }
    }
  }

  /** `d.get(k)`. */
  function Lookup<K(==)>(m: map<K, int>, k: K): Option<int>
  {
    if k in m then Some(m[k]) else None
  }

  /** A stored key is found by the index, at a row that has it. */
  lemma IdIndexFinds<T, K>(t: seq<Row<T>>, key: T -> K, k: K)
    requires k in KeysOf(Recs(t), key)
    ensures Lookup(IdIndex(t, key), k).Some?
    ensures exists r :: r in t && key(r.rec) == k && r.id == Lookup(IdIndex(t, key), k).value
  {
    var m := IdIndex(t, key);
    IdIndexSpec(t, key);
    var i :| 0 <= i < |t| && key(t[i].rec) == k && t[i].id == m[k] && forall j :: i < j < |t| ==> key(t[j].rec) != k;
    assert t[i] in t;
  }

  /** Under a unique natural key the index gives the one row with the key. */
  lemma IdIndexUnique<T, K>(t: seq<Row<T>>, key: T -> K, i: int)
    requires NaturalKeyUnique(t, key) && 0 <= i < |t|
    ensures Lookup(IdIndex(t, key), key(t[i].rec)) == Some(t[i].id)
  {
    var m := IdIndex(t, key);
    var k := key(t[i].rec);
    IdIndexSpec(t, key);
    assert k in KeysOf(Recs(t), key) by {
      assert Recs(t)[i] == t[i].rec;
    }
    var i' :| 0 <= i' < |t| && key(t[i'].rec) == k && t[i'].id == m[k]
      && forall j :: i' < j < |t| ==> key(t[j].rec) != k;
    assert Recs(t)[i] == t[i].rec && Recs(t)[i'] == t[i'].rec;
  }
}
