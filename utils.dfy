/** `results_to_dataframe`: the table built from a list of result dicts, with
    the known columns moved to the front. */
module Utils {
  import opened Wrappers
  import opened Records

  /** The column names `results_to_dataframe` puts first, in this order. */
  const CanonicalColumns: seq<string> := [
    "file_name", "title", "authors", "publication_year", "journal_or_conference",
    "research_objective", "methodology", "key_findings", "limitations", "error"]

  /** A DataFrame: its column labels in order and, per row, the value under each
      column (Null where the record had no such key). */
  datatype Frame = Frame(columns: seq<string>, rows: seq<map<string, Cell>>)

  function Elems(s: seq<string>): set<string>
  {
    set x | x in s
  }

  /** Every row has a value for exactly the columns, and no column is listed
      twice. */
  ghost predicate Rectangular(f: Frame)
  {
    Distinct(f.columns) && forall i :: 0 <= i < |f.rows| ==> f.rows[i].Keys == Elems(f.columns)
  }

  /** `[k for k in ks if k in pool]`. */
  function Present(ks: seq<string>, pool: seq<string>): (r: seq<string>)
    ensures forall x :: x in r <==> x in ks && x in pool
    ensures Distinct(ks) ==> Distinct(r)
  {
    if ks == [] then []
    else
      var rest := Present(ks[1..], pool);
      assert forall x :: x in ks <==> x == ks[0] || x in ks[1..];
      if ks[0] in pool then [ks[0]] + rest else rest
  }

  /** `[k for k in ks if k not in pool]`. */
  function Absent(ks: seq<string>, pool: seq<string>): (r: seq<string>)
    ensures forall x :: x in r <==> x in ks && x !in pool
    ensures Distinct(ks) ==> Distinct(r)
  {
    if ks == [] then []
    else
      var rest := Absent(ks[1..], pool);
      assert forall x :: x in ks <==> x == ks[0] || x in ks[1..];
      if ks[0] !in pool then [ks[0]] + rest else rest
  }

  /** The keys of all records, in the order they are first seen: the columns of
      `pd.DataFrame(records)`. */
  function UnionColumns(records: seq<PyDict>): (cols: seq<string>)
    ensures Distinct(cols)
    ensures forall i, k :: 0 <= i < |records| && k in records[i].keys ==> k in cols
    ensures forall k :: k in cols ==> exists i :: 0 <= i < |records| && k in records[i].keys
  {
    if records == [] then []
    else
      var init := records[..|records| - 1];
      var last := records[|records| - 1];
      var seen := UnionColumns(init);
      var cols := seen + Absent(last.keys, seen);
      DistinctConcat(seen, Absent(last.keys, seen));
      assert forall i :: 0 <= i < |init| ==> init[i] == records[i];
      cols
  }

  /** The position of `x` in `s`. */
  function IndexOf(s: seq<string>, x: string): (i: nat)
    requires x in s
    ensures i < |s| && s[i] == x
  {
    if s[0] == x then 0 else 1 + IndexOf(s[1..], x)
  }

  /** The index of the first record that has the key `k`. */
  function FirstHolder(records: seq<PyDict>, k: string): (h: nat)
    requires k in UnionColumns(records)
    ensures h < |records| && k in records[h].keys
    ensures forall i :: 0 <= i < h ==> k !in records[i].keys
    decreases |records|
  {
    var init := records[..|records| - 1];
    UnionColumnsSnoc(records);
    if k in UnionColumns(init) then
      var h := FirstHolder(init, k);
      assert forall i :: 0 <= i <= h ==> init[i] == records[i];
      h
    else
      NotInUnion(init, k);
      assert forall i :: 0 <= i < |init| ==> init[i] == records[i];
      |records| - 1
  }

  /** The columns of a non-empty list of records: those of all records but the
      last, then the last record's keys not seen before. */
  lemma UnionColumnsSnoc(records: seq<PyDict>)
    requires records != [] || UnionColumns(records) != []
    ensures records != []
    ensures var init := records[..|records| - 1];
      UnionColumns(records) == UnionColumns(init) + Absent(records[|records| - 1].keys, UnionColumns(init))
  {
  }

  lemma NotInUnion(records: seq<PyDict>, k: string)
    requires k !in UnionColumns(records)
    ensures forall i :: 0 <= i < |records| ==> k !in records[i].keys
  {
  }

  /** Key `a` is met before key `b` when the records are read in order, each
      one's keys in its own order. */
  predicate SeenBefore(records: seq<PyDict>, a: string, b: string)
    requires a in UnionColumns(records) && b in UnionColumns(records)
  {
    var ha := FirstHolder(records, a);
    var hb := FirstHolder(records, b);
    ha < hb || (ha == hb && IndexOf(records[ha].keys, a) < IndexOf(records[ha].keys, b))
  }

  /** The columns are in first-seen order: of any two columns, the earlier one
      is met first when the records are read in order, each one's keys in its
      own order. */
  lemma {:induction false} UnionColumnsFirstSeen(records: seq<PyDict>)
    ensures forall i, j :: 0 <= i < j < |UnionColumns(records)| ==>
      SeenBefore(records, UnionColumns(records)[i], UnionColumns(records)[j])
    decreases |records|
  {
    if records != [] {
      var init := records[..|records| - 1];
      UnionColumnsFirstSeen(init);
      AbsentKeepsOrder(records[|records| - 1].keys, UnionColumns(init));
      forall i, j | 0 <= i < j < |UnionColumns(records)|
        ensures SeenBefore(records, UnionColumns(records)[i], UnionColumns(records)[j])
      {
        FirstSeenStep(records, init, records[|records| - 1], i, j);
      }
    }
  }

  /** One step of UnionColumnsFirstSeen: two columns of the records seen before
      the last one keep their order, a column first seen in the last record
      comes after them, and two of those follow that record's key order. */
  lemma FirstSeenStep(records: seq<PyDict>, init: seq<PyDict>, last: PyDict, i: int, j: int)
    requires records != [] && init == records[..|records| - 1] && last == records[|records| - 1]
    requires 0 <= i < j < |UnionColumns(records)|
    requires forall i, j :: 0 <= i < j < |UnionColumns(init)| ==>
      SeenBefore(init, UnionColumns(init)[i], UnionColumns(init)[j])
    requires forall p, q :: 0 <= p < q < |Absent(last.keys, UnionColumns(init))| ==>
      IndexOf(last.keys, Absent(last.keys, UnionColumns(init))[p])
      < IndexOf(last.keys, Absent(last.keys, UnionColumns(init))[q])
    ensures SeenBefore(records, UnionColumns(records)[i], UnionColumns(records)[j])
  {
    var seen := UnionColumns(init);
    var added := Absent(last.keys, seen);
    UnionColumnsSnoc(records);
    var cols := UnionColumns(records);
    assert cols == seen + added;
    if j < |seen| {
      assert cols[i] == seen[i] && cols[j] == seen[j];
      assert SeenBefore(init, UnionColumns(init)[i], UnionColumns(init)[j]);
      HolderInPrefix(records, seen[i]);
      HolderInPrefix(records, seen[j]);
    } else if i < |seen| {
      assert cols[i] == seen[i] && cols[j] == added[j - |seen|];
      HolderInPrefix(records, seen[i]);
      assert added[j - |seen|] in added;
    } else {
      assert cols[i] == added[i - |seen|] && cols[j] == added[j - |seen|];
      assert added[i - |seen|] in added && added[j - |seen|] in added;
      assert IndexOf(last.keys, Absent(last.keys, UnionColumns(init))[i - |seen|])
           < IndexOf(last.keys, Absent(last.keys, UnionColumns(init))[j - |seen|]);
    }
  }

  /** A column already seen before the last record has the same first holder
      with or without the last record. */
  lemma HolderInPrefix(records: seq<PyDict>, k: string)
    requires records != [] && k in UnionColumns(records[..|records| - 1])
    ensures k in UnionColumns(records)
    ensures FirstHolder(records, k) == FirstHolder(records[..|records| - 1], k)
  {
    UnionColumnsSnoc(records);
  }

  /** The names `Absent` keeps are in the order they have in `ks`. */
  lemma {:induction false} AbsentKeepsOrder(ks: seq<string>, pool: seq<string>)
    requires Distinct(ks)
    ensures forall p, q :: 0 <= p < q < |Absent(ks, pool)| ==>
      IndexOf(ks, Absent(ks, pool)[p]) < IndexOf(ks, Absent(ks, pool)[q])
    decreases |ks|
  {
    if ks != [] {
      DistinctTail(ks);
      AbsentKeepsOrder(ks[1..], pool);
      forall p, q | 0 <= p < q < |Absent(ks, pool)| ensures IndexOf(ks, Absent(ks, pool)[p]) < IndexOf(ks, Absent(ks, pool)[q]) {
        if ks[0] in pool {
          AbsentStepDropped(ks, pool, p, q);
        } else if p == 0 {
          AbsentStepFirst(ks, pool, q);
        } else {
          AbsentStepKept(ks, pool, p, q);
        }
      }
    }
  }

  lemma DistinctTail(ks: seq<string>)
    requires Distinct(ks) && ks != []
    ensures Distinct(ks[1..]) && ks[0] !in ks[1..]
  {
    var tail := ks[1..];
    forall i, j | 0 <= i < j < |tail| ensures tail[i] != tail[j] {
      assert tail[i] == ks[i + 1] && tail[j] == ks[j + 1];
    }
    forall i | 0 <= i < |tail| ensures tail[i] != ks[0] {
      assert tail[i] == ks[i + 1];
    }
  }

  /** A step of AbsentKeepsOrder when the first name is in the pool: the kept
      names are those kept from the tail, one place further on in `ks`. */
  lemma AbsentStepDropped(ks: seq<string>, pool: seq<string>, p: int, q: int)
    requires ks != [] && ks[0] !in ks[1..] && ks[0] in pool
    requires 0 <= p < q < |Absent(ks[1..], pool)|
    requires IndexOf(ks[1..], Absent(ks[1..], pool)[p]) < IndexOf(ks[1..], Absent(ks[1..], pool)[q])
    ensures p < q < |Absent(ks, pool)|
    ensures IndexOf(ks, Absent(ks, pool)[p]) < IndexOf(ks, Absent(ks, pool)[q])
  {
    var rest := Absent(ks[1..], pool);
    assert Absent(ks, pool) == rest;
    IndexOfTail(ks, rest[p]);
    IndexOfTail(ks, rest[q]);
  }

  /** A step of AbsentKeepsOrder when the first name is kept: it comes first
      among the kept names and first in `ks`. */
  lemma AbsentStepFirst(ks: seq<string>, pool: seq<string>, q: int)
    requires ks != [] && ks[0] !in ks[1..] && ks[0] !in pool
    requires 0 < q < |Absent(ks, pool)|
    ensures IndexOf(ks, Absent(ks, pool)[0]) < IndexOf(ks, Absent(ks, pool)[q])
  {
    var rest := Absent(ks[1..], pool);
    assert Absent(ks, pool) == [ks[0]] + rest;
    assert rest[q - 1] in rest;
    IndexOfTail(ks, rest[q - 1]);
  }

  /** A step of AbsentKeepsOrder for two names after a kept first name: they
      keep the order they have among the names kept from the tail. */
  lemma AbsentStepKept(ks: seq<string>, pool: seq<string>, p: int, q: int)
    requires ks != [] && ks[0] !in ks[1..] && ks[0] !in pool
    requires 0 < p < q <= |Absent(ks[1..], pool)|
    requires IndexOf(ks[1..], Absent(ks[1..], pool)[p - 1]) < IndexOf(ks[1..], Absent(ks[1..], pool)[q - 1])
    ensures q < |Absent(ks, pool)|
    ensures IndexOf(ks, Absent(ks, pool)[p]) < IndexOf(ks, Absent(ks, pool)[q])
  {
    var rest := Absent(ks[1..], pool);
    AbsentConsIndex(ks, pool, p);
    AbsentConsIndex(ks, pool, q);
    AbsentElem(ks[1..], pool, p - 1);
    AbsentElem(ks[1..], pool, q - 1);
    IndexOfTail(ks, rest[p - 1]);
    IndexOfTail(ks, rest[q - 1]);
  }

  /** After a kept first name, the kept names are those kept from the tail. */
  lemma AbsentConsIndex(ks: seq<string>, pool: seq<string>, i: nat)
    requires ks != [] && ks[0] !in pool && 0 < i <= |Absent(ks[1..], pool)|
    ensures i < |Absent(ks, pool)| && Absent(ks, pool)[i] == Absent(ks[1..], pool)[i - 1]
  {
    assert Absent(ks, pool) == [ks[0]] + Absent(ks[1..], pool);
  }

  lemma AbsentElem(ks: seq<string>, pool: seq<string>, i: nat)
    requires i < |Absent(ks, pool)|
    ensures Absent(ks, pool)[i] in ks
  {
    assert Absent(ks, pool)[i] in Absent(ks, pool);
  }

  lemma IndexOfTail(ks: seq<string>, x: string)
    requires ks != [] && ks[0] !in ks[1..] && x in ks[1..]
    ensures IndexOf(ks, x) == 1 + IndexOf(ks[1..], x)
  {
  }

  /** Two sequences without repetitions and without common elements make one
      without repetitions. */
  lemma DistinctConcat(a: seq<string>, b: seq<string>)
    requires Distinct(a) && Distinct(b) && forall x :: x in a ==> x !in b
    ensures Distinct(a + b)
  {
    var r := a + b;
    forall i, j | 0 <= i < j < |r| ensures r[i] != r[j] {
      if j < |a| {
        assert r[i] == a[i] && r[j] == a[j];
      } else if i >= |a| {
        assert r[i] == b[i - |a|] && r[j] == b[j - |a|];
      } else {
        assert r[i] == a[i] && r[j] == b[j - |a|];
        assert a[i] in a && b[j - |a|] in b;
      }
    }
  }

  /** One row of `pd.DataFrame(records)`: the record's value under each column,
      `Null` (pandas' NaN) where the record lacks the key. */
  function RowOf(d: PyDict, cols: seq<string>): (row: map<string, Cell>)
    ensures row.Keys == Elems(cols)
  {
    map c | c in cols :: if c in d.values then d.values[c] else Null
  }

  /** `pd.DataFrame(records)`: a rectangular table with one row per record, the
      record's values where it has the key and `Null` (pandas' NaN) elsewhere. */
  function FromRecords(records: seq<PyDict>): (f: Frame)
    ensures f.columns == UnionColumns(records)
    ensures Rectangular(f)
    ensures |f.rows| == |records|
    ensures forall i, k :: 0 <= i < |records| && k in records[i].values ==> k in f.rows[i] && f.rows[i][k] == records[i].values[k]
    ensures forall i, k :: 0 <= i < |records| && k in f.columns && k !in records[i].values ==> f.rows[i][k] == Null
  {
    var cols := UnionColumns(records);
    Frame(cols, seq(|records|, i requires 0 <= i < |records| => RowOf(records[i], cols)))
  }

  /** `df[cols]`: the table restricted to, and ordered by, `cols`. */
  function Select(f: Frame, cols: seq<string>): Frame
  {
    Frame(cols, seq(|f.rows|, i requires 0 <= i < |f.rows| => map c | c in cols && c in f.rows[i] :: f.rows[i][c]))
  }

  /** The selection `results_to_dataframe` applies: `existing + other_cols` when
      some canonical column is present, nothing otherwise. */
  function ColumnSelection(columns: seq<string>): Option<seq<string>>
  {
    var existing := Present(CanonicalColumns, columns);
    var otherCols := Absent(columns, existing);
    if existing != [] then Some(existing + otherCols) else None
  }

  /** `results_to_dataframe(results)`. */
  function ResultsToDataframe(results: seq<PyDict>): Frame
  {
    ReorderFrame(FromRecords(results))
  }

  /** The column order of the returned table, for given input columns. */
  function OrderedColumns(columns: seq<string>): seq<string>
  {
    match ColumnSelection(columns)
    case Some(cols) => cols
    case None => columns
  }

  /** The columns `other_cols` keeps are exactly the non-canonical ones. */
  lemma {:induction false} AbsentSamePool(ks: seq<string>, p: seq<string>, q: seq<string>)
    requires forall x :: x in ks ==> (x in p <==> x in q)
    ensures Absent(ks, p) == Absent(ks, q)
    decreases |ks|
  {
    if ks != [] {
      AbsentSamePool(ks[1..], p, q);
    }
  }

  /** Which canonical names are present depends only on which names the
      columns contain. */
  lemma {:induction false} PresentSameMembers(ks: seq<string>, a: seq<string>, b: seq<string>)
    requires forall x :: x in ks ==> (x in a <==> x in b)
    ensures Present(ks, a) == Present(ks, b)
    decreases |ks|
  {
    if ks != [] {
      PresentSameMembers(ks[1..], a, b);
    }
  }

  /** The output order is: the canonical columns that are present, in canonical
      order, then every other column in its original order. */
  lemma OrderedColumnsShape(columns: seq<string>)
    ensures OrderedColumns(columns)
         == Present(CanonicalColumns, columns) + Absent(columns, CanonicalColumns)
  {
    var existing := Present(CanonicalColumns, columns);
    AbsentSamePool(columns, existing, CanonicalColumns);
    if existing == [] {
      AbsentNone(columns, CanonicalColumns);
    }
  }

  /** A table without any canonical column keeps its column order. */
  lemma NoCanonicalKeepsOrder(columns: seq<string>)
    requires forall c :: c in CanonicalColumns ==> c !in columns
    ensures OrderedColumns(columns) == columns
  {
    PresentNone(CanonicalColumns, columns);
  }

  lemma {:induction false} PresentNone(ks: seq<string>, pool: seq<string>)
    requires forall x :: x in ks ==> x !in pool
    ensures Present(ks, pool) == []
    decreases |ks|
  {
    if ks != [] {
      PresentNone(ks[1..], pool);
    }
  }

  /** Filtering out names none of which occur leaves the sequence unchanged. */
  lemma {:induction false} AbsentNone(ks: seq<string>, pool: seq<string>)
    requires forall x :: x in ks ==> x !in pool
    ensures Absent(ks, pool) == ks
    decreases |ks|
  {
    if ks != [] {
      AbsentNone(ks[1..], pool);
    }
  }

  /** `s` occurs in `t` in order, possibly with gaps. */
  predicate IsSubsequence(s: seq<string>, t: seq<string>)
  {
    if s == [] then true
    else if t == [] then false
    else if s[0] == t[0] then IsSubsequence(s[1..], t[1..])
    else IsSubsequence(s, t[1..])
  }

  lemma {:induction false} PresentIsSubsequence(ks: seq<string>, pool: seq<string>)
    ensures IsSubsequence(Present(ks, pool), ks)
    decreases |ks|
  {
    if ks != [] {
      PresentIsSubsequence(ks[1..], pool);
    }
  }

  lemma {:induction false} AbsentIsSubsequence(ks: seq<string>, pool: seq<string>)
    ensures IsSubsequence(Absent(ks, pool), ks)
    decreases |ks|
  {
    if ks != [] {
      AbsentIsSubsequence(ks[1..], pool);
    }
  }

  /** The ordering promises: the first columns are canonical and occur in the
      order of the canonical list; the rest are not canonical and keep their
      relative order from the input. */
  lemma ColumnsOrdered(columns: seq<string>)
    ensures var r := OrderedColumns(columns);
      var m := |Present(CanonicalColumns, columns)|;
      && m <= |r|
      && IsSubsequence(r[..m], CanonicalColumns)
      && IsSubsequence(r[m..], columns)
      && (forall i :: 0 <= i < m ==> r[i] in CanonicalColumns)
      && (forall i :: m <= i < |r| ==> r[i] !in CanonicalColumns)
  {
    OrderedColumnsShape(columns);
    SplitOrdered(columns, CanonicalColumns);
  }

  /** The same promises for any list of names moved to the front. */
  lemma SplitOrdered(columns: seq<string>, pool: seq<string>)
    ensures var p := Present(pool, columns);
      var r := p + Absent(columns, pool);
      && IsSubsequence(r[..|p|], pool)
      && IsSubsequence(r[|p|..], columns)
      && (forall i :: 0 <= i < |p| ==> r[i] in pool)
      && (forall i :: |p| <= i < |r| ==> r[i] !in pool)
  {
    var p := Present(pool, columns);
    var a := Absent(columns, pool);
    SplitAt(p, a);
    PresentIsSubsequence(pool, columns);
    AbsentIsSubsequence(columns, pool);
    SplitMembers(p, a, pool);
  }

  lemma SplitAt(p: seq<string>, a: seq<string>)
    ensures (p + a)[..|p|] == p && (p + a)[|p|..] == a
  {
  }

  lemma SplitMembers(p: seq<string>, a: seq<string>, pool: seq<string>)
    requires forall x :: x in p ==> x in pool
    requires forall x :: x in a ==> x !in pool
    ensures forall i :: 0 <= i < |p| ==> (p + a)[i] in pool
    ensures forall i :: |p| <= i < |p + a| ==> (p + a)[i] !in pool
  {
    var r := p + a;
    forall i | 0 <= i < |p| ensures r[i] in pool {
      assert r[i] == p[i] && p[i] in p;
    }
    forall i | |p| <= i < |r| ensures r[i] !in pool {
      assert r[i] == a[i - |p|] && a[i - |p|] in a;
    }
  }

  /** In a sequence without repetitions each element occurs once. */
  lemma {:induction false} DistinctCount(s: seq<string>, x: string)
    requires Distinct(s)
    ensures multiset(s)[x] == if x in s then 1 else 0
    decreases |s|
  {
    if s != [] {
      assert s == [s[0]] + s[1..];
      assert Distinct(s[1..]) by {
        forall i, j | 0 <= i < j < |s[1..]| ensures s[1..][i] != s[1..][j] {
          assert s[1..][i] == s[i + 1] && s[1..][j] == s[j + 1];
        }
      }
      assert s[0] !in s[1..] by {
        forall i | 0 <= i < |s[1..]| ensures s[1..][i] != s[0] {
          assert s[1..][i] == s[i + 1];
        }
      }
      DistinctCount(s[1..], x);
    }
  }

  /** Splitting by membership in `pool` loses and adds nothing. */
  lemma {:induction false} PresentAbsentPartition(ks: seq<string>, pool: seq<string>)
    ensures multiset(Present(ks, pool)) + multiset(Absent(ks, pool)) == multiset(ks)
    decreases |ks|
  {
    if ks != [] {
      assert ks == [ks[0]] + ks[1..];
      PresentAbsentPartition(ks[1..], pool);
    }
  }

  /** The canonical list names each column once. */
  lemma CanonicalDistinct()
    ensures Distinct(CanonicalColumns)
  {
    forall i, j | 0 <= i < j < |CanonicalColumns| ensures CanonicalColumns[i] != CanonicalColumns[j] {
      if |CanonicalColumns[i]| == |CanonicalColumns[j]| {
        assert CanonicalColumns[i][0] != CanonicalColumns[j][0];
      }
    }
  }

  /** The output columns are a permutation of the input columns: none dropped,
      none added, none repeated. */
  lemma ColumnsPermuted(columns: seq<string>)
    requires Distinct(columns)
    ensures multiset(OrderedColumns(columns)) == multiset(columns)
    ensures Distinct(OrderedColumns(columns))
  {
    OrderedColumnsShape(columns);
    var p := Present(CanonicalColumns, columns);
    var q := Present(columns, CanonicalColumns);
    var a := Absent(columns, CanonicalColumns);
    CanonicalDistinct();
    assert Distinct(p) && Distinct(q);
    forall x ensures multiset(p)[x] == multiset(q)[x] {
      DistinctCount(p, x);
      DistinctCount(q, x);
    }
    assert multiset(p) == multiset(q);
    PresentAbsentPartition(columns, CanonicalColumns);
    DistinctConcat(p, a);
  }

  /** Reordering is idempotent: applying the selection to its own output keeps
      the order. */
  lemma ColumnsIdempotent(columns: seq<string>)
    ensures OrderedColumns(OrderedColumns(columns)) == OrderedColumns(columns)
  {
    var p := Present(CanonicalColumns, columns);
    var a := Absent(columns, CanonicalColumns);
    var r := p + a;
    OrderedColumnsShape(columns);
    assert OrderedColumns(columns) == r;
    OrderedColumnsShape(r);
    assert forall x :: x in CanonicalColumns ==> (x in r <==> x in columns);
    PresentSameMembers(CanonicalColumns, r, columns);
    assert Present(CanonicalColumns, r) == p;
    AbsentAppend(p, a, CanonicalColumns);
    AbsentNone(a, CanonicalColumns);
    AbsentAll(p, CanonicalColumns);
    assert Absent(r, CanonicalColumns) == a;
  }

  lemma {:induction false} AbsentAppend(s: seq<string>, t: seq<string>, pool: seq<string>)
    ensures Absent(s + t, pool) == Absent(s, pool) + Absent(t, pool)
    decreases |s|
  {
    if s == [] {
      assert s + t == t;
    } else {
      assert (s + t)[1..] == s[1..] + t;
      AbsentAppend(s[1..], t, pool);
    }
  }

  lemma {:induction false} AbsentAll(ks: seq<string>, pool: seq<string>)
    requires forall x :: x in ks ==> x in pool
    ensures Absent(ks, pool) == []
    decreases |ks|
  {
    if ks != [] {
      AbsentAll(ks[1..], pool);
    }
  }

  lemma {:induction false} PresentAppend(s: seq<string>, t: seq<string>, pool: seq<string>)
    ensures Present(s + t, pool) == Present(s, pool) + Present(t, pool)
    decreases |s|
  {
    if s == [] {
      assert s + t == t;
    } else {
      assert (s + t)[1..] == s[1..] + t;
      PresentAppend(s[1..], t, pool);
    }
  }

  lemma {:induction false} PresentAll(ks: seq<string>, pool: seq<string>)
    requires forall x :: x in ks ==> x in pool
    ensures Present(ks, pool) == ks
    decreases |ks|
  {
    if ks != [] {
      PresentAll(ks[1..], pool);
    }
  }

  /** The columns of a table built from one record are that record's keys. */
  lemma UnionColumnsSingle(d: PyDict)
    ensures UnionColumns([d]) == d.keys
  {
    assert [d][..0] == [];
    AbsentNone(d.keys, []);
  }

  /** The columns of two records: the first one's keys, then the second one's
      new keys. */
  lemma UnionColumnsPair(a: PyDict, b: PyDict)
    ensures UnionColumns([a, b]) == a.keys + Absent(b.keys, a.keys)
  {
    assert [a, b][..1] == [a];
    UnionColumnsSingle(a);
  }

  /** Selecting a reordering of a table's own columns keeps every row. */
  lemma SelectReordering(f: Frame, cols: seq<string>)
    requires Rectangular(f) && Distinct(cols) && Elems(cols) == Elems(f.columns)
    ensures Select(f, cols) == Frame(cols, f.rows)
    ensures Rectangular(Select(f, cols))
  {
    var g := Select(f, cols);
    assert |g.rows| == |f.rows|;
    forall i | 0 <= i < |f.rows| ensures g.rows[i] == f.rows[i] {
      var row := f.rows[i];
      assert g.rows[i] == map c | c in cols && c in row :: row[c];
      assert forall c :: c in cols <==> c in Elems(cols);
    }
  }

  /** The returned table has the reordered columns, one row per result, and
      each row holds the same values as in `pd.DataFrame(results)`: the
      record's value under each of its keys and `Null` under every other column. */
  lemma ResultsToDataframeEffect(results: seq<PyDict>)
    ensures var f := ResultsToDataframe(results);
      && Rectangular(f)
      && f.columns == OrderedColumns(UnionColumns(results))
      && f.rows == FromRecords(results).rows
  {
    ReorderFrameEffect(FromRecords(results));
  }

  /** What `results_to_dataframe` does to a table once it is built. */
  function ReorderFrame(df: Frame): Frame
  {
    match ColumnSelection(df.columns)
    case Some(cols) => Select(df, cols)
    case None => df
  }

  /** Reordering a rectangular table keeps its rows and puts its columns in
      the order `OrderedColumns` gives. */
  lemma ReorderFrameEffect(df: Frame)
    requires Rectangular(df)
    ensures Rectangular(ReorderFrame(df))
    ensures ReorderFrame(df).columns == OrderedColumns(df.columns)
    ensures ReorderFrame(df).rows == df.rows
  {
    ColumnsPermuted(df.columns);
    var cols := OrderedColumns(df.columns);
    assert Elems(cols) == Elems(df.columns) by {
      assert forall x :: x in cols <==> x in multiset(cols);
      assert forall x :: x in df.columns <==> x in multiset(df.columns);
    }
    if ColumnSelection(df.columns).Some? {
      SelectReordering(df, cols);
    }
  }

  /** Columns already seen keep their place when more records are added: the
      first-seen order of a longer list extends that of its prefix. */
  lemma {:induction false} UnionColumnsPrefix(a: seq<PyDict>, b: seq<PyDict>)
    ensures |UnionColumns(a)| <= |UnionColumns(a + b)|
    ensures UnionColumns(a + b)[..|UnionColumns(a)|] == UnionColumns(a)
    decreases |b|
  {
    if b == [] {
      assert a + b == a;
    } else {
      var b' := b[..|b| - 1];
      assert (a + b)[..|a + b| - 1] == a + b';
      UnionColumnsPrefix(a, b');
    }
  }
}
