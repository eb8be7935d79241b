/**
 * Index (src/com/readytalk/oss/dbms/Index.java): the columns an index is
 * keyed on, padded with the primary key so that every row has its own key,
 * and the order indexes are sorted in.  Columns are identified by number
 * and ordered by it; a table by the serial number its ordering uses.
 */
module Indexes {
  import opened Wire
  import Compare

  datatype Table = Table(rank: int, primaryKey: Option<seq<nat>>)

  datatype Index = Index(table: Table, columns: seq<nat>)

  /** The index constructor: the given columns, then each primary-key column not yet among them. */
  method MakeIndex(table: Table, columns: seq<nat>) returns (index: Index)
    ensures index.table == table
    ensures |columns| <= |index.columns| && index.columns[..|columns|] == columns
    ensures table.primaryKey.None? ==> index.columns == columns
    ensures table.primaryKey.Some? ==> forall c :: c in table.primaryKey.value ==> c in index.columns
    ensures forall c :: c in index.columns ==> c in columns || (table.primaryKey.Some? && c in table.primaryKey.value)
    ensures forall i :: |columns| <= i < |index.columns| ==> index.columns[i] !in index.columns[..i]
  {
    var copy := columns;
    if table.primaryKey.Some? {
      var key := table.primaryKey.value;
      var i := 0;
      while i < |key|
        invariant 0 <= i <= |key|
        invariant |columns| <= |copy| && copy[..|columns|] == columns
        invariant forall c :: c in key[..i] ==> c in copy
        invariant forall c :: c in copy ==> c in columns || c in key
        invariant forall j :: |columns| <= j < |copy| ==> copy[j] !in copy[..j]
      {
        if key[i] !in copy {
          assert (copy + [key[i]])[..|copy|] == copy;
          copy := copy + [key[i]];
        }
        assert key[..i + 1] == key[..i] + [key[i]];
        i := i + 1;
      }
      assert key[..i] == key;
    }
    return Index(table, copy);
  }

  /** Two column lists of the same length, compared column by column. */
  function Lexicographic(a: seq<nat>, b: seq<nat>): int
    requires |a| == |b|
  {
    if a == [] then 0
    else if a[0] != b[0] then Compare.Order(a[0], b[0])
    else Lexicographic(a[1..], b[1..])
  }

  /** The order `compareColumns` sorts by: shorter lists first, then lexicographically. */
  function ColumnOrder(a: seq<nat>, b: seq<nat>): int
  {
    if |a| != |b| then |a| - |b| else Lexicographic(a, b)
  }

  /** `compareColumns`: the length difference, else the first column that differs. */
  method CompareColumns(a: seq<nat>, b: seq<nat>) returns (d: int)
    ensures d == ColumnOrder(a, b)
  {
    d := |a| - |b|;
    if d != 0 {
      return d;
    }
    var i := 0;
    while i < |a|
      invariant 0 <= i <= |a|
      invariant a[..i] == b[..i]
      invariant Lexicographic(a, b) == Lexicographic(a[i..], b[i..])
    {
      d := Compare.Order(a[i], b[i]);
      if d != 0 {
        return d;
      }
      assert a[i..][1..] == a[i + 1..] && b[i..][1..] == b[i + 1..];
      assert a[..i + 1] == a[..i] + [a[i]] && b[..i + 1] == b[..i] + [b[i]];
      i := i + 1;
    }
    return 0;
  }

  /** `compareTo`: by table, then by columns. */
  method CompareIndexes(a: Index, b: Index) returns (d: int)
    ensures d == 0 <==> a.table.rank == b.table.rank && a.columns == b.columns
    ensures a.table.rank != b.table.rank ==> (d < 0 <==> a.table.rank < b.table.rank)
    ensures a.table.rank == b.table.rank ==> d == ColumnOrder(a.columns, b.columns)
  {
    d := Compare.Order(a.table.rank, b.table.rank);
    if d != 0 {
      return d;
    }
    d := CompareColumns(a.columns, b.columns);
    ColumnOrderZero(a.columns, b.columns);
  }

  lemma {:induction false} LexicographicZero(a: seq<nat>, b: seq<nat>)
    requires |a| == |b|
    ensures Lexicographic(a, b) == 0 <==> a == b
    decreases |a|
  {
    if a != [] && a[0] == b[0] {
      LexicographicZero(a[1..], b[1..]);
      assert a == [a[0]] + a[1..] && b == [b[0]] + b[1..];
    }
  }

  /** Only equal lists compare equal. */
  lemma ColumnOrderZero(a: seq<nat>, b: seq<nat>)
    ensures ColumnOrder(a, b) == 0 <==> a == b
  {
    if |a| == |b| {
      LexicographicZero(a, b);
    }
  }

  lemma {:induction false} LexicographicAntisymmetric(a: seq<nat>, b: seq<nat>)
    requires |a| == |b|
    ensures Lexicographic(a, b) == -Lexicographic(b, a)
    decreases |a|
  {
    if a != [] && a[0] == b[0] {
      LexicographicAntisymmetric(a[1..], b[1..]);
    }
  }

  lemma {:induction false} LexicographicTransitive(a: seq<nat>, b: seq<nat>, c: seq<nat>)
    requires |a| == |b| == |c|
    requires Lexicographic(a, b) < 0 && Lexicographic(b, c) < 0
    ensures Lexicographic(a, c) < 0
    decreases |a|
  {
    if a[0] == b[0] && b[0] == c[0] {
      LexicographicTransitive(a[1..], b[1..], c[1..]);
    }
  }

  /** The column order is a total order, as sorting indexes needs: antisymmetric and transitive. */
  lemma ColumnOrderTotal(a: seq<nat>, b: seq<nat>, c: seq<nat>)
    ensures ColumnOrder(a, b) == -ColumnOrder(b, a)
    ensures ColumnOrder(a, b) < 0 && ColumnOrder(b, c) < 0 ==> ColumnOrder(a, c) < 0
  {
    if |a| == |b| {
      LexicographicAntisymmetric(a, b);
    }
    if |a| == |b| == |c| && ColumnOrder(a, b) < 0 && ColumnOrder(b, c) < 0 {
      LexicographicTransitive(a, b, c);
    }
  }
}
