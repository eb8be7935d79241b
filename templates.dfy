/**
 * InsertTemplate (src/main/java/com/readytalk/revori/InsertTemplate.java):
 * a prepared insert, checked when it is made.  Columns are identified by
 * number; a table is given by its primary-key columns.
 */
module Templates {
  import opened Wire
  import opened Parameters

  datatype DuplicateKeyResolution = Skip | Overwrite | Throw

  datatype TableDef = TableDef(primaryKey: seq<nat>)

  datatype InsertTemplate = InsertTemplate(
    table: TableDef,
    columns: seq<nat>,
    values: seq<Expression>,
    duplicateKeyResolution: DuplicateKeyResolution,
    parameterCount: int)

  /** Why the constructor throws `IllegalArgumentException`. */
  datatype Rejection = DuplicateParameter | UnequalLengths | MissingKeyColumn

  datatype Made = Made(template: InsertTemplate) | Rejected(reason: Rejection)

  function Elems(s: seq<nat>): set<nat>
  {
    set c | c in s
  }

  lemma ElemsSnoc(s: seq<nat>, i: int)
    requires 0 <= i < |s|
    ensures Elems(s[..i + 1]) == Elems(s[..i]) + {s[i]}
  {
    assert s[..i + 1] == s[..i] + [s[i]];
  }

  /** No parameter occurs twice among the values and their operands. */
  predicate ParametersUnique(values: seq<Expression>)
  {
    Distinct(Orders(PreorderAll(values)))
  }

  /** Every primary-key column is among the listed columns. */
  predicate KeyCovered(primaryKey: seq<nat>, columns: seq<nat>)
  {
    forall c :: c in primaryKey ==> c in columns
  }

  /** No key column is left over exactly when every key column is listed. */
  lemma CoveredIffNoneMissing(primaryKey: seq<nat>, columns: seq<nat>)
    ensures |Elems(primaryKey) - Elems(columns)| == 0 <==> KeyCovered(primaryKey, columns)
  {
    if exists c :: c in primaryKey && c !in columns {
      var c :| c in primaryKey && c !in columns;
      assert c in Elems(primaryKey) - Elems(columns);
    }
  }

  /** The primary-key columns left after removing every listed column from them. */
  method MissingKeyColumns(primaryKey: seq<nat>, columns: seq<nat>) returns (missing: set<nat>)
    ensures missing == Elems(primaryKey) - Elems(columns)
    ensures |missing| == 0 <==> KeyCovered(primaryKey, columns)
  {
    missing := Elems(primaryKey);
    var i := 0;
    while i < |columns|
      invariant 0 <= i <= |columns|
      invariant missing == Elems(primaryKey) - Elems(columns[..i])
    {
      missing := missing - {columns[i]};
      ElemsSnoc(columns, i);
      i := i + 1;
    }
    assert columns[..i] == columns;
    CoveredIffNoneMissing(primaryKey, columns);
  }

  /**
   * The constructor: count the parameters of the values, then check that
   * there are as many values as columns and that every primary-key column
   * is given a value, removing each listed column from the set of key
   * columns still to cover.
   */
  method MakeInsertTemplate(table: TableDef, columns: seq<nat>, values: seq<Expression>,
                            duplicateKeyResolution: DuplicateKeyResolution) returns (r: Made)
    ensures r.Rejected? && r.reason == DuplicateParameter <==> !ParametersUnique(values)
    ensures r.Rejected? && r.reason == UnequalLengths <==> ParametersUnique(values) && |columns| != |values|
    ensures r.Made? <==> ParametersUnique(values) && |columns| == |values| && KeyCovered(table.primaryKey, columns)
    ensures r.Made? ==> r.template == InsertTemplate(table, columns, values, duplicateKeyResolution, |Orders(PreorderAll(values))|)
  {
    var parameterCount := CountParameters(values);
    if parameterCount.None? {
      return Rejected(DuplicateParameter);
    }
    if |columns| != |values| {
      return Rejected(UnequalLengths);
    }
    var missing := MissingKeyColumns(table.primaryKey, columns);
    if |missing| != 0 {
      return Rejected(MissingKeyColumn);
    }
    return Made(InsertTemplate(table, columns, values, duplicateKeyResolution, parameterCount.value));
  }
}
