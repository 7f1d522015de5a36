/**
 * The column lists a repository builds from its record type: every field's
 * column name in declaration order, the subsequence marked safe, and the two
 * comma-joined renderings of each (plain, and with named-parameter colons).
 *
 * The record type is read by reflection in the source; here it is given as the
 * list of its fields with their `db` and `safe` tags.
 */
module Columns {
  import opened Wrappers
  import opened GoStrings

  /** A struct field: its Go name and its `db` and `safe` tags, when present. */
  datatype Field = Field(name: string, dbTag: Option<string>, safeTag: Option<string>)

  datatype ColumnSet = ColumnSet(
    allColumns: seq<string>,
    allRaw: string,
    allPrefixed: string,
    safeColumns: seq<string>,
    safeRaw: string,
    safePrefixed: string)

  /** The `db` tag, or the lower-cased field name when the tag is missing or `-`. */
  function ColumnName(f: Field): (r: string)
    ensures f.dbTag.Some? && f.dbTag.value != "-" ==> r == f.dbTag.value
    ensures f.dbTag.None? || f.dbTag.value == "-" ==> r == ToLower(f.name)
  {
    if f.dbTag.None? || f.dbTag.value == "-" then ToLower(f.name) else f.dbTag.value
  }

  /** Only a `safe` tag reading exactly `true` marks a field safe. */
  predicate IsSafe(f: Field)
  {
    f.safeTag == Some("true")
  }

  /** Every field's column name, in declaration order. */
  function AllNames(fields: seq<Field>): (r: seq<string>)
    ensures |r| == |fields|
    ensures forall i :: 0 <= i < |fields| ==> r[i] == ColumnName(fields[i])
  {
    if fields == [] then []
    else AllNames(fields[..|fields| - 1]) + [ColumnName(fields[|fields| - 1])]
  }

  /** The column names of the safe fields, in declaration order. */
  function SafeNames(fields: seq<Field>): (r: seq<string>)
    ensures |r| <= |fields|
    ensures forall n :: n in r <==> exists i :: 0 <= i < |fields| && IsSafe(fields[i]) && ColumnName(fields[i]) == n
  {
    if fields == [] then []
    else
      var init, last := fields[..|fields| - 1], fields[|fields| - 1];
      assert forall i :: 0 <= i < |init| ==> init[i] == fields[i];
      SafeNames(init) + (if IsSafe(last) then [ColumnName(last)] else [])
  }

  /** The two renderings of a column list. */
  function Raw(cols: seq<string>): string
  {
    Join(cols, ", ")
  }

  function Prefixed(cols: seq<string>): string
  {
    ":" + Join(cols, ", :")
  }

  /** With no safe field the safe list is empty: nothing plain, and a lone colon with colons. */
  lemma {:induction false} NoSafeFields(fields: seq<Field>)
    requires forall i :: 0 <= i < |fields| ==> !IsSafe(fields[i])
    ensures SafeNames(fields) == []
    ensures Raw(SafeNames(fields)) == "" && Prefixed(SafeNames(fields)) == ":"
  {
    if fields != [] {
      NoSafeFields(fields[..|fields| - 1]);
    }
  }

  /** With every field safe the safe list is the whole list. */
  lemma {:induction false} AllSafeFields(fields: seq<Field>)
    requires forall i :: 0 <= i < |fields| ==> IsSafe(fields[i])
    ensures SafeNames(fields) == AllNames(fields)
  {
    if fields != [] {
      AllSafeFields(fields[..|fields| - 1]);
    }
  }

  /** Each column with a colon in front. */
  function Colons(cols: seq<string>): (r: seq<string>)
    ensures |r| == |cols|
    ensures forall i :: 0 <= i < |cols| ==> r[i] == ":" + cols[i]
  {
    if cols == [] then [] else [":" + cols[0]] + Colons(cols[1..])
  }

  /** A colon in front of a join by `", :"` puts a colon in front of every column of a join by `", "`. */
  lemma {:induction false} PrefixedJoin(cols: seq<string>)
    requires cols != []
    ensures ":" + Join(cols, ", :") == Join(Colons(cols), ", ")
  {
    if |cols| > 1 {
      PrefixedJoin(cols[1..]);
      var tail := Colons(cols[1..]);
      assert Colons(cols) == [":" + cols[0]] + tail;
      assert |tail| >= 1;
      JoinCons(":" + cols[0], tail, ", ");
      assert ":" + Join(cols, ", :") == ":" + cols[0] + ", :" + Join(cols[1..], ", :");
      assert ":" + cols[0] + ", :" + Join(cols[1..], ", :") == (":" + cols[0]) + ", " + (":" + Join(cols[1..], ", :"));
    }
  }

  /** ExtractColumns: walks the fields once, collecting every column and the safe ones, then joins both lists. */
  method ExtractColumns(fields: seq<Field>) returns (c: ColumnSet)
    ensures c.allColumns == AllNames(fields) && c.safeColumns == SafeNames(fields)
    ensures c.allRaw == Raw(c.allColumns) && c.allPrefixed == Prefixed(c.allColumns)
    ensures c.safeRaw == Raw(c.safeColumns) && c.safePrefixed == Prefixed(c.safeColumns)
  {
    var allCols: seq<string> := [];
    var safeCols: seq<string> := [];
    var i := 0;
    while i < |fields|
      invariant 0 <= i <= |fields|
      invariant allCols == AllNames(fields[..i])
      invariant safeCols == SafeNames(fields[..i])
    {
      var field := fields[i];
      var dbTag := if field.dbTag.None? || field.dbTag.value == "-" then ToLower(field.name) else field.dbTag.value;
      allCols := allCols + [dbTag];
      if field.safeTag.Some? && field.safeTag.value == "true" {
        safeCols := safeCols + [dbTag];
      }
      assert fields[..i + 1][..i] == fields[..i];
      i := i + 1;
    }
    assert fields[..i] == fields;
    c := ColumnSet(allCols, Join(allCols, ", "), ":" + Join(allCols, ", :"),
                   safeCols, Join(safeCols, ", "), ":" + Join(safeCols, ", :"));
  }
}
