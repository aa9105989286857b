/** The NEGRA reader's column configuration and its column extraction: which
    column types a corpus declares, where each one sits in a grid row, and how a
    whole column is read off a sentence grid. */
module NegraColumns {
  import opened Arena

  const Words := "words"
  const Lemma := "lemma"
  const Pos := "pos"
  const Morph := "morph"
  const EdgeColumn := "edge"
  const ParentColumn := "parent"
  const Secedge := "secedge"
  const Comment := "comment"

  /** The supported column types, in the default column order. */
  const ColumnTypes: seq<string> := [Words, Lemma, Pos, Morph, EdgeColumn, ParentColumn, Secedge, Comment]

  /** The constructor's column_types argument: a Python list of names, or
      anything else (None, a tuple, ...). */
  datatype ColumnArg = ListArg(names: seq<string>) | NotAList

  // ---------------------------------------------------------------------------
  // Constructor
  // ---------------------------------------------------------------------------

  /** Validates the requested columns.  A list is checked name by name and the
      first unsupported name raises; building that error's message reads an
      undefined variable, so the exception that escapes is NameError.  Anything
      that is not a list selects the default columns. */
  method Configure(arg: ColumnArg) returns (r: Result<seq<string>>)
    ensures arg.NotAList? ==> r == Ok(ColumnTypes)
    ensures arg.ListArg? ==>
              (r.Ok? <==> forall i :: 0 <= i < |arg.names| ==> arg.names[i] in ColumnTypes)
    ensures arg.ListArg? && r.Ok? ==> r.value == arg.names
    ensures r.Fail? ==> r.err == NameError
  {
    match arg {
      case NotAList =>
        return Ok(ColumnTypes);
      case ListArg(names) =>
        for i := 0 to |names|
          invariant forall k :: 0 <= k < i ==> names[k] in ColumnTypes
        {
          if names[i] !in ColumnTypes {
            return Fail(NameError);
          }
        }
        return Ok(names);
    }
  }

  /** _colmap: each column name mapped to its position, built in list order so
      that a name listed twice keeps its last position. */
  function ColMap(cols: seq<string>): (m: map<string, nat>)
    ensures forall c :: c in m ==> m[c] < |cols| && cols[m[c]] == c
    decreases |cols|
  {
    if cols == [] then map[] else ColMap(cols[..|cols| - 1])[cols[|cols| - 1] := |cols| - 1]
  }

  /** The column map knows exactly the listed names. */
  lemma {:induction false} ColMapKeys(cols: seq<string>, c: string)
    ensures c in ColMap(cols) <==> c in cols
    decreases |cols|
  {
    if cols != [] {
      var init := cols[..|cols| - 1];
      ColMapKeys(init, c);
      assert cols == init + [cols[|cols| - 1]];
    }
  }

  /** _colmap[c] is the last position of c in the column list. */
  lemma {:induction false} ColMapIsLastPosition(cols: seq<string>, c: string, i: nat)
    ensures (c in ColMap(cols) && ColMap(cols)[c] == i) <==>
            (i < |cols| && cols[i] == c && forall j :: i < j < |cols| ==> cols[j] != c)
    decreases |cols|
  {
    if cols != [] {
      var init := cols[..|cols| - 1];
      ColMapIsLastPosition(init, c, i);
    }
  }

  // ---------------------------------------------------------------------------
  // _get_column
  // ---------------------------------------------------------------------------

  /** Field i of a row, or '' when the row has at most i fields. */
  function Cell(row: seq<string>, i: nat): string
  {
    if i < |row| then row[i] else ""
  }

  /** Column i of the grid without filtering: one value per row, padded. */
  function Column(grid: seq<seq<string>>, i: nat): (r: seq<string>)
    ensures |r| == |grid|
    ensures forall k :: 0 <= k < |grid| ==> r[k] == Cell(grid[k], i)
    decreases |grid|
  {
    if grid == [] then [] else Column(grid[..|grid| - 1], i) + [Cell(grid[|grid| - 1], i)]
  }

  predicate StartsWithHash(s: string)
  {
    |s| > 0 && s[0] == '#'
  }

  /** The filter of _get_column as intended: keep the values that do not start
      with '#' (the non-terminal rows' words), in order. */
  function DropNodeRows(vals: seq<string>): (r: seq<string>)
    ensures |r| <= |vals|
    ensures forall x :: x in r <==> x in vals && !StartsWithHash(x)
    decreases |vals|
  {
    if vals == [] then []
    else
      var rest := DropNodeRows(vals[..|vals| - 1]);
      var last := vals[|vals| - 1];
      assert vals == vals[..|vals| - 1] + [last];
      if StartsWithHash(last) then rest else rest + [last]
  }

  /** Filtering a concatenation filters each part: the kept values stay in order. */
  lemma {:induction false} DropNodeRowsConcat(u: seq<string>, v: seq<string>)
    ensures DropNodeRows(u + v) == DropNodeRows(u) + DropNodeRows(v)
    decreases |v|
  {
    if v != [] {
      var v' := v[..|v| - 1];
      assert (u + v)[..|u + v| - 1] == u + v';
      DropNodeRowsConcat(u, v');
    } else {
      assert u + v == u;
    }
  }

  /** _get_column with the filter read as intended. */
  function GetColumn(grid: seq<seq<string>>, i: nat, filter: bool): (r: seq<string>)
    ensures !filter ==> r == Column(grid, i)
    ensures filter ==> forall x :: x in r <==> x in Column(grid, i) && !StartsWithHash(x)
  {
    if filter then DropNodeRows(Column(grid, i)) else Column(grid, i)
  }

  /** _get_column as written: the filter reads token[0] of every value, which
      raises IndexError on the '' that pads a short row. */
  function GetColumnAsWritten(grid: seq<seq<string>>, i: nat, filter: bool): (r: Result<seq<string>>)
    ensures r.Fail? <==> filter && "" in Column(grid, i)
    ensures r.Fail? ==> r.err == IndexError
    ensures r.Ok? ==> r.value == GetColumn(grid, i, filter)
  {
    if filter && "" in Column(grid, i) then Fail(IndexError) else Ok(GetColumn(grid, i, filter))
  }

  /** A two-row grid whose first row is shorter than the requested column:
      the filtered read as written fails, the intended one keeps the padding. */
  lemma PaddedRowBreaksFilter()
    ensures GetColumnAsWritten([["Haus"], ["ist", "rot"]], 1, true) == Fail(IndexError)
    ensures GetColumn([["Haus"], ["ist", "rot"]], 1, true) == ["", "rot"]
  {
    var grid := [["Haus"], ["ist", "rot"]];
    assert Column(grid, 1)[0] == "";
    assert Column(grid, 1) == ["", "rot"];
  }
}
