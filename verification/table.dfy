/** A db61b table: a name, distinct column titles, and a SET of rows of the
    table's arity. Rows are compared by value, so inserting an equal row twice
    stores it once. */
module Tables {
  import opened Wrappers

  /** A row is its sequence of column values. */
  type Row = seq<string>

  datatype Table = Table(name: string, titles: seq<string>, rows: set<Row>)

  /** No title occurs twice. */
  predicate Distinct(s: seq<string>) {
    forall i, j | 0 <= i < j < |s| :: s[i] != s[j]
  }

  /** The titles as a set, as Java's `new HashSet<>(Arrays.asList(titles))` builds it. */
  function Elements(s: seq<string>): set<string> {
    set x | x in s
  }

  lemma {:induction false} ElementsBound(s: seq<string>)
    ensures |Elements(s)| <= |s|
  {
    if s != [] {
      ElementsBound(s[1..]);
      assert Elements(s) == {s[0]} + Elements(s[1..]);
    }
  }

  /** The HashSet of titles has as many members as the array has entries
      exactly when the titles are distinct. */
  lemma {:induction false} ElementsCountIffDistinct(s: seq<string>)
    ensures |Elements(s)| == |s| <==> Distinct(s)
  {
    if s != [] {
      var t := s[1..];
      ElementsCountIffDistinct(t);
      assert Elements(s) == {s[0]} + Elements(t);
      if s[0] in t {
        ElementsBound(t);
        var j :| 0 <= j < |t| && t[j] == s[0];
        assert s[0] == s[j + 1];
        assert !Distinct(s);
      } else {
        assert s[0] !in Elements(t);
        assert |Elements(s)| == 1 + |Elements(t)|;
        if Distinct(t) {
          forall i, j | 0 <= i < j < |s| ensures s[i] != s[j] {
            if i == 0 {
              assert s[j] == t[j - 1];
            } else {
              assert s[i] == t[i - 1] && s[j] == t[j - 1];
            }
          }
        } else {
          var i, j :| 0 <= i < j < |t| && t[i] == t[j];
          assert s[i + 1] == s[j + 1];
        }
      }
    }
  }

  /** The constructor: throws (Failure) when two column titles coincide. */
  function NewTable(name: string, titles: seq<string>): (r: Result<Table, string>)
    ensures r.Success? <==> Distinct(titles)
    ensures r.Success? ==> Name(r.value) == name && NumColumns(r.value) == |titles|
                           && Size(r.value) == 0
    ensures r.Success? ==> forall k | 0 <= k < |titles| :: Title(r.value, k) == titles[k]
  {
    ElementsCountIffDistinct(titles);
    if |Elements(titles)| != |titles| then Failure("Column names must be distinct!")
    else Success(Table(name, titles, {}))
  }

  function NumColumns(t: Table): nat {
    |t.titles|
  }

  function Name(t: Table): string {
    t.name
  }

  /** Title of the k-th column; the source requires 0 <= k < numColumns(). */
  function Title(t: Table, k: int): string
    requires 0 <= k < NumColumns(t)
  {
    t.titles[k]
  }

  function Size(t: Table): nat {
    |t.rows|
  }

  /** The index of the first column titled `title`, or -1 if there is none. */
  method ColumnIndex(t: Table, title: string) returns (r: int)
    ensures -1 <= r < NumColumns(t)
    ensures r == -1 <==> title !in t.titles
    ensures r >= 0 ==> t.titles[r] == title && forall j | 0 <= j < r :: t.titles[j] != title
  {
    var c := 0;
    while c < |t.titles|
      invariant 0 <= c <= |t.titles|
      invariant forall j | 0 <= j < c :: t.titles[j] != title
    {
      if t.titles[c] == title {
        return c;
      }
      c := c + 1;
    }
    return -1;
  }

  /** Every row has one value per column. */
  predicate RowsFit(t: Table) {
    forall row | row in t.rows :: |row| == NumColumns(t)
  }

  /** Insert `row`; the boolean says whether it was new. A row of the wrong
      length throws (Failure). */
  function Add(t: Table, row: Row): (r: Result<(bool, Table), string>)
    ensures r.Failure? <==> |row| != NumColumns(t)
    ensures r.Success? ==> (r.value.0 <==> row !in t.rows)
    ensures r.Success? ==> r.value.1.name == t.name && r.value.1.titles == t.titles
    ensures r.Success? ==> forall x :: x in r.value.1.rows <==> x in t.rows || x == row
    ensures r.Success? ==> Size(r.value.1) == Size(t) + (if r.value.0 then 1 else 0)
  {
    if NumColumns(t) == |row| then
      var rows := t.rows + {row};
      assert row in t.rows ==> rows == t.rows;
      assert row !in t.rows ==> |rows| == |t.rows| + 1;
      Success((row !in t.rows, t.(rows := rows)))
    else Failure("inserted row has wrong length")
  }

  /** Adding preserves the fixed arity of the rows. */
  lemma AddKeepsArity(t: Table, row: Row)
    requires RowsFit(t) && Add(t, row).Success?
    ensures RowsFit(Add(t, row).value.1)
  {
  }

  /** Re-adding an equal row reports false and changes nothing. */
  lemma AddIdempotent(t: Table, row: Row)
    requires Add(t, row).Success?
    ensures var t1 := Add(t, row).value.1;
            Add(t1, row).Success? && !Add(t1, row).value.0 && Add(t1, row).value.1 == t1
  {
  }
}
