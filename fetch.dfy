/**
 * The zxJDBC cursor's fetch strategies (`Fetch.java`): a static fetch
 * that reads every row of every result set up front and slices through
 * the first one, and a dynamic fetch that holds one JDBC result set and
 * pulls rows from it on demand.
 *
 * A JDBC result set is its metadata's column types (or none) and its
 * rows of raw column data; converting a datum to a Python value is an
 * uninterpreted `Converted(datum, sqlType)`.
 */
module Fetch {
  import opened Wrappers

  /** A value of a fetched row: Python None, or a converted column datum. */
  datatype Value = NoneValue | Converted(datum: int, sqlType: int)

  type Row = seq<Value>

  /** A JDBC result set: the column types from its metadata, and its rows. */
  datatype ResultSet = ResultSet(meta: Option<seq<int>>, rows: seq<seq<int>>)

  datatype FetchError =
    | OnlyOneResultSet   // a dynamic fetch already holds a result set
    | SqlError           // the driver could not read a column

  /** `skipCols` holds 1-based JDBC column numbers; a null set skips nothing. */
  predicate Skipped(skipCols: Option<set<int>>, i: nat) {
    skipCols.Some? && i + 1 in skipCols.value
  }

  /** Every column that is not skipped can be read from the raw row. */
  predicate Readable(description: seq<int>, raw: seq<int>, skipCols: Option<set<int>>) {
    forall i :: 0 <= i < |description| && !Skipped(skipCols, i) ==> i < |raw|
  }

  /** Column `i` of the Python row built from `raw`. */
  function Cell(description: seq<int>, raw: seq<int>, skipCols: Option<set<int>>, i: nat): Value
    requires i < |description|
  {
    if Skipped(skipCols, i) || i >= |raw| then NoneValue else Converted(raw[i], description[i])
  }

  /** The row createResult builds: one value per described column. */
  function RowValues(description: seq<int>, raw: seq<int>, skipCols: Option<set<int>>): (r: Row)
    ensures |r| == |description|
  {
    seq(|description|, i requires 0 <= i < |description| => Cell(description, raw, skipCols, i))
  }

  /** A row of a readable JDBC row is None exactly in its skipped columns. */
  lemma RowValuesSkips(description: seq<int>, raw: seq<int>, skipCols: Option<set<int>>, i: nat)
    requires Readable(description, raw, skipCols) && i < |description|
    ensures RowValues(description, raw, skipCols)[i] == NoneValue <==> Skipped(skipCols, i)
    ensures !Skipped(skipCols, i) ==> RowValues(description, raw, skipCols)[i] == Converted(raw[i], description[i])
  {
  }

  /** createResult: the Python row for the current JDBC row, built column by column. */
  method CreateResult(description: seq<int>, raw: seq<int>, skipCols: Option<set<int>>)
    returns (r: Result<Row, FetchError>)
    ensures r.Ok? <==> Readable(description, raw, skipCols)
    ensures r.Ok? ==> r.value == RowValues(description, raw, skipCols)
    ensures r.Err? ==> r.error == SqlError
  {
    var row: Row := [];
    for i := 0 to |description|
      invariant |row| == i
      invariant forall k :: 0 <= k < i ==> row[k] == Cell(description, raw, skipCols, k)
      invariant forall k :: 0 <= k < i && !Skipped(skipCols, k) ==> k < |raw|
    {
      if Skipped(skipCols, i) {
        row := row + [NoneValue];
      } else if i < |raw| {
        row := row + [Converted(raw[i], description[i])];
      } else {
        return Err(SqlError);
      }
    }
    return Ok(row);
  }

  /** The rows createResults builds, one per JDBC row. */
  function RowsValues(description: seq<int>, rows: seq<seq<int>>, skipCols: Option<set<int>>): (r: seq<Row>)
    ensures |r| == |rows|
  {
    seq(|rows|, k requires 0 <= k < |rows| => RowValues(description, rows[k], skipCols))
  }

  predicate AllReadable(description: seq<int>, rows: seq<seq<int>>, skipCols: Option<set<int>>) {
    forall k :: 0 <= k < |rows| ==> Readable(description, rows[k], skipCols)
  }

  /** createResults: every row of a result set, in order. */
  method CreateResults(description: seq<int>, rows: seq<seq<int>>, skipCols: Option<set<int>>)
    returns (r: Result<seq<Row>, FetchError>)
    ensures r.Ok? <==> AllReadable(description, rows, skipCols)
    ensures r.Ok? ==> r.value == RowsValues(description, rows, skipCols)
  {
    var res: seq<Row> := [];
    var k := 0;
    while k < |rows|
      invariant 0 <= k <= |rows|
      invariant |res| == k
      invariant AllReadable(description, rows[..k], skipCols)
      invariant forall j :: 0 <= j < k ==> res[j] == RowValues(description, rows[j], skipCols)
    {
      var row := CreateResult(description, rows[k], skipCols);
      if row.Err? {
        assert !Readable(description, rows[k], skipCols);
        return Err(row.error);
      }
      res := res + [row.value];
      k := k + 1;
      assert rows[..k] == rows[..k - 1] + [rows[k - 1]];
    }
    assert rows[..k] == rows;
    return Ok(res);
  }

  // ---------------------------------------------------------------------
  // Static fetch
  // ---------------------------------------------------------------------

  function Min(a: int, b: int): int { if a <= b then a else b }

  /** Java `int` arithmetic: the sum wrapped into 32 bits two's complement. */
  function Wrap32(x: int): (r: int)
    ensures -0x8000_0000 <= r < 0x8000_0000
  {
    (x + 0x8000_0000) % 0x1_0000_0000 - 0x8000_0000
  }

  /** `counter += size` of fetchmany, as written in Java `int`s. */
  function AdvanceAsWritten(counter: int, size: int): int {
    Wrap32(counter + size)
  }

  /**
   * With two rows already fetched (counter 1), `fetchmany(Integer.MAX_VALUE)`
   * wraps the counter to Integer.MIN_VALUE: the slice it returns ends at a
   * negative index and the next call slices from a negative start.
   */
  lemma CounterWraps()
    ensures AdvanceAsWritten(1, 0x7FFF_FFFF) == -0x8000_0000
    ensures AdvanceAsWritten(1, 0x7FFF_FFFF) + 1 < 0
  {
    assert (1 + 0x7FFF_FFFF + 0x8000_0000) % 0x1_0000_0000 == 0;
  }

  class StaticFetch {
    var description: Option<seq<int>>
    var rowcount: int
    /** Index of the last row handed out from the current set. */
    var counter: int
    /** The remaining result sets; the first is the current one. */
    var results: seq<seq<Row>>

    ghost predicate Valid()
      reads this
    {
      && counter >= -1
      && (results != [] ==> rowcount == |results[0]|)
      && (results == [] ==> counter == -1)
    }

    /** The rows of the current set not handed out yet. */
    ghost function Remaining(): seq<Row>
      reads this
      requires Valid()
    {
      if results == [] || counter + 1 >= |results[0]| then [] else results[0][counter + 1..]
    }

    constructor ()
      ensures Valid()
      ensures description == None && rowcount == -1 && counter == -1 && results == []
      ensures Remaining() == []
    {
      description := None;
      rowcount := -1;
      counter := -1;
      results := [];
    }

    /**
     * add: read a whole result set.  The description is taken from the
     * first set with metadata; the row count always follows the first set.
     */
    method Add(rs: Option<ResultSet>, skipCols: Option<set<int>>) returns (r: Result<(), FetchError>)
      requires Valid()
      modifies this
      ensures Valid()
      ensures rs.None? || rs.value.meta.None? ==> r.Ok? && unchanged(this)
      ensures rs.Some? && rs.value.meta.Some? ==>
        && description == (if old(description).None? then rs.value.meta else old(description))
        && counter == old(counter)
        && (r.Ok? <==> AllReadable(description.value, rs.value.rows, skipCols))
        && (r.Ok? ==> && |results| == |old(results)| + 1
                      && results[..|old(results)|] == old(results)
                      && results[|old(results)|] == RowsValues(description.value, rs.value.rows, skipCols)
                      && rowcount == |results[0]|)
        && (r.Err? ==> results == old(results) && rowcount == old(rowcount))
      ensures old(results) != [] ==> Remaining() == old(Remaining())
    {
      if rs.None? || rs.value.meta.None? {
        return Ok(());
      }
      if description.None? {
        description := rs.value.meta;
      }
      var rows := CreateResults(description.value, rs.value.rows, skipCols);
      if rows.Err? {
        return Err(rows.error);
      }
      results := results + [rows.value];
      rowcount := |results[0]|;
      return Ok(());
    }

    /**
     * fetchmany: the next `size` rows of the current set (`size <= 0`
     * means the row count), or None when it has no rows left.
     */
    method FetchMany(size: int) returns (r: Option<seq<Row>>)
      requires Valid()
      modifies this
      ensures Valid()
      ensures results == old(results) && rowcount == old(rowcount) && description == old(description)
      ensures r.None? <==> old(Remaining()) == []
      ensures r.None? ==> counter == old(counter)
      ensures r.Some? ==>
        var n := if size <= 0 then rowcount else size;
        && counter == old(counter) + n
        && r.value == old(Remaining())[..Min(n, |old(Remaining())|)]
        && Remaining() == old(Remaining())[|r.value|..]
    {
      if results == [] {
        return None;
      }
      var current := results[0];
      var n := size;
      if n <= 0 {
        n := rowcount;
      }
      if counter + 1 < rowcount {
        var start := counter + 1;
        counter := counter + n;
        r := Some(current[start..Min(counter + 1, |current|)]);
      } else {
        r := None;
      }
    }

    /** fetchall: everything the current set has left. */
    method FetchAll() returns (r: Option<seq<Row>>)
      requires Valid()
      modifies this
      ensures Valid()
      ensures results == old(results) && rowcount == old(rowcount) && description == old(description)
      ensures r.None? <==> old(Remaining()) == []
      ensures r.Some? ==> r.value == old(Remaining())
      ensures r.None? ==> counter == old(counter)
      ensures Remaining() == []
    {
      r := FetchMany(rowcount);
    }

    /** fetchone: the first row of `fetchmany(1)`. */
    method FetchOne() returns (r: Option<Row>)
      requires Valid()
      modifies this
      ensures Valid()
      ensures results == old(results) && rowcount == old(rowcount) && description == old(description)
      ensures r.None? <==> old(Remaining()) == []
      ensures r.None? ==> counter == old(counter)
      ensures r.Some? ==> && r.value == old(Remaining())[0] && Remaining() == old(Remaining())[1..]
                          && counter == old(counter) + 1
    {
      var many := FetchMany(1);
      if many.Some? {
        return Some(many.value[0]);
      }
      return None;
    }

    /** nextset: drop the current set when another one follows. */
    method NextSet() returns (more: bool)
      requires Valid()
      modifies this
      ensures Valid()
      ensures description == old(description)
      ensures more <==> |old(results)| > 1
      ensures more ==> results == old(results)[1..] && counter == -1 && Remaining() == results[0]
      ensures !more ==> unchanged(this)
    {
      if |results| > 1 {
        results := results[1..];
        rowcount := |results[0]|;
        counter := -1;
        return true;
      }
      return false;
    }

    /** close: forget every result set (the description and row count stay). */
    method Close()
      requires Valid()
      modifies this
      ensures Valid()
      ensures results == [] && counter == -1 && Remaining() == []
      ensures description == old(description) && rowcount == old(rowcount)
    {
      counter := -1;
      results := [];
    }
  }

  /** Two fetches of `a` then `b` rows hand out the same rows as one fetch of `a + b`. */
  lemma ConsecutiveFetches(rest: seq<Row>, a: nat, b: nat)
    ensures var first := rest[..Min(a, |rest|)];
            first + rest[|first|..][..Min(b, |rest| - |first|)] == rest[..Min(a + b, |rest|)]
  {
  }

  // ---------------------------------------------------------------------
  // Dynamic fetch
  // ---------------------------------------------------------------------

  /** How many rows `fetchmany(size, all)` asks for when `avail` remain. */
  function Taken(size: int, all: bool, avail: nat): (k: nat)
    ensures k <= avail
  {
    if size < 0 || all then avail else Min(size, avail)
  }

  class DynamicFetch {
    var description: Option<seq<int>>
    var rowcount: int
    /** The rows the held JDBC result set has not delivered yet; None when none is held. */
    var resultSet: Option<seq<seq<int>>>
    var skipCols: Option<set<int>>
    /** Rows handed out over this fetch's lifetime. */
    ghost var fetched: nat

    ghost predicate Valid()
      reads this
    {
      && rowcount == (if fetched == 0 then -1 else fetched)
      && (resultSet.Some? ==> description.Some?)
    }

    constructor ()
      ensures Valid()
      ensures description == None && rowcount == -1 && resultSet == None && fetched == 0
    {
      description := None;
      rowcount := -1;
      resultSet := None;
      skipCols := None;
      fetched := 0;
    }

    /** add: hold a result set; a second one while the first is held is an error. */
    method Add(rs: Option<ResultSet>, skip: Option<set<int>>) returns (r: Result<(), FetchError>)
      requires Valid()
      modifies this
      ensures Valid()
      ensures old(resultSet).Some? ==> r == Err(OnlyOneResultSet) && unchanged(this)
      ensures old(resultSet).None? ==> r.Ok?
      ensures old(resultSet).None? && (rs.None? || rs.value.meta.None?) ==> unchanged(this)
      ensures old(resultSet).None? && rs.Some? && rs.value.meta.Some? ==>
        && description == (if old(description).None? then rs.value.meta else old(description))
        && resultSet == Some(rs.value.rows) && skipCols == skip
        && rowcount == old(rowcount) && fetched == old(fetched)
    {
      if resultSet.Some? {
        return Err(OnlyOneResultSet);
      }
      if rs.Some? && rs.value.meta.Some? {
        if description.None? {
          description := rs.value.meta;
        }
        resultSet := Some(rs.value.rows);
        skipCols := skip;
      }
      return Ok(());
    }

    /**
     * fetchmany(size, all): pull up to `size` rows (every row when `all`
     * or `size < 0`); an empty batch is None.  A row that cannot be read
     * ends the fetch with an error after the driver has moved past it.
     */
    method FetchManyRows(size: int, all: bool) returns (r: Result<Option<seq<Row>>, FetchError>)
      requires Valid()
      modifies this
      ensures Valid()
      ensures description == old(description) && skipCols == old(skipCols)
      ensures old(resultSet).None? ==> r == Ok(None) && unchanged(this)
      ensures old(resultSet).Some? ==>
        var rows := old(resultSet).value;
        var k := Taken(size, all, |rows|);
        && resultSet.Some?
        && (r.Ok? <==> AllReadable(description.value, rows[..k], skipCols))
        && (r.Ok? ==>
              && resultSet == Some(rows[k..])
              && fetched == old(fetched) + k
              && (r.value.None? <==> k == 0)
              && (r.value.Some? ==> r.value.value == RowsValues(description.value, rows[..k], skipCols)))
        && (r.Err? ==> exists j :: 0 <= j < k && !Readable(description.value, rows[j], skipCols)
                          && resultSet == Some(rows[j + 1..]) && fetched == old(fetched) + j)
    {
      if resultSet.None? {
        return Ok(None);
      }
      ghost var rows := resultSet.value;
      ghost var k := Taken(size, all, |rows|);
      var everything := size < 0 || all;
      var n := size;
      var res: seq<Row> := [];
      while true
        invariant Valid()
        invariant description == old(description) && skipCols == old(skipCols)
        invariant resultSet.Some? && |res| <= k
        invariant resultSet.value == rows[|res|..]
        invariant fetched == old(fetched) + |res|
        invariant everything || n == size - |res|
        invariant AllReadable(description.value, rows[..|res|], skipCols)
        invariant forall j :: 0 <= j < |res| ==> res[j] == RowValues(description.value, rows[j], skipCols)
        decreases |resultSet.value|
      {
        var more := n > 0;
        n := n - 1;
        if !(more || everything) || resultSet.value == [] {
          break;
        }
        var raw := resultSet.value[0];
        resultSet := Some(resultSet.value[1..]);
        var row := CreateResult(description.value, raw, skipCols);
        if row.Err? {
          return Err(row.error);
        }
        res := res + [row.value];
        rowcount := if rowcount == -1 then 1 else rowcount + 1;
        fetched := fetched + 1;
        assert rows[..|res|] == rows[..|res| - 1] + [rows[|res| - 1]];
      }
      assert |res| == k;
      if |res| == 0 {
        return Ok(None);
      }
      return Ok(Some(res));
    }

    /** fetchmany(size). */
    method FetchMany(size: int) returns (r: Result<Option<seq<Row>>, FetchError>)
      requires Valid()
      modifies this
      ensures Valid()
      ensures description == old(description) && skipCols == old(skipCols)
      ensures old(resultSet).None? ==> r == Ok(None) && unchanged(this)
      ensures old(resultSet).Some? ==>
        var rows := old(resultSet).value;
        var k := Taken(size, false, |rows|);
        && resultSet.Some?
        && (r.Ok? <==> AllReadable(description.value, rows[..k], skipCols))
        && (r.Ok? ==>
              && resultSet == Some(rows[k..])
              && fetched == old(fetched) + k
              && (r.value.None? <==> k == 0)
              && (r.value.Some? ==> r.value.value == RowsValues(description.value, rows[..k], skipCols)))
        && (r.Err? ==> exists j :: 0 <= j < k && !Readable(description.value, rows[j], skipCols)
                          && resultSet == Some(rows[j + 1..]) && fetched == old(fetched) + j)
    {
      r := FetchManyRows(size, false);
    }

    /** fetchall: every row the held result set has left. */
    method FetchAll() returns (r: Result<Option<seq<Row>>, FetchError>)
      requires Valid()
      modifies this
      ensures Valid()
      ensures description == old(description) && skipCols == old(skipCols)
      ensures old(resultSet).None? ==> r == Ok(None) && unchanged(this)
      ensures old(resultSet).Some? ==>
        var rows := old(resultSet).value;
        && resultSet.Some?
        && (r.Ok? <==> AllReadable(description.value, rows, skipCols))
        && (r.Ok? ==>
              && resultSet == Some([]) && fetched == old(fetched) + |rows|
              && (r.value.None? <==> rows == [])
              && (r.value.Some? ==> r.value.value == RowsValues(description.value, rows, skipCols)))
        && (r.Err? ==> exists j :: 0 <= j < |rows| && !Readable(description.value, rows[j], skipCols)
                          && resultSet == Some(rows[j + 1..]) && fetched == old(fetched) + j)
    {
      ghost var rows := resultSet;
      r := FetchManyRows(0, true);
      assert rows.Some? ==> rows.value[..|rows.value|] == rows.value && rows.value[|rows.value|..] == [];
    }

    /** fetchone: the first row of `fetchmany(1)`. */
    method FetchOne() returns (r: Result<Option<Row>, FetchError>)
      requires Valid()
      modifies this
      ensures Valid()
      ensures old(resultSet).None? ==> r == Ok(None) && unchanged(this)
      ensures description == old(description) && skipCols == old(skipCols)
      ensures old(resultSet).Some? ==>
        var rows := old(resultSet).value;
        && description.Some?
        && (r.Ok? <==> rows == [] || Readable(description.value, rows[0], skipCols))
        && (r.Err? ==> resultSet == Some(rows[1..]) && fetched == old(fetched))
        && (r.Ok? && r.value.None? ==> rows == [] && resultSet == Some([]) && fetched == old(fetched))
      ensures old(resultSet).Some? && r.Ok? ==>
        var rows := old(resultSet).value;
        && (r.value.None? <==> rows == [])
        && (r.value.Some? ==> && resultSet == Some(rows[1..]) && fetched == old(fetched) + 1
                              && description.Some?
                              && r.value.value == RowValues(description.value, rows[0], skipCols))
    {
      var many := FetchManyRows(1, false);
      if many.Err? {
        return Err(many.error);
      }
      if many.value.Some? {
        return Ok(Some(many.value.value[0]));
      }
      return Ok(None);
    }

    /** nextset: a dynamic fetch never has another set. */
    method NextSet() returns (more: bool)
      ensures !more
    {
      more := false;
    }

    /** close: release the held result set, if any. */
    method Close()
      requires Valid()
      modifies this
      ensures Valid()
      ensures resultSet == None
      ensures old(resultSet).None? ==> unchanged(this)
      ensures description == old(description) && rowcount == old(rowcount) && fetched == old(fetched)
    {
      if resultSet.None? {
        return;
      }
      resultSet := None;
    }
  }
}
