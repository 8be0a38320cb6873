/** The object table as the converter holds it after `pd.read_csv`, the row filter `filter_nan`
    and the three selectors built on it (`get_host_objects`, `get_network_objects`,
    `get_port_objects`). */
module Frame {
  import opened Wrappers

  /** One row of the table. `index` is the row's pandas label, which boolean filtering keeps;
      a cell that pandas reads as NaN is `None`. */
  datatype Row = Row(index: nat, name: string, ipv4: Option<string>, mask: Option<string>, port: Option<string>)

  /** The columns `filter_nan` is called on. */
  datatype Column = IPv4 | Mask | Port

  function Cell(r: Row, column: Column): Option<string>
  {
    match column
    case IPv4 => r.ipv4
    case Mask => r.mask
    case Port => r.port
  }

  /** The blank test of `filter_nan`: `value == '' or pd.isnull(value)`. */
  predicate IsBlank(v: Option<string>)
  {
    v == None || v == Some("")
  }

  /** Whether `filter_nan(_, column, wantNan)` keeps `r`: blank cells if `wantNan`, the others if not. */
  predicate Keeps(r: Row, column: Column, wantNan: bool)
  {
    IsBlank(Cell(r, column)) == wantNan
  }

  /** The rows `filter_nan(rows, column, wantNan)` returns, in table order. */
  function Filtered(rows: seq<Row>, column: Column, wantNan: bool): seq<Row>
  {
    if rows == [] then []
    else
      var last := rows[|rows| - 1];
      Filtered(rows[..|rows| - 1], column, wantNan) + (if Keeps(last, column, wantNan) then [last] else [])
  }

  /** Pandas boolean indexing `data[flags]` for a non-empty flag list: the rows whose flag is
      true, in order. (An empty list is not a boolean indexer; see `DataFrame`.) */
  function Select(rows: seq<Row>, flags: seq<bool>): seq<Row>
    requires |flags| == |rows|
  {
    if rows == [] then []
    else Select(rows[..|rows| - 1], flags[..|flags| - 1]) + (if flags[|flags| - 1] then [rows[|rows| - 1]] else [])
  }

  /** Selecting with the flags `filter_nan` computes gives `Filtered`. */
  lemma {:induction false} SelectByKeepFlags(rows: seq<Row>, flags: seq<bool>, column: Column, wantNan: bool)
    requires |flags| == |rows|
    requires forall k :: 0 <= k < |rows| ==> flags[k] == Keeps(rows[k], column, wantNan)
    ensures Select(rows, flags) == Filtered(rows, column, wantNan)
  {
    if rows != [] {
      SelectByKeepFlags(rows[..|rows| - 1], flags[..|flags| - 1], column, wantNan);
    }
  }

  /** What `data[has_value]` gives. With a non-empty flag list it is boolean indexing and keeps
      every column; with the empty list an input without rows yields, pandas reads `data[[]]` as a
      selection of no columns, and reading any column of that frame raises `KeyError`. */
  datatype DataFrame = Columns(rows: seq<Row>) | NoColumns

  /** `filter_nan`: builds the `has_value` flag list row by row, then indexes the table with it. */
  method FilterNan(dataFrame: seq<Row>, column: Column, wantNan: bool) returns (selected: DataFrame)
    ensures selected.NoColumns? <==> dataFrame == []
    ensures selected.Columns? ==> selected.rows == Filtered(dataFrame, column, wantNan)
  {
    var hasValue: seq<bool> := [];
    for i := 0 to |dataFrame|
      invariant |hasValue| == i
      invariant forall k :: 0 <= k < i ==> hasValue[k] == Keeps(dataFrame[k], column, wantNan)
    {
      var value := Cell(dataFrame[i], column);
      if IsBlank(value) {
        if wantNan {
          hasValue := hasValue + [true];
        } else {
          hasValue := hasValue + [false];
        }
      } else {
        if wantNan {
          hasValue := hasValue + [false];
        } else {
          hasValue := hasValue + [true];
        }
      }
    }
    if hasValue == [] {
      selected := NoColumns;
    } else {
      SelectByKeepFlags(dataFrame, hasValue, column, wantNan);
      selected := Columns(Select(dataFrame, hasValue));
    }
  }

  /** A row survives the filter exactly when it is in the input and passes the blank test. */
  lemma {:induction false} FilteredMembers(rows: seq<Row>, column: Column, wantNan: bool)
    ensures forall x :: x in Filtered(rows, column, wantNan) <==> x in rows && Keeps(x, column, wantNan)
  {
    if rows != [] {
      FilteredMembers(rows[..|rows| - 1], column, wantNan);
      assert rows == rows[..|rows| - 1] + [rows[|rows| - 1]];
    }
  }

  /** The blank and the non-blank filters split the table: every row lands in exactly one of them. */
  lemma {:induction false} FilterPartition(rows: seq<Row>, column: Column)
    ensures multiset(Filtered(rows, column, false)) + multiset(Filtered(rows, column, true)) == multiset(rows)
  {
    if rows != [] {
      FilterPartition(rows[..|rows| - 1], column);
      assert rows == rows[..|rows| - 1] + [rows[|rows| - 1]];
    }
  }

  /** Filtering commutes with concatenation, so the filter never reorders rows. */
  lemma {:induction false} FilteredAppend(a: seq<Row>, b: seq<Row>, column: Column, wantNan: bool)
    ensures Filtered(a + b, column, wantNan) == Filtered(a, column, wantNan) + Filtered(b, column, wantNan)
    decreases |b|
  {
    if b == [] {
      assert a + b == a;
    } else {
      assert (a + b)[..|a + b| - 1] == a + b[..|b| - 1];
      assert (a + b)[|a + b| - 1] == b[|b| - 1];
      FilteredAppend(a, b[..|b| - 1], column, wantNan);
    }
  }

  /** The row labels strictly increase along `rows`. */
  predicate Increasing(rows: seq<Row>)
  {
    forall i, j :: 0 <= i < j < |rows| ==> rows[i].index < rows[j].index
  }

  /** The table carries pandas' default labels 0, 1, 2, ... as `pd.read_csv` assigns them. */
  predicate Indexed(table: seq<Row>)
  {
    forall i :: 0 <= i < |table| ==> table[i].index == i
  }

  /** A filtered table keeps its rows in their original order. */
  lemma {:induction false} FilteredIncreasing(rows: seq<Row>, column: Column, wantNan: bool)
    requires Increasing(rows)
    ensures Increasing(Filtered(rows, column, wantNan))
  {
    if rows != [] {
      var init := rows[..|rows| - 1];
      FilteredIncreasing(init, column, wantNan);
      FilteredMembers(init, column, wantNan);
      var f := Filtered(init, column, wantNan);
      forall k | 0 <= k < |f| ensures f[k].index < rows[|rows| - 1].index {
        assert f[k] in init;
      }
    }
  }

  /** host: IPv4 present and Mask blank. */
  predicate IsHost(r: Row)
  {
    !IsBlank(r.ipv4) && IsBlank(r.mask)
  }

  /** network: IPv4 present and Mask present. */
  predicate IsNetwork(r: Row)
  {
    !IsBlank(r.ipv4) && !IsBlank(r.mask)
  }

  /** port: Port present. */
  predicate IsService(r: Row)
  {
    !IsBlank(r.port)
  }

  /** The rows `get_host_objects` returns: IPv4 filtered to non-blank, then Mask to blank. */
  function HostObjects(table: seq<Row>): (hosts: seq<Row>)
    ensures forall x :: x in hosts <==> x in table && IsHost(x)
  {
    FilteredMembers(table, IPv4, false);
    FilteredMembers(Filtered(table, IPv4, false), Mask, true);
    Filtered(Filtered(table, IPv4, false), Mask, true)
  }

  /** The rows `get_network_objects` returns: IPv4 filtered to non-blank, then Mask to non-blank. */
  function NetworkObjects(table: seq<Row>): (networks: seq<Row>)
    ensures forall x :: x in networks <==> x in table && IsNetwork(x)
  {
    FilteredMembers(table, IPv4, false);
    FilteredMembers(Filtered(table, IPv4, false), Mask, false);
    Filtered(Filtered(table, IPv4, false), Mask, false)
  }

  /** The rows `get_port_objects` returns: Port filtered to non-blank. */
  function PortObjects(table: seq<Row>): (ports: seq<Row>)
    ensures forall x :: x in ports <==> x in table && IsService(x)
  {
    FilteredMembers(table, Port, false);
    Filtered(table, Port, false)
  }

  /** `get_host_objects`; `None` is the `KeyError` raised when the IPv4 filter leaves no row:
      the Mask filter then gets an empty frame and returns one without columns, whose projection
      on line 58 (or, for a table without rows, whose Mask column) does not exist. */
  method GetHostObjects(table: seq<Row>) returns (hosts: Option<seq<Row>>)
    ensures hosts.None? <==> Filtered(table, IPv4, false) == []
    ensures hosts.Some? ==> hosts.value == HostObjects(table)
    ensures hosts.Some? ==> forall i :: 0 <= i < |hosts.value| ==> hosts.value[i].ipv4.Some? && |hosts.value[i].ipv4.value| > 0
  {
    var networkDf := FilterNan(table, IPv4, false);
    if networkDf.NoColumns? {
      return None;
    }
    var hostDf := FilterNan(networkDf.rows, Mask, true);
    if hostDf.NoColumns? {
      return None;
    }
    hosts := Some(hostDf.rows);
    assert forall i :: 0 <= i < |hostDf.rows| ==> hostDf.rows[i] in hostDf.rows;
  }

  /** `get_network_objects`; `None` is the `KeyError` raised, as in `GetHostObjects`, when the
      IPv4 filter leaves no row. */
  method GetNetworkObjects(table: seq<Row>) returns (networks: Option<seq<Row>>)
    ensures networks.None? <==> Filtered(table, IPv4, false) == []
    ensures networks.Some? ==> networks.value == NetworkObjects(table)
    ensures networks.Some? ==> forall i :: 0 <= i < |networks.value| ==> networks.value[i].ipv4.Some? && networks.value[i].mask.Some?
  {
    var networkDf := FilterNan(table, IPv4, false);
    if networkDf.NoColumns? {
      return None;
    }
    var filteredNetworkDf := FilterNan(networkDf.rows, Mask, false);
    if filteredNetworkDf.NoColumns? {
      return None;
    }
    networks := Some(filteredNetworkDf.rows);
    assert forall i :: 0 <= i < |filteredNetworkDf.rows| ==> filteredNetworkDf.rows[i] in filteredNetworkDf.rows;
  }

  /** `get_port_objects`; `None` is the `KeyError` of the projection on line 67, raised for a
      table without rows. */
  method GetPortObjects(table: seq<Row>) returns (ports: Option<seq<Row>>)
    ensures ports.None? <==> table == []
    ensures ports.Some? ==> ports.value == PortObjects(table)
    ensures ports.Some? ==> forall i :: 0 <= i < |ports.value| ==> ports.value[i].port.Some?
  {
    var portDf := FilterNan(table, Port, false);
    if portDf.NoColumns? {
      return None;
    }
    ports := Some(portDf.rows);
    assert forall i :: 0 <= i < |portDf.rows| ==> portDf.rows[i] in portDf.rows;
  }

  /** The three selections the `NetworkObjects` constructor stores. */
  datatype Selections = Selections(hosts: seq<Row>, networks: seq<Row>, ports: seq<Row>)

  /** The `NetworkObjects` constructor after `pd.read_csv`: it runs the three selectors in turn and
      fails, leaving no object and so writing no file, when any of them raises. */
  method LoadObjects(table: seq<Row>) returns (objects: Option<Selections>)
    ensures objects.None? <==> forall x :: x in table ==> IsBlank(x.ipv4)
    ensures objects.Some? ==> objects.value == Selections(HostObjects(table), NetworkObjects(table), PortObjects(table))
  {
    NoAddressRowsIffEmptyFilter(table);
    var hosts := GetHostObjects(table);
    if hosts.None? {
      return None;
    }
    var networks := GetNetworkObjects(table);
    if networks.None? {
      return None;
    }
    var ports := GetPortObjects(table);
    if ports.None? {
      return None;
    }
    objects := Some(Selections(hosts.value, networks.value, ports.value));
  }

  /** The IPv4 filter leaves no row exactly when no row of the table has an IPv4 value; a table
      without rows is one such table. */
  lemma NoAddressRowsIffEmptyFilter(table: seq<Row>)
    ensures Filtered(table, IPv4, false) == [] <==> forall x :: x in table ==> IsBlank(x.ipv4)
  {
    FilteredMembers(table, IPv4, false);
    var f := Filtered(table, IPv4, false);
    if f != [] {
      assert f[0] in f;
    }
  }

  /** Host and network rows are disjoint, together they are exactly the rows with an IPv4 value,
      and a row whose IPv4 cell is blank is in neither. */
  lemma HostsAndNetworksSplitAddressRows(table: seq<Row>)
    ensures multiset(HostObjects(table)) + multiset(NetworkObjects(table)) == multiset(Filtered(table, IPv4, false))
    ensures forall x :: !(x in HostObjects(table) && x in NetworkObjects(table))
    ensures forall x :: x in table && IsBlank(x.ipv4) ==> x !in HostObjects(table) && x !in NetworkObjects(table)
  {
    FilterPartition(Filtered(table, IPv4, false), Mask);
  }

  /** Each selected row keeps its label, which names its position in the table, and the
      selections list rows in table order. */
  lemma SelectionsKeepLabels(table: seq<Row>)
    requires Indexed(table)
    ensures forall x :: x in HostObjects(table) ==> x.index < |table| && table[x.index] == x
    ensures forall x :: x in NetworkObjects(table) ==> x.index < |table| && table[x.index] == x
    ensures forall x :: x in PortObjects(table) ==> x.index < |table| && table[x.index] == x
    ensures Increasing(HostObjects(table)) && Increasing(NetworkObjects(table)) && Increasing(PortObjects(table))
  {
    FilteredIncreasing(table, IPv4, false);
    FilteredIncreasing(Filtered(table, IPv4, false), Mask, true);
    FilteredIncreasing(Filtered(table, IPv4, false), Mask, false);
    FilteredIncreasing(table, Port, false);
  }
}
