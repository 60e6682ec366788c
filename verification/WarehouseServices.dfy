/** The five writers as they run on the stock table and the movement log. */
module WarehouseServices {
  import opened Wrappers
  import opened Sums
  import opened Text
  import opened Inventory

  /** The call was admitted or not, and the tables are what the call makes of them. */
  predicate Did(before: Warehouse, after: Warehouse, ok: bool, c: Call) {
    ok == Admits(before, c) && after == Apply(before, c)
  }

  class Tables {
    var items: map<Key, int>
    var log: seq<Movement>

    constructor ()
      ensures View() == EMPTY_WAREHOUSE
    {
      items, log := map[], [];
    }

    function View(): Warehouse
      reads this
    {
      Warehouse(items, log)
    }

    /** Some stock row matching the name, if there is one. */
    method FindRow(center: Center, how: Match, name: string) returns (found: Option<Key>)
      ensures FindFirst(items, center, how, name, found)
      ensures found.Some? ==> found.value in items && found.value.center == center
                              && Matches(how, found.value.material, name)
      ensures found.None? ==> forall k :: k in items && k.center == center ==> !Matches(how, k.material, name)
    {
      var todo := items.Keys;
      while todo != {}
        invariant todo <= items.Keys
        invariant forall k :: k in items.Keys - todo ==> !(k.center == center && Matches(how, k.material, name))
        decreases todo
      {
        var k :| k in todo;
        if k.center == center && Matches(how, k.material, name) { return Some(k); }
        todo := todo - {k};
      }
      return None;
    }

    /** The aggregate query over the movement log. */
    method SumLog(center: Center, incoming: bool, how: Match, name: string) returns (total: int)
      ensures total == Logged(log, center, incoming, how, name)
    {
      total := 0;
      for i := 0 to |log|
        invariant total == Logged(log[..i], center, incoming, how, name)
      {
        assert log[..i + 1][..i] == log[..i];
        if log[i].center == center && log[i].incoming == incoming && Matches(how, log[i].material, name) {
          total := total + log[i].grams;
        }
      }
      assert log[..|log|] == log;
    }

    /** POST /inventory/movements. */
    method RecordMovement(center: Center, material: string, incoming: bool, grams: int) returns (ok: bool)
      modifies this
      ensures Did(old(View()), View(), ok, CreateMovement(center, material, incoming, grams))
    {
      if grams <= 0 { return false; }
      var k := Key(center, material);
      if !incoming && (k !in items || items[k] < grams) { return false; }
      log := log + [Movement(center, material, incoming, grams)];
      if k in items {
        items := items[k := if incoming then items[k] + grams else items[k] - grams];
      } else {
        items := items[k := grams];
      }
      return true;
    }

    /** One material of a received batch: lines without weight are skipped. */
    method LoadOne(center: Center, line: Line)
      modifies this
      ensures var m := Movement(center, Norm(line.material), true, line.grams);
        View() == if line.grams <= 0 then old(View()) else Entered(old(View()), Key(center, m.material), m)
    {
      if line.grams <= 0 { return; }
      var k := Key(center, Norm(line.material));
      if k in items {
        items := items[k := items[k] + line.grams];
      } else {
        items := items[k := line.grams];
      }
      log := log + [Movement(center, k.material, true, line.grams)];
    }

    /** Step E of batch processing. */
    method LoadInventory(center: Center, materials: seq<Line>)
      modifies this
      ensures Did(old(View()), View(), true, LoadBatch(center, materials))
    {
      for i := 0 to |materials|
        invariant View() == Loaded(old(View()), center, materials[..i])
      {
        assert materials[..i + 1][..i] == materials[..i];
        LoadOne(center, materials[i]);
      }
      assert materials[..|materials|] == materials;
    }

    method Sell(center: Center, material: string, grams: int, buyerIsB2b: bool)
      returns (ok: bool, ghost found: Option<Key>)
      modifies this
      ensures Did(old(View()), View(), ok, CreateSale(center, material, grams, buyerIsB2b, found))
    {
      found := None;
      if grams < 500 || !buyerIsB2b { return false, found; }
      var name := Norm(material);
      var totalIn := SumLog(center, true, Insensitive, name);
      var totalOut := SumLog(center, false, Insensitive, name);
      if 100 * (totalOut + grams) > 95 * totalIn { return false, found; }
      var row := FindRow(center, Insensitive, name);
      found := row;
      if row.None? || items[row.value] < grams { return false, found; }
      items := items[row.value := items[row.value] - grams];
      log := log + [Movement(center, name, false, grams)];
      return true, found;
    }

    /** Adds repeated lines up under their normalised name, keeping the order of first appearance. */
    method AggregateLines(lines: seq<Line>) returns (sums: map<string, int>, names: seq<string>)
      ensures sums == Aggregate(lines) && names == Names(lines)
    {
      sums, names := map[], [];
      for i := 0 to |lines|
        invariant sums == Aggregate(lines[..i]) && names == Names(lines[..i])
      {
        assert lines[..i + 1][..i] == lines[..i];
        var name := Norm(lines[i].material);
        sums := sums[name := (if name in sums then sums[name] else 0) + lines[i].grams];
        if name !in names {
          names := names + [name];
        }
      }
      assert lines[..|lines|] == lines;
    }

    method FindRows(center: Center, how: Match, names: seq<string>) returns (rows: map<string, Key>)
      ensures FindsAll(items, center, how, names, rows)
    {
      rows := map[];
      for i := 0 to |names|
        invariant forall n :: n in rows ==> n in names[..i]
        invariant forall n :: n in names[..i] ==> FindFirst(items, center, how, n, RowFor(rows, n))
      {
        var row := FindRow(center, how, names[i]);
        ghost var before := rows;
        if row.Some? {
          rows := rows[names[i] := row.value];
        }
        forall n | n in names[..i + 1] ensures FindFirst(items, center, how, n, RowFor(rows, n)) {
          if n == names[i] {
            assert row.None? && n in before ==> n in names[..i];
          } else {
            assert n in names[..i] && RowFor(rows, n) == RowFor(before, n);
          }
        }
      }
      assert names[..|names|] == names;
    }

    /** Decrements all chosen rows, then appends all OUT movements. */
    method TakeOut(center: Center, rows: map<string, Key>, sums: map<string, int>, names: seq<string>)
      requires forall n :: n in names ==> n in rows && rows[n] in items && n in sums
      modifies this
      ensures items == Taken(old(items), rows, sums, names)
      ensures log == old(log) + OutMovements(center, sums, names)
    {
      for i := 0 to |names|
        invariant items == Taken(old(items), rows, sums, names[..i]) && items.Keys == old(items).Keys
        invariant log == old(log)
      {
        assert names[..i + 1][..i] == names[..i];
        var k := rows[names[i]];
        items := items[k := items[k] - sums[names[i]]];
      }
      assert names[..|names|] == names;
      log := log + OutMovements(center, sums, names);
    }

    /** Checks every aggregated material before anything is written. */
    method CheckDispatch(center: Center, q: Queries, rows: map<string, Key>, sums: map<string, int>, names: seq<string>)
      returns (ok: bool)
      requires forall n :: n in names ==> n in sums
      requires forall n :: n in rows ==> rows[n] in items
      ensures ok <==> forall n :: n in names ==> DispatchOk(View(), center, q, rows, n, Get(sums, n))
    {
      for i := 0 to |names|
        invariant forall n :: n in names[..i] ==> DispatchOk(View(), center, q, rows, n, Get(sums, n))
      {
        var name := names[i];
        var grams := sums[name];
        var totalIn, totalOut := 0, 0;
        if q != SecondFails {
          var how := if q == FirstFails then Insensitive else Trimmed;
          totalIn := SumLog(center, true, how, name);
          totalOut := SumLog(center, false, how, name);
        }
        if totalIn > 0 && 100 * (totalOut + grams) > 95 * totalIn {
          assert !DispatchOk(View(), center, q, rows, name, Get(sums, name));
          return false;
        }
        if name !in rows || items[rows[name]] < grams {
          assert !DispatchOk(View(), center, q, rows, name, Get(sums, name));
          return false;
        }
      }
      assert names[..|names|] == names;
      return true;
    }

    /** With neither rows found nor totals read, the fallback queries find no row either, so the dispatch
        is refused alike. */
    method Accept(center: Center, lines: seq<Line>, requested: bool, q: Queries)
      returns (ok: bool, ghost rows: map<string, Key>)
      modifies this
      ensures Did(old(View()), View(), ok, AcceptTransfer(center, lines, requested, q, rows))
    {
      rows := map[];
      if !PositiveLines(lines) || !requested { return false, rows; }
      var sums, names := AggregateLines(lines);
      var inventory := FindRows(center, RowMatch(q), names);
      rows := inventory;
      NamesAreAggregated(lines);
      RowsExist(items, center, RowMatch(q), names, inventory);
      ok := CheckDispatch(center, q, inventory, sums, names);
      if ok {
        assert forall n :: n in names ==> DispatchOk(View(), center, q, rows, n, Get(sums, n));
        TakeOut(center, inventory, sums, names);
      }
    }

    method CheckStock(rows: map<string, Key>, sums: map<string, int>, names: seq<string>) returns (ok: bool)
      requires forall n :: n in names ==> n in sums
      requires forall n :: n in rows ==> rows[n] in items
      ensures ok <==> forall n :: n in names ==> n in rows && Get(items, rows[n]) >= Get(sums, n)
    {
      for i := 0 to |names|
        invariant forall n :: n in names[..i] ==> n in rows && Get(items, rows[n]) >= Get(sums, n)
      {
        if names[i] !in rows || items[rows[names[i]]] < sums[names[i]] {
          assert names[i] in names;
          return false;
        }
      }
      assert names[..|names|] == names;
      return true;
    }

    method Transfer(center: Center, lines: seq<Line>, buyerIsB2b: bool)
      returns (ok: bool, ghost rows: map<string, Key>)
      modifies this
      ensures Did(old(View()), View(), ok, CreateTransfer(center, lines, buyerIsB2b, rows))
    {
      rows := map[];
      if !PositiveLines(lines) || !buyerIsB2b { return false, rows; }
      var sums, names := AggregateLines(lines);
      var inventory := FindRows(center, Insensitive, names);
      rows := inventory;
      NamesAreAggregated(lines);
      RowsExist(items, center, Insensitive, names, inventory);
      ok := CheckStock(inventory, sums, names);
      if ok {
        TakeOut(center, inventory, sums, names);
      }
    }
  }

  lemma {:induction false} NamesAreAggregated(lines: seq<Line>)
    ensures forall n :: n in Names(lines) ==> n in Aggregate(lines)
  {
    if lines != [] { NamesAreAggregated(lines[..|lines| - 1]); }
  }

  lemma RowsExist(items: map<Key, int>, center: Center, how: Match, names: seq<string>, rows: map<string, Key>)
    requires FindsAll(items, center, how, names, rows)
    ensures forall n :: n in rows ==> rows[n] in items
  {
    forall n | n in rows ensures rows[n] in items {
      assert FindFirst(items, center, how, n, RowFor(rows, n));
    }
  }
}
