/** What every run of the five inventory writers keeps: stock agrees with the
    log, never goes negative, and guarded dispatches respect the mass balance. */
module InventoryRuns {
  import opened Sums
  import opened Text
  import opened Inventory

  // ---------- One row, one movement ----------

  /** Writing one row moves the stock of its class by the change, and of no other class. */
  lemma WriteRow(items: map<Key, int>, k: Key, v: int, center: Center, name: string)
    ensures Stock(items[k := v], center, name)
         == Stock(items, center, name)
            + (if k.center == center && SqlNorm(k.material) == name then v - Get(items, k) else 0)
  {
    if k.center == center && SqlNorm(k.material) == name {
      assert ClassRows(items[k := v], center, name) == ClassRows(items, center, name)[k := v];
      SumUpdate(ClassRows(items, center, name), k, v);
    } else {
      assert ClassRows(items[k := v], center, name) == ClassRows(items, center, name);
    }
  }

  /** In a class, stock is what came in minus what went out. */
  ghost predicate AgreesAt(w: Warehouse, center: Center, name: string) {
    Stock(w.items, center, name)
    == Logged(w.log, center, true, Trimmed, name) - Logged(w.log, center, false, Trimmed, name)
  }

  ghost predicate Agrees(w: Warehouse) { forall center, name :: AgreesAt(w, center, name) }

  lemma LoggedAppend(log: seq<Movement>, m: Movement, center: Center, incoming: bool, how: Match, name: string)
    ensures Logged(log + [m], center, incoming, how, name)
         == Logged(log, center, incoming, how, name)
            + (if m.center == center && m.incoming == incoming && Matches(how, m.material, name) then m.grams else 0)
  {
    assert (log + [m])[..|log|] == log;
  }

  predicate InClass(m: Movement, center: Center, name: string) {
    m.center == center && SqlNorm(m.material) == name
  }

  /** A movement adds its signed quantity to the balance of the log in its own class only. */
  lemma LogBalance(log: seq<Movement>, m: Movement, center: Center, name: string)
    ensures Logged(log + [m], center, true, Trimmed, name) - Logged(log + [m], center, false, Trimmed, name)
         == Logged(log, center, true, Trimmed, name) - Logged(log, center, false, Trimmed, name)
            + (if InClass(m, center, name) then Signed(m) else 0)
  {
    LoggedAppend(log, m, center, true, Trimmed, name);
    LoggedAppend(log, m, center, false, Trimmed, name);
  }

  lemma EntryAgreesAt(w: Warehouse, k: Key, m: Movement, center: Center, name: string)
    requires AgreesAt(w, center, name)
    requires k.center == m.center && SqlNorm(k.material) == SqlNorm(m.material)
    ensures AgreesAt(Entered(w, k, m), center, name)
  {
    WriteRow(w.items, k, Get(w.items, k) + Signed(m), center, name);
    LogBalance(w.log, m, center, name);
  }

  /** A row change and a movement of the same amount in the same class keep stock and log in agreement. */
  lemma OneEntryAgrees(w: Warehouse, k: Key, m: Movement)
    requires Agrees(w)
    requires k.center == m.center && SqlNorm(k.material) == SqlNorm(m.material)
    ensures Agrees(Entered(w, k, m))
  {
    forall center, name
      ensures AgreesAt(Entered(w, k, m), center, name)
    {
      assert AgreesAt(w, center, name);
      EntryAgreesAt(w, k, m, center, name);
    }
  }

  // ---------- Dispatch lists ----------

  lemma {:induction false} NamesAreDistinct(lines: seq<Line>)
    ensures forall i, j :: 0 <= i < j < |Names(lines)| ==> Names(lines)[i] != Names(lines)[j]
    ensures forall n :: n in Names(lines) ==> n in Aggregate(lines) && Upper(n) == n && SqlNorm(n) == n
  {
    if lines != [] {
      NamesAreDistinct(lines[..|lines| - 1]);
      NormIsCanonical(lines[|lines| - 1].material);
    }
  }

  lemma {:induction false} AggregatesArePositive(lines: seq<Line>)
    requires forall i :: 0 <= i < |lines| ==> lines[i].grams > 0
    ensures forall n :: n in Aggregate(lines) ==> Aggregate(lines)[n] > 0
  {
    if lines != [] { AggregatesArePositive(lines[..|lines| - 1]); }
  }

  /** The rows found for distinct names lie in distinct classes. */
  predicate RowsFit(items: map<Key, int>, center: Center, rows: map<string, Key>, names: seq<string>) {
    forall n :: n in names ==>
      && n in rows && rows[n] in items && rows[n].center == center
      && SqlNorm(rows[n].material) == n && SqlNorm(n) == n && Upper(n) == n
  }

  predicate AllDistinct(names: seq<string>) { forall i, j :: 0 <= i < j < |names| ==> names[i] != names[j] }

  lemma {:induction false} UntakenRow(items: map<Key, int>, rows: map<string, Key>, sums: map<string, int>,
                                      names: seq<string>, k: Key)
    requires forall n :: n in names && n in rows ==> rows[n] != k
    ensures Get(Taken(items, rows, sums, names), k) == Get(items, k)
  {
    if names != [] { UntakenRow(items, rows, sums, names[..|names| - 1], k); }
  }

  /** Every name has a row of its own. */
  predicate RowsApart(rows: map<string, Key>, names: seq<string>) {
    && (forall n :: n in names ==> n in rows)
    && (forall n, o :: n in names && o in names && n != o ==> rows[n] != rows[o])
  }

  lemma FittingRowsAreApart(items: map<Key, int>, center: Center, rows: map<string, Key>, names: seq<string>)
    requires RowsFit(items, center, rows, names)
    ensures RowsApart(rows, names)
  {
  }

  /** Each chosen row loses exactly its material's total. */
  lemma {:induction false} TakenRow(items: map<Key, int>, rows: map<string, Key>, sums: map<string, int>,
                                    names: seq<string>, n: string)
    requires RowsApart(rows, names) && AllDistinct(names) && n in names
    ensures Get(Taken(items, rows, sums, names), rows[n]) == Get(items, rows[n]) - Get(sums, n)
  {
    var front, end := names[..|names| - 1], names[|names| - 1];
    assert names == front + [end] && end in names && end !in front;
    if n == end {
      UntakenRow(items, rows, sums, front, rows[n]);
    } else {
      TakenRow(items, rows, sums, front, n);
    }
  }

  lemma {:induction false} TakenKeys(items: map<Key, int>, center: Center, rows: map<string, Key>,
                                     sums: map<string, int>, names: seq<string>)
    requires RowsFit(items, center, rows, names)
    ensures Taken(items, rows, sums, names).Keys == items.Keys
  {
    if names != [] {
      TakenKeys(items, center, rows, sums, names[..|names| - 1]);
      assert names[|names| - 1] in names;
    }
  }

  /** The last movement of a dispatch is logged after the others. */
  lemma LastMovement(log: seq<Movement>, center: Center, sums: map<string, int>, front: seq<string>, n: string)
    ensures log + OutMovements(center, sums, front + [n])
         == log + OutMovements(center, sums, front) + [Movement(center, n, false, Get(sums, n))]
  {
  }

  /** The last name of a dispatch is one more entry. */
  lemma LastEntry(w: Warehouse, center: Center, rows: map<string, Key>, sums: map<string, int>,
                  front: seq<string>, n: string)
    requires n in rows
    ensures Warehouse(Taken(w.items, rows, sums, front + [n]), w.log + OutMovements(center, sums, front + [n]))
         == Entered(Warehouse(Taken(w.items, rows, sums, front), w.log + OutMovements(center, sums, front)),
                    rows[n], Movement(center, n, false, Get(sums, n)))
  {
    assert (front + [n])[..|front|] == front;
    LastMovement(w.log, center, sums, front, n);
  }

  /** Taking every row and logging every OUT movement keeps the agreement, name by name. */
  lemma {:induction false} DispatchAgrees(w: Warehouse, center: Center, rows: map<string, Key>,
                                          sums: map<string, int>, names: seq<string>)
    requires Agrees(w) && RowsFit(w.items, center, rows, names)
    ensures Agrees(Warehouse(Taken(w.items, rows, sums, names), w.log + OutMovements(center, sums, names)))
  {
    if names == [] {
      assert w.log + OutMovements(center, sums, names) == w.log;
    } else {
      var front, n := names[..|names| - 1], names[|names| - 1];
      assert names == front + [n] && n in names;
      DispatchAgrees(w, center, rows, sums, front);
      var mid := Warehouse(Taken(w.items, rows, sums, front), w.log + OutMovements(center, sums, front));
      OneEntryAgrees(mid, rows[n], Movement(center, n, false, Get(sums, n)));
      LastEntry(w, center, rows, sums, front, n);
    }
  }

  // ---------- Agreement and no negative stock ----------

  ghost predicate NoNegative(w: Warehouse) { forall k :: k in w.items ==> w.items[k] >= 0 }

  /** What a dispatching call has established before it writes. */
  lemma DispatchFits(w: Warehouse, c: Call)
    requires Admits(w, c) && (c.AcceptTransfer? || c.CreateTransfer?)
    ensures var names := Names(c.lines);
      && RowsFit(w.items, c.center, c.rows, names) && AllDistinct(names)
      && (forall n :: n in names ==> 0 < Get(Aggregate(c.lines), n) <= Get(w.items, c.rows[n]))
  {
    var names := Names(c.lines);
    NamesAreDistinct(c.lines);
    AggregatesArePositive(c.lines);
    var how := if c.AcceptTransfer? then RowMatch(c.queries) else Insensitive;
    forall n | n in names
      ensures n in c.rows && c.rows[n] in w.items && c.rows[n].center == c.center && SqlNorm(c.rows[n].material) == n
    {
      assert FindFirst(w.items, c.center, how, n, RowFor(c.rows, n));
      if how == Insensitive {
        InsensitiveMatchIsInClass(c.rows[n].material, n);
      }
    }
  }

  lemma DispatchNoNegative(w: Warehouse, center: Center, rows: map<string, Key>, sums: map<string, int>,
                           names: seq<string>)
    requires NoNegative(w) && RowsFit(w.items, center, rows, names) && AllDistinct(names)
    requires forall n :: n in names ==> Get(sums, n) <= Get(w.items, rows[n])
    ensures forall k :: k in Taken(w.items, rows, sums, names) ==> Taken(w.items, rows, sums, names)[k] >= 0
  {
    var after := Taken(w.items, rows, sums, names);
    TakenKeys(w.items, center, rows, sums, names);
    FittingRowsAreApart(w.items, center, rows, names);
    forall k | k in after ensures after[k] >= 0 {
      if n :| n in names && rows[n] == k {
        TakenRow(w.items, rows, sums, names, n);
      } else {
        UntakenRow(w.items, rows, sums, names, k);
      }
    }
  }

  lemma {:induction false} LoadKeeps(w: Warehouse, center: Center, materials: seq<Line>)
    requires Agrees(w) && NoNegative(w)
    ensures Agrees(Loaded(w, center, materials)) && NoNegative(Loaded(w, center, materials))
  {
    if materials != [] {
      var front, line := materials[..|materials| - 1], materials[|materials| - 1];
      LoadKeeps(w, center, front);
      if line.grams > 0 {
        var k := Key(center, Norm(line.material));
        OneEntryAgrees(Loaded(w, center, front), k, Movement(center, k.material, true, line.grams));
      }
    }
  }

  lemma StepAgrees(w: Warehouse, c: Call)
    requires Agrees(w) && NoNegative(w)
    ensures Agrees(Apply(w, c)) && NoNegative(Apply(w, c))
  {
    if Admits(w, c) {
      match c {
        case CreateMovement(center, material, incoming, grams) =>
          OneEntryAgrees(w, Key(center, material), Movement(center, material, incoming, grams));
        case LoadBatch(center, materials) => LoadKeeps(w, center, materials);
        case CreateSale(center, material, grams, _, found) =>
          NormIsCanonical(material);
          InsensitiveMatchIsInClass(found.value.material, Norm(material));
          OneEntryAgrees(w, found.value, Movement(center, Norm(material), false, grams));
        case _ =>
          DispatchFits(w, c);
          DispatchAgrees(w, c.center, c.rows, Aggregate(c.lines), Names(c.lines));
          DispatchNoNegative(w, c.center, c.rows, Aggregate(c.lines), Names(c.lines));
      }
    }
  }

  /** In every run of the five writers: no stock row is negative, and in every class the rows add up to total IN
      minus total OUT, with repeated and differently written material lines, failing queries included. */
  lemma {:induction false} InventoryAgreement(calls: seq<Call>)
    ensures Agrees(Exec(calls)) && NoNegative(Exec(calls))
  {
    if calls == [] {
      forall center, name ensures AgreesAt(EMPTY_WAREHOUSE, center, name) {
        assert ClassRows(map[], center, name) == map[];
      }
    } else {
      InventoryAgreement(calls[..|calls| - 1]);
      StepAgrees(Exec(calls[..|calls| - 1]), calls[|calls| - 1]);
    }
  }
}
