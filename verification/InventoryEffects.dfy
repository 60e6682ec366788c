/** What each writer of the inventory takes, adds and logs, read off its own arguments, and when it may. */
module InventoryEffects {
  import opened Inventory
  import opened InventoryRuns
  import opened MassBalance
  import opened Sums
  import opened Text
  import opened Wrappers

  // ---------- Sums over lines ----------

  /** The grams of all lines whose normalised name is n. */
  function GramsOf(lines: seq<Line>, n: string): int {
    if lines == [] then 0
    else (if Norm(lines[0].material) == n then lines[0].grams else 0) + GramsOf(lines[1..], n)
  }

  function TotalGrams(lines: seq<Line>): int {
    if lines == [] then 0 else lines[0].grams + TotalGrams(lines[1..])
  }

  predicate Named(lines: seq<Line>, n: string) { exists i :: 0 <= i < |lines| && Norm(lines[i].material) == n }

  lemma {:induction false} LineAppended(lines: seq<Line>, line: Line, n: string)
    ensures GramsOf(lines + [line], n) == GramsOf(lines, n) + if Norm(line.material) == n then line.grams else 0
    ensures TotalGrams(lines + [line]) == TotalGrams(lines) + line.grams
  {
    if lines == [] {
      assert [] + [line] == [line] && [line][1..] == [];
    } else {
      assert (lines + [line])[1..] == lines[1..] + [line];
      LineAppended(lines[1..], line, n);
    }
  }

  lemma NamedAppended(lines: seq<Line>, line: Line, n: string)
    ensures Named(lines + [line], n) <==> Named(lines, n) || Norm(line.material) == n
  {
    var longer := lines + [line];
    assert longer[|lines|] == line;
    if i :| 0 <= i < |lines| && Norm(lines[i].material) == n { assert longer[i] == lines[i]; }
  }

  /** The aggregate of a material is the sum of all its lines, however often and however written it appears. */
  lemma {:induction false} AggregateIs(lines: seq<Line>, n: string)
    ensures Get(Aggregate(lines), n) == GramsOf(lines, n)
    ensures n in Aggregate(lines) <==> Named(lines, n)
  {
    if lines != [] {
      var front, line := lines[..|lines| - 1], lines[|lines| - 1];
      assert lines == front + [line];
      AggregateIs(front, n);
      LineAppended(front, line, n);
      NamedAppended(front, line, n);
    }
  }

  lemma LastAggregate(front: seq<Line>, line: Line)
    ensures Sum(Aggregate(front + [line])) == Sum(Aggregate(front)) + line.grams
  {
    var sums, n := Aggregate(front), Norm(line.material);
    assert (front + [line])[..|front|] == front;
    SumUpdate(sums, n, Get(sums, n) + line.grams);
  }

  /** The aggregates together are all lines together. */
  lemma {:induction false} AggregateTotal(lines: seq<Line>)
    ensures Sum(Aggregate(lines)) == TotalGrams(lines)
  {
    if lines != [] {
      var front, line := lines[..|lines| - 1], lines[|lines| - 1];
      AggregateTotal(front);
      LastAggregate(front, line);
      LineAppended(front, line, "");
      assert lines == front + [line];
    }
  }

  lemma {:induction false} NamesAre(lines: seq<Line>, n: string)
    ensures n in Names(lines) <==> Named(lines, n)
  {
    if lines != [] {
      var front, line := lines[..|lines| - 1], lines[|lines| - 1];
      assert lines == front + [line];
      NamesAre(front, n);
      NamedAppended(front, line, n);
    }
  }

  lemma {:induction false} UnnamedWeighsNothing(lines: seq<Line>, n: string)
    requires !Named(lines, n)
    ensures GramsOf(lines, n) == 0
  {
    if lines != [] {
      assert Norm(lines[0].material) != n;
      forall i | 0 <= i < |lines| - 1 ensures Norm(lines[1..][i].material) != n {
        assert lines[1..][i] == lines[i + 1];
      }
      UnnamedWeighsNothing(lines[1..], n);
    }
  }

  // ---------- Dispatches ----------

  predicate Dispatches(c: Call) { c.AcceptTransfer? || c.CreateTransfer? }

  /** Every name has a row at the center, in its own class. */
  predicate RowsInClass(from: Center, rows: map<string, Key>, names: seq<string>) {
    forall o :: o in names ==> o in rows && rows[o].center == from && SqlNorm(rows[o].material) == o
  }

  lemma LastTaken(items: map<Key, int>, rows: map<string, Key>, sums: map<string, int>, front: seq<string>, end: string)
    requires end in rows
    ensures var before := Taken(items, rows, sums, front);
      Taken(items, rows, sums, front + [end]) == before[rows[end] := Get(before, rows[end]) - Get(sums, end)]
  {
    assert (front + [end])[..|front|] == front;
  }

  lemma LastTakenStock(items: map<Key, int>, rows: map<string, Key>, sums: map<string, int>, front: seq<string>,
                       end: string, center: Center, n: string)
    requires end in rows
    ensures Stock(Taken(items, rows, sums, front + [end]), center, n)
         == Stock(Taken(items, rows, sums, front), center, n)
            - (if center == rows[end].center && n == SqlNorm(rows[end].material) then Get(sums, end) else 0)
  {
    LastTaken(items, rows, sums, front, end);
    var before, k := Taken(items, rows, sums, front), rows[end];
    WriteRow(before, k, Get(before, k) - Get(sums, end), center, n);
  }

  lemma {:induction false} TakenStock(items: map<Key, int>, from: Center, rows: map<string, Key>,
                                      sums: map<string, int>, names: seq<string>, center: Center, n: string)
    requires RowsInClass(from, rows, names) && AllDistinct(names)
    ensures Stock(Taken(items, rows, sums, names), center, n)
         == Stock(items, center, n) - (if center == from && n in names then Get(sums, n) else 0)
  {
    if names != [] {
      var front, end := names[..|names| - 1], names[|names| - 1];
      assert names == front + [end] && end in names && end !in front;
      TakenStock(items, from, rows, sums, front, center, n);
      LastTakenStock(items, rows, sums, front, end, center, n);
    }
  }

  /** What a dispatch takes from a class of materials at a center. */
  function TakenFrom(c: Call, center: Center, n: string): int
    requires Dispatches(c)
  {
    if center == c.center then GramsOf(c.lines, n) else 0
  }

  lemma DispatchSum(c: Call, center: Center, n: string)
    requires Dispatches(c)
    ensures TakenFrom(c, center, n)
         == if center == c.center && n in Names(c.lines) then Get(Aggregate(c.lines), n) else 0
  {
    AggregateIs(c.lines, n);
    NamesAre(c.lines, n);
    if !Named(c.lines, n) { UnnamedWeighsNothing(c.lines, n); }
  }

  /** An accepted dispatch lowers the stock of every class by exactly the sum of the lines of that material, logs the
      same sum as having left, and touches no other class, center or total. */
  lemma DispatchEffect(w: Warehouse, c: Call, center: Center, n: string)
    requires Admits(w, c) && Dispatches(c)
    ensures Stock(Apply(w, c).items, center, n) == Stock(w.items, center, n) - TakenFrom(c, center, n)
    ensures Logged(Apply(w, c).log, center, false, Trimmed, n)
         == Logged(w.log, center, false, Trimmed, n) + TakenFrom(c, center, n)
    ensures Logged(Apply(w, c).log, center, true, Trimmed, n) == Logged(w.log, center, true, Trimmed, n)
  {
    var sums, names := Aggregate(c.lines), Names(c.lines);
    DispatchFits(w, c);
    NamesAreDistinct(c.lines);
    DispatchSum(c, center, n);
    TakenStock(w.items, c.center, c.rows, sums, names, center, n);
    DispatchTotals(w.log, c.center, sums, names, center, false, n);
    DispatchTotals(w.log, c.center, sums, names, center, true, n);
  }

  /** A dispatch takes each material from the row found for it, and no other row moves. */
  lemma DispatchRows(w: Warehouse, c: Call, n: string, k: Key)
    requires Admits(w, c) && Dispatches(c)
    ensures Named(c.lines, n) ==>
      n in c.rows && Get(Apply(w, c).items, c.rows[n]) == Get(w.items, c.rows[n]) - GramsOf(c.lines, n)
    ensures (forall o :: Named(c.lines, o) && o in c.rows ==> c.rows[o] != k) ==>
      Get(Apply(w, c).items, k) == Get(w.items, k)
  {
    DispatchFits(w, c);
    FittingRowsAreApart(w.items, c.center, c.rows, Names(c.lines));
    NamesAre(c.lines, n);
    AggregateIs(c.lines, n);
    if Named(c.lines, n) { TakenRow(w.items, c.rows, Aggregate(c.lines), Names(c.lines), n); }
    if forall o :: Named(c.lines, o) && o in c.rows ==> c.rows[o] != k {
      forall o | o in Names(c.lines) ensures o in c.rows ==> c.rows[o] != k { NamesAre(c.lines, o); }
      UntakenRow(w.items, c.rows, Aggregate(c.lines), Names(c.lines), k);
    }
  }

  /** A case-insensitive match compares letter by letter in upper case; a trimmed one does so without the spaces
      around the stored text. */
  lemma MatchesIs(stored: string, name: string)
    ensures Matches(Exact, stored, name) <==> stored == name
    ensures Matches(Insensitive, stored, name)
       <==> |stored| == |name| && forall i :: 0 <= i < |stored| ==> name[i] == UpperChar(stored[i])
    ensures Matches(Trimmed, stored, name) <==> Matches(Insensitive, Trim(stored, {' '}), name)
  {
    UpperPointwise(stored);
  }

  /** What a findFirst for a name may answer: a matching row of the center, or none when the center has none. */
  lemma FindFirstIs(items: map<Key, int>, center: Center, how: Match, name: string, found: Option<Key>)
    ensures FindFirst(items, center, how, name, found)
       <==> if found == None then !(exists m :: Key(center, m) in items && Matches(how, m, name))
            else found.value.center == center && found.value in items && Matches(how, found.value.material, name)
  {
    assert forall k: Key :: k == Key(k.center, k.material);
  }

  /** Every line can be served: a row was found for its material, with enough in it for all lines of the material. */
  predicate Serves(w: Warehouse, lines: seq<Line>, rows: map<string, Key>, n: string) {
    n in rows && rows[n] in w.items && w.items[rows[n]] >= GramsOf(lines, n)
  }

  /** The totals a query read, if they were read, leave room for all lines of the material. */
  predicate RoomRead(w: Warehouse, center: Center, how: Match, lines: seq<Line>, n: string) {
    var totalIn := Logged(w.log, center, true, how, n);
    totalIn > 0 ==> 100 * (Logged(w.log, center, false, how, n) + GramsOf(lines, n)) <= 95 * totalIn
  }

  lemma ServesIs(w: Warehouse, c: Call, n: string)
    requires Dispatches(c) && Named(c.lines, n) && PositiveLines(c.lines)
    ensures Serves(w, c.lines, c.rows, n)
       <==> n in c.rows && Get(w.items, c.rows[n]) >= Get(Aggregate(c.lines), n)
  {
    AggregateIs(c.lines, n);
    AggregatesArePositive(c.lines);
  }

  /** A requested transfer is accepted exactly when it has lines, all of them positive, and for the material of each
      line a row with enough stock was found and the totals read, if any, leave room under 95% of the entries. */
  lemma AcceptAdmittedIff(w: Warehouse, c: Call)
    requires c.AcceptTransfer?
    ensures Admits(w, c) <==>
      && c.requested && c.lines != [] && (forall i :: 0 <= i < |c.lines| ==> c.lines[i].grams > 0)
      && FindsAll(w.items, c.center, if c.queries.FirstFails? then Insensitive else Trimmed, Names(c.lines), c.rows)
      && forall n :: Named(c.lines, n) ==>
           && Serves(w, c.lines, c.rows, n)
           && (c.queries.BothAnswer? ==> RoomRead(w, c.center, Trimmed, c.lines, n))
           && (c.queries.FirstFails? ==> RoomRead(w, c.center, Insensitive, c.lines, n))
  {
    if PositiveLines(c.lines) {
      forall n | Named(c.lines, n)
        ensures DispatchOk(w, c.center, c.queries, c.rows, n, Get(Aggregate(c.lines), n)) <==>
          && Serves(w, c.lines, c.rows, n)
          && (c.queries.BothAnswer? ==> RoomRead(w, c.center, Trimmed, c.lines, n))
          && (c.queries.FirstFails? ==> RoomRead(w, c.center, Insensitive, c.lines, n))
      {
        AggregateIs(c.lines, n);
        ServesIs(w, c, n);
      }
    }
    forall n ensures n in Names(c.lines) <==> Named(c.lines, n) { NamesAre(c.lines, n); }
  }

  /** A direct dispatch asks for a B2B buyer and for stock, and for nothing else. */
  lemma TransferAdmittedIff(w: Warehouse, c: Call)
    requires c.CreateTransfer?
    ensures Admits(w, c) <==>
      && c.buyerIsB2b && c.lines != [] && (forall i :: 0 <= i < |c.lines| ==> c.lines[i].grams > 0)
      && FindsAll(w.items, c.center, Insensitive, Names(c.lines), c.rows)
      && forall n :: Named(c.lines, n) ==> Serves(w, c.lines, c.rows, n)
  {
    if PositiveLines(c.lines) {
      forall n | Named(c.lines, n)
        ensures Serves(w, c.lines, c.rows, n) <==> n in c.rows && Get(w.items, c.rows[n]) >= Get(Aggregate(c.lines), n)
      {
        ServesIs(w, c, n);
      }
    }
    forall n ensures n in Names(c.lines) <==> Named(c.lines, n) { NamesAre(c.lines, n); }
  }

  // ---------- Batch loading ----------

  /** One IN movement for every positive line, in order, under its normalised name. */
  function Entries(center: Center, lines: seq<Line>): seq<Movement> {
    if lines == [] then []
    else
      (if lines[0].grams > 0 then [Movement(center, Norm(lines[0].material), true, lines[0].grams)] else [])
      + Entries(center, lines[1..])
  }

  /** The lines a batch loads. */
  function PositiveOnly(lines: seq<Line>): seq<Line> {
    if lines == [] then []
    else (if lines[0].grams > 0 then [lines[0]] else []) + PositiveOnly(lines[1..])
  }

  lemma {:induction false} EntriesAppended(center: Center, lines: seq<Line>, line: Line)
    ensures Entries(center, lines + [line]) == Entries(center, lines)
      + (if line.grams > 0 then [Movement(center, Norm(line.material), true, line.grams)] else [])
    ensures PositiveOnly(lines + [line]) == PositiveOnly(lines) + (if line.grams > 0 then [line] else [])
  {
    if lines == [] {
      assert [] + [line] == [line] && [line][1..] == [];
    } else {
      assert (lines + [line])[1..] == lines[1..] + [line];
      EntriesAppended(center, lines[1..], line);
    }
  }

  /** Loading a batch logs one entry for every positive line, in order. */
  lemma {:induction false} LoadedLog(w: Warehouse, center: Center, lines: seq<Line>)
    ensures Loaded(w, center, lines).log == w.log + Entries(center, lines)
  {
    if lines != [] {
      var front, line := lines[..|lines| - 1], lines[|lines| - 1];
      assert lines == front + [line];
      LoadedLog(w, center, front);
      EntriesAppended(center, front, line);
    }
  }

  /** It adds to each row of the center the sum of the positive lines of its material, and touches no other row. */
  lemma {:induction false} LoadedRows(w: Warehouse, center: Center, lines: seq<Line>, k: Key)
    ensures Get(Loaded(w, center, lines).items, k)
         == Get(w.items, k) + (if k.center == center then GramsOf(PositiveOnly(lines), k.material) else 0)
  {
    if lines != [] {
      var front, line := lines[..|lines| - 1], lines[|lines| - 1];
      assert lines == front + [line];
      LoadedRows(w, center, front, k);
      EntriesAppended(center, front, line);
      if line.grams > 0 {
        LineAppended(PositiveOnly(front), line, k.material);
        assert k == Key(center, Norm(line.material)) <==> k.center == center && Norm(line.material) == k.material;
      } else {
        assert PositiveOnly(lines) == PositiveOnly(front);
      }
    }
  }

  /** All grams logged as having entered a center. */
  function EnteredAt(log: seq<Movement>, center: Center): int {
    if log == [] then 0
    else (if log[0].center == center && log[0].incoming then log[0].grams else 0) + EnteredAt(log[1..], center)
  }

  lemma {:induction false} EnteredAtConcat(a: seq<Movement>, b: seq<Movement>, center: Center)
    ensures EnteredAt(a + b, center) == EnteredAt(a, center) + EnteredAt(b, center)
  {
    if a == [] {
      assert a + b == b;
    } else {
      assert (a + b)[1..] == a[1..] + b;
      EnteredAtConcat(a[1..], b, center);
    }
  }

  lemma {:induction false} EntriesWeigh(center: Center, lines: seq<Line>)
    ensures EnteredAt(Entries(center, lines), center) == TotalGrams(PositiveOnly(lines))
  {
    if lines != [] {
      EntriesWeigh(center, lines[1..]);
      if lines[0].grams > 0 {
        assert PositiveOnly(lines)[1..] == PositiveOnly(lines[1..]);
        assert Entries(center, lines)[1..] == Entries(center, lines[1..]);
      } else {
        assert PositiveOnly(lines) == PositiveOnly(lines[1..]);
        assert Entries(center, lines) == Entries(center, lines[1..]);
      }
    }
  }

  /** What entered the center rises by all positive lines of the batch. */
  lemma LoadTotal(w: Warehouse, center: Center, lines: seq<Line>)
    ensures EnteredAt(Apply(w, LoadBatch(center, lines)).log, center)
         == EnteredAt(w.log, center) + TotalGrams(PositiveOnly(lines))
  {
    LoadedLog(w, center, lines);
    EnteredAtConcat(w.log, Entries(center, lines), center);
    EntriesWeigh(center, lines);
  }

  // ---------- Movements and sales ----------

  /** A manual movement needs a positive quantity and, going out, as much in the row of exactly that text. */
  lemma MovementAdmittedIff(w: Warehouse, c: Call)
    requires c.CreateMovement?
    ensures Admits(w, c) <==>
      && c.grams > 0
      && (c.incoming || (Key(c.center, c.material) in w.items && w.items[Key(c.center, c.material)] >= c.grams))
  {
  }

  lemma MovementEffect(w: Warehouse, c: Call, k: Key)
    requires c.CreateMovement? && Admits(w, c)
    ensures Apply(w, c).log == w.log + [Movement(c.center, c.material, c.incoming, c.grams)]
    ensures Get(Apply(w, c).items, k)
         == if k.center != c.center || k.material != c.material then Get(w.items, k)
            else if c.incoming then Get(w.items, k) + c.grams else Get(w.items, k) - c.grams
  {
  }

  /** A sale is of half a kilogram or more, to a B2B buyer, within 95% of the entries its queries see, from a row found
      with enough in it. */
  lemma SaleAdmittedIff(w: Warehouse, c: Call)
    requires c.CreateSale?
    ensures Admits(w, c) <==>
      var n := Norm(c.material);
      && c.grams >= 500 && c.buyerIsB2b
      && 100 * (Logged(w.log, c.center, false, Insensitive, n) + c.grams)
         <= 95 * Logged(w.log, c.center, true, Insensitive, n)
      && FindFirst(w.items, c.center, Insensitive, n, c.found)
      && c.found.Some? && c.found.value in w.items && w.items[c.found.value] >= c.grams
  {
  }

  lemma SaleEffect(w: Warehouse, c: Call, k: Key)
    requires c.CreateSale? && Admits(w, c)
    ensures Apply(w, c).log == w.log + [Movement(c.center, Norm(c.material), false, c.grams)]
    ensures Get(Apply(w, c).items, k) == Get(w.items, k) - (if c.found == Some(k) then c.grams else 0)
  {
  }
}
