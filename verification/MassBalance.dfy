/** The shrink rule over whole runs: what leaves a center stays within 95% of what came in. */
module MassBalance {
  import opened Sums
  import opened Text
  import opened Inventory
  import opened InventoryRuns

  // ---------- Every row is backed by its own entries ----------

  predicate PositiveLog(log: seq<Movement>) { forall i :: 0 <= i < |log| ==> log[i].grams > 0 }

  /** A row holds at most what was logged in under exactly its text. */
  ghost predicate BackedAt(w: Warehouse, k: Key) {
    Get(w.items, k) <= Logged(w.log, k.center, true, Exact, k.material)
  }

  ghost predicate Backed(w: Warehouse) { PositiveLog(w.log) && forall k :: BackedAt(w, k) }

  lemma {:induction false} LoggedNonNegative(log: seq<Movement>, center: Center, incoming: bool, how: Match,
                                             name: string)
    requires PositiveLog(log)
    ensures Logged(log, center, incoming, how, name) >= 0
  {
    if log != [] { LoggedNonNegative(log[..|log| - 1], center, incoming, how, name); }
  }

  lemma EntryBacked(w: Warehouse, k: Key, m: Movement)
    requires Backed(w) && m.grams > 0
    requires m.incoming ==> m.center == k.center && m.material == k.material
    ensures Backed(Entered(w, k, m))
  {
    forall j ensures BackedAt(Entered(w, k, m), j) {
      assert BackedAt(w, j);
      LoggedAppend(w.log, m, j.center, true, Exact, j.material);
    }
  }

  lemma {:induction false} DispatchBacked(w: Warehouse, center: Center, rows: map<string, Key>,
                                          sums: map<string, int>, names: seq<string>)
    requires Backed(w) && RowsFit(w.items, center, rows, names)
    requires forall n :: n in names ==> Get(sums, n) > 0
    ensures Backed(Warehouse(Taken(w.items, rows, sums, names), w.log + OutMovements(center, sums, names)))
  {
    if names == [] {
      assert w.log + OutMovements(center, sums, names) == w.log;
    } else {
      var front, n := names[..|names| - 1], names[|names| - 1];
      assert names == front + [n] && n in names;
      DispatchBacked(w, center, rows, sums, front);
      var mid := Warehouse(Taken(w.items, rows, sums, front), w.log + OutMovements(center, sums, front));
      EntryBacked(mid, rows[n], Movement(center, n, false, Get(sums, n)));
      LastEntry(w, center, rows, sums, front, n);
    }
  }

  lemma {:induction false} LoadBacked(w: Warehouse, center: Center, materials: seq<Line>)
    requires Backed(w)
    ensures Backed(Loaded(w, center, materials))
  {
    if materials != [] {
      var front, line := materials[..|materials| - 1], materials[|materials| - 1];
      LoadBacked(w, center, front);
      if line.grams > 0 {
        var k := Key(center, Norm(line.material));
        EntryBacked(Loaded(w, center, front), k, Movement(center, k.material, true, line.grams));
      }
    }
  }

  /** In every run of the five writers, each row is backed by entries under its own text. */
  lemma {:induction false} RowsAreBacked(calls: seq<Call>)
    ensures Backed(Exec(calls))
  {
    if calls != [] {
      var w, c := Exec(calls[..|calls| - 1]), calls[|calls| - 1];
      RowsAreBacked(calls[..|calls| - 1]);
      if Admits(w, c) {
        match c {
          case CreateMovement(center, material, incoming, grams) =>
            EntryBacked(w, Key(center, material), Movement(center, material, incoming, grams));
          case LoadBatch(center, materials) => LoadBacked(w, center, materials);
          case CreateSale(center, material, grams, _, found) =>
            EntryBacked(w, found.value, Movement(center, Norm(material), false, grams));
          case _ =>
            DispatchFits(w, c);
            DispatchBacked(w, c.center, c.rows, Aggregate(c.lines), Names(c.lines));
        }
      }
    }
  }

  // ---------- The guard never skips the rule ----------

  lemma {:induction false} LoggedWidens(log: seq<Movement>, center: Center, incoming: bool, material: string,
                                        name: string)
    requires PositiveLog(log)
    ensures Upper(material) == name ==>
      Logged(log, center, incoming, Exact, material) <= Logged(log, center, incoming, Insensitive, name)
    ensures SqlNorm(material) == name ==>
      Logged(log, center, incoming, Exact, material) <= Logged(log, center, incoming, Trimmed, name)
  {
    if log != [] { LoggedWidens(log[..|log| - 1], center, incoming, material, name); }
  }

  /** Whatever acceptTransfer dispatches has a positive total of entries, unless only its second query failed:
      the zero-entries exemption never waives the mass rule. */
  lemma AcceptedDispatchHasEntries(calls: seq<Call>, c: Call, n: string)
    requires c.AcceptTransfer? && Admits(Exec(calls), c) && !c.queries.SecondFails?
    requires n in Names(c.lines)
    ensures TotalRead(Exec(calls), c.center, true, c.queries, n) > 0
  {
    var w := Exec(calls);
    RowsAreBacked(calls);
    DispatchFits(w, c);
    var k := c.rows[n];
    assert BackedAt(w, k);
    assert FindFirst(w.items, c.center, RowMatch(c.queries), n, RowFor(c.rows, n));
    LoggedWidens(w.log, c.center, true, k.material, n);
  }

  // ---------- The missing guard ----------

  ghost predicate BalancedAt(log: seq<Movement>, center: Center, name: string) {
    100 * Logged(log, center, false, Trimmed, name) <= 95 * Logged(log, center, true, Trimmed, name)
  }

  /** The mass balance: for every center and class of materials, 100 * OUT <= 95 * IN. */
  ghost predicate Balanced(log: seq<Movement>) { forall center, name :: BalancedAt(log, center, name) }

  /** The class still has room for so many outgoing grams. */
  predicate HasRoom(log: seq<Movement>, center: Center, name: string, grams: int) {
    100 * (Logged(log, center, false, Trimmed, name) + grams) <= 95 * Logged(log, center, true, Trimmed, name)
  }

  /** What the call takes out fits in the room its classes have, totals read over the whole class. */
  ghost predicate LeavesRoom(w: Warehouse, c: Call) {
    match c
    case CreateMovement(center, material, incoming, grams) =>
      incoming || HasRoom(w.log, center, SqlNorm(material), grams)
    case LoadBatch(_, _) => true
    case CreateSale(center, material, grams, _, _) => HasRoom(w.log, center, Norm(material), grams)
    case AcceptTransfer(center, lines, _, _, _) => LinesHaveRoom(w.log, center, Aggregate(lines), Names(lines))
    case CreateTransfer(center, lines, _, _) => LinesHaveRoom(w.log, center, Aggregate(lines), Names(lines))
  }

  predicate LinesHaveRoom(log: seq<Movement>, center: Center, sums: map<string, int>, names: seq<string>) {
    forall n :: n in names ==> HasRoom(log, center, n, Get(sums, n))
  }

  lemma EntryBalancedIff(log: seq<Movement>, m: Movement)
    requires Balanced(log) && m.grams > 0
    ensures Balanced(log + [m]) <==> m.incoming || HasRoom(log, m.center, SqlNorm(m.material), m.grams)
  {
    forall center, name
      ensures BalancedAt(log, center, name)
      ensures Logged(log + [m], center, true, Trimmed, name)
           == Logged(log, center, true, Trimmed, name) + (if InClass(m, center, name) && m.incoming then m.grams else 0)
      ensures Logged(log + [m], center, false, Trimmed, name)
           == Logged(log, center, false, Trimmed, name)
              + (if InClass(m, center, name) && !m.incoming then m.grams else 0)
    {
      LoggedAppend(log, m, center, true, Trimmed, name);
      LoggedAppend(log, m, center, false, Trimmed, name);
    }
    assert Balanced(log + [m]) ==> BalancedAt(log + [m], m.center, SqlNorm(m.material));
  }

  lemma {:induction false} LoadKeepsBalanced(w: Warehouse, center: Center, materials: seq<Line>)
    requires Balanced(w.log)
    ensures Balanced(Loaded(w, center, materials).log)
  {
    if materials != [] {
      var front, line := materials[..|materials| - 1], materials[|materials| - 1];
      LoadKeepsBalanced(w, center, front);
      if line.grams > 0 {
        EntryBalancedIff(Loaded(w, center, front).log, Movement(center, Norm(line.material), true, line.grams));
      }
    }
  }

  /** A dispatch adds each material's total to the outgoing total of its own class, and to nothing else. */
  lemma {:induction false} DispatchTotals(log: seq<Movement>, from: Center, sums: map<string, int>, names: seq<string>,
                                          center: Center, incoming: bool, n: string)
    requires AllDistinct(names) && forall o :: o in names ==> SqlNorm(o) == o
    ensures Logged(log + OutMovements(from, sums, names), center, incoming, Trimmed, n)
         == Logged(log, center, incoming, Trimmed, n)
            + (if center == from && !incoming && n in names then Get(sums, n) else 0)
  {
    if names == [] {
      assert log + OutMovements(from, sums, names) == log;
    } else {
      var front, end := names[..|names| - 1], names[|names| - 1];
      assert names == front + [end] && end !in front && end in names;
      DispatchTotals(log, from, sums, front, center, incoming, n);
      LastMovement(log, from, sums, front, end);
      LoggedAppend(log + OutMovements(from, sums, front), Movement(from, end, false, Get(sums, end)),
                   center, incoming, Trimmed, n);
    }
  }

  /** All lines of a dispatch together keep the balance exactly when each of them alone has room before the first
      write. */
  lemma DispatchBalancedIff(log: seq<Movement>, from: Center, sums: map<string, int>, names: seq<string>)
    requires Balanced(log) && AllDistinct(names) && forall n :: n in names ==> SqlNorm(n) == n
    ensures Balanced(log + OutMovements(from, sums, names)) <==> LinesHaveRoom(log, from, sums, names)
  {
    var after := log + OutMovements(from, sums, names);
    forall center, n
      ensures BalancedAt(log, center, n)
      ensures Logged(after, center, true, Trimmed, n) == Logged(log, center, true, Trimmed, n)
      ensures Logged(after, center, false, Trimmed, n)
           == Logged(log, center, false, Trimmed, n) + (if center == from && n in names then Get(sums, n) else 0)
    {
      DispatchTotals(log, from, sums, names, center, true, n);
      DispatchTotals(log, from, sums, names, center, false, n);
    }
    if Balanced(after) {
      forall n | n in names ensures HasRoom(log, from, n, Get(sums, n)) { assert BalancedAt(after, from, n); }
    }
    if LinesHaveRoom(log, from, sums, names) {
      forall center, n ensures BalancedAt(after, center, n) {
        assert BalancedAt(log, center, n) && (n in names ==> HasRoom(log, from, n, Get(sums, n)));
      }
    }
  }

  /** An accepted call keeps the mass balance exactly when what it takes out fits in the room of its classes. */
  lemma StepBalancedIff(w: Warehouse, c: Call)
    requires Balanced(w.log) && Admits(w, c)
    ensures Balanced(Apply(w, c).log) <==> LeavesRoom(w, c)
  {
    match c {
      case CreateMovement(center, material, incoming, grams) =>
        EntryBalancedIff(w.log, Movement(center, material, incoming, grams));
      case LoadBatch(center, materials) => LoadKeepsBalanced(w, center, materials);
      case CreateSale(center, material, grams, _, _) =>
        NormIsCanonical(material);
        EntryBalancedIff(w.log, Movement(center, Norm(material), false, grams));
      case _ =>
        NamesAreDistinct(c.lines);
        DispatchBalancedIff(w.log, c.center, Aggregate(c.lines), Names(c.lines));
    }
  }

  ghost predicate BalancedThroughout(calls: seq<Call>) {
    (calls == [] || BalancedThroughout(calls[..|calls| - 1])) && Balanced(Exec(calls).log)
  }

  ghost predicate AllLeaveRoom(calls: seq<Call>) {
    calls == [] ||
    (var w, c := Exec(calls[..|calls| - 1]), calls[|calls| - 1];
     AllLeaveRoom(calls[..|calls| - 1]) && (Admits(w, c) ==> LeavesRoom(w, c)))
  }

  lemma NothingIsBalanced()
    ensures Balanced([])
  {
    forall center, name ensures BalancedAt([], center, name) {}
  }

  /** In every run, the mass balance holds after every call exactly when every accepted call found room. */
  lemma {:induction false} RunBalancedIff(calls: seq<Call>)
    ensures BalancedThroughout(calls) <==> AllLeaveRoom(calls)
  {
    NothingIsBalanced();
    if calls != [] {
      var front, c := calls[..|calls| - 1], calls[|calls| - 1];
      RunBalancedIff(front);
      if BalancedThroughout(front) && Admits(Exec(front), c) {
        StepBalancedIff(Exec(front), c);
      }
    }
  }

  // ---------- Which services look for room ----------

  /** Everything that left was logged under a normalised name. */
  predicate OutCanonical(log: seq<Movement>) {
    forall i :: 0 <= i < |log| && !log[i].incoming ==>
      SqlNorm(log[i].material) == log[i].material && Upper(log[i].material) == log[i].material
  }

  lemma {:induction false} OutTotalsCoincide(log: seq<Movement>, center: Center, name: string)
    requires OutCanonical(log)
    ensures Logged(log, center, false, Insensitive, name) == Logged(log, center, false, Trimmed, name)
  {
    if log != [] { OutTotalsCoincide(log[..|log| - 1], center, name); }
  }

  lemma {:induction false} InsensitiveIsNarrower(log: seq<Movement>, center: Center, incoming: bool, name: string)
    requires PositiveLog(log) && SqlNorm(name) == name
    ensures Logged(log, center, incoming, Insensitive, name) <= Logged(log, center, incoming, Trimmed, name)
  {
    if log != [] {
      var m := log[|log| - 1];
      InsensitiveIsNarrower(log[..|log| - 1], center, incoming, name);
      if Upper(m.material) == name { InsensitiveMatchIsInClass(m.material, name); }
    }
  }

  /** In any run at all, an accepted transfer whose locking queries both answered has found room. */
  lemma LockedTotalsSuffice(calls: seq<Call>, c: Call)
    requires c.AcceptTransfer? && Admits(Exec(calls), c) && c.queries.BothAnswer?
    ensures LeavesRoom(Exec(calls), c)
  {
    forall n | n in Names(c.lines)
      ensures HasRoom(Exec(calls).log, c.center, n, Get(Aggregate(c.lines), n))
    {
      AcceptedDispatchHasEntries(calls, c, n);
      assert DispatchOk(Exec(calls), c.center, c.queries, c.rows, n, Get(Aggregate(c.lines), n));
    }
  }

  /** The case-insensitive totals of the fallback queries do as well while all that left was logged under normalised
      names. */
  lemma FallbackTotalsSuffice(calls: seq<Call>, c: Call)
    requires c.AcceptTransfer? && Admits(Exec(calls), c) && c.queries.FirstFails? && OutCanonical(Exec(calls).log)
    ensures LeavesRoom(Exec(calls), c)
  {
    var w := Exec(calls);
    RowsAreBacked(calls);
    NamesAreDistinct(c.lines);
    forall n | n in Names(c.lines)
      ensures HasRoom(w.log, c.center, n, Get(Aggregate(c.lines), n))
    {
      AcceptedDispatchHasEntries(calls, c, n);
      assert DispatchOk(w, c.center, c.queries, c.rows, n, Get(Aggregate(c.lines), n));
      OutTotalsCoincide(w.log, c.center, n);
      InsensitiveIsNarrower(w.log, c.center, true, n);
    }
  }

  lemma SaleTotalsSuffice(calls: seq<Call>, c: Call)
    requires c.CreateSale? && Admits(Exec(calls), c) && OutCanonical(Exec(calls).log)
    ensures LeavesRoom(Exec(calls), c)
  {
    RowsAreBacked(calls);
    NormIsCanonical(c.material);
    OutTotalsCoincide(Exec(calls).log, c.center, Norm(c.material));
    InsensitiveIsNarrower(Exec(calls).log, c.center, true, Norm(c.material));
  }

  // ---------- The mass balance ----------

  /** Besides sales and accepted transfers whose totals were read, goods may leave by manual OUT movements, by direct
      dispatches, and by accepted transfers whose totals query failed. */
  datatype Policy = Policy(manualOut: bool, direct: bool, unread: bool)

  const GUARDED := Policy(false, false, false)

  predicate Permits(policy: Policy, c: Call) {
    && (c.CreateMovement? && !c.incoming ==> policy.manualOut)
    && (c.CreateTransfer? ==> policy.direct)
    && (c.AcceptTransfer? && c.queries.SecondFails? ==> policy.unread)
  }

  predicate RunOf(policy: Policy, calls: seq<Call>) { forall i :: 0 <= i < |calls| ==> Permits(policy, calls[i]) }

  lemma {:induction false} LoadKeepsCanonical(w: Warehouse, center: Center, materials: seq<Line>)
    requires OutCanonical(w.log)
    ensures OutCanonical(Loaded(w, center, materials).log)
  {
    if materials != [] { LoadKeepsCanonical(w, center, materials[..|materials| - 1]); }
  }

  lemma StepKeepsCanonical(w: Warehouse, c: Call)
    requires Permits(GUARDED, c) && OutCanonical(w.log)
    ensures OutCanonical(Apply(w, c).log)
  {
    if c.LoadBatch? {
      LoadKeepsCanonical(w, c.center, c.materials);
    } else if c.CreateSale? {
      NormIsCanonical(c.material);
    } else if c.AcceptTransfer? {
      NamesAreDistinct(c.lines);
    }
  }

  lemma GuardedCallLeavesRoom(calls: seq<Call>, c: Call)
    requires Permits(GUARDED, c) && OutCanonical(Exec(calls).log) && Admits(Exec(calls), c)
    ensures LeavesRoom(Exec(calls), c)
  {
    if c.CreateSale? {
      SaleTotalsSuffice(calls, c);
    } else if c.AcceptTransfer? && c.queries.BothAnswer? {
      LockedTotalsSuffice(calls, c);
    } else if c.AcceptTransfer? {
      FallbackTotalsSuffice(calls, c);
    }
  }

  /** In every run whose only OUT writers are createSale and acceptTransfer (its second query answering),
      what left stays within 95% of what came in, for every center and class of materials. */
  lemma {:induction false} MassBalanceHolds(calls: seq<Call>)
    requires RunOf(GUARDED, calls)
    ensures Balanced(Exec(calls).log) && OutCanonical(Exec(calls).log)
  {
    if calls == [] {
      NothingIsBalanced();
    } else {
      var front, c := calls[..|calls| - 1], calls[|calls| - 1];
      MassBalanceHolds(front);
      StepKeepsCanonical(Exec(front), c);
      if Admits(Exec(front), c) {
        GuardedCallLeavesRoom(front, c);
        StepBalancedIff(Exec(front), c);
      }
    }
  }

  // ---------- Each excluded writer breaks it ----------

  /** A name the services and the queries leave as it is. */
  predicate Canonical(name: string) { Norm(name) == name && SqlNorm(name) == name && Upper(name) == name }

  lemma PetIsCanonical()
    ensures Canonical("PET")
  {
    assert "PET"[1..] == "ET" && "ET"[1..] == "T" && "T"[1..] == "";
    assert Upper("T") == "T" && Upper("ET") == "ET" && Upper("PET") == "PET";
  }

  /** After an entry of 1000 grams. */
  lemma FirstEntry(center: Center, name: string)
    requires Canonical(name)
    ensures var m := Movement(center, name, true, 1000);
      var w := Exec([CreateMovement(center, name, true, 1000)]);
      w == Warehouse(map[Key(center, name) := 1000], [m])
      && Logged(w.log, center, true, Trimmed, name) == 1000 && Logged(w.log, center, false, Trimmed, name) == 0
  {
    var c := CreateMovement(center, name, true, 1000);
    assert [c][..0] == [];
    assert Exec([c]) == Apply(EMPTY_WAREHOUSE, c);
    LoggedAppend([], Movement(center, name, true, 1000), center, true, Trimmed, name);
    LoggedAppend([], Movement(center, name, true, 1000), center, false, Trimmed, name);
    assert [] + [Movement(center, name, true, 1000)] == [Movement(center, name, true, 1000)];
  }

  lemma UnbalancedAfter(center: Center, name: string, c: Call)
    requires Canonical(name)
    requires Apply(Exec([CreateMovement(center, name, true, 1000)]), c).log
          == Exec([CreateMovement(center, name, true, 1000)]).log + [Movement(center, name, false, 1000)]
    ensures !BalancedAt(Exec([CreateMovement(center, name, true, 1000), c]).log, center, name)
  {
    var first := CreateMovement(center, name, true, 1000);
    FirstEntry(center, name);
    assert [first, c][..1] == [first];
    LoggedAppend(Exec([first]).log, Movement(center, name, false, 1000), center, true, Trimmed, name);
    LoggedAppend(Exec([first]).log, Movement(center, name, false, 1000), center, false, Trimmed, name);
  }

  /** A manual OUT movement may take everything. */
  lemma ManualOutBreaksBalance(center: Center, name: string)
    requires Canonical(name)
    ensures !BalancedAt(Exec([CreateMovement(center, name, true, 1000), CreateMovement(center, name, false, 1000)]).log,
                        center, name)
  {
    FirstEntry(center, name);
    UnbalancedAfter(center, name, CreateMovement(center, name, false, 1000));
  }

  lemma SingleLine(name: string)
    requires Canonical(name)
    ensures Names([Line(name, 1000)]) == [name] && Aggregate([Line(name, 1000)]) == map[name := 1000]
  {
    assert [Line(name, 1000)][..0] == [];
  }

  /** A direct dispatch has no mass check. */
  lemma DirectTransferBreaksBalance(center: Center, name: string)
    requires Canonical(name)
    ensures !BalancedAt(Exec([CreateMovement(center, name, true, 1000),
                              CreateTransfer(center, [Line(name, 1000)], true, map[name := Key(center, name)])]).log,
                        center, name)
  {
    FirstEntry(center, name);
    SingleLine(name);
    var c := CreateTransfer(center, [Line(name, 1000)], true, map[name := Key(center, name)]);
    assert OutMovements(center, map[name := 1000], [name]) == [Movement(center, name, false, 1000)];
    assert Admits(Exec([CreateMovement(center, name, true, 1000)]), c);
    UnbalancedAfter(center, name, c);
  }

  /** With only its second query failing, acceptTransfer reads no totals and skips the mass check. */
  lemma UnreadTotalsBreakBalance(center: Center, name: string)
    requires Canonical(name)
    ensures !BalancedAt(Exec([CreateMovement(center, name, true, 1000),
                              AcceptTransfer(center, [Line(name, 1000)], true, SecondFails,
                                             map[name := Key(center, name)])]).log,
                        center, name)
  {
    FirstEntry(center, name);
    SingleLine(name);
    var c := AcceptTransfer(center, [Line(name, 1000)], true, SecondFails, map[name := Key(center, name)]);
    assert OutMovements(center, map[name := 1000], [name]) == [Movement(center, name, false, 1000)];
    assert Admits(Exec([CreateMovement(center, name, true, 1000)]), c);
    UnbalancedAfter(center, name, c);
  }

  /** Every further way out has a run of two calls that breaks the balance. */
  lemma UnguardedRun(policy: Policy, center: Center, name: string) returns (calls: seq<Call>)
    requires Canonical(name) && policy != GUARDED
    ensures RunOf(policy, calls) && !Balanced(Exec(calls).log)
  {
    var enter, line, row := CreateMovement(center, name, true, 1000), Line(name, 1000), map[name := Key(center, name)];
    if policy.manualOut {
      calls := [enter, CreateMovement(center, name, false, 1000)];
      ManualOutBreaksBalance(center, name);
    } else if policy.direct {
      calls := [enter, CreateTransfer(center, [line], true, row)];
      DirectTransferBreaksBalance(center, name);
    } else {
      calls := [enter, AcceptTransfer(center, [line], true, SecondFails, row)];
      UnreadTotalsBreakBalance(center, name);
    }
    assert !BalancedAt(Exec(calls).log, center, name);
  }

  /** The mass balance holds in all runs exactly when goods leave only by sales and by accepted transfers whose totals
      were read. */
  lemma MassBalanceIff(policy: Policy)
    ensures (forall calls :: RunOf(policy, calls) ==> Balanced(Exec(calls).log))
       <==> !policy.manualOut && !policy.direct && !policy.unread
  {
    if policy == GUARDED {
      forall calls | RunOf(policy, calls) ensures Balanced(Exec(calls).log) { MassBalanceHolds(calls); }
    } else {
      PetIsCanonical();
      var calls := UnguardedRun(policy, 0, "PET");
    }
  }
}
