/** Stock rows and movement log of the centers: five writers that must agree. */
module Inventory {
  import opened Wrappers
  import opened Sums
  import opened Text

  type Center = nat

  /** A stock row is unique per center and stored material text; quantities are grams. */
  datatype Key = Key(center: Center, material: string)

  datatype Movement = Movement(center: Center, material: string, incoming: bool, grams: int)

  datatype Warehouse = Warehouse(items: map<Key, int>, log: seq<Movement>)

  const EMPTY_WAREHOUSE := Warehouse(map[], [])

  datatype Line = Line(material: string, grams: int)

  /** How a query compares a stored material with a name: as stored, ignoring case, or trimmed and ignoring case. */
  datatype Match = Exact | Insensitive | Trimmed

  predicate Matches(how: Match, stored: string, name: string) {
    match how
    case Exact => stored == name
    case Insensitive => Upper(stored) == name
    case Trimmed => SqlNorm(stored) == name
  }

  /** Sum of the logged quantities of one direction that a query for `name` sees. */
  function Logged(log: seq<Movement>, center: Center, incoming: bool, how: Match, name: string): int {
    if log == [] then 0
    else
      var m := log[|log| - 1];
      Logged(log[..|log| - 1], center, incoming, how, name)
      + if m.center == center && m.incoming == incoming && Matches(how, m.material, name) then m.grams else 0
  }

  /** The stock rows of a center in the class of a material. */
  function ClassRows(items: map<Key, int>, center: Center, name: string): map<Key, int> {
    map k | k in items && k.center == center && SqlNorm(k.material) == name :: items[k]
  }

  ghost function Stock(items: map<Key, int>, center: Center, name: string): int {
    Sum(ClassRows(items, center, name))
  }

  // ---------- Aggregation of dispatch lines ----------

  /** Total grams per normalised material. */
  function Aggregate(lines: seq<Line>): map<string, int> {
    if lines == [] then map[]
    else
      var sums := Aggregate(lines[..|lines| - 1]);
      var line := lines[|lines| - 1];
      sums[Norm(line.material) := Get(sums, Norm(line.material)) + line.grams]
  }

  /** The normalised materials in order of first appearance. */
  function Names(lines: seq<Line>): seq<string> {
    if lines == [] then []
    else
      var front := Names(lines[..|lines| - 1]);
      var name := Norm(lines[|lines| - 1].material);
      if name in front then front else front + [name]
  }

  /** Stock after taking the aggregated quantities from the chosen rows. */
  function Taken(items: map<Key, int>, rows: map<string, Key>, sums: map<string, int>, names: seq<string>)
    : map<Key, int>
  {
    if names == [] then items
    else
      var before := Taken(items, rows, sums, names[..|names| - 1]);
      var name := names[|names| - 1];
      if name in rows then before[rows[name] := Get(before, rows[name]) - Get(sums, name)] else before
  }

  function OutMovements(center: Center, sums: map<string, int>, names: seq<string>): seq<Movement> {
    seq(|names|, i requires 0 <= i < |names| => Movement(center, names[i], false, Get(sums, names[i])))
  }

  /** An answer the database may give for the stock row of a name: some matching row, or none when none matches. */
  predicate FindFirst(items: map<Key, int>, center: Center, how: Match, name: string, found: Option<Key>) {
    match found
    case None => forall k :: k in items ==> !(k.center == center && Matches(how, k.material, name))
    case Some(k) => k in items && k.center == center && Matches(how, k.material, name)
  }

  function RowFor(rows: map<string, Key>, name: string): Option<Key> {
    if name in rows then Some(rows[name]) else None
  }

  predicate FindsAll(items: map<Key, int>, center: Center, how: Match, names: seq<string>, rows: map<string, Key>) {
    && (forall n :: n in rows ==> n in names)
    && forall n :: n in names ==> FindFirst(items, center, how, n, RowFor(rows, n))
  }

  // ---------- The writers ----------

  function Signed(m: Movement): int { if m.incoming then m.grams else -m.grams }

  /** One movement logged and applied to one row. */
  function Entered(w: Warehouse, k: Key, m: Movement): Warehouse {
    Warehouse(w.items[k := Get(w.items, k) + Signed(m)], w.log + [m])
  }

  /** Which of the two raw queries of acceptTransfer answered. When the first fails, the insensitive
      fallback queries answer instead; when only the second fails, the totals stay empty. */
  datatype Queries = BothAnswer | FirstFails | SecondFails

  /** Calls of the five writers. `found` and `rows` are the answers of their findFirst queries. */
  datatype Call =
    | CreateMovement(center: Center, material: string, incoming: bool, grams: int)
    | LoadBatch(center: Center, materials: seq<Line>)
    | CreateSale(center: Center, material: string, grams: int, buyerIsB2b: bool, found: Option<Key>)
    | AcceptTransfer(center: Center, lines: seq<Line>, requested: bool, queries: Queries, rows: map<string, Key>)
    | CreateTransfer(center: Center, lines: seq<Line>, buyerIsB2b: bool, rows: map<string, Key>)

  predicate PositiveLines(lines: seq<Line>) { lines != [] && forall i :: 0 <= i < |lines| ==> lines[i].grams > 0 }

  /** The industrial shrink rule: outgoing mass within 95% of the incoming mass. */
  predicate WithinShrink(totalIn: int, totalOut: int) { 100 * totalOut <= 95 * totalIn }

  /** How acceptTransfer finds rows, and the totals its mass check reads. */
  function RowMatch(q: Queries): Match { if q.FirstFails? then Insensitive else Trimmed }

  function TotalRead(w: Warehouse, center: Center, incoming: bool, q: Queries, name: string): int {
    match q
    case BothAnswer => Logged(w.log, center, incoming, Trimmed, name)
    case FirstFails => Logged(w.log, center, incoming, Insensitive, name)
    case SecondFails => 0
  }

  /** The check acceptTransfer makes on one aggregated material; a zero total of entries skips the mass rule. */
  predicate DispatchOk(w: Warehouse, center: Center, q: Queries, rows: map<string, Key>, name: string, grams: int) {
    && (TotalRead(w, center, true, q, name) > 0 ==>
          WithinShrink(TotalRead(w, center, true, q, name), TotalRead(w, center, false, q, name) + grams))
    && name in rows && Get(w.items, rows[name]) >= grams
  }

  predicate Admits(w: Warehouse, c: Call) {
    match c
    case CreateMovement(center, material, incoming, grams) =>
      grams > 0 && (!incoming ==> Key(center, material) in w.items && w.items[Key(center, material)] >= grams)
    case LoadBatch(_, _) => true
    case CreateSale(center, material, grams, buyerIsB2b, found) =>
      var name := Norm(material);
      && grams >= 500 && buyerIsB2b
      && WithinShrink(Logged(w.log, center, true, Insensitive, name),
                      Logged(w.log, center, false, Insensitive, name) + grams)
      && FindFirst(w.items, center, Insensitive, name, found) && found.Some? && w.items[found.value] >= grams
    case AcceptTransfer(center, lines, requested, q, rows) =>
      && PositiveLines(lines) && requested
      && FindsAll(w.items, center, RowMatch(q), Names(lines), rows)
      && forall n :: n in Names(lines) ==> DispatchOk(w, center, q, rows, n, Get(Aggregate(lines), n))
    case CreateTransfer(center, lines, buyerIsB2b, rows) =>
      && PositiveLines(lines) && buyerIsB2b
      && FindsAll(w.items, center, Insensitive, Names(lines), rows)
      && forall n :: n in Names(lines) ==> n in rows && Get(w.items, rows[n]) >= Get(Aggregate(lines), n)
  }

  /** Batch loading: one row increment and one IN movement for every positive line. */
  function Loaded(w: Warehouse, center: Center, materials: seq<Line>): Warehouse {
    if materials == [] then w
    else
      var before := Loaded(w, center, materials[..|materials| - 1]);
      var line := materials[|materials| - 1];
      var k := Key(center, Norm(line.material));
      if line.grams <= 0 then before
      else Entered(before, k, Movement(center, k.material, true, line.grams))
  }

  function Dispatched(w: Warehouse, center: Center, lines: seq<Line>, rows: map<string, Key>): Warehouse {
    var sums, names := Aggregate(lines), Names(lines);
    Warehouse(Taken(w.items, rows, sums, names), w.log + OutMovements(center, sums, names))
  }

  /** A rejected call changes nothing. */
  function Apply(w: Warehouse, c: Call): Warehouse {
    if !Admits(w, c) then w
    else
      match c
      case CreateMovement(center, material, incoming, grams) =>
        Entered(w, Key(center, material), Movement(center, material, incoming, grams))
      case LoadBatch(center, materials) => Loaded(w, center, materials)
      case CreateSale(center, material, grams, _, found) =>
        Entered(w, found.value, Movement(center, Norm(material), false, grams))
      case AcceptTransfer(center, lines, _, _, rows) => Dispatched(w, center, lines, rows)
      case CreateTransfer(center, lines, _, rows) => Dispatched(w, center, lines, rows)
  }

  function Exec(calls: seq<Call>): Warehouse {
    if calls == [] then EMPTY_WAREHOUSE else Apply(Exec(calls[..|calls| - 1]), calls[|calls| - 1])
  }
}
