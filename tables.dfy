/** The seat and spectator registry, `TableManager` (js/table.js): a list of tables, each with
    four seats and a list of spectators, and the local user's current selection. */
module Tables {
  import opened Wrappers

  /** The seat labels every new table is created with. */
  const SeatLabels: set<string> := {"NORTH", "SOUTH", "EAST", "WEST"}

  /** A table. `positions` maps a seat label to the username seated there (`None` is an empty
      seat); `spectators` lists the observers in the order they joined. */
  datatype Table = Table(id: string, name: string, positions: map<string, Option<string>>, spectators: seq<string>)

  /** The errors `joinPosition`, `joinAsSpectator` and `leavePosition` throw. */
  datatype TableError = TableNotFound | SeatTaken | AlreadySeated | AlreadySpectating

  /** `getCurrentSelection`'s record: the table and seat the local user joined, and as what. */
  datatype Selection = Selection(tableId: Option<string>, position: Option<string>, role: string)

  // ---------------------------------------------------------------------------
  // One table.

  /** The table `createTable` builds: all four seats empty, no spectators. */
  function NewTable(id: string, name: string): (t: Table)
    ensures t.id == id && t.name == name && t.spectators == []
    ensures t.positions.Keys == SeatLabels
    ensures forall p :: p in t.positions ==> t.positions[p] == None
  {
    Table(id, name, map p | p in SeatLabels :: None, [])
  }

  /** The seat `position` exists and is empty (`positions[position] === null`; a label the
      table does not have reads as `undefined`, which is not `null`). */
  predicate SeatFree(t: Table, position: string)
  {
    position in t.positions && t.positions[position] == None
  }

  /** `username` holds some seat of the table. */
  predicate IsSeated(t: Table, username: string)
  {
    exists p :: p in t.positions && t.positions[p] == Some(username)
  }

  /** A username holds at most one seat of the table, no seated user is also a spectator, and
      no one is listed twice as a spectator. */
  ghost predicate Consistent(t: Table)
  {
    && (forall p, q :: p in t.positions && q in t.positions && p != q && t.positions[p].Some? ==> t.positions[p] != t.positions[q])
    && (forall p :: p in t.positions && t.positions[p].Some? ==> t.positions[p].value !in t.spectators)
    && (forall i, j :: 0 <= i < j < |t.spectators| ==> t.spectators[i] != t.spectators[j])
  }

  /** The seat checks of `joinPosition` AS WRITTEN: the seat must be free and the user must not
      hold another seat of the table; whether the user is a spectator there is not checked. */
  function JoinSeat(t: Table, position: string, username: string): (r: Result<Table, TableError>)
    ensures r == Err(SeatTaken) <==> !SeatFree(t, position)
    ensures r == Err(AlreadySeated) <==> SeatFree(t, position) && IsSeated(t, username)
    ensures r.Ok? <==> SeatFree(t, position) && !IsSeated(t, username)
    ensures r.Ok? ==> r.value.positions == t.positions[position := Some(username)]
    ensures r.Ok? ==> r.value.(positions := t.positions) == t
  {
    if !SeatFree(t, position) then Err(SeatTaken)
    else if IsSeated(t, username) then Err(AlreadySeated)
    else Ok(t.(positions := t.positions[position := Some(username)]))
  }

  /** `joinPosition` as intended: besides the checks of `JoinSeat`, a spectator of the table
      cannot take a seat there. */
  function JoinSeatGuarded(t: Table, position: string, username: string): (r: Result<Table, TableError>)
    ensures r == Err(SeatTaken) <==> !SeatFree(t, position)
    ensures r == Err(AlreadySeated) <==> SeatFree(t, position) && IsSeated(t, username)
    ensures r == Err(AlreadySpectating)
        <==> SeatFree(t, position) && !IsSeated(t, username) && username in t.spectators
    ensures r.Ok? <==> SeatFree(t, position) && !IsSeated(t, username) && username !in t.spectators
    ensures r.Ok? ==> r.value == JoinSeat(t, position, username).value
  {
    match JoinSeat(t, position, username)
    case Err(e) => Err(e)
    case Ok(joined) => if username in t.spectators then Err(AlreadySpectating) else Ok(joined)
  }

  /** `joinAsSpectator` on a table: refused for a user already watching or seated there;
      otherwise the user is appended to the spectators and nothing else changes. */
  function JoinSpectator(t: Table, username: string): (r: Result<Table, TableError>)
    ensures r == Err(AlreadySpectating) <==> username in t.spectators
    ensures r == Err(AlreadySeated) <==> username !in t.spectators && IsSeated(t, username)
    ensures r.Ok? <==> username !in t.spectators && !IsSeated(t, username)
    ensures r.Ok? ==> r.value.spectators == t.spectators + [username]
    ensures r.Ok? ==> r.value.(spectators := t.spectators) == t
  {
    if username in t.spectators then Err(AlreadySpectating)
    else if IsSeated(t, username) then Err(AlreadySeated)
    else Ok(t.(spectators := t.spectators + [username]))
  }

  /** `leavePosition` on a table: the seat reads empty afterwards (a label the table did not
      have is added, empty); every other seat and the spectators are unchanged. */
  function LeaveSeat(t: Table, position: string): (r: Table)
    ensures r.positions.Keys == t.positions.Keys + {position}
    ensures r.positions[position] == None
    ensures forall p :: p in t.positions && p != position ==> r.positions[p] == t.positions[p]
    ensures r.(positions := t.positions) == t
  {
    t.(positions := t.positions[position := None])
  }

  /** The labels of the empty seats. */
  function FreeLabels(t: Table): set<string>
  {
    set p | p in t.positions && t.positions[p] == None
  }

  /** The labels of the occupied seats. */
  function TakenLabels(t: Table): set<string>
  {
    set p | p in t.positions && t.positions[p].Some?
  }

  /** `Object.values(positions).filter(p => p === null).length`. */
  function FreeSeats(t: Table): (n: nat)
    ensures n <= |t.positions|
  {
    var free, taken := FreeLabels(t), TakenLabels(t);
    assert free * taken == {};
    assert free + taken == t.positions.Keys;
    assert |free + taken| + |free * taken| == |free| + |taken|;
    |free|
  }

  /** `Object.values(positions).every(p => p !== null)`. */
  predicate IsFull(t: Table)
    ensures IsFull(t) <==> TakenLabels(t) == t.positions.Keys
  {
    forall p :: p in t.positions ==> t.positions[p].Some?
  }

  // ---------------------------------------------------------------------------
  // Properties of one table.

  /** A new table is consistent and has four free seats. */
  lemma NewTableEmpty(id: string, name: string)
    ensures Consistent(NewTable(id, name))
    ensures FreeSeats(NewTable(id, name)) == 4
    ensures !IsFull(NewTable(id, name))
  {
    var t := NewTable(id, name);
    assert FreeLabels(t) == SeatLabels;
    assert "NORTH" in t.positions;
  }

  /** Free and taken seats split the table's seats: their counts add up to the number of seats. */
  lemma SeatsSplit(t: Table)
    ensures FreeSeats(t) + |TakenLabels(t)| == |t.positions|
  {
    var free, taken := FreeLabels(t), TakenLabels(t);
    assert free * taken == {};
    assert free + taken == t.positions.Keys;
    assert |free + taken| + |free * taken| == |free| + |taken|;
  }

  /** A table is full exactly when it has no free seat. */
  lemma FullIffNoFreeSeat(t: Table)
    ensures IsFull(t) <==> FreeSeats(t) == 0
  {
    if !IsFull(t) {
      var p :| p in t.positions && t.positions[p].None?;
      assert p in FreeLabels(t);
    } else {
      assert FreeLabels(t) == {};
    }
  }

  /** On a table with the four standard seats, the free seats number 4 minus the occupied
      ones, so between 0 and 4. */
  lemma FreeSeatsOfFourSeatTable(t: Table)
    requires t.positions.Keys == SeatLabels
    ensures FreeSeats(t) == 4 - |TakenLabels(t)|
    ensures FreeSeats(t) <= 4
  {
    SeatsSplit(t);
    assert |t.positions| == |SeatLabels| == 4;
  }

  /** Taking a free seat with the intended checks keeps the table consistent. */
  lemma JoinSeatGuardedConsistent(t: Table, position: string, username: string)
    requires Consistent(t)
    ensures JoinSeatGuarded(t, position, username).Ok? ==> Consistent(JoinSeatGuarded(t, position, username).value)
  {
    var r := JoinSeatGuarded(t, position, username);
    if r.Ok? {
      var u := r.value;
      forall p, q | p in u.positions && q in u.positions && p != q && u.positions[p].Some?
        ensures u.positions[p] != u.positions[q]
      {
        if p == position {
          assert !(t.positions[q] == Some(username));
        } else if q == position {
          assert !(t.positions[p] == Some(username));
        }
      }
    }
  }

  /** Joining as a spectator keeps the table consistent. */
  lemma JoinSpectatorConsistent(t: Table, username: string)
    requires Consistent(t)
    ensures JoinSpectator(t, username).Ok? ==> Consistent(JoinSpectator(t, username).value)
  {
    var r := JoinSpectator(t, username);
    if r.Ok? {
      var u := r.value;
      forall p | p in u.positions && u.positions[p].Some?
        ensures u.positions[p].value !in u.spectators
      {
        assert u.positions[p] == t.positions[p];
        assert u.positions[p].value != username;
      }
      forall i, j | 0 <= i < j < |u.spectators| ensures u.spectators[i] != u.spectators[j] {
        if j == |t.spectators| {
          assert u.spectators[i] == t.spectators[i];
        }
      }
    }
  }

  /** Leaving a seat keeps the table consistent. */
  lemma LeaveSeatConsistent(t: Table, position: string)
    requires Consistent(t)
    ensures Consistent(LeaveSeat(t, position))
  {
  }

  /** `joinPosition` as written keeps the seats apart: a user still holds at most one seat. */
  lemma JoinSeatKeepsSeatsApart(t: Table, position: string, username: string)
    requires forall p, q :: p in t.positions && q in t.positions && p != q && t.positions[p].Some? ==> t.positions[p] != t.positions[q]
    ensures var r := JoinSeat(t, position, username);
            r.Ok? ==> forall p, q :: p in r.value.positions && q in r.value.positions && p != q && r.value.positions[p].Some?
                        ==> r.value.positions[p] != r.value.positions[q]
  {
    var r := JoinSeat(t, position, username);
    if r.Ok? {
      var u := r.value;
      forall p, q | p in u.positions && q in u.positions && p != q && u.positions[p].Some?
        ensures u.positions[p] != u.positions[q]
      {
        if p == position {
          assert !(t.positions[q] == Some(username));
        } else if q == position {
          assert !(t.positions[p] == Some(username));
        }
      }
    }
  }

  /** `joinPosition` as written lets a spectator take a seat: on a fresh table where "alice" is
      watching, she can sit down at SOUTH and is then both seated and a spectator. */
  lemma JoinSeatAdmitsSpectator()
    ensures var t := NewTable("t1", "T1").(spectators := ["alice"]);
            && Consistent(t)
            && JoinSeat(t, "SOUTH", "alice").Ok?
            && !Consistent(JoinSeat(t, "SOUTH", "alice").value)
  {
    var t := NewTable("t1", "T1").(spectators := ["alice"]);
    assert !IsSeated(t, "alice");
    var u := JoinSeat(t, "SOUTH", "alice").value;
    assert u.positions["SOUTH"] == Some("alice");
  }

  /** The walk-through: "alice" takes SOUTH; "bob" is refused SOUTH; "alice" is refused as a
      spectator; once SOUTH is left, "bob" can take it. */
  lemma SeatScenario()
    ensures var t0 := NewTable("t1", "T1");
            var t1 := JoinSeatGuarded(t0, "SOUTH", "alice");
            && t1.Ok?
            && JoinSeatGuarded(t1.value, "SOUTH", "bob") == Err(SeatTaken)
            && JoinSpectator(t1.value, "alice") == Err(AlreadySeated)
            && JoinSeatGuarded(LeaveSeat(t1.value, "SOUTH"), "SOUTH", "bob").Ok?
  {
    var t0 := NewTable("t1", "T1");
    assert !IsSeated(t0, "alice");
    var t1 := JoinSeatGuarded(t0, "SOUTH", "alice").value;
    assert t1.positions["SOUTH"] == Some("alice");
    assert IsSeated(t1, "alice");
    var t2 := LeaveSeat(t1, "SOUTH");
    forall p | p in t2.positions ensures t2.positions[p] != Some("bob") {
      if p != "SOUTH" {
        assert t2.positions[p] == t0.positions[p];
      }
    }
  }

  // ---------------------------------------------------------------------------
  // The registry.

  /** Position of the first table with the given id (`tables.find(t => t.id === tableId)`). */
  function FindIndex(tables: seq<Table>, id: string): (r: Option<nat>)
    ensures r.None? <==> forall i :: 0 <= i < |tables| ==> tables[i].id != id
    ensures r.Some? ==> r.value < |tables| && tables[r.value].id == id
    ensures r.Some? ==> forall i :: 0 <= i < r.value ==> tables[i].id != id
  {
    if tables == [] then None
    else if tables[0].id == id then Some(0)
    else match FindIndex(tables[1..], id)
      case None => None
      case Some(k) => Some(k + 1)
  }

  predicate IsDigits(s: string)
  {
    forall i :: 0 <= i < |s| ==> '0' <= s[i] <= '9'
  }

  /** The number a string of decimal digits denotes, most significant digit first. */
  function DigitsValue(s: string): nat
    requires IsDigits(s)
  {
    if s == [] then 0 else 10 * DigitsValue(s[..|s| - 1]) + (s[|s| - 1] as int - '0' as int)
  }

  /** The decimal digits of a number, most significant first, without leading zeros. */
  function Decimal(n: nat): (s: string)
    ensures |s| > 0 && IsDigits(s)
    ensures DigitsValue(s) == n
    ensures |s| > 1 ==> s[0] != '0'
  {
    var digit := ((n % 10) + 48) as char;
    if n < 10 then [digit]
    else
      var prefix := Decimal(n / 10);
      assert (prefix + [digit])[..|prefix|] == prefix;
      prefix + [digit]
  }

  /** The name a table gets when created without one: "Маса " and its number. */
  function DefaultName(number: nat): (name: string)
    ensures |name| > 5 && name[..5] == "Маса "
    ensures IsDigits(name[5..]) && DigitsValue(name[5..]) == number
  {
    var name := "Маса " + Decimal(number);
    assert name[5..] == Decimal(number);
    name
  }

  /** `TableManager`. The stored copy of the registry and of the selection is not modelled:
      the registry starts empty. */
  class TableManager {
    var tables: seq<Table>
    var currentTableId: Option<string>
    var currentPosition: Option<string>
    var currentRole: Option<string>

    /** Every table is consistent. */
    ghost predicate Valid()
      reads this
    {
      forall i :: 0 <= i < |tables| ==> Consistent(tables[i])
    }

    constructor ()
      ensures tables == [] && currentTableId == None && currentPosition == None && currentRole == None
      ensures Valid()
    {
      tables := [];
      currentTableId := None;
      currentPosition := None;
      currentRole := None;
    }

    /** `createTable`: appends an empty table named `tableName`, or "Маса n" when the name is
        empty, n being the new number of tables. `id` stands for the fresh id the source
        derives from the clock. */
    method CreateTable(tableName: string, id: string) returns (table: Table)
      modifies this
      ensures table == NewTable(id, if tableName == "" then DefaultName(|old(tables)| + 1) else tableName)
      ensures tables == old(tables) + [table]
      ensures currentTableId == old(currentTableId) && currentPosition == old(currentPosition)
      ensures currentRole == old(currentRole)
      ensures old(Valid()) ==> Valid()
    {
      NewTableEmpty(id, if tableName == "" then DefaultName(|tables| + 1) else tableName);
      table := NewTable(id, if tableName == "" then DefaultName(|tables| + 1) else tableName);
      tables := tables + [table];
    }

    /** `getAllTables`. */
    function GetAllTables(): (all: seq<Table>)
      reads this
      ensures all == tables
    {
      tables
    }

    /** `getTable`: the first table with that id, if any. */
    function GetTable(tableId: string): (r: Option<Table>)
      reads this
      ensures r.None? <==> forall i :: 0 <= i < |tables| ==> tables[i].id != tableId
      ensures r.Some? ==> r.value.id == tableId && r.value in tables
      ensures r.Some? ==> exists i :: 0 <= i < |tables| && tables[i] == r.value
                            && forall j :: 0 <= j < i ==> tables[j].id != tableId
    {
      match FindIndex(tables, tableId)
      case None => None
      case Some(i) => Some(tables[i])
    }

    /** `joinPosition`: refused for an unknown table, a seat that is not free, a user already
        seated at the table and (see `JoinSeatGuarded`) a spectator of the table; a refusal
        changes nothing. Otherwise only that seat of that table changes and the selection
        becomes (tableId, position, role). */
    method JoinPosition(tableId: string, position: string, username: string, role: string)
      returns (r: Result<Table, TableError>)
      modifies this
      ensures FindIndex(old(tables), tableId).None? ==> r == Err(TableNotFound) && unchanged(this)
      ensures FindIndex(old(tables), tableId).Some? ==>
                var i := FindIndex(old(tables), tableId).value;
                && r == JoinSeatGuarded(old(tables)[i], position, username)
                && (r.Err? ==> unchanged(this))
                && (r.Ok? ==> tables == old(tables)[i := r.value])
                && (r.Ok? ==> currentTableId == Some(tableId) && currentPosition == Some(position))
                && (r.Ok? ==> currentRole == Some(role))
      ensures old(Valid()) ==> Valid()
    {
      var found := FindIndex(tables, tableId);
      if found.None? {
        return Err(TableNotFound);
      }
      var i := found.value;
      var table := tables[i];
      if !(position in table.positions && table.positions[position] == None) {
        return Err(SeatTaken);
      }
      var seated := HoldsSeat(table.positions, username);
      if seated {
        return Err(AlreadySeated);
      }
      if username in table.spectators {
        return Err(AlreadySpectating);
      }
      if Valid() {
        JoinSeatGuardedConsistent(table, position, username);
      }
      table := table.(positions := table.positions[position := Some(username)]);
      tables := tables[i := table];
      currentTableId := Some(tableId);
      currentPosition := Some(position);
      currentRole := Some(role);
      r := Ok(table);
    }

    /** `joinAsSpectator`: refused for an unknown table, a user already watching and a user
        seated at the table; a refusal changes nothing. Otherwise the user is appended to that
        table's spectators and the selection becomes (tableId, none, "spectator"). */
    method JoinAsSpectator(tableId: string, username: string) returns (r: Result<Table, TableError>)
      modifies this
      ensures FindIndex(old(tables), tableId).None? ==> r == Err(TableNotFound) && unchanged(this)
      ensures FindIndex(old(tables), tableId).Some? ==>
                var i := FindIndex(old(tables), tableId).value;
                && r == JoinSpectator(old(tables)[i], username)
                && (r.Err? ==> unchanged(this))
                && (r.Ok? ==> tables == old(tables)[i := r.value])
                && (r.Ok? ==> currentTableId == Some(tableId) && currentPosition == None)
                && (r.Ok? ==> currentRole == Some("spectator"))
      ensures old(Valid()) ==> Valid()
    {
      var found := FindIndex(tables, tableId);
      if found.None? {
        return Err(TableNotFound);
      }
      var i := found.value;
      var table := tables[i];
      if username in table.spectators {
        return Err(AlreadySpectating);
      }
      var seated := HoldsSeat(table.positions, username);
      if seated {
        return Err(AlreadySeated);
      }
      if Valid() {
        JoinSpectatorConsistent(table, username);
      }
      table := table.(spectators := table.spectators + [username]);
      tables := tables[i := table];
      currentTableId := Some(tableId);
      currentPosition := None;
      currentRole := Some("spectator");
      r := Ok(table);
    }

    /** `leavePosition`: refused for an unknown table. Otherwise the seat is emptied and, when
        the selection is that very seat, its table and seat are cleared; the role is kept. */
    method LeavePosition(tableId: string, position: string) returns (r: Result<(), TableError>)
      modifies this
      ensures FindIndex(old(tables), tableId).None? ==> r == Err(TableNotFound) && unchanged(this)
      ensures FindIndex(old(tables), tableId).Some? ==>
                var i := FindIndex(old(tables), tableId).value;
                && r == Ok(())
                && tables == old(tables)[i := LeaveSeat(old(tables)[i], position)]
      ensures r.Ok? && old(currentTableId) == Some(tableId) && old(currentPosition) == Some(position) ==>
                currentTableId == None && currentPosition == None
      ensures !(old(currentTableId) == Some(tableId) && old(currentPosition) == Some(position)) ==>
                currentTableId == old(currentTableId) && currentPosition == old(currentPosition)
      ensures currentRole == old(currentRole)
      ensures old(Valid()) ==> Valid()
    {
      var found := FindIndex(tables, tableId);
      if found.None? {
        return Err(TableNotFound);
      }
      var i := found.value;
      if Valid() {
        LeaveSeatConsistent(tables[i], position);
      }
      tables := tables[i := tables[i].(positions := tables[i].positions[position := None])];
      if currentTableId == Some(tableId) && currentPosition == Some(position) {
        currentTableId := None;
        currentPosition := None;
      }
      r := Ok(());
    }

    /** `isTableFull`: false for an unknown table, otherwise whether every seat is taken. */
    function IsTableFull(tableId: string): (full: bool)
      reads this
      ensures GetTable(tableId).None? ==> !full
      ensures GetTable(tableId).Some? ==> (full <==> IsFull(GetTable(tableId).value))
    {
      match GetTable(tableId)
      case None => false
      case Some(t) => IsFull(t)
    }

    /** `getAvailableSeats`: 0 for an unknown table, otherwise the number of free seats. */
    function GetAvailableSeats(tableId: string): (n: nat)
      reads this
      ensures GetTable(tableId).None? ==> n == 0
      ensures GetTable(tableId).Some? ==> n == FreeSeats(GetTable(tableId).value)
    {
      match GetTable(tableId)
      case None => 0
      case Some(t) => FreeSeats(t)
    }

    /** `getCurrentSelection`: the role reads "player" when none (or an empty one) is set. */
    function GetCurrentSelection(): (s: Selection)
      reads this
      ensures s.tableId == currentTableId && s.position == currentPosition
      ensures s.role != ""
      ensures currentRole.Some? && currentRole.value != "" ==> s.role == currentRole.value
      ensures currentRole.None? || currentRole == Some("") ==> s.role == "player"
    {
      Selection(currentTableId, currentPosition,
                if currentRole.Some? && currentRole.value != "" then currentRole.value else "player")
    }

    /** `clearAllTables`: no tables and no selection. */
    method ClearAllTables()
      modifies this
      ensures tables == [] && currentTableId == None && currentPosition == None && currentRole == None
      ensures Valid()
    {
      tables := [];
      currentTableId := None;
      currentPosition := None;
      currentRole := None;
    }
  }

  /** For a table that exists, `isTableFull` holds exactly when `getAvailableSeats` is 0; and
      on a table with the four standard seats, at most 4 seats are available. */
  lemma FullIffNoAvailableSeat(m: TableManager, tableId: string)
    requires m.GetTable(tableId).Some?
    ensures m.IsTableFull(tableId) <==> m.GetAvailableSeats(tableId) == 0
    ensures m.GetTable(tableId).value.positions.Keys == SeatLabels ==> m.GetAvailableSeats(tableId) <= 4
  {
    var t := m.GetTable(tableId).value;
    FullIffNoFreeSeat(t);
    if t.positions.Keys == SeatLabels {
      FreeSeatsOfFourSeatTable(t);
    }
  }

  /** The seat-ownership loop of `joinPosition` and `joinAsSpectator`: walks the seats and
      reports whether one of them holds `username`. */
  method HoldsSeat(positions: map<string, Option<string>>, username: string) returns (held: bool)
    ensures held <==> exists p :: p in positions && positions[p] == Some(username)
  {
    var remaining := positions.Keys;
    while remaining != {}
      invariant remaining <= positions.Keys
      invariant forall p :: p in positions && p !in remaining ==> positions[p] != Some(username)
      decreases remaining
    {
      var p :| p in remaining;
      if positions[p] == Some(username) {
        return true;
      }
      remaining := remaining - {p};
    }
    return false;
  }
}
