/** The blacklist store of InvincibleTiles.cs on values: the two
    dictionaries `blacklistedTiles` and `blacklistedWalls`, what `ReadDb`
    loads into them, and what each of the four chat commands (`AddTile`,
    `DelTile`, `AddWall`, `DelWall`) does to them and asks the database.

    Each handler is a function from the old state to the new state and the
    reply; the class in module Store performs the same changes in place and
    is proved equal to these functions.  The database is not modelled: a
    handler records the statement it would run (UPDATE or INSERT) and its
    parameters, and takes the affected-row count the database would return
    as an input.

    `AddWall` and `DelWall` are modelled as written, with the mistakes they
    contain; `AddIntended` and `DelIntended` are the handlers they evidently
    mean to be (the tile handlers, over either category). */
module Blacklist {
  import opened Wrappers
  import opened IdCodec
  import opened Lookup

  /** The `Type` column: 0 for tiles, anything else is read as walls. */
  datatype Category = Tiles | Walls

  function CategoryOfType(typ: int): Category
  {
    if typ == 0 then Tiles else Walls
  }

  function TypeCode(c: Category): (typ: int)
    ensures CategoryOfType(typ) == c
  {
    match c
    case Tiles => 0
    case Walls => 1
  }

  /** The plugin's two fields. */
  datatype State = State(tiles: RegionBans, walls: RegionBans)

  const Empty := State(map[], map[])

  function Slot(st: State, c: Category): RegionBans
  {
    if c == Tiles then st.tiles else st.walls
  }

  function WithSlot(st: State, c: Category, m: RegionBans): State
  {
    if c == Tiles then st.(tiles := m) else st.(walls := m)
  }

  /** Every stored id is a 32-bit integer (everything in the state came
      through `ParseInt32`). */
  ghost predicate ValidState(st: State)
  {
    && (forall k, i :: k in st.tiles && 0 <= i < |st.tiles[k]| ==> IsInt32(st.tiles[k][i]))
    && (forall k, i :: k in st.walls && 0 <= i < |st.walls[k]| ==> IsInt32(st.walls[k][i]))
  }

  /** The exceptions the handlers and the loader can raise. */
  datatype Fault =
    | BadNumber     // FormatException / OverflowException from Convert.ToInt32
    | KeyNotFound   // Dictionary indexer on a missing key
    | DuplicateKey  // Dictionary.Add on a present key

  // ---------------------------------------------------------------------
  // ReadDb

  /** One row of the `BlacklistedTiles` table. */
  datatype Row = Row(ids: string, typ: int, region: string)

  /** The state after loading, and the fault that stopped the load, if any. */
  datatype Load = Load(state: State, fault: Option<Fault>)

  /** One iteration of `ReadDb`'s loop: the ID column is converted first,
      then `Dictionary.Add` puts the list under the row's region in the map
      its `Type` selects. */
  function LoadRow(st: State, row: Row): Result<State, Fault>
  {
    match Decode(row.ids)
    case None => Failure(BadNumber)
    case Some(ids) =>
      var c := CategoryOfType(row.typ);
      if row.region in Slot(st, c) then Failure(DuplicateKey)
      else Success(WithSlot(st, c, Slot(st, c)[row.region := ids]))
  }

  /** `ReadDb`: rows in reader order; the first exception stops the loop and
      leaves the rows before it loaded. */
  function LoadRows(st: State, rows: seq<Row>): Load
    decreases |rows|
  {
    if |rows| == 0 then Load(st, None)
    else
      match LoadRow(st, rows[0])
      case Failure(f) => Load(st, Some(f))
      case Success(next) => LoadRows(next, rows[1..])
  }

  /** Two rows compete for the same dictionary entry. */
  predicate SameEntry(a: Row, b: Row)
  {
    CategoryOfType(a.typ) == CategoryOfType(b.typ) && a.region == b.region
  }

  /** The rows a load accepts: every ID column converts, no row's entry is
      already present, and no two rows share an entry. */
  predicate Loadable(st: State, rows: seq<Row>)
  {
    && (forall i :: 0 <= i < |rows| ==> Decode(rows[i].ids).Some?)
    && (forall i :: 0 <= i < |rows| ==> rows[i].region !in Slot(st, CategoryOfType(rows[i].typ)))
    && (forall i, j :: 0 <= i < j < |rows| ==> !SameEntry(rows[i], rows[j]))
  }

  /** `ReadDb` completes exactly when the rows are loadable: a malformed ID
      column, or a second row for the same category and region, raises. */
  lemma {:induction false} LoadRowsSucceedsIff(st: State, rows: seq<Row>)
    ensures LoadRows(st, rows).fault.None? <==> Loadable(st, rows)
    decreases |rows|
  {
    if |rows| > 0 {
      var r0 := rows[0];
      var rest := rows[1..];
      match LoadRow(st, r0)
      case Failure(f) =>
        assert !Loadable(st, rows);
      case Success(next) =>
        LoadRowsSucceedsIff(next, rest);
        var c0 := CategoryOfType(r0.typ);
        forall i | 0 <= i < |rest|
          ensures (rest[i].region !in Slot(next, CategoryOfType(rest[i].typ)))
              <==> (rest[i].region !in Slot(st, CategoryOfType(rest[i].typ)) && !SameEntry(r0, rest[i]))
        {
        }
        if Loadable(st, rows) {
          forall i, j | 0 <= i < j < |rest| ensures !SameEntry(rest[i], rest[j]) {
            assert rest[i] == rows[i + 1] && rest[j] == rows[j + 1];
          }
          forall i | 0 <= i < |rest| ensures !SameEntry(r0, rest[i]) {
            assert rest[i] == rows[i + 1];
          }
          assert Loadable(next, rest);
        }
        if Loadable(next, rest) {
          forall i, j | 0 <= i < j < |rows| ensures !SameEntry(rows[i], rows[j]) {
            if i > 0 {
              assert rows[i] == rest[i - 1] && rows[j] == rest[j - 1];
            } else {
              assert rows[j] == rest[j - 1];
            }
          }
          forall i | 0 <= i < |rows|
            ensures Decode(rows[i].ids).Some?
            ensures rows[i].region !in Slot(st, CategoryOfType(rows[i].typ))
          {
            if i > 0 {
              assert rows[i] == rest[i - 1];
            }
          }
        }
    }
  }

  /** Two rows for the same category and region, every ID column before
      the second of them convertible: the load stops with a duplicate key. */
  lemma {:induction false} LoadRowsDuplicateKey(st: State, rows: seq<Row>, i: nat, j: nat)
    requires i < j < |rows|
    requires SameEntry(rows[i], rows[j])
    requires forall k :: 0 <= k <= j ==> Decode(rows[k].ids).Some?
    ensures LoadRows(st, rows).fault == Some(DuplicateKey)
    decreases |rows|
  {
    match LoadRow(st, rows[0])
    case Failure(f) =>
    case Success(next) =>
      if i == 0 {
        LoadRowsReachesKnownKey(next, rows[1..], j - 1);
      } else {
        LoadRowsDuplicateKey(next, rows[1..], i - 1, j - 1);
      }
  }

  /** A convertible row whose entry is already present stops the load with a
      duplicate key, provided every row before it converts. */
  lemma {:induction false} LoadRowsReachesKnownKey(st: State, rows: seq<Row>, j: nat)
    requires j < |rows|
    requires rows[j].region in Slot(st, CategoryOfType(rows[j].typ))
    requires forall k :: 0 <= k <= j ==> Decode(rows[k].ids).Some?
    ensures LoadRows(st, rows).fault == Some(DuplicateKey)
    decreases |rows|
  {
    match LoadRow(st, rows[0])
    case Failure(f) =>
    case Success(next) =>
      if j > 0 {
        LoadRowsReachesKnownKey(next, rows[1..], j - 1);
      }
  }

  /** A completed load keeps every entry that was already there. */
  lemma {:induction false} LoadRowsKeepsEntries(st: State, rows: seq<Row>, c: Category, k: string)
    requires LoadRows(st, rows).fault.None?
    requires k in Slot(st, c)
    ensures k in Slot(LoadRows(st, rows).state, c)
    ensures Slot(LoadRows(st, rows).state, c)[k] == Slot(st, c)[k]
    decreases |rows|
  {
    if |rows| > 0 {
      LoadRowsKeepsEntries(LoadRow(st, rows[0]).value, rows[1..], c, k);
    }
  }

  /** A completed load puts every row's decoded list under its region in
      the map its `Type` selects. */
  lemma {:induction false} LoadRowsPlacesRows(st: State, rows: seq<Row>, i: nat)
    requires LoadRows(st, rows).fault.None?
    requires i < |rows|
    ensures var m := Slot(LoadRows(st, rows).state, CategoryOfType(rows[i].typ));
      rows[i].region in m && Decode(rows[i].ids) == Some(m[rows[i].region])
    decreases |rows|
  {
    var next := LoadRow(st, rows[0]).value;
    if i == 0 {
      LoadRowsKeepsEntries(next, rows[1..], CategoryOfType(rows[0].typ), rows[0].region);
    } else {
      LoadRowsPlacesRows(next, rows[1..], i - 1);
      assert rows[1..][i - 1] == rows[i];
    }
  }

  /** A completed load adds no entry that no row asked for. */
  lemma {:induction false} LoadRowsAddsOnlyRows(st: State, rows: seq<Row>, c: Category, k: string)
    requires LoadRows(st, rows).fault.None?
    requires k in Slot(LoadRows(st, rows).state, c)
    ensures k in Slot(st, c) || exists i :: 0 <= i < |rows| && CategoryOfType(rows[i].typ) == c && rows[i].region == k
    decreases |rows|
  {
    if |rows| > 0 {
      var next := LoadRow(st, rows[0]).value;
      LoadRowsAddsOnlyRows(next, rows[1..], c, k);
      if k !in Slot(next, c) {
        var i :| 0 <= i < |rows[1..]| && CategoryOfType(rows[1..][i].typ) == c && rows[1..][i].region == k;
        assert rows[i + 1] == rows[1..][i];
      } else if k !in Slot(st, c) {
        assert CategoryOfType(rows[0].typ) == c && rows[0].region == k;
      }
    }
  }

  /** Everything a load stores came through the 32-bit parse. */
  lemma {:induction false} LoadRowsKeepsValid(st: State, rows: seq<Row>)
    requires ValidState(st)
    ensures ValidState(LoadRows(st, rows).state)
    decreases |rows|
  {
    if |rows| > 0 {
      match LoadRow(st, rows[0])
      case Failure(_) =>
      case Success(next) =>
        LoadRowsKeepsValid(next, rows[1..]);
    }
  }

  // ---------------------------------------------------------------------
  // List<int>.Remove

  /** `List<int>.Remove(x)`: drops the first occurrence of `x`, if any. */
  function RemoveFirst(s: seq<int>, x: int): seq<int>
  {
    if |s| == 0 then []
    else if s[0] == x then s[1..]
    else [s[0]] + RemoveFirst(s[1..], x)
  }

  /** One copy of `x` leaves the list, and nothing else. */
  lemma {:induction false} RemoveFirstSpec(s: seq<int>, x: int)
    ensures multiset(RemoveFirst(s, x)) == multiset(s) - multiset{x}
    ensures x !in s ==> RemoveFirst(s, x) == s
  {
    if |s| > 0 {
      assert s == [s[0]] + s[1..];
      if s[0] != x {
        RemoveFirstSpec(s[1..], x);
        assert RemoveFirst(s, x) == [s[0]] + RemoveFirst(s[1..], x);
      }
    }
  }

  /** The copy that leaves is the first one. */
  lemma {:induction false} RemoveFirstIsFirst(s: seq<int>, x: int, i: nat)
    requires i < |s| && s[i] == x && x !in s[..i]
    ensures RemoveFirst(s, x) == s[..i] + s[i + 1..]
  {
    if i > 0 {
      assert s[0] in s[..i];
      assert s[1..][..i - 1] == s[1..i];
      assert x !in s[1..][..i - 1];
      RemoveFirstIsFirst(s[1..], x, i - 1);
      assert s[..i] == [s[0]] + s[1..][..i - 1];
      assert s[i + 1..] == s[1..][i..];
    }
  }

  /** Lists are not sets: after one removal the id is still there exactly
      when the list held it at least twice. */
  lemma RemoveFirstLeavesDuplicates(s: seq<int>, x: int)
    ensures x in RemoveFirst(s, x) <==> multiset(s)[x] >= 2
  {
    RemoveFirstSpec(s, x);
    assert x in RemoveFirst(s, x) <==> x in multiset(RemoveFirst(s, x));
  }

  // ---------------------------------------------------------------------
  // The chat commands

  /** The parameterised statements a handler runs. */
  datatype Statement = Update | Insert

  /** A call `db.Query(statement, ids, type[, region])`; `region` is None
      where the source passes no region parameter. */
  datatype Query = Query(statement: Statement, ids: string, typ: int, region: Option<string>)

  /** What the command reports back. */
  datatype Reply =
    | MissingId                   // no parameters
    | InvalidId                   // first parameter is not an int
    | NotBanned(id: int)          // remove from a region with no entry
    | Crashed(fault: Fault)       // an exception escapes the handler
    | Wrote(query: Query, ok: bool)  // ok: the write affected exactly one row

  datatype Outcome = Outcome(state: State, reply: Reply)

  /** The command's arguments once read: the id and the region key, or the
      reply that rejects them. */
  datatype Command = Rejected(reply: Reply) | Command(id: int, region: string)

  /** `args.Parameters`: the first is the id (`int.TryParse`); the second,
      if present, names a region, resolved by `regionOf` (the host's
      `GetRegionByName(name).Name`); without it the key is "". */
  function ParseCommand(args: seq<string>, regionOf: string -> string): (cmd: Command)
    ensures cmd.Rejected? <==> |args| < 1 || ParseInt32(args[0]).None?
    ensures cmd.Rejected? ==> cmd.reply == (if |args| < 1 then MissingId else InvalidId)
    ensures cmd.Command? ==> IsInt32(cmd.id) && Some(cmd.id) == ParseInt32(args[0])
    ensures cmd.Command? ==> cmd.region == (if |args| > 1 then regionOf(args[1]) else "")
  {
    if |args| < 1 then Rejected(MissingId)
    else
      match ParseInt32(args[0])
      case None => Rejected(InvalidId)
      case Some(id) => Command(id, if |args| > 1 then regionOf(args[1]) else "")
  }

  /** `AddTile`: append to the region's list and UPDATE its row, or create
      the list `[id]` and INSERT a row. */
  function AddTileStep(st: State, args: seq<string>, regionOf: string -> string, affected: int): Outcome
  {
    match ParseCommand(args, regionOf)
    case Rejected(reply) => Outcome(st, reply)
    case Command(id, region) =>
      var existed := region in st.tiles;
      var list := if existed then st.tiles[region] + [id] else [id];
      Outcome(st.(tiles := st.tiles[region := list]),
              Wrote(Query(if existed then Update else Insert, Encode(list), 0, Some(region)), affected == 1))
  }

  /** `DelTile`: remove the first occurrence from the region's list and
      UPDATE its row; a region without an entry is "not banned". */
  function DelTileStep(st: State, args: seq<string>, regionOf: string -> string, affected: int): Outcome
  {
    match ParseCommand(args, regionOf)
    case Rejected(reply) => Outcome(st, reply)
    case Command(id, region) =>
      if region !in st.tiles then Outcome(st, NotBanned(id))
      else
        var list := RemoveFirst(st.tiles[region], id);
        Outcome(st.(tiles := st.tiles[region := list]),
                Wrote(Query(Update, Encode(list), 0, Some(region)), affected == 1))
  }

  /** `AddWall` as written: it asks the TILES map whether the region has an
      entry, then changes the walls map; and it passes no region parameter.
      The walls indexer throws when the tiles map has the key and the walls
      map does not; `Dictionary.Add` throws in the opposite case. */
  function AddWallStep(st: State, args: seq<string>, regionOf: string -> string, affected: int): Outcome
  {
    match ParseCommand(args, regionOf)
    case Rejected(reply) => Outcome(st, reply)
    case Command(id, region) =>
      if region in st.tiles then
        if region !in st.walls then Outcome(st, Crashed(KeyNotFound))
        else
          var list := st.walls[region] + [id];
          Outcome(st.(walls := st.walls[region := list]), Wrote(Query(Update, Encode(list), 1, None), affected == 1))
      else
        if region in st.walls then Outcome(st, Crashed(DuplicateKey))
        else Outcome(st.(walls := st.walls[region := [id]]), Wrote(Query(Insert, Encode([id]), 1, None), affected == 1))
  }

  /** `DelWall` as written: it removes from the walls list, then serialises
      the TILES list of the region (throwing when the tiles map has no such
      key, after the walls list has already changed), and passes no region
      parameter. */
  function DelWallStep(st: State, args: seq<string>, regionOf: string -> string, affected: int): Outcome
  {
    match ParseCommand(args, regionOf)
    case Rejected(reply) => Outcome(st, reply)
    case Command(id, region) =>
      if region !in st.walls then Outcome(st, NotBanned(id))
      else
        var changed := st.(walls := st.walls[region := RemoveFirst(st.walls[region], id)]);
        if region !in st.tiles then Outcome(changed, Crashed(KeyNotFound))
        else Outcome(changed, Wrote(Query(Update, Encode(st.tiles[region]), 1, None), affected == 1))
  }

  /** The add handler the four commands share in intent: test and change the
      same category's map, and write that list under that region. */
  function AddIntended(st: State, c: Category, args: seq<string>, regionOf: string -> string, affected: int): Outcome
  {
    match ParseCommand(args, regionOf)
    case Rejected(reply) => Outcome(st, reply)
    case Command(id, region) =>
      var m := Slot(st, c);
      var existed := region in m;
      var list := if existed then m[region] + [id] else [id];
      Outcome(WithSlot(st, c, m[region := list]),
              Wrote(Query(if existed then Update else Insert, Encode(list), TypeCode(c), Some(region)), affected == 1))
  }

  /** The remove handler in intent, over either category. */
  function DelIntended(st: State, c: Category, args: seq<string>, regionOf: string -> string, affected: int): Outcome
  {
    match ParseCommand(args, regionOf)
    case Rejected(reply) => Outcome(st, reply)
    case Command(id, region) =>
      var m := Slot(st, c);
      if region !in m then Outcome(st, NotBanned(id))
      else
        var list := RemoveFirst(m[region], id);
        Outcome(WithSlot(st, c, m[region := list]),
                Wrote(Query(Update, Encode(list), TypeCode(c), Some(region)), affected == 1))
  }

  // ---------------------------------------------------------------------
  // Properties of the handlers

  /** The tile handlers are the intended handlers for the tile category. */
  lemma TileHandlersAsIntended(st: State, args: seq<string>, regionOf: string -> string, affected: int)
    ensures AddTileStep(st, args, regionOf, affected) == AddIntended(st, Tiles, args, regionOf, affected)
    ensures DelTileStep(st, args, regionOf, affected) == DelIntended(st, Tiles, args, regionOf, affected)
  {
  }

  /** No parameters, or a first parameter that is not an int: every handler
      replies with the error, changes nothing and writes nothing. */
  lemma RejectedCommandChangesNothing(st: State, args: seq<string>, regionOf: string -> string, affected: int)
    requires |args| < 1 || ParseInt32(args[0]).None?
    ensures var expected := Outcome(st, if |args| < 1 then MissingId else InvalidId);
      && AddTileStep(st, args, regionOf, affected) == expected
      && DelTileStep(st, args, regionOf, affected) == expected
      && AddWallStep(st, args, regionOf, affected) == expected
      && DelWallStep(st, args, regionOf, affected) == expected
  {
  }

  /** The in-memory change does not depend on the write: a write that does
      not affect exactly one row only changes the reply's `ok`, and nothing
      is rolled back. */
  lemma WriteFailureKeepsChange(st: State, args: seq<string>, regionOf: string -> string, a1: int, a2: int)
    ensures AddTileStep(st, args, regionOf, a1).state == AddTileStep(st, args, regionOf, a2).state
    ensures DelTileStep(st, args, regionOf, a1).state == DelTileStep(st, args, regionOf, a2).state
    ensures AddWallStep(st, args, regionOf, a1).state == AddWallStep(st, args, regionOf, a2).state
    ensures DelWallStep(st, args, regionOf, a1).state == DelWallStep(st, args, regionOf, a2).state
    ensures AddTileStep(st, args, regionOf, a1).reply.Wrote? ==> AddTileStep(st, args, regionOf, a1).reply.ok == (a1 == 1)
    ensures DelTileStep(st, args, regionOf, a1).reply.Wrote? ==> DelTileStep(st, args, regionOf, a1).reply.ok == (a1 == 1)
    ensures AddWallStep(st, args, regionOf, a1).reply.Wrote? ==> AddWallStep(st, args, regionOf, a1).reply.ok == (a1 == 1)
    ensures DelWallStep(st, args, regionOf, a1).reply.Wrote? ==> DelWallStep(st, args, regionOf, a1).reply.ok == (a1 == 1)
  {
  }

  /** `AddTile` on a valid command: the id goes to the END of the region's
      list (a duplicate is kept), UPDATE is chosen exactly when the entry
      existed, the id is then banned there, and no other entry and nothing in
      the walls map changes. */
  lemma AddTileBans(st: State, args: seq<string>, regionOf: string -> string, affected: int)
    requires ParseCommand(args, regionOf).Command?
    ensures var cmd := ParseCommand(args, regionOf);
      var out := AddTileStep(st, args, regionOf, affected);
      var old_list := if cmd.region in st.tiles then st.tiles[cmd.region] else [];
      && out.state.walls == st.walls
      && out.state.tiles.Keys == st.tiles.Keys + {cmd.region}
      && (forall k :: k in st.tiles && k != cmd.region ==> out.state.tiles[k] == st.tiles[k])
      && out.state.tiles[cmd.region] == old_list + [cmd.id]
      && multiset(out.state.tiles[cmd.region])[cmd.id] == multiset(old_list)[cmd.id] + 1
      && out.reply.Wrote?
      && (out.reply.query.statement == Update <==> cmd.region in st.tiles)
      && IsBanned(out.state.tiles, Some(cmd.region), cmd.id)
  {
  }

  /** `DelTile` for a region with no entry: "not banned", nothing changes
      and nothing is written. */
  lemma DelTileUnknownRegion(st: State, args: seq<string>, regionOf: string -> string, affected: int,
                             id: int, region: string)
    requires ParseCommand(args, regionOf) == Command(id, region)
    requires region !in st.tiles
    ensures DelTileStep(st, args, regionOf, affected) == Outcome(st, NotBanned(id))
  {
  }

  /** `DelTile` for a region with an entry: one copy of the id leaves the
      list, the id stays banned exactly when the list held it twice or more,
      and the entry is kept even when its list becomes empty. */
  lemma DelTileUnbans(st: State, args: seq<string>, regionOf: string -> string, affected: int,
                      id: int, region: string)
    requires ParseCommand(args, regionOf) == Command(id, region)
    requires region in st.tiles
    ensures var tiles := DelTileStep(st, args, regionOf, affected).state.tiles;
      && region in tiles
      && multiset(tiles[region]) == multiset(st.tiles[region]) - multiset{id}
      && (IsBanned(tiles, Some(region), id) <==> multiset(st.tiles[region])[id] >= 2)
  {
    RemoveFirstSpec(st.tiles[region], id);
    RemoveFirstLeavesDuplicates(st.tiles[region], id);
  }

  /** `DelTile` for a region with an entry changes that entry only, and
      rewrites its row with UPDATE. */
  lemma DelTileFrame(st: State, args: seq<string>, regionOf: string -> string, affected: int,
                     id: int, region: string)
    requires ParseCommand(args, regionOf) == Command(id, region)
    requires region in st.tiles
    ensures var out := DelTileStep(st, args, regionOf, affected);
      && out.state.walls == st.walls
      && out.state.tiles.Keys == st.tiles.Keys
      && (forall k :: k in st.tiles && k != region ==> out.state.tiles[k] == st.tiles[k])
      && out.reply.Wrote? && out.reply.query.statement == Update
      && out.reply.query.region == Some(region)
  {
  }

  /** Ban then unban the same tile id: the region's list holds the same ids
      as before (possibly reordered, when the id was already there). */
  lemma AddThenDelTile(st: State, args: seq<string>, regionOf: string -> string, a1: int, a2: int,
                       id: int, region: string)
    requires ParseCommand(args, regionOf) == Command(id, region)
    requires region in st.tiles
    ensures var after := DelTileStep(AddTileStep(st, args, regionOf, a1).state, args, regionOf, a2).state;
      region in after.tiles && multiset(after.tiles[region]) == multiset(st.tiles[region])
  {
    var old_list := st.tiles[region];
    RemoveFirstSpec(old_list + [id], id);
    assert multiset(old_list + [id]) == multiset(old_list) + multiset{id};
  }

  /** Ban then unban in a region that had no entry: the entry stays, empty. */
  lemma AddThenDelTileNewRegion(st: State, args: seq<string>, regionOf: string -> string, a1: int, a2: int,
                                id: int, region: string)
    requires ParseCommand(args, regionOf) == Command(id, region)
    requires region !in st.tiles
    ensures var after := DelTileStep(AddTileStep(st, args, regionOf, a1).state, args, regionOf, a2).state;
      region in after.tiles && after.tiles[region] == []
  {
  }

  /** The row an add writes reloads to the list now in memory. */
  lemma AddTileRowReloads(st: State, args: seq<string>, regionOf: string -> string, affected: int)
    requires ValidState(st)
    requires ParseCommand(args, regionOf).Command?
    ensures var cmd := ParseCommand(args, regionOf);
      var out := AddTileStep(st, args, regionOf, affected);
      Decode(out.reply.query.ids) == Some(out.state.tiles[cmd.region])
  {
    var cmd := ParseCommand(args, regionOf);
    var out := AddTileStep(st, args, regionOf, affected);
    RoundTrip(out.state.tiles[cmd.region]);
  }

  /** Replacing one entry by a list of 32-bit ids keeps a state valid. */
  lemma PutKeepsValid(st: State, c: Category, region: string, list: seq<int>)
    requires ValidState(st)
    requires forall i :: 0 <= i < |list| ==> IsInt32(list[i])
    ensures ValidState(WithSlot(st, c, Slot(st, c)[region := list]))
  {
  }

  /** The handlers as written keep every stored id a 32-bit integer. */
  lemma HandlersKeepValid(st: State, args: seq<string>, regionOf: string -> string, affected: int)
    requires ValidState(st)
    ensures ValidState(AddTileStep(st, args, regionOf, affected).state)
    ensures ValidState(DelTileStep(st, args, regionOf, affected).state)
    ensures ValidState(AddWallStep(st, args, regionOf, affected).state)
    ensures ValidState(DelWallStep(st, args, regionOf, affected).state)
  {
    var cmd := ParseCommand(args, regionOf);
    if cmd.Command? {
      var r := cmd.region;
      var tl := if r in st.tiles then st.tiles[r] + [cmd.id] else [cmd.id];
      var wl := if r in st.walls then st.walls[r] + [cmd.id] else [cmd.id];
      PutKeepsValid(st, Tiles, r, tl);
      PutKeepsValid(st, Walls, r, wl);
      if r in st.tiles {
        RemoveFirstElements(st.tiles[r], cmd.id);
        PutKeepsValid(st, Tiles, r, RemoveFirst(st.tiles[r], cmd.id));
      }
      if r in st.walls {
        RemoveFirstElements(st.walls[r], cmd.id);
        PutKeepsValid(st, Walls, r, RemoveFirst(st.walls[r], cmd.id));
      }
    }
  }

  lemma {:induction false} RemoveFirstElements(s: seq<int>, x: int)
    ensures forall i :: 0 <= i < |RemoveFirst(s, x)| ==> RemoveFirst(s, x)[i] in s
  {
    if |s| > 0 && s[0] != x {
      RemoveFirstElements(s[1..], x);
    }
  }

  // ---------------------------------------------------------------------
  // Findings: the wall handlers against their evident intent

  /** InvincibleTiles.cs:247.  `AddWall` tests the tiles map.  A region with
      a wall entry and no tile entry makes `Dictionary.Add` throw, where the
      intended handler appends; the converse makes the indexer throw. */
  lemma AddWallTestsWrongMap()
    ensures var st := State(map[], map["" := [5]]);
      && AddWallStep(st, ["6"], n => n, 1).reply == Crashed(DuplicateKey)
      && AddIntended(st, Walls, ["6"], n => n, 1).state.walls == map["" := [5, 6]]
    ensures var st := State(map["" := [1]], map[]);
      && AddWallStep(st, ["6"], n => n, 1).reply == Crashed(KeyNotFound)
      && AddIntended(st, Walls, ["6"], n => n, 1).state.walls == map["" := [6]]
  {
    assert ParseInt32("6") == Some(6);
    assert [5] + [6] == [5, 6];
  }

  /** InvincibleTiles.cs:258 and :300.  The wall handlers never pass the
      region parameter their statements use. */
  lemma WallWritesOmitRegion(st: State, args: seq<string>, regionOf: string -> string, affected: int)
    ensures AddWallStep(st, args, regionOf, affected).reply.Wrote? ==>
              AddWallStep(st, args, regionOf, affected).reply.query.region == None
    ensures DelWallStep(st, args, regionOf, affected).reply.Wrote? ==>
              DelWallStep(st, args, regionOf, affected).reply.query.region == None
  {
  }

  /** InvincibleTiles.cs:300.  `DelWall` writes the region's tile list into
      the wall row: removing wall 2 from {"": [2]} with tiles {"": [1]}
      stores "1" where the walls list is now empty. */
  lemma DelWallWritesTileList()
    ensures var st := State(map["" := [1]], map["" := [2]]);
      var out := DelWallStep(st, ["2"], n => n, 1);
      && out.state.walls == map["" := []]
      && out.reply.Wrote? && out.reply.query.ids == "1"
      && DelIntended(st, Walls, ["2"], n => n, 1).reply.query.ids == ""
  {
  }

  /** `AddWall` in general: it crashes exactly where the two maps disagree
      on the region, changing nothing; where they agree it writes and changes
      the walls map as the intended handler does. */
  lemma AddWallAgainstIntended(st: State, args: seq<string>, regionOf: string -> string, affected: int,
                               id: int, region: string)
    requires ParseCommand(args, regionOf) == Command(id, region)
    ensures region in st.walls && region !in st.tiles ==>
      AddWallStep(st, args, regionOf, affected) == Outcome(st, Crashed(DuplicateKey))
    ensures region !in st.walls && region in st.tiles ==>
      AddWallStep(st, args, regionOf, affected) == Outcome(st, Crashed(KeyNotFound))
    ensures (region in st.walls <==> region in st.tiles) ==>
      AddWallStep(st, args, regionOf, affected).state == AddIntended(st, Walls, args, regionOf, affected).state
    ensures (region in st.walls <==> region in st.tiles) ==>
      AddWallStep(st, args, regionOf, affected).reply.Wrote?
  {
  }

  /** `DelWall` in general: the walls map changes as the intended handler
      changes it, but the row written holds the region's TILE list. */
  lemma DelWallAgainstIntended(st: State, args: seq<string>, regionOf: string -> string, affected: int,
                               id: int, region: string)
    requires ParseCommand(args, regionOf) == Command(id, region)
    ensures DelWallStep(st, args, regionOf, affected).state == DelIntended(st, Walls, args, regionOf, affected).state
    ensures region in st.walls && region !in st.tiles ==>
      DelWallStep(st, args, regionOf, affected).reply == Crashed(KeyNotFound)
    ensures region in st.walls && region in st.tiles ==>
      DelWallStep(st, args, regionOf, affected).reply == Wrote(Query(Update, Encode(st.tiles[region]), 1, None), affected == 1)
  {
  }

  /** Unbanning the only tile of any region writes "", and any table in
      which that row is read fails to load. */
  lemma EmptiedRowBreaksReloadAll(st: State, args: seq<string>, regionOf: string -> string, affected: int,
                                  id: int, region: string, other: State)
    requires ParseCommand(args, regionOf) == Command(id, region)
    requires region in st.tiles && st.tiles[region] == [id]
    ensures DelTileStep(st, args, regionOf, affected).reply == Wrote(Query(Update, "", 0, Some(region)), affected == 1)
    ensures LoadRows(other, [Row("", 0, region)]).fault == Some(BadNumber)
  {
    EmptyListDoesNotRoundTrip();
  }

  /** The intended add, for either category: the id is appended to the
      category's list for the region and is then banned there; the other
      category is untouched; the write is UPDATE exactly when the entry
      existed, carries the region, and stores text that reloads to the new
      list. */
  lemma AddIntendedBans(st: State, c: Category, args: seq<string>, regionOf: string -> string, affected: int)
    requires ValidState(st)
    requires ParseCommand(args, regionOf).Command?
    ensures var cmd := ParseCommand(args, regionOf);
      var out := AddIntended(st, c, args, regionOf, affected);
      var m := Slot(st, c);
      && Slot(out.state, if c == Tiles then Walls else Tiles) == Slot(st, if c == Tiles then Walls else Tiles)
      && Slot(out.state, c)[cmd.region] == (if cmd.region in m then m[cmd.region] else []) + [cmd.id]
      && IsBanned(Slot(out.state, c), Some(cmd.region), cmd.id)
      && out.reply.Wrote?
      && (out.reply.query.statement == Update <==> cmd.region in m)
      && out.reply.query.region == Some(cmd.region)
      && CategoryOfType(out.reply.query.typ) == c
      && Decode(out.reply.query.ids) == Some(Slot(out.state, c)[cmd.region])
      && Slot(out.state, c).Keys == m.Keys + {cmd.region}
      && (forall k :: k in m && k != cmd.region ==> Slot(out.state, c)[k] == m[k])
  {
    var cmd := ParseCommand(args, regionOf);
    var out := AddIntended(st, c, args, regionOf, affected);
    RoundTrip(Slot(out.state, c)[cmd.region]);
    AddIntendedKeepsRegions(st, c, args, regionOf, affected);
  }

  /** The intended add keeps every region the map had, adds the command's
      region and changes no other region's list. */
  lemma AddIntendedKeepsRegions(st: State, c: Category, args: seq<string>, regionOf: string -> string, affected: int)
    requires ParseCommand(args, regionOf).Command?
    ensures var region := ParseCommand(args, regionOf).region;
      var after := Slot(AddIntended(st, c, args, regionOf, affected).state, c);
      && after.Keys == Slot(st, c).Keys + {region}
      && (forall k :: k in Slot(st, c) && k != region ==> after[k] == Slot(st, c)[k])
  {
    var cmd := ParseCommand(args, regionOf);
    var m := Slot(st, c);
    var list := if cmd.region in m then m[cmd.region] + [cmd.id] else [cmd.id];
    assert Slot(AddIntended(st, c, args, regionOf, affected).state, c) == m[cmd.region := list];
  }

  /** The intended remove, for either category, on a region that has an
      entry: it takes one copy of the id out of that region's list, keeps
      every region and every other list, and the id stays banned there
      exactly when the list held it more than once. */
  lemma DelIntendedUnbans(st: State, c: Category, args: seq<string>, regionOf: string -> string, affected: int,
                          id: int, region: string)
    requires ParseCommand(args, regionOf) == Command(id, region)
    requires region in Slot(st, c)
    ensures var m := Slot(DelIntended(st, c, args, regionOf, affected).state, c);
      && Slot(DelIntended(st, c, args, regionOf, affected).state, if c == Tiles then Walls else Tiles)
         == Slot(st, if c == Tiles then Walls else Tiles)
      && m.Keys == Slot(st, c).Keys
      && (forall k :: k in m && k != region ==> m[k] == Slot(st, c)[k])
      && multiset(m[region]) == multiset(Slot(st, c)[region]) - multiset{id}
      && (IsBanned(m, Some(region), id) <==> multiset(Slot(st, c)[region])[id] >= 2)
  {
    RemoveFirstSpec(Slot(st, c)[region], id);
    RemoveFirstLeavesDuplicates(Slot(st, c)[region], id);
  }

  /** The intended remove, for either category: it writes the list it has
      just changed, under its region, and that text reloads to the list
      unless the list is now empty. */
  lemma DelIntendedWritesList(st: State, c: Category, args: seq<string>, regionOf: string -> string, affected: int,
                              id: int, region: string)
    requires ValidState(st)
    requires ParseCommand(args, regionOf) == Command(id, region)
    requires region in Slot(st, c)
    ensures var out := DelIntended(st, c, args, regionOf, affected);
      && out.reply.Wrote?
      && out.reply.query.region == Some(region)
      && CategoryOfType(out.reply.query.typ) == c
      && (|Slot(out.state, c)[region]| > 0 ==> Decode(out.reply.query.ids) == Some(Slot(out.state, c)[region]))
  {
    var old_list := Slot(st, c)[region];
    var list := RemoveFirst(old_list, id);
    RemoveFirstElements(old_list, id);
    if |list| > 0 {
      RoundTrip(list);
    }
  }

  /** An emptied list is written as "", and a table holding that row no
      longer loads: unbanning the last tile of a region breaks the next
      `ReadDb`. */
  lemma EmptiedRowBreaksReload()
    ensures var out := DelTileStep(State(map["" := [5]], map[]), ["5"], n => n, 1);
      && out.reply.Wrote? && out.reply.query == Query(Update, "", 0, Some(""))
      && LoadRows(Empty, [Row(out.reply.query.ids, 0, "")]).fault == Some(BadNumber)
  {
    assert ParseInt32("5") == Some(5);
    EmptyListDoesNotRoundTrip();
  }

  /** `DecodeList` reads "" as the empty list; with it every stored list,
      empty or not, reloads. */
  function DecodeList(s: string): Option<seq<int>>
  {
    if s == "" then Some([]) else Decode(s)
  }

  lemma DecodeListRoundTrip(ids: seq<int>)
    requires forall i :: 0 <= i < |ids| ==> IsInt32(ids[i])
    ensures DecodeList(Encode(ids)) == Some(ids)
  {
    if |ids| > 0 {
      RoundTrip(ids);
      EncodeCommas(ids);
      assert Encode(ids) != "" by {
        NonEmptyEncode(ids);
      }
    }
  }

  lemma NonEmptyEncode(ids: seq<int>)
    requires |ids| > 0
    ensures |Encode(ids)| > 0
  {
    var texts := Texts(ids);
    NatTextDigits(if ids[0] < 0 then -ids[0] else ids[0]);
    assert |texts[0]| > 0;
    if |texts| > 1 {
      assert Join(texts) == texts[0] + "," + Join(texts[1..]);
    }
  }
}
