# Invincible Tiles — a Dafny model of the blacklist and the edit guard

Invincible Tiles is a server plugin for a multiplayer sandbox game. It keeps
lists of protected tile ids and wall ids per named region, and it blocks any
attempt to break a protected tile or wall unless the player holds the
`breakinvincible` permission. This project models the plugin's core and
proves properties of that model:

- **the id-list codec** (`Extensions.cs`). A list of ids is stored in the
  `ID` column as decimal numbers joined by commas (`IDToDBString`). It is read
  back by splitting on commas and converting each field (`ToIDList`). The two
  loops are methods proved against the functions `Encode` and `Decode`. The
  round trip holds for every non-empty list of 32-bit ids. An emptied list is
  written as `""`, and `""` does not read back.
- **the lookups** (`Extensions.cs`). `ContainsKey` is a linear search over
  key/value pairs. `IsBanned` looks up the id under the single top region at
  the point, or under `""` when no region covers it.
- **the blacklist store** (`InvincibleTiles.cs`). The class
  `Store.InvincibleTiles` holds the two dictionaries `blacklistedTiles` and
  `blacklistedWalls`. Its methods change them in place:
  - `ReadDb` loads the table's rows.
  - The commands `blacktile`, `whitetile`, `blackwall` and `whitewall` add or
    remove one id.
  Each method is proved to end in the state and reply that a function of
  module `Blacklist` gives, and the properties are proved about those
  functions.
  - Lists are not sets: adding keeps duplicates, and removing drops only the
    first copy.
  - The database write is not modelled. A handler records the statement it
    chose (UPDATE or INSERT) and the parameters it passed. It takes the
    affected-row count the database would return as an input.
- **the edit guard** (`TileKill`). This is the verdict on one tile-edit
  event: is the event marked handled, and which tile squares are redrawn.

The wall commands are modelled as written, mistakes included (see
"## Findings"). `Blacklist.AddIntended` and `Blacklist.DelIntended` are the
handlers the wall commands evidently mean to be. They are the tile handlers
generalised to either category, and `Blacklist.TileHandlersAsIntended` proves
that the tile commands are exactly them.

A simpler design would keep a set of ids per region, protect an id banned
in ANY region covering the point, and write to storage before changing
memory. The code does not work that way, and this model follows the code:

| simpler design | the code, and this model |
|---|---|
| a region's protected ids form a set | they form a list: duplicates survive, and a removal drops only one copy (`Blacklist.DelTileUnbans`) |
| an id is protected if it is banned in ANY region covering the point | only the single top region's entry is consulted, or `""` when no region covers the point (`Lookup.OnlyTopRegionConsulted`) |
| the write happens first, or a failed write is rolled back | memory is changed first and never rolled back (`Blacklist.WriteFailureKeepsChange`) |
| after a remove, the id is no longer protected | it stays protected when it was listed twice |

Files:

- `wrappers.dfy`: Option and Result.
- `id_codec.dfy`: module `IdCodec`.
- `lookup.dfy`: module `Lookup`.
- `blacklist.dfy`: module `Blacklist`, the store on values.
- `store.dfy`: module `Store`, the class.
- `edit_guard.dfy`: module `EditGuard`.

## Model

| member | source | states |
|---|---|---|
| `IdCodec.IDToDBString` | InvincibleTiles/Extensions.cs:32-40 | the loop returns `Encode(ids)`: each id's decimal text, in list order, joined by single commas; the empty list gives "" |
| `IdCodec.ToIDList` | InvincibleTiles/Extensions.cs:22-30 | the loop returns `Decode(str)`: one 32-bit int per comma-separated field, in order, or failure as soon as one field does not convert |
| `IdCodec.Split` | InvincibleTiles/Extensions.cs:25 | `Split(',')` yields one more field than there are commas, and no field contains a comma |
| `IdCodec.Decode` | InvincibleTiles/Extensions.cs:22-30 | a decoded list has exactly (number of commas + 1) entries, all 32-bit |
| `IdCodec.ParseInt32` | InvincibleTiles/Extensions.cs:27 | a converted field yields a 32-bit value; the field is non-empty, starts with a digit or '-', and holds no comma |
| `IdCodec.ParseRejectsNonNumeric` | InvincibleTiles/Extensions.cs:25-27 | an empty field, a lone "-", or a field with a character other than a digit (after an optional leading '-') does not convert |
| `IdCodec.ParseIdText` | InvincibleTiles/Extensions.cs:22-40 | every 32-bit id converts back from its own decimal text |
| `IdCodec.IdTextHasNoComma` | InvincibleTiles/Extensions.cs:37 | an id's text never contains the separator |
| `IdCodec.SplitJoin` | InvincibleTiles/Extensions.cs:22-40 | splitting a comma-join of a non-empty list of comma-free fields gives back that list |
| `IdCodec.JoinSplit` | InvincibleTiles/Extensions.cs:22-40 | joining the fields of a split gives back the string |
| `IdCodec.RoundTrip` | InvincibleTiles/Extensions.cs:22-40 | `ToIDList(IDToDBString(ids)) == ids` for every non-empty list of 32-bit ids, order and duplicates included |
| `IdCodec.EmptyListDoesNotRoundTrip` | InvincibleTiles/Extensions.cs:25-39 | the empty list encodes to "", and "" does not decode |
| `IdCodec.EncodeCommas` | InvincibleTiles/Extensions.cs:32-40 | the encoding of n ids holds exactly n-1 commas |
| `Lookup.ContainsKey` | InvincibleTiles/Extensions.cs:12-20 | true iff some pair's key equals `wall`; false for an empty list |
| `Lookup.IsBanned` | InvincibleTiles/Extensions.cs:42-55 | a ban is only ever found under the top region's key (or "" without one); what that one entry holds decides the answer (`Lookup.OnlyTopRegionConsulted`) |
| `Lookup.NoRegionIsEmptyKey` | InvincibleTiles/Extensions.cs:44-49 | a point outside every region is looked up under "" |
| `Lookup.OnlyTopRegionConsulted` | InvincibleTiles/Extensions.cs:45-50 | two maps that agree on the top region's entry give the same answer, whatever other regions or "" hold |
| `Lookup.GlobalBanShadowedByRegion` | InvincibleTiles/Extensions.cs:44-53 | inside a region with no entry, an id banned only under "" is not banned |
| `Blacklist.TypeCode` | InvincibleTiles/InvincibleTiles.cs:119 | the `Type` written for a category is read back as that category (0 is tiles, anything else walls) |
| `Blacklist.LoadRowsSucceedsIff` | InvincibleTiles/InvincibleTiles.cs:114-127 | `ReadDb` completes iff every ID column converts, no row's entry is already present, and no two rows share a category and region |
| `Blacklist.LoadRowsDuplicateKey` | InvincibleTiles/InvincibleTiles.cs:114-127 | two rows for the same category and region, every row up to the second convertible: the load stops with a duplicate key |
| `Blacklist.LoadRowsReachesKnownKey` | InvincibleTiles/InvincibleTiles.cs:119-126 | a convertible row whose entry is already present stops the load with a duplicate key once the rows before it convert |
| `Blacklist.LoadRowsPlacesRows` | InvincibleTiles/InvincibleTiles.cs:116-126 | after a completed load, each row's decoded list is under its region in the tiles map when `Type == 0` and in the walls map otherwise |
| `Blacklist.LoadRowsKeepsEntries` | InvincibleTiles/InvincibleTiles.cs:114-127 | a completed load keeps every entry already present |
| `Blacklist.LoadRowsAddsOnlyRows` | InvincibleTiles/InvincibleTiles.cs:114-127 | a completed load adds no entry that no row asked for |
| `Blacklist.LoadRowsKeepsValid` | InvincibleTiles/InvincibleTiles.cs:114-127 | everything loaded is a 32-bit id |
| `Blacklist.RemoveFirstSpec` | InvincibleTiles/InvincibleTiles.cs:206 | `List.Remove` takes one copy of the id out of the list's multiset, and leaves the list unchanged when the id is absent |
| `Blacklist.RemoveFirstIsFirst` | InvincibleTiles/InvincibleTiles.cs:206 | the copy removed is the first occurrence |
| `Blacklist.RemoveFirstLeavesDuplicates` | InvincibleTiles/InvincibleTiles.cs:206 | after one removal the id is still present iff the list held it at least twice |
| `Blacklist.ParseCommand` | InvincibleTiles/InvincibleTiles.cs:142-159 | a command is rejected iff it has no parameters ("missing") or its first parameter is not an int ("invalid"); otherwise the id is that parameter's 32-bit value and the region key is `regionOf(args[1])` with a second parameter, "" without one |
| `Blacklist.RejectedCommandChangesNothing` | InvincibleTiles/InvincibleTiles.cs:140-287 | all four handlers, given no parameters or a non-integer id, reply with the error, leave both maps unchanged and issue no query |
| `Blacklist.WriteFailureKeepsChange` | InvincibleTiles/InvincibleTiles.cs:161-308 | the new in-memory state does not depend on the write's affected-row count; the reply reports success iff exactly one row was affected |
| `Blacklist.AddTileBans` | InvincibleTiles/InvincibleTiles.cs:161-171 | `blacktile` appends the id at the end of the region's list (creating `[id]` if absent), keeps duplicates, selects UPDATE iff the entry existed, bans the id there, and changes no other entry and nothing in the walls map |
| `Blacklist.DelTileUnknownRegion` | InvincibleTiles/InvincibleTiles.cs:204-213 | `whitetile` on a region with no entry replies "not banned", changes nothing and writes nothing |
| `Blacklist.DelTileUnbans` | InvincibleTiles/InvincibleTiles.cs:204-207 | `whitetile` on a region with an entry takes one copy of the id out of its list, keeps the entry (even when emptied), and the id stays banned iff it was listed twice |
| `Blacklist.DelTileFrame` | InvincibleTiles/InvincibleTiles.cs:204-215 | `whitetile` on a region with an entry changes no other entry and nothing in the walls map, and rewrites the row with UPDATE under that region |
| `Blacklist.AddThenDelTile` | InvincibleTiles/InvincibleTiles.cs:161-213 | ban then unban in a region with an entry leaves its list with the same ids as before (possibly reordered) |
| `Blacklist.AddThenDelTileNewRegion` | InvincibleTiles/InvincibleTiles.cs:161-213 | ban then unban in a region without an entry leaves an empty entry behind |
| `Blacklist.AddTileRowReloads` | InvincibleTiles/InvincibleTiles.cs:162-173 | the text `blacktile` writes decodes to the list now in memory |
| `Blacklist.TileHandlersAsIntended` | InvincibleTiles/InvincibleTiles.cs:140-224 | the tile commands are exactly the intended handlers for the tile category |
| `Blacklist.HandlersKeepValid` | InvincibleTiles/InvincibleTiles.cs:140-309 | all four handlers keep every stored id a 32-bit integer |
| `Blacklist.AddWallTestsWrongMap` | InvincibleTiles/InvincibleTiles.cs:247-255 | an example state for each `blackwall` crash: walls `{"": [5]}` with no tile entry (duplicate key), tiles `{"": [1]}` with no wall entry (key not found) |
| `Blacklist.AddWallAgainstIntended` | InvincibleTiles/InvincibleTiles.cs:246-256 | for every command: `blackwall` crashes with a duplicate key where only the walls map has the region, with key-not-found where only the tiles map has it, changing nothing; where the maps agree it reaches its write and changes the walls map as the intended add does |
| `Blacklist.WallWritesOmitRegion` | InvincibleTiles/InvincibleTiles.cs:258-300 | every query of `blackwall` and `whitewall` lacks the region parameter |
| `Blacklist.DelWallWritesTileList` | InvincibleTiles/InvincibleTiles.cs:300 | an example: tiles `{"": [1]}`, walls `{"": [2]}`, `whitewall 2` writes "1" into the wall row |
| `Blacklist.DelWallAgainstIntended` | InvincibleTiles/InvincibleTiles.cs:289-300 | for every command: `whitewall` changes the walls map as the intended remove does, but with a tile entry it writes the region's tile list without region, and without one it crashes (key not found) |
| `Blacklist.AddIntendedBans` | InvincibleTiles/InvincibleTiles.cs:246-258 | the intended add appends to its own category's list, bans the id, keeps every region and adds the command's region, changes no other region's list, leaves the other category alone, writes that list under the region, and the written text decodes to the list |
| `Blacklist.AddIntendedKeepsRegions` | InvincibleTiles/InvincibleTiles.cs:246-256 | the intended add's map has exactly the old regions plus the command's region, and every other region's list is unchanged |
| `Blacklist.DelIntendedUnbans` | InvincibleTiles/InvincibleTiles.cs:289-292 | for either category and a region with an entry: the intended remove takes exactly one copy of the id out of that region's list (as multisets), keeps the same regions and every other list, leaves the other category alone, and the id stays banned there exactly when the list held it at least twice |
| `Blacklist.DelIntendedWritesList` | InvincibleTiles/InvincibleTiles.cs:288-300 | the intended remove writes its own category's row under its region, and the text written decodes to the changed list unless that list is empty |
| `Blacklist.EmptiedRowBreaksReload` | InvincibleTiles/InvincibleTiles.cs:206-215 | an example: tiles `{"": [5]}`, `whitetile 5` writes "", and a table holding that row fails to load |
| `Blacklist.EmptiedRowBreaksReloadAll` | InvincibleTiles/InvincibleTiles.cs:204-215 | for every region whose tile list is just `[id]`: `whitetile id` writes "", and loading that row fails with a conversion error |
| `Blacklist.DecodeListRoundTrip` | InvincibleTiles/Extensions.cs:22-40 | reading "" as the empty list makes every stored list read back, empty or not |
| `Store.InvincibleTiles.constructor` | InvincibleTiles/InvincibleTiles.cs:17-18 | both dictionaries start empty |
| `Store.InvincibleTiles.ReadDb` | InvincibleTiles/InvincibleTiles.cs:108-128 | the loop over the rows leaves the fields and the fault as `LoadRows` of the old fields says |
| `Store.InvincibleTiles.AddTile` | InvincibleTiles/InvincibleTiles.cs:140-182 | the fields and the reply after the in-place update are those of `AddTileStep` on the old fields |
| `Store.InvincibleTiles.DelTile` | InvincibleTiles/InvincibleTiles.cs:184-224 | the fields and the reply after the in-place update are those of `DelTileStep` on the old fields |
| `Store.InvincibleTiles.AddWall` | InvincibleTiles/InvincibleTiles.cs:226-267 | the fields and the reply after the in-place update are those of `AddWallStep` (as written) on the old fields |
| `Store.InvincibleTiles.DelWall` | InvincibleTiles/InvincibleTiles.cs:269-309 | the fields and the reply after the in-place update are those of `DelWallStep` (as written) on the old fields |
| `EditGuard.TileKill` | InvincibleTiles/InvincibleTiles.cs:311-328 | with the permission nothing is handled or redrawn. Otherwise the event is handled iff the action guards a category (KillWall guards walls; KillTile, KillTileNoItem and PoundTile guard tiles) and the cell's id of that category is banned. Handling always comes with exactly one 1-cell redraw, and no redraw comes without it |
| `EditGuard.BannedTileIsProtected` | InvincibleTiles/InvincibleTiles.cs:311-328 | after `blacktile id region`, every tile-removing action on that tile id, under that top region, by a player without the permission, is handled with one redraw |
| `EditGuard.BannedWallIsProtected` | InvincibleTiles/InvincibleTiles.cs:318-322 | after the intended wall add, `KillWall` on that wall id under that region is handled with one redraw |
| `EditGuard.VerdictReadsOnlyItsCategory` | InvincibleTiles/InvincibleTiles.cs:316-327 | a wall removal does not depend on the tiles map or the tile id, and a tile removal does not depend on the walls map or the wall id |

## Left out

- Storage setup (`SetupDb`: backend choice, connection strings, table creation) is not modelled. It is I/O through libraries not shown.
- Database queries are not executed. `ReadDb` takes the rows read as an input sequence. A write is the statement and parameters chosen, plus the affected-row count as an input.
- NULL column values are not modelled: a row's `Region` is always a string. A wall query leaves `@2` unbound; what then happens depends on the database driver (it may bind NULL, or `db.Query` may throw after the in-memory change). That is reported under "## Findings" and not modelled further.
- Exceptions raised by `db.Query` are not modelled: every handler that reaches its write yields `Wrote`, with the in-memory change already made.
- The host's region manager is not modelled.
  - `GetTopRegion(InAreaRegion(x, y))` is the `top` input of `IsBanned` and `TileKill`.
  - `GetRegionByName(name).Name` is the `regionOf` function input.
- The null dereference for an unknown region name (InvincibleTiles.cs:152-153 and the same calls in the other handlers) is not modelled: `regionOf` always returns a name.
- The class methods resolve the region before they parse the id, as the source does. The `Blacklist` step functions (through `ParseCommand`) do not keep this order; without the null dereference it has no effect.
- `Main.tile` is not modelled. The cell's wall and tile ids are inputs of `TileKill`.
- In `TileKill`, the permission check runs before the world and the region manager are read. Only the verdict is modelled, which does not depend on those reads.
- Player messages, colours, `Log.ConsoleError` and `Console.WriteLine` are output only. They are modelled as the abstract `Reply`.
- The plugin lifecycle is not modelled: the constructor wiring, `Initialize`, `Dispose`, and event subscription and unsubscription.
- The host's edit-action enumeration is only partly modelled. Actions `TileKill` does not name are one constructor, `OtherAction`.
- IdCodec.ParseInt32: accepts only an optional '-' followed by ASCII digits within the 32-bit range. It does not accept what `Convert.ToInt32` and `int.TryParse` also accept: surrounding whitespace, a leading '+', culture-specific signs. Overflow is folded into the same failure as malformed text.
- IdCodec.ToIDList: fails on the same inputs as `ParseInt32` above, so whitespace around a field is rejected here and accepted by the source.
- Concurrency is not modelled. The host delivers events and commands one at a time.

## Findings

The class `Store.InvincibleTiles` follows the source as written. The
corrected definitions (`Blacklist.AddIntended`, `Blacklist.DelIntended`,
`Blacklist.DecodeList`) carry the intended properties. The guard lemma
`EditGuard.BannedWallIsProtected` is stated over the corrected wall add.

| source | as written | input that shows it | evidently intended | confidence | as-written member | corrected member |
|---|---|---|---|---|---|---|
| InvincibleTiles/InvincibleTiles.cs:247 | `AddWall` tests `blacklistedTiles.ContainsKey(region)`, then changes `blacklistedWalls` | walls `{"": [5]}`, tiles empty, `blackwall 6`: `Dictionary.Add` throws on the duplicate key. Tiles `{"": [1]}`, walls empty: the indexer throws KeyNotFound | test `blacklistedWalls.ContainsKey(region)` | high (not executed) | `Blacklist.AddWallAgainstIntended` | `Blacklist.AddIntendedBans` |
| InvincibleTiles/InvincibleTiles.cs:258 | the wall queries pass only the id text and the type, so `@2` (the region) is unbound. The same holds at line 300 | any `blackwall` that reaches the write leaves `@2` unbound. Depending on the driver, the UPDATE's `Region = @2` matches no row and the INSERT stores NULL, or `db.Query` throws after the in-memory change | pass `region` as the third parameter, as the tile handlers do | medium (not executed; depends on how the driver binds a missing parameter) | `Blacklist.WallWritesOmitRegion` | `Blacklist.AddIntendedBans` |
| InvincibleTiles/InvincibleTiles.cs:300 | `DelWall` serialises `blacklistedTiles[region]` | tiles `{"": [1]}`, walls `{"": [2]}`, `whitewall 2`: the wall row gets "1". With no tile entry, the indexer throws after the wall list has already changed | serialise `blacklistedWalls[region]` | high (not executed) | `Blacklist.DelWallAgainstIntended` | `Blacklist.DelIntendedWritesList` |
| InvincibleTiles/InvincibleTiles.cs:206-215 | removing a region's last id writes `""`, which `ToIDList` cannot read back (Extensions.cs:25-27) | tiles `{"": [5]}`, `whitetile 5`, then a restart: `ReadDb` throws a FormatException | read `""` as the empty list, or delete the emptied row | high (not executed) | `Blacklist.EmptiedRowBreaksReloadAll` | `Blacklist.DecodeListRoundTrip` |
