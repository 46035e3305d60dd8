/** `TileKill` of InvincibleTiles.cs: the decision taken on every tile-edit
    event.  The player's `breakinvincible` permission, the edit action, the
    cell's wall and tile ids (read from the world) and the top region at the
    cell are inputs; the verdict says whether the event is marked handled
    (the edit is suppressed) and which tile squares are sent to all players. */
module EditGuard {
  import opened Wrappers
  import opened Lookup
  import opened Blacklist

  /** The edit actions `TileKill` tells apart; every other action of the
      host's enumeration is `OtherAction`. */
  datatype EditAction = KillTile | KillTileNoItem | PoundTile | KillWall | OtherAction

  datatype TileSquare = TileSquare(x: int, y: int, size: int)

  datatype Verdict = Verdict(handled: bool, redraws: seq<TileSquare>)

  /** Which blacklist an action is checked against: removing a wall checks
      the walls; removing a tile (with or without a drop) or hammering it
      checks the tiles; nothing else is guarded. */
  function GuardedCategory(action: EditAction): Option<Category>
  {
    match action
    case KillWall => Some(Walls)
    case KillTile | KillTileNoItem | PoundTile => Some(Tiles)
    case OtherAction => None
  }

  /** `TileKill`. */
  function TileKill(canBreak: bool, x: int, y: int, action: EditAction, wall: int, tileType: int,
                    top: Option<string>, tiles: RegionBans, walls: RegionBans): (v: Verdict)
    ensures canBreak ==> v == Verdict(false, [])
    ensures v.handled <==>
      !canBreak &&
      match GuardedCategory(action)
      case None => false
      case Some(Tiles) => IsBanned(tiles, top, tileType)
      case Some(Walls) => IsBanned(walls, top, wall)
    ensures v.redraws == if v.handled then [TileSquare(x, y, 1)] else []
  {
    if canBreak then Verdict(false, [])
    else if action == KillWall && IsBanned(walls, top, wall) then
      Verdict(true, [TileSquare(x, y, 1)])
    else if (action == KillTile || action == KillTileNoItem || action == PoundTile) && IsBanned(tiles, top, tileType) then
      Verdict(true, [TileSquare(x, y, 1)])
    else Verdict(false, [])
  }

  /** A tile banned with `blacktile <id> <region>` is protected against
      every tile-removing action of a player without the permission, at any
      cell whose top region is that region. */
  lemma BannedTileIsProtected(st: State, args: seq<string>, regionOf: string -> string, affected: int,
                              x: int, y: int, action: EditAction, wall: int)
    requires ParseCommand(args, regionOf).Command?
    requires GuardedCategory(action) == Some(Tiles)
    ensures var cmd := ParseCommand(args, regionOf);
      var after := AddTileStep(st, args, regionOf, affected).state;
      TileKill(false, x, y, action, wall, cmd.id, Some(cmd.region), after.tiles, after.walls)
        == Verdict(true, [TileSquare(x, y, 1)])
  {
  }

  /** With the intended wall handler, a banned wall is protected in the same
      way against `KillWall`. */
  lemma BannedWallIsProtected(st: State, args: seq<string>, regionOf: string -> string, affected: int,
                              x: int, y: int, tileType: int)
    requires ValidState(st)
    requires ParseCommand(args, regionOf).Command?
    ensures var cmd := ParseCommand(args, regionOf);
      var after := AddIntended(st, Walls, args, regionOf, affected).state;
      TileKill(false, x, y, KillWall, cmd.id, tileType, Some(cmd.region), after.tiles, after.walls)
        == Verdict(true, [TileSquare(x, y, 1)])
  {
  }

  /** A wall-removing edit is decided by the walls map and the wall id
      alone, a tile-removing edit by the tiles map and the tile id alone. */
  lemma VerdictReadsOnlyItsCategory(canBreak: bool, x: int, y: int, action: EditAction, wall: int, tileType: int,
                                    top: Option<string>, tiles: RegionBans, walls: RegionBans,
                                    otherId: int, otherMap: RegionBans)
    ensures action == KillWall ==>
      TileKill(canBreak, x, y, action, wall, tileType, top, tiles, walls)
        == TileKill(canBreak, x, y, action, wall, otherId, top, otherMap, walls)
    ensures GuardedCategory(action) == Some(Tiles) ==>
      TileKill(canBreak, x, y, action, wall, tileType, top, tiles, walls)
        == TileKill(canBreak, x, y, action, otherId, tileType, top, tiles, otherMap)
  {
  }
}
