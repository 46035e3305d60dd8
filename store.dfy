/** The plugin object of InvincibleTiles.cs: its two dictionary fields,
    changed in place by `ReadDb` and by the four chat-command handlers.

    Each method performs the source's steps on the fields and is proved to
    end in the state and reply that module Blacklist gives for the same
    inputs; the properties of those are proved there. */
module Store {
  import opened Wrappers
  import opened IdCodec
  import opened Lookup
  import opened Blacklist

  class InvincibleTiles {
    var blacklistedTiles: RegionBans
    var blacklistedWalls: RegionBans

    ghost function Current(): State
      reads this
    {
      State(blacklistedTiles, blacklistedWalls)
    }

    constructor ()
      ensures Current() == Empty
    {
      blacklistedTiles := map[];
      blacklistedWalls := map[];
    }

    /** `ReadDb`: one `Dictionary.Add` per row read, into the map the row's
        `Type` selects; an exception ends the loop. */
    method ReadDb(rows: seq<Row>) returns (fault: Option<Fault>)
      modifies this
      ensures Load(Current(), fault) == LoadRows(old(Current()), rows)
    {
      var i := 0;
      while i < |rows|
        invariant 0 <= i <= |rows|
        invariant LoadRows(Current(), rows[i..]) == LoadRows(old(Current()), rows)
      {
        var row := rows[i];
        assert rows[i..][0] == row && rows[i..][1..] == rows[i + 1..];
        var ids := ToIDList(row.ids);
        if ids.None? {
          return Some(BadNumber);
        }
        if row.typ == 0 {
          if row.region in blacklistedTiles {
            return Some(DuplicateKey);
          }
          blacklistedTiles := blacklistedTiles[row.region := ids.value];
        } else {
          if row.region in blacklistedWalls {
            return Some(DuplicateKey);
          }
          blacklistedWalls := blacklistedWalls[row.region := ids.value];
        }
        i := i + 1;
      }
      return None;
    }

    /** `AddTile`. */
    method AddTile(args: seq<string>, regionOf: string -> string, affected: int) returns (reply: Reply)
      modifies this
      ensures Outcome(Current(), reply) == AddTileStep(old(Current()), args, regionOf, affected)
    {
      if |args| < 1 {
        return MissingId;
      }
      var region := "";
      if |args| > 1 {
        region := regionOf(args[1]);
      }
      var parsed := ParseInt32(args[0]);
      if parsed.None? {
        return InvalidId;
      }
      var id := parsed.value;
      var statement;
      if region in blacklistedTiles {
        blacklistedTiles := blacklistedTiles[region := blacklistedTiles[region] + [id]];
        statement := Update;
      } else {
        blacklistedTiles := blacklistedTiles[region := [id]];
        statement := Insert;
      }
      var text := IDToDBString(blacklistedTiles[region]);
      reply := Wrote(Query(statement, text, 0, Some(region)), affected == 1);
    }

    /** `DelTile`. */
    method DelTile(args: seq<string>, regionOf: string -> string, affected: int) returns (reply: Reply)
      modifies this
      ensures Outcome(Current(), reply) == DelTileStep(old(Current()), args, regionOf, affected)
    {
      if |args| < 1 {
        return MissingId;
      }
      var region := "";
      if |args| > 1 {
        region := regionOf(args[1]);
      }
      var parsed := ParseInt32(args[0]);
      if parsed.None? {
        return InvalidId;
      }
      var id := parsed.value;
      if region !in blacklistedTiles {
        return NotBanned(id);
      }
      blacklistedTiles := blacklistedTiles[region := RemoveFirst(blacklistedTiles[region], id)];
      var text := IDToDBString(blacklistedTiles[region]);
      reply := Wrote(Query(Update, text, 0, Some(region)), affected == 1);
    }

    /** `AddWall`, as written: the key test reads the tiles map. */
    method AddWall(args: seq<string>, regionOf: string -> string, affected: int) returns (reply: Reply)
      modifies this
      ensures Outcome(Current(), reply) == AddWallStep(old(Current()), args, regionOf, affected)
    {
      if |args| < 1 {
        return MissingId;
      }
      var region := "";
      if |args| > 1 {
        region := regionOf(args[1]);
      }
      var parsed := ParseInt32(args[0]);
      if parsed.None? {
        return InvalidId;
      }
      var id := parsed.value;
      var statement;
      if region in blacklistedTiles {
        if region !in blacklistedWalls {
          return Crashed(KeyNotFound);
        }
        blacklistedWalls := blacklistedWalls[region := blacklistedWalls[region] + [id]];
        statement := Update;
      } else {
        if region in blacklistedWalls {
          return Crashed(DuplicateKey);
        }
        blacklistedWalls := blacklistedWalls[region := [id]];
        statement := Insert;
      }
      var text := IDToDBString(blacklistedWalls[region]);
      reply := Wrote(Query(statement, text, 1, None), affected == 1);
    }

    /** `DelWall`, as written: it writes the tiles list of the region. */
    method DelWall(args: seq<string>, regionOf: string -> string, affected: int) returns (reply: Reply)
      modifies this
      ensures Outcome(Current(), reply) == DelWallStep(old(Current()), args, regionOf, affected)
    {
      if |args| < 1 {
        return MissingId;
      }
      var region := "";
      if |args| > 1 {
        region := regionOf(args[1]);
      }
      var parsed := ParseInt32(args[0]);
      if parsed.None? {
        return InvalidId;
      }
      var id := parsed.value;
      if region !in blacklistedWalls {
        return NotBanned(id);
      }
      blacklistedWalls := blacklistedWalls[region := RemoveFirst(blacklistedWalls[region], id)];
      if region !in blacklistedTiles {
        return Crashed(KeyNotFound);
      }
      var text := IDToDBString(blacklistedTiles[region]);
      reply := Wrote(Query(Update, text, 1, None), affected == 1);
    }
  }
}
