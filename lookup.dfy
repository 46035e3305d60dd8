/** The lookups of Extensions.cs: `ContainsKey` over a list of key/value
    pairs, and `IsBanned` over one of the two blacklist dictionaries.

    The region lookup `GetTopRegion(InAreaRegion(x, y))` is a call into the
    host's region manager; it is a parameter here: the name of the single
    top region at the point, or None when no region covers it. */
module Lookup {
  import opened Wrappers

  /** One blacklist dictionary: region name ("" for no region) to the list
      of banned ids.  A list, not a set: it keeps order and duplicates. */
  type RegionBans = map<string, seq<int>>

  /** `KeyValuePair<int, string>`. */
  datatype Pair = Pair(key: int, value: string)

  /** `ContainsKey`: a linear search that returns as soon as a pair's key
      equals `wall`. */
  method ContainsKey(pairs: seq<Pair>, wall: int) returns (found: bool)
    ensures found <==> exists i :: 0 <= i < |pairs| && pairs[i].key == wall
    ensures |pairs| == 0 ==> !found
  {
    for i := 0 to |pairs|
      invariant forall k :: 0 <= k < i ==> pairs[k].key != wall
    {
      if pairs[i].key == wall {
        return true;
      }
    }
    return false;
  }

  /** The dictionary key `IsBanned` consults: the top region's name, or ""
      when no region covers the point. */
  function RegionKey(top: Option<string>): string
  {
    if top.Some? then top.value else ""
  }

  /** `IsBanned`: the key for the top region is present and its list
      contains `id`. */
  function IsBanned(blacklisted: RegionBans, top: Option<string>, id: int): (banned: bool)
    ensures banned ==> RegionKey(top) in blacklisted
  {
    var region := RegionKey(top);
    region in blacklisted && id in blacklisted[region]
  }

  /** A point outside every region is looked up under "": the same answer
      as a region named "". */
  lemma NoRegionIsEmptyKey(blacklisted: RegionBans, id: int)
    ensures IsBanned(blacklisted, None, id) == IsBanned(blacklisted, Some(""), id)
  {
  }

  /** Only the top region's entry matters: two dictionaries that agree on
      that one key give the same answer, whatever they hold for "" or for any
      other (possibly overlapping) region. */
  lemma OnlyTopRegionConsulted(m1: RegionBans, m2: RegionBans, top: Option<string>, id: int)
    requires RegionKey(top) in m1 <==> RegionKey(top) in m2
    requires RegionKey(top) in m1 ==> m1[RegionKey(top)] == m2[RegionKey(top)]
    ensures IsBanned(m1, top, id) == IsBanned(m2, top, id)
  {
  }

  /** In particular, inside a region a ban under "" (the whole world) is not
      consulted: an id banned only globally is not banned there. */
  lemma GlobalBanShadowedByRegion(blacklisted: RegionBans, name: string, id: int)
    requires name != ""
    requires "" in blacklisted && id in blacklisted[""]
    requires name !in blacklisted
    ensures !IsBanned(blacklisted, Some(name), id)
    ensures IsBanned(blacklisted, None, id)
  {
  }
}
