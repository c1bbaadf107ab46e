/** The in-memory inventory the manager works on: instances and the state that
    maps instance names to them. Only the members the manager uses are here. */
module Inventory {
  import opened Mods

  /** A named instance with its game version and its ordered list of mods. The
      list is updated in place by the manager. */
  class Instance {
    const name: string
    const gameVersion: string
    var mods: seq<ModData>

    constructor (name: string, gameVersion: string)
      ensures this.name == name && this.gameVersion == gameVersion && mods == []
    {
      this.name := name;
      this.gameVersion := gameVersion;
      mods := [];
    }

    /** Appends an entry at the end of the list. */
    method AddMod(m: ModData)
      modifies this
      ensures mods == old(mods) + [m]
    {
      mods := mods + [m];
    }

    /** The first entry carrying `slug`, or None when there is none. */
    function GetMod(slug: string): (r: Option<ModData>)
      reads this
      ensures r.None? <==> !HasSlug(mods, slug)
      ensures r.Some? ==> r.value.slug == slug && r.value in mods
    {
      match SlugIndex(mods, slug)
      case None => None
      case Some(k) => Some(mods[k])
    }
  }

  /** The root of the inventory: instance name to instance. */
  class State {
    var instances: map<string, Instance>

    constructor ()
      ensures instances == map[]
    {
      instances := map[];
    }

    function GetInstance(name: string): Option<Instance>
      reads this
    {
      if name in instances then Some(instances[name]) else None
    }
  }
}
