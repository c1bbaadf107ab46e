/** The mod manager itself: the static in-flight list and save flag, and the
    operations that change the inventory. Each operation that the source runs
    on a thread of its own is one sequential method here, run to completion;
    its outcome is the matching function of `Lifecycle` applied to the state
    before it. */
module Manager {
  import opened Mods
  import opened Inventory
  import opened Lifecycle
  import opened DisabledFiles

  class ModManager {
    /** The inventory root. */
    const state: State
    /** Slugs whose add is in flight, in the order the adds began; a slug may occur more than once. */
    var currentDownloadSlugs: seq<string>
    /** True while a deferred save has been started and has not yet written. */
    var saveStateCalled: bool
    /** Every write of mods.json so far. */
    var writes: seq<Write>

    constructor (state: State)
      ensures this.state == state
      ensures currentDownloadSlugs == [] && !saveStateCalled && writes == []
      ensures SaveGateKept()
    {
      this.state := state;
      currentDownloadSlugs := [];
      saveStateCalled := false;
      writes := [];
    }

    /** The part of the manager one instance's operations act on. */
    ghost function StoreOf(instance: Instance): Store
      reads this, instance
    {
      Store(instance.mods, currentDownloadSlugs, writes)
    }

    /** The deferred save has only ever written with nothing in flight. */
    ghost predicate SaveGateKept()
      reads this
    {
      forall k :: 0 <= k < |writes| && writes[k].origin == DeferredSave ==> writes[k].inFlight == []
    }

    /** Is an add of `slug` in flight? */
    function IsDownloading(slug: string): (r: bool)
      reads this
      ensures r <==> slug in currentDownloadSlugs
    {
      slug in currentDownloadSlugs
    }

    /** Requests a save: starts the deferred save only when none is pending, so
        a burst of requests collapses into one write. */
    method SaveState() returns (started: bool)
      modifies this
      ensures started == !old(saveStateCalled)
      ensures saveStateCalled
      ensures currentDownloadSlugs == old(currentDownloadSlugs) && writes == old(writes)
    {
      started := false;
      if !saveStateCalled {
        saveStateCalled := true;
        started := true;
      }
    }

    /** One turn of the deferred save started by `SaveState`: while any add is
        in flight it goes on waiting and nothing happens; once none is, it
        writes mods.json and clears the flag, so the next request starts a new
        save. */
    method RunPendingSave() returns (wrote: bool)
      requires saveStateCalled && SaveGateKept()
      modifies this
      ensures SaveGateKept()
      ensures wrote <==> old(currentDownloadSlugs) == []
      ensures wrote ==> !saveStateCalled && writes == old(writes) + [Write(DeferredSave, [])]
      ensures !wrote ==> saveStateCalled && writes == old(writes)
      ensures currentDownloadSlugs == old(currentDownloadSlugs)
    {
      if |currentDownloadSlugs| > 0 {
        return false;
      }
      writes := writes + [Write(DeferredSave, currentDownloadSlugs)];
      saveStateCalled := false;
      return true;
    }

    /** The body of the thread `addMod` starts. `registry` answers the metadata
        request; `downloaded` is whether the file transfer succeeded. */
    method AddMod(instance: Instance, platform: string, slug: string, gameVersion: string,
                  registry: Registry, downloaded: bool)
      requires SaveGateKept()
      modifies this, instance
      ensures SaveGateKept()
      ensures StoreOf(instance) == AfterAddMod(old(StoreOf(instance)), platform, slug, gameVersion, registry, downloaded)
      ensures saveStateCalled == old(saveStateCalled)
      ensures UniqueSlugs(old(instance.mods)) ==> UniqueSlugs(instance.mods)
    {
      ghost var before := StoreOf(instance);
      if UniqueSlugs(before.mods) {
        AddPreservesUniqueSlugs(before, platform, slug, gameVersion, registry, downloaded);
      }
      currentDownloadSlugs := currentDownloadSlugs + [slug];
      var answer: Answer := NotFound;
      if platform == Modrinth {
        answer := registry(slug, gameVersion);
      }
      if !answer.Found? {
        return;
      }
      var entry := answer.data.(isActive := true);
      var duplicate := ContainsSlug(instance.mods, entry.slug);
      if duplicate {
        return;
      }
      instance.AddMod(entry);
      if !downloaded {
        return;
      }
      currentDownloadSlugs := RemoveFirst(currentDownloadSlugs, slug);
      writes := writes + [Write(AfterAdd, currentDownloadSlugs)];
    }

    /** `removeMod`; `deleted` is whether deleting the mod's file succeeded. */
    method RemoveMod(instance: Instance, modData: ModData, deleted: bool)
      requires SaveGateKept()
      modifies this, instance
      ensures SaveGateKept()
      ensures StoreOf(instance) == AfterRemoveMod(old(StoreOf(instance)), modData, deleted)
      ensures saveStateCalled == old(saveStateCalled)
      ensures UniqueSlugs(old(instance.mods)) ==> UniqueSlugs(instance.mods)
    {
      ghost var before := StoreOf(instance);
      if UniqueSlugs(before.mods) {
        RemovePreservesUniqueSlugs(before, modData, deleted);
      }
      if deleted {
        var remaining := RemoveFirst(instance.mods, modData);
        instance.mods := remaining;
        writes := writes + [Write(AfterRemove, currentDownloadSlugs)];
        assert StoreOf(instance) == AfterRemoveMod(before, modData, deleted);
      }
    }

    /** `updateMods`: each mod is removed and re-added in turn. `deleted[i]` and
        `downloaded[i]` are the file outcomes for `modsToUpdate[i]`. An unknown
        instance name changes no state. `raised` is the NullPointerException that
        the first `removeMod` on the missing instance throws to the caller. */
    method UpdateMods(instanceName: string, modsToUpdate: seq<ModData>, registry: Registry,
                      deleted: seq<bool>, downloaded: seq<bool>) returns (raised: bool)
      requires |deleted| == |modsToUpdate| && |downloaded| == |modsToUpdate|
      requires SaveGateKept()
      modifies this, if instanceName in state.instances then {state.instances[instanceName]} else {}
      ensures SaveGateKept() && saveStateCalled == old(saveStateCalled)
      ensures raised <==> instanceName !in state.instances && |modsToUpdate| > 0
      ensures instanceName !in state.instances ==>
                currentDownloadSlugs == old(currentDownloadSlugs) && writes == old(writes)
      ensures instanceName in state.instances ==>
                var instance := state.instances[instanceName];
                StoreOf(instance)
                == AfterUpdateMods(old(StoreOf(instance)), modsToUpdate, instance.gameVersion, registry, deleted, downloaded)
      ensures instanceName in state.instances && old(UniqueSlugs(state.instances[instanceName].mods)) ==>
                UniqueSlugs(state.instances[instanceName].mods)
    {
      raised := false;
      var found := state.GetInstance(instanceName);
      if found.None? {
        raised := |modsToUpdate| > 0;
        return;
      }
      var instance := found.value;
      ghost var before := StoreOf(instance);
      if UniqueSlugs(before.mods) {
        UpdatePreservesUniqueSlugs(before, modsToUpdate, instance.gameVersion, registry, deleted, downloaded);
      }
      for i := 0 to |modsToUpdate|
        invariant SaveGateKept() && saveStateCalled == old(saveStateCalled)
        invariant AfterUpdateMods(StoreOf(instance), modsToUpdate[i..], instance.gameVersion, registry, deleted[i..], downloaded[i..])
                  == AfterUpdateMods(before, modsToUpdate, instance.gameVersion, registry, deleted, downloaded)
      {
        var mod := modsToUpdate[i];
        assert modsToUpdate[i..][1..] == modsToUpdate[i + 1..];
        assert deleted[i..][1..] == deleted[i + 1..] && downloaded[i..][1..] == downloaded[i + 1..];
        RemoveMod(instance, mod, deleted[i]);
        if instance.gameVersion == PinnedGameVersion {
          AddMod(instance, mod.platform, mod.slug, PinnedReAddVersion, registry, downloaded[i]);
        } else {
          AddMod(instance, mod.platform, mod.slug, instance.gameVersion, registry, downloaded[i]);
        }
      }
    }

    /** The body of the thread `setModActive` starts. `sdkAboveO` is whether
        the platform is newer than the version floor; `listing` is the
        instance directory's file names (None when the directory cannot be
        listed). Returns the directory afterwards. */
    method SetModActive(instanceName: string, slug: string, active: bool, sdkAboveO: bool,
                        listing: Option<seq<string>>) returns (dir: Option<seq<string>>)
      modifies this, if instanceName in state.instances then {state.instances[instanceName]} else {}
      ensures currentDownloadSlugs == old(currentDownloadSlugs) && writes == old(writes)
      ensures !sdkAboveO || instanceName !in state.instances ==>
                dir == listing && saveStateCalled == old(saveStateCalled)
      ensures instanceName in state.instances ==>
                var instance := state.instances[instanceName];
                instance.mods == if sdkAboveO then AfterSetModActive(old(instance.mods), slug, active) else old(instance.mods)
      ensures sdkAboveO && instanceName in state.instances ==>
                var before := old(state.instances[instanceName].mods);
                match SlugIndex(before, slug)
                case None => dir == listing && saveStateCalled == old(saveStateCalled)
                case Some(k) =>
                  if listing.None? then dir == None && saveStateCalled == old(saveStateCalled)
                  else
                    && saveStateCalled
                    && dir == Some(Renamed(listing.value, 0, before[k].fileData.filename, if active then "" else Disabled))
    {
      dir := listing;
      if !sdkAboveO {
        return;
      }
      var found := state.GetInstance(instanceName);
      if found.None? {
        return;
      }
      var instance := found.value;
      var modData := instance.GetMod(slug);
      if modData.None? {
        return;
      }
      var k := SlugIndex(instance.mods, slug).value;
      instance.mods := instance.mods[k := modData.value.(isActive := active)];
      var suffix := "";
      if !active {
        suffix := Disabled;
      }
      if listing.None? {
        return;
      }
      var renamed := RenameMatching(listing.value, modData.value.fileData.filename, suffix);
      dir := Some(renamed);
      var _ := SaveState();
    }
  }
}
