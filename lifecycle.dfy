/** The decision logic of the mod manager's operations, as functions from the
    state before an operation to the state after it, together with the
    read-only operations (the duplicate scan, the update check, the
    compatibility lookup). Threads, the filesystem and the registry are not
    here: the registry is a `Registry` value and every filesystem outcome is
    a parameter. */
module Lifecycle {
  import opened Mods

  const Modrinth: string := "modrinth"
  const Untested: string := "Untested"
  /** The one slug never reported by the update check. */
  const UpdateDenied: string := "simple-voice-chat"
  /** Instances on this game version re-add updated mods for `PinnedReAddVersion`. */
  const PinnedGameVersion: string := "1.19.2"
  const PinnedReAddVersion: string := "1.19"

  /** Which code path wrote mods.json. */
  datatype Origin = AfterAdd | AfterRemove | DeferredSave

  /** One write of mods.json, with the slugs that were in flight when it happened. */
  datatype Write = Write(origin: Origin, inFlight: seq<string>)

  /** What an operation on one instance acts on: that instance's mod list, the
      in-flight slugs (`currentDownloadSlugs`) and the writes of mods.json so far. */
  datatype Store = Store(mods: seq<ModData>, inFlight: seq<string>, writes: seq<Write>)

  // ---------------------------------------------------------------- compatibility

  /** The compatibility tier of a mod: the table's entry for a modrinth mod the
      table knows, "Untested" for everything else. */
  function GetModCompat(compat: map<string, string>, platform: string, name: string): (r: string)
    ensures platform == Modrinth && name in compat ==> r == compat[name]
    ensures platform != Modrinth || name !in compat ==> r == Untested
  {
    var compatLevel: Option<string> :=
      if platform == Modrinth && name in compat then Some(compat[name]) else None;
    if compatLevel.Some? then compatLevel.value else Untested
  }

  // ---------------------------------------------------------------- addMod

  /** The registry's answer for a mod of `platform`: only modrinth is asked,
      any other platform gets no metadata. */
  function Fetch(registry: Registry, platform: string, slug: string, gameVersion: string): Answer {
    if platform == Modrinth then registry(slug, gameVersion) else NotFound
  }

  /** The duplicate scan of `addMod`: is some installed entry's slug `slug`? */
  method ContainsSlug(mods: seq<ModData>, slug: string) returns (found: bool)
    ensures found <==> HasSlug(mods, slug)
  {
    for i := 0 to |mods|
      invariant forall j :: 0 <= j < i ==> mods[j].slug != slug
    {
      if mods[i].slug == slug {
        return true;
      }
    }
    return false;
  }

  /** The store after the body of `addMod`: the slug goes in flight; with no
      registry metadata (a null answer or a failed request), or when an entry with the answer's slug is installed,
      it stops there. Otherwise the answer is appended, marked active, and
      only if the download succeeds is the slug taken out of flight again and
      mods.json written. */
  function AfterAddMod(s: Store, platform: string, slug: string, gameVersion: string,
                       registry: Registry, downloaded: bool): Store
  {
    var inFlight := s.inFlight + [slug];
    var fetched := Fetch(registry, platform, slug, gameVersion);
    if !fetched.Found? || HasSlug(s.mods, fetched.data.slug) then
      s.(inFlight := inFlight)
    else
      var mods := s.mods + [fetched.data.(isActive := true)];
      if !downloaded then
        Store(mods, inFlight, s.writes)
      else
        var remaining := RemoveFirst(inFlight, slug);
        Store(mods, remaining, s.writes + [Write(AfterAdd, remaining)])
  }

  /** An add that finds nothing, or finds a duplicate, leaves the mod list and
      mods.json alone, and leaves the slug in flight. */
  lemma AddAbortLeavesSlugInFlight(s: Store, platform: string, slug: string, gameVersion: string,
                                    registry: Registry, downloaded: bool)
    requires var fetched := Fetch(registry, platform, slug, gameVersion);
             !fetched.Found? || HasSlug(s.mods, fetched.data.slug)
    ensures var r := AfterAddMod(s, platform, slug, gameVersion, registry, downloaded);
            r.mods == s.mods && r.writes == s.writes && r.inFlight == s.inFlight + [slug]
  {
  }

  /** A successful add appends exactly one entry, the registry's answer marked
      active, keeps every earlier entry in place, and leaves its slug
      installed exactly once. */
  lemma AddAppendsOneActiveEntry(s: Store, platform: string, slug: string, gameVersion: string,
                                 registry: Registry, downloaded: bool)
    requires var fetched := Fetch(registry, platform, slug, gameVersion);
             fetched.Found? && !HasSlug(s.mods, fetched.data.slug)
    ensures var r := AfterAddMod(s, platform, slug, gameVersion, registry, downloaded);
            var entry := Fetch(registry, platform, slug, gameVersion).data;
            && |r.mods| == |s.mods| + 1
            && r.mods[..|s.mods|] == s.mods
            && r.mods[|s.mods|] == entry.(isActive := true)
            && r.mods[|s.mods|].isActive
            && CountSlug(r.mods, entry.slug) == 1
  {
    var entry := Fetch(registry, platform, slug, gameVersion).data;
    var r := AfterAddMod(s, platform, slug, gameVersion, registry, downloaded);
    assert r.mods[..|s.mods|] == s.mods;
    CountSlugAbsent(s.mods, entry.slug);
  }

  /** After a successful add whose download succeeds, the in-flight slugs are
      what they were before (one occurrence of the slug is taken out) and
      mods.json is written once; when the download fails, the slug stays in
      flight and nothing is written. */
  lemma AddReleasesSlugAfterDownload(s: Store, platform: string, slug: string, gameVersion: string,
                                     registry: Registry, downloaded: bool)
    requires var fetched := Fetch(registry, platform, slug, gameVersion);
             fetched.Found? && !HasSlug(s.mods, fetched.data.slug)
    ensures var r := AfterAddMod(s, platform, slug, gameVersion, registry, downloaded);
            if downloaded then
              multiset(r.inFlight) == multiset(s.inFlight) && r.writes == s.writes + [Write(AfterAdd, r.inFlight)]
            else
              r.inFlight == s.inFlight + [slug] && r.writes == s.writes
  {
    if downloaded {
      RemoveFirstMultiset(s.inFlight + [slug], slug);
      assert multiset(s.inFlight + [slug]) == multiset(s.inFlight) + multiset{slug};
    }
  }

  /** Adding keeps slugs unique within the instance. */
  lemma AddPreservesUniqueSlugs(s: Store, platform: string, slug: string, gameVersion: string,
                                registry: Registry, downloaded: bool)
    requires UniqueSlugs(s.mods)
    ensures UniqueSlugs(AfterAddMod(s, platform, slug, gameVersion, registry, downloaded).mods)
  {
  }

  // ---------------------------------------------------------------- removeMod

  /** The store after `removeMod`: only when the file was deleted is the first
      entry equal to `modData` taken out and mods.json written. */
  function AfterRemoveMod(s: Store, modData: ModData, deleted: bool): Store {
    if deleted then
      s.(mods := RemoveFirst(s.mods, modData), writes := s.writes + [Write(AfterRemove, s.inFlight)])
    else
      s
  }

  /** A remove whose deletion fails changes nothing; one whose deletion
      succeeds takes out the first entry equal to `modData`, keeps the others
      in their order, and writes mods.json once. */
  lemma RemoveFailsClosed(s: Store, modData: ModData, deleted: bool)
    ensures var r := AfterRemoveMod(s, modData, deleted);
            && (!deleted ==> r == s)
            && (deleted ==> r.inFlight == s.inFlight && r.writes == s.writes + [Write(AfterRemove, s.inFlight)])
            && (deleted ==> IsSubsequence(r.mods, s.mods))
            && (deleted ==> multiset(r.mods) == multiset(s.mods) - multiset{modData})
            && (deleted && modData !in s.mods ==> r.mods == s.mods)
            && (forall i ::
                  (deleted && 0 <= i < |s.mods| && s.mods[i] == modData &&
                   (forall j :: 0 <= j < i ==> s.mods[j] != modData))
                  ==> r.mods == s.mods[..i] + s.mods[i + 1..])
  {
    RemoveFirstIsSubsequence(s.mods, modData);
    RemoveFirstMultiset(s.mods, modData);
    forall i | deleted && 0 <= i < |s.mods| && s.mods[i] == modData &&
                  (forall j :: 0 <= j < i ==> s.mods[j] != modData)
      ensures AfterRemoveMod(s, modData, deleted).mods == s.mods[..i] + s.mods[i + 1..]
    {
      RemoveFirstAt(s.mods, modData, i);
    }
  }

  /** Removing keeps slugs unique within the instance. */
  lemma {:induction false} RemovePreservesUniqueSlugs(s: Store, modData: ModData, deleted: bool)
    requires UniqueSlugs(s.mods)
    ensures UniqueSlugs(AfterRemoveMod(s, modData, deleted).mods)
  {
    if deleted && modData in s.mods {
      var i := FirstOccurrence(s.mods, modData);
      RemoveFirstAt(s.mods, modData, i);
      UniqueSlugsDropOne(s.mods, i);
    }
  }

  // ---------------------------------------------------------------- checkModsForUpdate

  /** The registry's answer for an installed mod. */
  function Remote(registry: Registry, m: ModData, gameVersion: string): Answer {
    Fetch(registry, m.platform, m.slug, gameVersion)
  }

  /** An installed mod is reported when the registry answers, the answer's
      revision id differs from the installed one, and the answer is not the
      excluded voice-chat mod. */
  predicate NeedsUpdate(registry: Registry, m: ModData, gameVersion: string) {
    var remote := Remote(registry, m, gameVersion);
    remote.Found? && m.fileData.id != remote.data.fileData.id && remote.data.slug != UpdateDenied
  }

  /** The installed mods that need an update, in installation order. */
  function UpdatesNeeded(registry: Registry, mods: seq<ModData>, gameVersion: string): seq<ModData> {
    if mods == [] then []
    else
      var last := mods[|mods| - 1];
      UpdatesNeeded(registry, mods[..|mods| - 1], gameVersion)
        + (if NeedsUpdate(registry, last, gameVersion) then [last] else [])
  }

  /** How many installed mods the update check gets through: the position of
      the first mod whose request fails, or the whole list when none does. */
  function AnsweredPrefix(registry: Registry, mods: seq<ModData>, gameVersion: string): (n: nat)
    ensures n <= |mods|
    ensures forall j :: 0 <= j < n ==> !Remote(registry, mods[j], gameVersion).Failed?
    ensures n < |mods| ==> Remote(registry, mods[n], gameVersion).Failed?
    decreases |mods|
  {
    if mods == [] || Remote(registry, mods[0], gameVersion).Failed? then 0
    else 1 + AnsweredPrefix(registry, mods[1..], gameVersion)
  }

  /** `checkModsForUpdate` on an instance's list (None when the list is null).
      A failed request ends the scan: the answer is what was collected before
      it. */
  method CheckModsForUpdate(installed: Option<seq<ModData>>, gameVersion: string, registry: Registry)
    returns (mods: seq<ModData>)
    ensures installed.None? ==> mods == []
    ensures installed.Some? ==>
              var list := installed.value;
              mods == UpdatesNeeded(registry, list[..AnsweredPrefix(registry, list, gameVersion)], gameVersion)
  {
    mods := [];
    if installed.Some? {
      var list := installed.value;
      for i := 0 to |list|
        invariant mods == UpdatesNeeded(registry, list[..i], gameVersion)
        invariant forall j :: 0 <= j < i ==> !Remote(registry, list[j], gameVersion).Failed?
      {
        var mod := list[i];
        var answer: Answer := NotFound;
        if mod.platform == Modrinth {
          answer := registry(mod.slug, gameVersion);
        }
        if answer.Failed? {
          assert AnsweredPrefix(registry, list, gameVersion) == i;
          return;
        }
        assert list[..i + 1][..i] == list[..i];
        if answer.Found? && mod.fileData.id != answer.data.fileData.id && answer.data.slug != UpdateDenied {
          mods := mods + [mod];
        }
      }
      assert list[..|list|] == list;
    }
  }

  /** The update check reports exactly the installed mods that need an update:
      never one the registry has nothing for, never one whose revision id is
      current, never the excluded slug, and every other one. */
  lemma {:induction false} UpdatesNeededMembers(registry: Registry, mods: seq<ModData>, gameVersion: string)
    ensures forall m :: m in UpdatesNeeded(registry, mods, gameVersion) <==>
              m in mods && NeedsUpdate(registry, m, gameVersion)
  {
    if mods != [] {
      var front := mods[..|mods| - 1];
      UpdatesNeededMembers(registry, front, gameVersion);
      assert mods == front + [mods[|mods| - 1]];
    }
  }

  /** The update check keeps the installed order: its answer is a subsequence
      of the installed list. The embedding is returned as a witness. */
  lemma {:induction false} UpdatesNeededIsSubsequence(registry: Registry, mods: seq<ModData>, gameVersion: string)
    returns (idx: seq<nat>)
    ensures Embedding(idx, UpdatesNeeded(registry, mods, gameVersion), mods)
  {
    if mods == [] {
      idx := [];
    } else {
      var n := |mods| - 1;
      var front := mods[..n];
      var prev := UpdatesNeededIsSubsequence(registry, front, gameVersion);
      assert mods == front + [mods[n]];
      EmbeddingExtend(prev, UpdatesNeeded(registry, front, gameVersion), front, mods[n]);
      if NeedsUpdate(registry, mods[n], gameVersion) {
        idx := prev + [n];
      } else {
        idx := prev;
      }
    }
  }

  // ---------------------------------------------------------------- updateMods

  /** The game version an updated mod is re-added for. */
  function ReAddVersion(gameVersion: string): (v: string)
    ensures gameVersion == PinnedGameVersion ==> v == PinnedReAddVersion
    ensures gameVersion != PinnedGameVersion ==> v == gameVersion
  {
    if gameVersion == PinnedGameVersion then PinnedReAddVersion else gameVersion
  }

  /** The store after `updateMods`: each mod in turn is removed (if its file
      can be deleted) and then re-added for `ReAddVersion(gameVersion)`. */
  function AfterUpdateMods(s: Store, todo: seq<ModData>, gameVersion: string, registry: Registry,
                           deleted: seq<bool>, downloaded: seq<bool>): Store
    requires |deleted| == |todo| && |downloaded| == |todo|
    decreases |todo|
  {
    if todo == [] then s
    else
      var m := todo[0];
      var removed := AfterRemoveMod(s, m, deleted[0]);
      var readded := AfterAddMod(removed, m.platform, m.slug, ReAddVersion(gameVersion), registry, downloaded[0]);
      AfterUpdateMods(readded, todo[1..], gameVersion, registry, deleted[1..], downloaded[1..])
  }

  /** On an instance at "1.19.2" an updated mod comes back as the registry's
      "1.19" build, appended after the mods that were not updated. */
  lemma UpdateOnPinnedVersionReAddsFor119(s: Store, m: ModData, registry: Registry, d: ModData, downloaded: bool)
    requires m.platform == Modrinth && registry(m.slug, PinnedReAddVersion) == Found(d)
    requires !HasSlug(RemoveFirst(s.mods, m), d.slug)
    ensures AfterUpdateMods(s, [m], PinnedGameVersion, registry, [true], [downloaded]).mods
            == RemoveFirst(s.mods, m) + [d.(isActive := true)]
  {
  }

  /** When an updated mod's file cannot be deleted, the entry stays, the re-add
      finds it as a duplicate, and the slug is left in flight. */
  lemma UpdateWithFailedDeleteStrandsSlug(s: Store, m: ModData, gameVersion: string, registry: Registry, downloaded: bool)
    requires m in s.mods
    requires var remote := Fetch(registry, m.platform, m.slug, ReAddVersion(gameVersion));
             !remote.Found? || remote.data.slug == m.slug
    ensures var r := AfterUpdateMods(s, [m], gameVersion, registry, [false], [downloaded]);
            r.mods == s.mods && r.writes == s.writes && r.inFlight == s.inFlight + [m.slug]
  {
    var i :| 0 <= i < |s.mods| && s.mods[i] == m;
    assert s.mods[i].slug == m.slug;
  }

  /** Updating keeps slugs unique within the instance. */
  lemma {:induction false} UpdatePreservesUniqueSlugs(s: Store, todo: seq<ModData>, gameVersion: string,
                                                       registry: Registry, deleted: seq<bool>, downloaded: seq<bool>)
    requires |deleted| == |todo| && |downloaded| == |todo|
    requires UniqueSlugs(s.mods)
    ensures UniqueSlugs(AfterUpdateMods(s, todo, gameVersion, registry, deleted, downloaded).mods)
    decreases |todo|
  {
    if todo != [] {
      var m := todo[0];
      var removed := AfterRemoveMod(s, m, deleted[0]);
      RemovePreservesUniqueSlugs(s, m, deleted[0]);
      var readded := AfterAddMod(removed, m.platform, m.slug, ReAddVersion(gameVersion), registry, downloaded[0]);
      AddPreservesUniqueSlugs(removed, m.platform, m.slug, ReAddVersion(gameVersion), registry, downloaded[0]);
      UpdatePreservesUniqueSlugs(readded, todo[1..], gameVersion, registry, deleted[1..], downloaded[1..]);
    }
  }

  // ---------------------------------------------------------------- setModActive

  /** The mod list after `setModActive`: the first entry with `slug` gets the
      flag; with no such entry the list is unchanged. */
  function AfterSetModActive(mods: seq<ModData>, slug: string, active: bool): seq<ModData> {
    match SlugIndex(mods, slug)
    case None => mods
    case Some(k) => mods[k := mods[k].(isActive := active)]
  }

  /** Toggling an unknown slug changes nothing; toggling a known one sets the
      flag of the first entry with that slug and leaves every other entry,
      and every other field, as it was. */
  lemma SetModActiveFlipsOnlyTheFlag(mods: seq<ModData>, slug: string, active: bool)
    ensures var r := AfterSetModActive(mods, slug, active);
            && (!HasSlug(mods, slug) ==> r == mods)
            && |r| == |mods|
            && (forall i :: 0 <= i < |mods| ==>
                  r[i].slug == mods[i].slug && r[i].platform == mods[i].platform && r[i].fileData == mods[i].fileData)
            && (HasSlug(mods, slug) ==>
                  exists k :: 0 <= k < |mods| && mods[k].slug == slug && r[k].isActive == active &&
                    (forall j :: 0 <= j < k ==> mods[j].slug != slug) &&
                    (forall j :: 0 <= j < |mods| && j != k ==> r[j] == mods[j]))
  {
  }

  /** Toggling keeps slugs unique within the instance. */
  lemma SetModActivePreservesUniqueSlugs(mods: seq<ModData>, slug: string, active: bool)
    requires UniqueSlugs(mods)
    ensures UniqueSlugs(AfterSetModActive(mods, slug, active))
  {
  }
}
