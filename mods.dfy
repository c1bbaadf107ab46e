/** The entities of the mod inventory (ModData and its file data) and the
    sequence operations the manager performs on mod lists and on the list of
    in-flight slugs. */
module Mods {

  datatype Option<+T> = None | Some(value: T)

  /** One downloadable artifact revision: `id` is the registry's revision id. */
  datatype FileData = FileData(id: string, filename: string, url: string)

  /** One installed mod. `platform` is the registry it came from. */
  datatype ModData = ModData(slug: string, platform: string, isActive: bool, fileData: FileData)

  /** One answer of the registry client: the metadata, a null answer, or a
      request that failed with an `IOException`. */
  datatype Answer = Found(data: ModData) | NotFound | Failed

  /** The registry client: its answer for (slug, game version). */
  type Registry = (string, string) -> Answer

  predicate HasSlug(mods: seq<ModData>, slug: string) {
    exists i :: 0 <= i < |mods| && mods[i].slug == slug
  }

  /** Position of the first entry with `slug`, the entry `Instance.getMod` answers with. */
  function SlugIndex(mods: seq<ModData>, slug: string): (r: Option<nat>)
    ensures r.None? <==> !HasSlug(mods, slug)
    ensures r.Some? ==> r.value < |mods| && mods[r.value].slug == slug
    ensures r.Some? ==> forall j :: 0 <= j < r.value ==> mods[j].slug != slug
  {
    if mods == [] then None
    else if mods[0].slug == slug then Some(0)
    else
      match SlugIndex(mods[1..], slug)
      case None =>
        assert forall i :: 0 < i < |mods| ==> mods[i] == mods[1..][i - 1];
        None
      case Some(k) =>
        assert mods[k + 1] == mods[1..][k];
        Some(k + 1)
  }

  /** Number of entries carrying `slug`. */
  function CountSlug(mods: seq<ModData>, slug: string): nat {
    if mods == [] then 0
    else CountSlug(mods[..|mods| - 1], slug) + (if mods[|mods| - 1].slug == slug then 1 else 0)
  }

  /** The inventory invariant: no slug occurs twice in one instance. */
  predicate UniqueSlugs(mods: seq<ModData>) {
    forall i, j :: 0 <= i < j < |mods| ==> mods[i].slug != mods[j].slug
  }

  lemma {:induction false} CountSlugAbsent(mods: seq<ModData>, slug: string)
    requires !HasSlug(mods, slug)
    ensures CountSlug(mods, slug) == 0
  {
    if mods != [] {
      var front := mods[..|mods| - 1];
      assert forall i :: 0 <= i < |front| ==> front[i] == mods[i];
      CountSlugAbsent(front, slug);
    }
  }

  /** Under the inventory invariant a slug that is present is present exactly once. */
  lemma {:induction false} UniqueSlugsCountOne(mods: seq<ModData>, slug: string)
    requires UniqueSlugs(mods) && HasSlug(mods, slug)
    ensures CountSlug(mods, slug) == 1
  {
    var n := |mods|;
    var front := mods[..n - 1];
    assert forall i :: 0 <= i < |front| ==> front[i] == mods[i];
    if mods[n - 1].slug == slug {
      assert !HasSlug(front, slug);
      CountSlugAbsent(front, slug);
    } else {
      var i :| 0 <= i < n && mods[i].slug == slug;
      assert front[i].slug == slug;
      UniqueSlugsCountOne(front, slug);
    }
  }

  /** Leaving one entry out keeps slugs unique. */
  lemma UniqueSlugsDropOne(mods: seq<ModData>, i: nat)
    requires i < |mods| && UniqueSlugs(mods)
    ensures UniqueSlugs(mods[..i] + mods[i + 1..])
  {
    var r := mods[..i] + mods[i + 1..];
    forall a, b | 0 <= a < b < |r|
      ensures r[a].slug != r[b].slug
    {
      var a' := if a < i then a else a + 1;
      var b' := if b < i then b else b + 1;
      assert r[a] == mods[a'] && r[b] == mods[b'];
    }
  }

  /** `ArrayList.remove(Object)`: drop the first element equal to `x`, if any. */
  function RemoveFirst<T(==)>(s: seq<T>, x: T): (r: seq<T>)
    ensures x !in s ==> r == s
    ensures x in s ==> |r| == |s| - 1
  {
    if s == [] then []
    else if s[0] == x then s[1..]
    else [s[0]] + RemoveFirst(s[1..], x)
  }

  /** Exactly one copy of `x` is taken out when there is one, and nothing else. */
  lemma {:induction false} RemoveFirstMultiset<T>(s: seq<T>, x: T)
    ensures multiset(RemoveFirst(s, x)) == multiset(s) - multiset{x}
  {
    if s != [] {
      assert s == [s[0]] + s[1..];
      if s[0] != x {
        RemoveFirstMultiset(s[1..], x);
      }
    }
  }

  /** The element removed is the first occurrence; everything else keeps its place in line. */
  lemma {:induction false} RemoveFirstAt<T>(s: seq<T>, x: T, i: nat)
    requires i < |s| && s[i] == x && forall j :: 0 <= j < i ==> s[j] != x
    ensures RemoveFirst(s, x) == s[..i] + s[i + 1..]
  {
    if i == 0 {
      assert s[..0] + s[1..] == s[1..];
    } else {
      assert s[0] != x;
      var t := s[1..];
      assert forall j :: 0 <= j < i - 1 ==> t[j] == s[j + 1];
      RemoveFirstAt(t, x, i - 1);
      assert RemoveFirst(s, x) == [s[0]] + RemoveFirst(t, x);
      assert s[..i] == [s[0]] + t[..i - 1];
      assert s[i + 1..] == t[i..];
    }
  }

  /** `idx` lists, in increasing order, the positions in `b` that the elements
      of `a` are taken from: `a` is `b` with some elements left out. */
  ghost predicate Embedding<T>(idx: seq<nat>, a: seq<T>, b: seq<T>) {
    && |idx| == |a|
    && (forall k :: 0 <= k < |idx| ==> idx[k] < |b| && a[k] == b[idx[k]])
    && (forall k, l :: 0 <= k < l < |idx| ==> idx[k] < idx[l])
  }

  ghost predicate IsSubsequence<T>(a: seq<T>, b: seq<T>) {
    exists idx :: Embedding(idx, a, b)
  }

  /** An embedding survives appending to the larger sequence, and can take
      the appended element along. */
  lemma EmbeddingExtend<T>(idx: seq<nat>, a: seq<T>, b: seq<T>, x: T)
    requires Embedding(idx, a, b)
    ensures Embedding(idx, a, b + [x])
    ensures Embedding(idx + [|b|], a + [x], b + [x])
  {
  }

  lemma {:induction false} FirstOccurrence<T>(s: seq<T>, x: T) returns (i: nat)
    requires x in s
    ensures i < |s| && s[i] == x && forall j :: 0 <= j < i ==> s[j] != x
  {
    if s[0] == x {
      i := 0;
    } else {
      var k := FirstOccurrence(s[1..], x);
      i := k + 1;
    }
  }

  /** Leaving out the element at `i` keeps the others in order. */
  lemma DropOneIsSubsequence<T>(s: seq<T>, i: nat)
    requires i < |s|
    ensures IsSubsequence(s[..i] + s[i + 1..], s)
  {
    var r := s[..i] + s[i + 1..];
    var idx: seq<nat> := seq(|s| - 1, k requires 0 <= k < |s| - 1 => if k < i then k else k + 1);
    forall k | 0 <= k < |idx|
      ensures idx[k] < |s| && r[k] == s[idx[k]]
    {
      if k < i { assert r[k] == s[k]; } else { assert r[k] == s[k + 1]; }
    }
    assert Embedding(idx, r, s);
  }

  lemma {:induction false} RemoveFirstIsSubsequence<T>(s: seq<T>, x: T)
    ensures IsSubsequence(RemoveFirst(s, x), s)
  {
    if x !in s {
      var idx: seq<nat> := seq(|s|, k => k);
      assert Embedding(idx, s, s);
    } else {
      var i := FirstOccurrence(s, x);
      RemoveFirstAt(s, x, i);
      DropOneIsSubsequence(s, i);
    }
  }
}
