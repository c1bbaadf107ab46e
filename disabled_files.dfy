/** Enabling and disabling a mod on disk: a disabled mod's file carries the
    suffix ".disabled". The instance directory is a listing of file names; a
    rename replaces a name in place. */
module DisabledFiles {

  const Disabled: string := ".disabled"

  /** True when ".disabled" occurs somewhere in `s`. */
  predicate ContainsDisabled(s: string)
    decreases |s|
  {
    |s| >= |Disabled| && (s[..|Disabled|] == Disabled || ContainsDisabled(s[1..]))
  }

  /** `name.replace(".disabled", "")`: one left-to-right pass that removes every
      non-overlapping occurrence of ".disabled", wherever it stands. */
  function StripDisabled(s: string): string
    decreases |s|
  {
    if |s| >= |Disabled| && s[..|Disabled|] == Disabled then StripDisabled(s[|Disabled|..])
    else if s == [] then []
    else [s[0]] + StripDisabled(s[1..])
  }

  /** Every occurrence is removed, not only a trailing one: whatever stands
      around an occurrence is stripped independently. (".disabled" has no
      prefix that is also a suffix, so no occurrence can straddle the seam.) */
  lemma {:induction false} StripConcat(a: string, b: string)
    ensures StripDisabled(a + Disabled + b) == StripDisabled(a) + StripDisabled(b)
    decreases |a|
  {
    var t := a + Disabled + b;
    if a == [] {
      assert t[..|Disabled|] == Disabled && t[|Disabled|..] == b;
    } else if |a| >= |Disabled| && a[..|Disabled|] == Disabled {
      assert t[..|Disabled|] == Disabled;
      assert t[|Disabled|..] == a[|Disabled|..] + Disabled + b;
      StripConcat(a[|Disabled|..], b);
    } else {
      if |a| < |Disabled| {
        assert Disabled == ['.', 'd', 'i', 's', 'a', 'b', 'l', 'e', 'd'];
        assert t[|a|] == '.' && Disabled[|a|] != '.';
        assert t[..|Disabled|][|a|] != Disabled[|a|];
      } else {
        assert t[..|Disabled|] == a[..|Disabled|];
      }
      assert t[1..] == a[1..] + Disabled + b;
      StripConcat(a[1..], b);
    }
  }

  /** A name without ".disabled" is its own stripped form. */
  lemma {:induction false} StripIdentity(s: string)
    requires !ContainsDisabled(s)
    ensures StripDisabled(s) == s
    decreases |s|
  {
    if s != [] {
      assert !ContainsDisabled(s[1..]);
      StripIdentity(s[1..]);
    }
  }

  /** A disabled file name strips back to the name it was disabled from. */
  lemma StripDisabledSuffix(f: string)
    requires !ContainsDisabled(f)
    ensures StripDisabled(f + Disabled) == f
  {
    StripConcat(f, []);
    StripIdentity(f);
    assert f + Disabled + [] == f + Disabled;
  }

  /** One turn of the rename loop over the listing: the file at `i` is moved to
      `filename + suffix` when its stripped name is `filename`. The move fails
      and the file keeps its name when a file with the target name exists
      already; a move onto its own name does nothing. */
  function MoveOne(dir: seq<string>, i: nat, filename: string, suffix: string): seq<string>
    requires i < |dir|
  {
    var target := filename + suffix;
    if StripDisabled(dir[i]) == filename && target !in dir then dir[i := target] else dir
  }

  /** The directory after the rename loop has visited positions `i` onwards. */
  function Renamed(dir: seq<string>, i: nat, filename: string, suffix: string): seq<string>
    requires i <= |dir|
    decreases |dir| - i
  {
    if i == |dir| then dir else Renamed(MoveOne(dir, i, filename, suffix), i + 1, filename, suffix)
  }

  /** The loop of `setModActive` over the directory listing. */
  method RenameMatching(listing: seq<string>, filename: string, suffix: string) returns (dir: seq<string>)
    ensures dir == Renamed(listing, 0, filename, suffix)
  {
    dir := listing;
    var i := 0;
    while i < |listing|
      invariant 0 <= i <= |listing| == |dir|
      invariant forall j :: i <= j < |listing| ==> dir[j] == listing[j]
      invariant Renamed(dir, i, filename, suffix) == Renamed(listing, 0, filename, suffix)
    {
      var name := listing[i];
      if StripDisabled(name) == filename {
        var target := filename + suffix;
        if target !in dir {
          dir := dir[i := target];
        }
      }
      i := i + 1;
    }
  }

  /** The loop renames nothing but the files whose stripped name is
      `filename`, and each of those either gets the target name or keeps its
      own (when the target existed). */
  lemma {:induction false} RenamedShape(dir: seq<string>, i: nat, filename: string, suffix: string)
    requires i <= |dir|
    ensures |Renamed(dir, i, filename, suffix)| == |dir|
    ensures forall j :: 0 <= j < i ==> Renamed(dir, i, filename, suffix)[j] == dir[j]
    ensures forall j :: i <= j < |dir| && StripDisabled(dir[j]) != filename ==>
              Renamed(dir, i, filename, suffix)[j] == dir[j]
    ensures forall j :: i <= j < |dir| && StripDisabled(dir[j]) == filename ==>
              Renamed(dir, i, filename, suffix)[j] in {dir[j], filename + suffix}
    decreases |dir| - i
  {
    if i < |dir| {
      RenamedShape(MoveOne(dir, i, filename, suffix), i + 1, filename, suffix);
    }
  }

  /** With no matching file from `i` on, the loop leaves the directory alone. */
  lemma {:induction false} RenamedNoMatch(dir: seq<string>, i: nat, filename: string, suffix: string)
    requires i <= |dir|
    requires forall j :: i <= j < |dir| ==> StripDisabled(dir[j]) != filename
    ensures Renamed(dir, i, filename, suffix) == dir
    decreases |dir| - i
  {
    if i < |dir| {
      RenamedNoMatch(dir, i + 1, filename, suffix);
    }
  }

  /** With exactly one matching file, at `k`, the loop is that file's move. */
  lemma {:induction false} RenamedOnlyAt(dir: seq<string>, i: nat, k: nat, filename: string, suffix: string)
    requires i <= k < |dir|
    requires forall j :: i <= j < |dir| && j != k ==> StripDisabled(dir[j]) != filename
    ensures Renamed(dir, i, filename, suffix) == MoveOne(dir, k, filename, suffix)
    decreases k - i
  {
    if i == k {
      RenamedNoMatch(MoveOne(dir, k, filename, suffix), k + 1, filename, suffix);
    } else {
      RenamedOnlyAt(dir, i + 1, k, filename, suffix);
    }
  }

  /** Once a file with the target name exists, the loop renames nothing more:
      every later move would overwrite it. */
  lemma {:induction false} RenamedTargetPresent(dir: seq<string>, i: nat, filename: string, suffix: string)
    requires i <= |dir| && filename + suffix in dir
    ensures Renamed(dir, i, filename, suffix) == dir
    decreases |dir| - i
  {
    if i < |dir| {
      RenamedTargetPresent(dir, i + 1, filename, suffix);
    }
  }

  /** Without a file of the target name, the loop renames the first matching
      file from `i` on, and that one only. */
  lemma {:induction false} RenamedFirstMatch(dir: seq<string>, i: nat, p: nat, filename: string, suffix: string)
    requires i <= p < |dir| && StripDisabled(dir[p]) == filename
    requires forall j :: i <= j < p ==> StripDisabled(dir[j]) != filename
    requires filename + suffix !in dir
    ensures Renamed(dir, i, filename, suffix) == dir[p := filename + suffix]
    decreases p - i
  {
    if i < p {
      RenamedFirstMatch(dir, i + 1, p, filename, suffix);
    } else {
      var moved := dir[p := filename + suffix];
      assert moved[p] == filename + suffix;
      RenamedTargetPresent(moved, p + 1, filename, suffix);
    }
  }

  /** The first file at or before `k` whose stripped name is `filename`. */
  lemma FirstMatchUpTo(dir: seq<string>, k: nat, filename: string) returns (p: nat)
    requires k < |dir| && StripDisabled(dir[k]) == filename
    ensures p <= k && StripDisabled(dir[p]) == filename
    ensures forall j :: 0 <= j < p ==> StripDisabled(dir[j]) != filename
  {
    p := 0;
    while StripDisabled(dir[p]) != filename
      invariant p <= k
      invariant forall j :: 0 <= j < p ==> StripDisabled(dir[j]) != filename
      decreases k - p
    {
      p := p + 1;
    }
  }

  /** Disabling then enabling a mod gives the mod's own file its name back on
      any directory of distinct names, whatever leftover files that strip to
      the same name lie beside it, provided the name has no ".disabled". */
  lemma EnableRestoresModFile(listing: seq<string>, k: nat, filename: string)
    requires k < |listing| && listing[k] == filename && !ContainsDisabled(filename)
    requires forall i, j :: 0 <= i < j < |listing| ==> listing[i] != listing[j]
    ensures |Renamed(Renamed(listing, 0, filename, Disabled), 0, filename, "")| == |listing|
    ensures Renamed(Renamed(listing, 0, filename, Disabled), 0, filename, "")[k] == filename
  {
    StripIdentity(filename);
    StripDisabledSuffix(filename);
    var target := filename + Disabled;
    assert filename + "" == filename;
    if target in listing {
      RenamedTargetPresent(listing, 0, filename, Disabled);
      RenamedTargetPresent(listing, 0, filename, "");
    } else {
      var p := FirstMatchUpTo(listing, k, filename);
      RenamedFirstMatch(listing, 0, p, filename, Disabled);
      var disabled := listing[p := target];
      if p == k {
        assert forall j :: 0 <= j < |disabled| ==> disabled[j] != filename;
        RenamedFirstMatch(disabled, 0, k, filename, "");
      } else {
        assert disabled[k] == filename;
        RenamedTargetPresent(disabled, 0, filename, "");
      }
    }
  }

  /** Disabling then enabling a mod restores its file's name, when the file is
      the only one in the directory that strips to the mod's file name and
      that name contains no ".disabled". */
  lemma DisableThenEnableRestores(listing: seq<string>, k: nat, filename: string)
    requires k < |listing| && listing[k] == filename && !ContainsDisabled(filename)
    requires forall j :: 0 <= j < |listing| && j != k ==> StripDisabled(listing[j]) != filename
    ensures Renamed(listing, 0, filename, Disabled) == listing[k := filename + Disabled]
    ensures Renamed(Renamed(listing, 0, filename, Disabled), 0, filename, "") == listing
  {
    StripIdentity(filename);
    StripDisabledSuffix(filename);
    assert filename + Disabled != filename;
    RenamedOnlyAt(listing, 0, k, filename, Disabled);
    var disabled := listing[k := filename + Disabled];
    RenamedOnlyAt(disabled, 0, k, filename, "");
    assert filename + "" == filename;
    assert disabled[k := filename] == listing;
  }
}
