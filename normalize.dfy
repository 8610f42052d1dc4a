/** validateFolderDataStructure: every folder whose `apps` was persisted as
    an object gets, in its place, the array of that object's values in
    enumeration order. */
module Normalize {
  import opened Options
  import opened Dicts
  import opened Records

  /** The store's folders, with every legacy `apps` object a proper one. */
  ghost predicate LegacyValid(raw: Dict<RawFolder>) {
    raw.Valid() && forall k :: k in raw.vals && raw.vals[k].apps.AppsObject? ==> raw.vals[k].apps.entries.Valid()
  }

  predicate IsLegacy(f: RawFolder) {
    f.apps.AppsObject?
  }

  /** `apps` as an array: an array stays as it is, an object becomes its
      Object.values. */
  function NormalizedApps(a: LegacyApps): seq<App>
    requires a.AppsObject? ==> a.entries.Valid()
  {
    match a
    case AppsArray(items) => items
    case AppsObject(entries) => entries.Values()
  }

  function NormalizedFolder(f: RawFolder): Folder
    requires f.apps.AppsObject? ==> f.apps.entries.Valid()
  {
    FolderOf(NormalizedApps(f.apps), f.icon, f.canEdit, f.canDelete, f.disableUserRemove, f.name)
  }

  /** A canonical folder, seen as the store would hand it back. */
  function AsStored(f: Folder): RawFolder {
    FolderOf(AppsArray(f.apps), f.icon, f.canEdit, f.canDelete, f.disableUserRemove, f.name)
  }

  /** The folders after validateFolderDataStructure. */
  function NormalizedFolders(raw: Dict<RawFolder>): (d: Dict<Folder>)
    requires LegacyValid(raw)
    ensures d.Valid() && d.keys == raw.keys
  {
    Dict(raw.keys, map k | k in raw.vals :: NormalizedFolder(raw.vals[k]))
  }

  function StoredFolders(d: Dict<Folder>): (raw: Dict<RawFolder>)
    requires d.Valid()
    ensures LegacyValid(raw) && raw.keys == d.keys
  {
    Dict(d.keys, map k | k in d.vals :: AsStored(d.vals[k]))
  }

  /** Every folder keeps its name and its place; an array of apps stays as
      it is and an object of apps becomes its values in key order. */
  lemma NormalizedFoldersFacts(raw: Dict<RawFolder>)
    requires LegacyValid(raw)
    ensures NormalizedFolders(raw).keys == raw.keys
    ensures forall k :: k in raw.vals && !IsLegacy(raw.vals[k]) ==> NormalizedFolders(raw).vals[k].apps == raw.vals[k].apps.items
    ensures forall k :: k in raw.vals && IsLegacy(raw.vals[k]) ==> NormalizedFolders(raw).vals[k].apps == raw.vals[k].apps.entries.Values()
  {
  }

  /** Normalising is idempotent: the folders it produces, persisted and
      normalised again, come out the same. */
  lemma NormalizeIdempotent(raw: Dict<RawFolder>)
    requires LegacyValid(raw)
    ensures NormalizedFolders(StoredFolders(NormalizedFolders(raw))) == NormalizedFolders(raw)
  {
    var once := NormalizedFolders(raw);
    var twice := NormalizedFolders(StoredFolders(once));
    assert twice.vals == once.vals;
  }

  /** The loop of validateFolderDataStructure over Object.keys(folders).
      `warned` says whether it met a legacy folder (the source then logs
      a warning and alerts the user). */
  method ValidateFolderDataStructure(raw: Dict<RawFolder>) returns (folders: Dict<Folder>, warned: bool)
    requires LegacyValid(raw)
    ensures folders == NormalizedFolders(raw)
    ensures warned <==> exists k :: k in raw.vals && IsLegacy(raw.vals[k])
  {
    var m: map<string, Folder> := map[];
    warned := false;
    var i := 0;
    while i < |raw.keys|
      invariant 0 <= i <= |raw.keys|
      invariant forall j :: 0 <= j < i ==> raw.keys[j] in m
      invariant forall k :: k in m ==> k in raw.vals && m[k] == NormalizedFolder(raw.vals[k])
      invariant warned <==> exists j :: 0 <= j < i && IsLegacy(raw.vals[raw.keys[j]])
    {
      var name := raw.keys[i];
      ghost var before := warned;
      warned := warned || IsLegacy(raw.vals[name]);
      assert warned <==> before || IsLegacy(raw.vals[raw.keys[i]]);
      m := m[name := NormalizedFolder(raw.vals[name])];
      i := i + 1;
    }
    folders := Dict(raw.keys, m);
    ValidatedAll(raw, m, warned);
  }

  /** What the validation loop has built once it has visited every key. */
  lemma ValidatedAll(raw: Dict<RawFolder>, m: map<string, Folder>, warned: bool)
    requires LegacyValid(raw)
    requires forall j :: 0 <= j < |raw.keys| ==> raw.keys[j] in m
    requires forall k :: k in m ==> k in raw.vals && m[k] == NormalizedFolder(raw.vals[k])
    requires warned <==> exists j :: 0 <= j < |raw.keys| && IsLegacy(raw.vals[raw.keys[j]])
    ensures Dict(raw.keys, m) == NormalizedFolders(raw)
    ensures warned <==> exists k :: k in raw.vals && IsLegacy(raw.vals[k])
  {
    assert m.Keys == raw.vals.Keys by {
      forall k | k in raw.vals ensures k in m {
        var j :| 0 <= j < |raw.keys| && raw.keys[j] == k;
      }
    }
    assert m == NormalizedFolders(raw).vals;
    if exists k :: k in raw.vals && IsLegacy(raw.vals[k]) {
      var k :| k in raw.vals && IsLegacy(raw.vals[k]);
      var j :| 0 <= j < |raw.keys| && raw.keys[j] == k;
    }
  }

  /** A store holding the single folder F, its entries kept as an array. */
  function FolderF(entries: seq<App>): (raw: Dict<RawFolder>)
    ensures LegacyValid(raw)
  {
    Dict(["F"], map["F" := FolderOf(AppsArray(entries), None, None, None, None, None)])
  }

  /** Validating it keeps F's entries as they are. */
  lemma FolderFNormalized(entries: seq<App>)
    ensures "F" in NormalizedFolders(FolderF(entries)).vals
    ensures NormalizedFolders(FolderF(entries)).vals["F"].apps == entries
  {
  }
}
