/** initialize's reconciliation with the persisted store: folders and apps
    the user deleted in earlier runs are filtered out of what the store
    re-seeds. */
module Reconcile {
  import opened Options
  import opened Dicts
  import opened Records

  /** The persisted launcher store values initialize reads. */
  datatype StoreValues = StoreValues(
    folders: Dict<RawFolder>,
    deleted: Option<seq<string>>,
    appDefinitions: Dict<App>,
    activeLauncherTags: seq<string>,
    activeFolder: string,
    filterText: string,
    sortBy: string,
    isFormVisible: bool)

  /** `store.values.deleted || []` */
  function InitialDeleted(v: StoreValues): seq<string> {
    v.deleted.GetOr([])
  }

  /** `names.filter(n => !deleted.includes(n))` */
  function NotDeleted(names: seq<string>, deleted: seq<string>): (r: seq<string>)
    ensures forall x :: x in r <==> x in names && x !in deleted
    ensures |r| <= |names|
  {
    if names == [] then []
    else (if names[0] in deleted then [] else [names[0]]) + NotDeleted(names[1..], deleted)
  }

  /** The filter keeps the names it keeps distinct. */
  lemma {:induction false} NotDeletedDistinct(names: seq<string>, deleted: seq<string>)
    requires Distinct(names)
    ensures Distinct(NotDeleted(names, deleted))
  {
    if names != [] {
      assert Distinct(names[1..]) by {
        forall i, j | 0 <= i < j < |names[1..]| ensures names[1..][i] != names[1..][j] {
          assert names[1..][i] == names[i + 1] && names[1..][j] == names[j + 1];
        }
      }
      NotDeletedDistinct(names[1..], deleted);
      assert names[0] !in names[1..] by {
        forall j | 0 <= j < |names[1..]| ensures names[1..][j] != names[0] {
          assert names[1..][j] == names[j + 1];
        }
      }
      if names[0] !in deleted {
        ConsDistinct(names[0], NotDeleted(names[1..], deleted));
      } else {
        assert NotDeleted(names, deleted) == NotDeleted(names[1..], deleted);
      }
    }
  }

  /** An app survives when its own appID (not its key) is not in deleted. */
  predicate Kept(defs: Dict<App>, k: string, deleted: seq<string>) {
    k in defs.vals && defs.vals[k].appID !in deleted
  }

  /** The keys of ks (in order) whose app survives. */
  function KeptKeys(defs: Dict<App>, ks: seq<string>, deleted: seq<string>): (r: seq<string>)
    ensures forall k :: k in r <==> k in ks && Kept(defs, k, deleted)
  {
    if ks == [] then []
    else KeptKeys(defs, ks[..|ks| - 1], deleted) + (if Kept(defs, ks[|ks| - 1], deleted) then [ks[|ks| - 1]] else [])
  }

  lemma KeptKeysStep(defs: Dict<App>, ks: seq<string>, i: nat, deleted: seq<string>)
    requires i < |ks|
    ensures KeptKeys(defs, ks[..i + 1], deleted)
      == KeptKeys(defs, ks[..i], deleted) + (if Kept(defs, ks[i], deleted) then [ks[i]] else [])
  {
    assert ks[..i + 1][..i] == ks[..i];
  }

  lemma {:induction false} KeptKeysDistinct(defs: Dict<App>, ks: seq<string>, deleted: seq<string>)
    requires Distinct(ks)
    ensures Distinct(KeptKeys(defs, ks, deleted))
  {
    if ks != [] {
      var init := ks[..|ks| - 1];
      var last := ks[|ks| - 1];
      assert Distinct(init);
      KeptKeysDistinct(defs, init, deleted);
      if Kept(defs, last, deleted) {
        assert last !in init;
        AppendDistinct(KeptKeys(defs, init, deleted), [last]);
      }
    }
  }

  lemma {:induction false} KeptKeysNone(defs: Dict<App>, ks: seq<string>, deleted: seq<string>)
    requires forall k :: k in ks ==> !Kept(defs, k, deleted)
    ensures KeptKeys(defs, ks, deleted) == []
  {
    if ks != [] {
      assert ks[|ks| - 1] in ks;
      assert forall k :: k in ks[..|ks| - 1] ==> k in ks;
      KeptKeysNone(defs, ks[..|ks| - 1], deleted);
    }
  }

  /** appList: the store's app definitions whose appID was not deleted,
      in their order. */
  function AppsNotDeleted(defs: Dict<App>, deleted: seq<string>): (r: Dict<App>)
    requires defs.Valid()
    ensures r.Valid()
    ensures forall k :: k in r.vals <==> Kept(defs, k, deleted)
    ensures forall k :: k in r.vals ==> k in defs.vals && r.vals[k] == defs.vals[k]
  {
    KeptKeysDistinct(defs, defs.keys, deleted);
    Dict(KeptKeys(defs, defs.keys, deleted), map k | k in defs.vals && defs.vals[k].appID !in deleted :: defs.vals[k])
  }

  /** The loop that fills appList. */
  method FilterDeletedApps(defs: Dict<App>, deleted: seq<string>) returns (appList: Dict<App>)
    requires defs.Valid()
    ensures appList == AppsNotDeleted(defs, deleted)
  {
    appList := Empty();
    var i := 0;
    while i < |defs.keys|
      invariant 0 <= i <= |defs.keys|
      invariant appList.keys == KeptKeys(defs, defs.keys[..i], deleted)
      invariant forall k :: k in appList.vals <==> k in appList.keys
      invariant forall k :: k in appList.vals ==> appList.vals[k] == defs.vals[k]
    {
      var appID := defs.keys[i];
      KeptKeysStep(defs, defs.keys, i, deleted);
      if defs.vals[appID].appID !in deleted {
        appList := Dict(appList.keys + [appID], appList.vals[appID := defs.vals[appID]]);
      }
      i := i + 1;
    }
    assert defs.keys[..i] == defs.keys;
    assert appList.vals == AppsNotDeleted(defs, deleted).vals;
  }

  /** The folder order initialize keeps: the seeded folder names without
      the deleted ones, or all of them when nothing was deleted. */
  function InitialFoldersList(v: StoreValues): seq<string> {
    var deleted := InitialDeleted(v);
    if |deleted| > 0 then NotDeleted(v.folders.keys, deleted) else v.folders.keys
  }

  /** The apps initialize keeps: the surviving definitions, unless none
      survives, and then every seeded definition. */
  function InitialApps(v: StoreValues): (r: Dict<App>)
    requires v.appDefinitions.Valid()
    ensures r.Valid()
  {
    var deleted := InitialDeleted(v);
    var appList := if |deleted| > 0 then AppsNotDeleted(v.appDefinitions, deleted) else Empty();
    if |appList.keys| > 0 then appList else v.appDefinitions
  }

  /** The kept folder list names exactly the seeded folders not deleted,
      each once. */
  lemma InitialFoldersListFacts(v: StoreValues)
    requires v.folders.Valid()
    ensures forall x :: x in InitialFoldersList(v) <==> x in v.folders.vals && x !in InitialDeleted(v)
    ensures Distinct(InitialFoldersList(v))
  {
    if |InitialDeleted(v)| > 0 {
      NotDeletedDistinct(v.folders.keys, InitialDeleted(v));
    }
  }

  /** When some app survives, the kept apps are exactly the survivors;
      when every app was deleted, every seeded definition is kept,
      deleted ones included. */
  lemma InitialAppsFacts(v: StoreValues)
    requires v.appDefinitions.Valid()
    ensures InitialApps(v).Valid()
    ensures (exists k :: Kept(v.appDefinitions, k, InitialDeleted(v))) && |InitialDeleted(v)| > 0 ==>
      InitialApps(v) == AppsNotDeleted(v.appDefinitions, InitialDeleted(v))
    ensures (forall k :: !Kept(v.appDefinitions, k, InitialDeleted(v))) || |InitialDeleted(v)| == 0 ==>
      InitialApps(v) == v.appDefinitions
  {
    var deleted := InitialDeleted(v);
    if |deleted| > 0 {
      var appList := AppsNotDeleted(v.appDefinitions, deleted);
      if exists k :: Kept(v.appDefinitions, k, deleted) {
        var k :| Kept(v.appDefinitions, k, deleted);
        assert k in appList.keys;
      } else {
        KeptKeysNone(v.appDefinitions, v.appDefinitions.keys, deleted);
      }
    }
  }

  /** A single seeded app that was deleted comes back. */
  lemma DeletedOnlyAppComesBack(a: App)
    ensures var defs := Dict([a.appID], map[a.appID := a]);
      var v := StoreValues(Empty(), Some([a.appID]), defs, [], "", "", "", false);
      InitialApps(v) == defs && a.appID in InitialApps(v).vals && a.appID in InitialDeleted(v)
  {
    var defs := Dict([a.appID], map[a.appID := a]);
    var v := StoreValues(Empty(), Some([a.appID]), defs, [], "", "", "", false);
    InitialAppsFacts(v);
  }

  /** A store that marks x deleted and defines x and y (under their appIDs),
      with the given folders. */
  function DeletedXStore(folders: Dict<RawFolder>, ax: App, ay: App): StoreValues {
    StoreValues(folders, Some(["x"]), Dict(["x", "y"], map["x" := ax, "y" := ay]), [], "F", "", "", false)
  }

  /** In that store only y survives the filter. */
  lemma DeletedXStoreFacts(folders: Dict<RawFolder>, ax: App, ay: App)
    requires ax.appID == "x" && ay.appID == "y"
    ensures var v := DeletedXStore(folders, ax, ay);
      v.appDefinitions.Valid() && InitialDeleted(v) == ["x"] && InitialApps(v).keys == ["y"]
  {
    var defs := Dict(["x", "y"], map["x" := ax, "y" := ay]);
    assert KeptKeys(defs, ["x"], ["x"]) == [] by { assert ["x"][..0] == []; }
    assert KeptKeys(defs, ["x", "y"], ["x"]) == ["y"] by { assert ["x", "y"][..1] == ["x"]; }
  }
}
