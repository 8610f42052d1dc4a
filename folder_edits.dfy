/** The edits the mutators make to folder records and the folder table:
    adding and removing an app reference, purging a deleted app, renaming a
    folder, creating one, and filing a new app. */
module FolderEdits {
  import opened Options
  import opened JsArrays
  import opened Dicts
  import opened Records

  /** findAppIndexInFolder, as the launcher uses it: the first position
      holding the appID, or -1 (the helper itself is not part of this
      model). */
  function FindAppIndex(apps: seq<App>, appID: string): (i: int)
    ensures -1 <= i < |apps|
    ensures i >= 0 ==> apps[i].appID == appID && forall j :: 0 <= j < i ==> apps[j].appID != appID
    ensures i == -1 <==> forall j :: 0 <= j < |apps| ==> apps[j].appID != appID
  {
    if apps == [] then -1
    else if apps[0].appID == appID then 0
    else
      var i := FindAppIndex(apps[1..], appID);
      assert forall j :: 0 < j < |apps| ==> apps[j] == apps[1..][j - 1];
      if i < 0 then -1 else i + 1
  }

  predicate HasApp(apps: seq<App>, appID: string) {
    exists j :: 0 <= j < |apps| && apps[j].appID == appID
  }

  /** The entries of a folder after addAppToFolder. */
  function WithAppAdded(apps: seq<App>, app: App): seq<App> {
    if FindAppIndex(apps, app.appID) < 0 then apps + [AppRef(app)] else apps
  }

  /** addAppToFolder is idempotent by appID: a folder that has the appID
      stays as it is; otherwise exactly the {name, displayName, appID}
      reference is appended, after the unchanged earlier entries, and it is
      the only entry with that appID. */
  lemma AddAppToFolderFacts(apps: seq<App>, app: App)
    ensures HasApp(apps, app.appID) ==> WithAppAdded(apps, app) == apps
    ensures !HasApp(apps, app.appID) ==>
      WithAppAdded(apps, app) == apps + [AppRef(app)]
      && forall j :: 0 <= j < |apps| + 1 && WithAppAdded(apps, app)[j].appID == app.appID ==> j == |apps|
    ensures HasApp(WithAppAdded(apps, app), app.appID)
    ensures WithAppAdded(WithAppAdded(apps, app), app) == WithAppAdded(apps, app)
  {
    var r := WithAppAdded(apps, app);
    if !HasApp(apps, app.appID) {
      assert r[|apps|] == AppRef(app);
    }
    assert FindAppIndex(r, app.appID) >= 0 by {
      if !HasApp(apps, app.appID) {
        assert r[|apps|].appID == app.appID;
      }
    }
  }

  /** The entries of a folder after removeAppFromFolder, or after the purge
      of deleteApp: `apps.splice(findAppIndexInFolder(appID), 1)`. */
  function WithAppRemoved(apps: seq<App>, appID: string): seq<App> {
    SpliceOne(apps, FindAppIndex(apps, appID))
  }

  /** When the folder holds the appID its first entry with that appID goes
      and the others stay in order. When it does not, -1 makes splice drop
      the folder's last entry. */
  lemma RemoveAppFacts(apps: seq<App>, appID: string)
    ensures HasApp(apps, appID) ==>
      var i := FindAppIndex(apps, appID);
      0 <= i && WithAppRemoved(apps, appID) == apps[..i] + apps[i + 1..]
    ensures HasApp(apps, appID) ==>
      |WithAppRemoved(apps, appID)| == |apps| - 1 && multiset(WithAppRemoved(apps, appID)) <= multiset(apps)
    ensures !HasApp(apps, appID) ==> WithAppRemoved(apps, appID) == if apps == [] then [] else apps[..|apps| - 1]
  {
    var i := FindAppIndex(apps, appID);
    if HasApp(apps, appID) {
      assert WithAppRemoved(apps, appID) == RemoveAt(apps, i);
      assert apps == apps[..i] + [apps[i]] + apps[i + 1..];
    }
  }

  /** An entry the folder holds once is gone after the removal. */
  lemma RemoveAppOnce(apps: seq<App>, appID: string)
    requires HasApp(apps, appID)
    requires forall j, k :: 0 <= j < k < |apps| ==> apps[j].appID != appID || apps[k].appID != appID
    ensures !HasApp(WithAppRemoved(apps, appID), appID)
  {
    var i := FindAppIndex(apps, appID);
    var r := WithAppRemoved(apps, appID);
    assert r == RemoveAt(apps, i);
    forall j | 0 <= j < |r| ensures r[j].appID != appID {
      if j < i {
        assert r[j] == apps[j];
      } else {
        assert r[j] == apps[j + 1];
      }
    }
  }

  /** The folder table after the purge loop of deleteApp. */
  function PurgedFolders(folders: Dict<Folder>, appID: string): (r: Dict<Folder>)
    requires folders.Valid()
    ensures r.Valid() && r.keys == folders.keys && r.vals.Keys == folders.vals.Keys
  {
    Dict(folders.keys, map k | k in folders.vals :: folders.vals[k].(apps := WithAppRemoved(folders.vals[k].apps, appID)))
  }

  /** The purge touches every folder, and only its entries: each folder
      loses its first entry with the appID, or its last entry when it has
      none. */
  lemma PurgedFoldersFacts(folders: Dict<Folder>, appID: string, k: string)
    requires folders.Valid() && k in folders.vals
    ensures var f := folders.vals[k]; var g := PurgedFolders(folders, appID).vals[k];
      && g == f.(apps := g.apps)
      && (HasApp(f.apps, appID) ==> |g.apps| == |f.apps| - 1 && multiset(g.apps) <= multiset(f.apps))
      && (!HasApp(f.apps, appID) ==> g.apps == if f.apps == [] then [] else f.apps[..|f.apps| - 1])
  {
    var f := folders.vals[k];
    RemoveAppFacts(f.apps, appID);
    assert PurgedFolders(folders, appID).vals[k] == f.(apps := WithAppRemoved(f.apps, appID));
  }

  /** `folders[newName] = folders[oldName]; delete folders[oldName]`. */
  function RenamedFolders(folders: Dict<Folder>, oldName: string, newName: string): (r: Dict<Folder>)
    requires folders.Valid() && oldName in folders.vals
    ensures r.Valid()
  {
    folders.Put(newName, folders.vals[oldName]).Remove(oldName)
  }

  /** With two different names the record moves to the new name, the old
      name is gone and every other folder stays; renaming a folder to its
      own name deletes it. A folder already under the new name is
      overwritten. */
  lemma RenamedFoldersFacts(folders: Dict<Folder>, oldName: string, newName: string)
    requires folders.Valid() && oldName in folders.vals
    ensures oldName !in RenamedFolders(folders, oldName, newName).vals
    ensures oldName != newName ==>
      newName in RenamedFolders(folders, oldName, newName).vals
      && RenamedFolders(folders, oldName, newName).vals[newName] == folders.vals[oldName]
    ensures forall k :: k != oldName && k != newName ==>
      (k in RenamedFolders(folders, oldName, newName).vals <==> k in folders.vals)
      && (k in folders.vals ==> RenamedFolders(folders, oldName, newName).vals[k] == folders.vals[k])
    ensures oldName == newName ==> RenamedFolders(folders, oldName, newName).vals == folders.vals - {oldName}
  {
  }

  /** `list[list.findIndex(n => n === oldName)] = newName`; with -1 the
      assignment adds no array element. */
  function RenamedList(list: seq<string>, oldName: string, newName: string): (r: seq<string>)
  {
    var i := IndexOf(list, oldName);
    if i >= 0 then list[i := newName] else list
  }

  /** The position that held the old name first now holds the new name and
      every other position is unchanged. */
  lemma RenamedListFacts(list: seq<string>, oldName: string, newName: string)
    ensures |RenamedList(list, oldName, newName)| == |list|
    ensures oldName in list ==>
      var i := IndexOf(list, oldName);
      && RenamedList(list, oldName, newName)[i] == newName
      && oldName !in list[..i]
      && forall j :: 0 <= j < |list| && j != i ==> RenamedList(list, oldName, newName)[j] == list[j]
    ensures oldName !in list ==> RenamedList(list, oldName, newName) == list
  {
  }

  /** The record addNewFolder creates. */
  const NEW_FOLDER: Folder := FolderOf([], Some("ff-adp-hamburger"), Some(true), Some(true), Some(true), None)

  /** The folder table after addApp files the new app: pushed onto the
      Advanced App Launcher folder, then onto the active folder. */
  function WithNewApp(folders: Dict<Folder>, active: string, app: App): (r: Dict<Folder>)
    requires folders.Valid() && ADVANCED_APP_LAUNCHER in folders.vals && active in folders.vals
    ensures r.Valid()
  {
    var root := folders.vals[ADVANCED_APP_LAUNCHER];
    var once := folders.Put(ADVANCED_APP_LAUNCHER, root.(apps := root.apps + [app]));
    once.Put(active, once.vals[active].(apps := once.vals[active].apps + [app]))
  }

  /** The app lands at the end of the root folder and of the active folder
      (twice in the root folder when it is the active one); no folder is
      added or reordered and every other folder stays. */
  lemma WithNewAppFacts(folders: Dict<Folder>, active: string, app: App)
    requires folders.Valid() && ADVANCED_APP_LAUNCHER in folders.vals && active in folders.vals
    ensures WithNewApp(folders, active, app).keys == folders.keys
    ensures WithNewApp(folders, active, app).vals.Keys == folders.vals.Keys
    ensures var root := folders.vals[ADVANCED_APP_LAUNCHER]; var r := WithNewApp(folders, active, app);
      && (active != ADVANCED_APP_LAUNCHER ==>
           r.vals[ADVANCED_APP_LAUNCHER] == root.(apps := root.apps + [app])
           && r.vals[active] == folders.vals[active].(apps := folders.vals[active].apps + [app]))
      && (active == ADVANCED_APP_LAUNCHER ==> r.vals[ADVANCED_APP_LAUNCHER] == root.(apps := root.apps + [app, app]))
    ensures forall k :: k in folders.vals && k != active && k != ADVANCED_APP_LAUNCHER ==>
      WithNewApp(folders, active, app).vals[k] == folders.vals[k]
  {
    var root := folders.vals[ADVANCED_APP_LAUNCHER];
    assert root.apps + [app] + [app] == root.apps + [app, app];
  }
}
