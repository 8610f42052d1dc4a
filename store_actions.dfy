/** The launcher's state synchroniser: the cached `data` object and the
    mutators that change it in place and persist what they changed. */
module StoreActions {
  import opened Options
  import opened JsArrays
  import opened JsStrings
  import opened Dicts
  import opened Records
  import opened FolderOrder
  import opened FolderNames
  import opened FolderEdits
  import opened Tags
  import opened Lookup
  import opened Normalize
  import opened Refresh
  import opened ConfigComponents
  import opened Reconcile
  import opened Pins
  import opened Persist
  import opened Launcher

  class LauncherData {
    var folders: Dict<Folder>
    var foldersList: seq<string>
    var apps: Dict<App>
    var configComponents: Dict<App>
    var deleted: seq<string>
    var tags: seq<string>
    var activeFolder: string
    var filterText: string
    var sortBy: string
    var isFormVisible: bool
    /** Every store write made so far, oldest first. */
    var writes: seq<Write>

    /** The cache as a value. */
    function St(): State
      reads this
    {
      State(folders, foldersList, apps, configComponents, deleted, tags, activeFolder,
        filterText, sortBy, isFormVisible, writes)
    }

    ghost predicate Valid()
      reads this
    {
      St().Valid()
    }

    /** `const data = {}` before initialize. */
    constructor()
      ensures Valid() && writes == [] && folders == Empty() && apps == Empty() && configComponents == Empty()
    {
      folders := Empty();
      foldersList := [];
      apps := Empty();
      configComponents := Empty();
      deleted := [];
      tags := [];
      activeFolder := "";
      filterText := "";
      sortBy := "";
      isFormVisible := false;
      writes := [];
    }

    /** initialize, with the store values and the component catalog as
        inputs and the listeners and the FDC3 loading left out. */
    method Initialize(store: StoreValues, componentList: Dict<ComponentConfig>)
      requires LegacyValid(store.folders) && store.appDefinitions.Valid() && componentList.Valid()
      modifies this
      ensures Valid()
      ensures St() == InitializeStep(old(St()), store, componentList)
    {
      ReadStore(store);
      LoadInstalledConfigComponents(componentList);
      UpdateAppsInFolders();
    }

    /** The part of initialize that copies the store values into the cache,
        dropping what was deleted in earlier runs. */
    method ReadStore(store: StoreValues)
      requires LegacyValid(store.folders) && store.appDefinitions.Valid()
      modifies this
      ensures Valid()
      ensures St() == FromStore(old(St()), store)
    {
      var storedDeleted, folderList, kept, seeded := FilterDeleted(store);
      var validated, warned := ValidateFolderDataStructure(store.folders);
      AdoptTables(storedDeleted, seeded, validated, folderList, kept);
      AdoptSettings(store);
      FromStoreIs(old(St()), store, seeded);
    }

    /** The first assignments of initialize: the deleted list, the
        validated folders and the folder order and app definitions kept. */
    method AdoptTables(storedDeleted: seq<string>, seeded: seq<Write>, validated: Dict<Folder>,
                       folderList: seq<string>, kept: Dict<App>)
      modifies this
      ensures St() == old(St()).(deleted := storedDeleted, folders := validated, foldersList := folderList,
                                 apps := kept, writes := old(writes) + seeded + [SetFolders(validated)])
    {
      deleted := storedDeleted;
      writes := writes + seeded;
      folders := validated;
      writes := writes + [SetFolders(folders)];
      foldersList := folderList;
      apps := kept;
    }

    /** The rest of initialize's assignments, straight from the store. */
    method AdoptSettings(store: StoreValues)
      modifies this
      ensures St() == old(St()).(tags := store.activeLauncherTags, activeFolder := store.activeFolder,
                                 filterText := store.filterText, sortBy := store.sortBy,
                                 isFormVisible := store.isFormVisible, configComponents := Empty())
    {
      tags := store.activeLauncherTags;
      activeFolder := store.activeFolder;
      filterText := store.filterText;
      sortBy := store.sortBy;
      isFormVisible := store.isFormVisible;
      configComponents := Empty();
    }

    /** loadInstalledConfigComponents once getComponentList answered. */
    method LoadInstalledConfigComponents(componentList: Dict<ComponentConfig>)
      requires Valid() && componentList.Valid()
      modifies this
      ensures Valid()
      ensures St() == LoadConfigStep(old(St()), componentList)
    {
      var userApps := apps;
      folders := PruneFolders(folders, componentList.keys, userApps.keys);
      configComponents := MaterialiseConfigs(userApps, configComponents, componentList);
    }

    /** updateAppsInFolders */
    method UpdateAppsInFolders()
      requires Valid()
      modifies this
      ensures Valid()
      ensures St() == RefreshStep(old(St()))
    {
      folders := RefreshFolders(folders, configComponents.Values());
      writes := writes + [SetFolders(folders)];
    }

    /** reorderFolders */
    method ReorderFolders(destIndex: int, srcIndex: int) returns (list: seq<string>)
      requires Valid() && 0 <= destIndex < |FoldersWhere(foldersList, false)|
      modifies this
      ensures Valid()
      ensures St() == ReorderStep(old(St()), destIndex, srcIndex)
      ensures list == foldersList
    {
      var unorderable := FoldersWhere(foldersList, true);
      var orderable := FoldersWhere(foldersList, false);
      var movedFolder := orderable[destIndex];
      var remaining := orderable[..destIndex] + orderable[destIndex + 1..];
      assert remaining == RemoveAt(orderable, destIndex);
      foldersList := unorderable + (SliceTo(remaining, srcIndex) + [movedFolder] + SliceFrom(remaining, srcIndex));
      writes := writes + [SetFoldersList(foldersList)];
      list := foldersList;
    }

    /** addNewFolder */
    method AddNewFolder(name: Option<string>)
      requires Valid()
      modifies this
      ensures Valid()
      ensures St() == AddNewFolderStep(old(St()), name)
    {
      var highest := HighestNumberIn(foldersList);
      var folderName := if Truthy(name) then name.value else "New folder " + Decimal(highest + 1);
      assert folderName == FolderNameFor(name, foldersList);
      FileFolder(folderName);
    }

    /** The new folder's record, its place at the end of the folder order,
        and the two writes. */
    method FileFolder(folderName: string)
      requires Valid()
      modifies this
      ensures St() == old(St()).(folders := old(folders).Put(folderName, NEW_FOLDER),
                                 foldersList := old(foldersList) + [folderName],
                                 writes := old(writes) + [SetFolders(old(folders).Put(folderName, NEW_FOLDER)),
                                                          SetFoldersList(old(foldersList) + [folderName])])
    {
      var filed := folders.Put(folderName, NEW_FOLDER);
      var list := foldersList + [folderName];
      folders := filed;
      writes := writes + [SetFolders(filed)];
      foldersList := list;
      writes := writes + [SetFoldersList(list)];
    }

    /** deleteFolder */
    method DeleteFolder(folderName: string)
      requires Valid()
      modifies this
      ensures Valid()
      ensures St() == DeleteFolderStep(old(St()), folderName)
    {
      ghost var s0 := St();
      LeaveFolder(folderName);
      ghost var s1 := St();
      DropFolder(folderName);
      assert writes == s1.writes + [SetFolders(folders), SetFoldersList(foldersList), SetDeleted(deleted)];
    }

    /** A deleted active folder hands the active place to the Advanced App
        Launcher folder. */
    method LeaveFolder(folderName: string)
      modifies this
      ensures St() == if folderName == old(activeFolder)
        then old(St()).(activeFolder := ADVANCED_APP_LAUNCHER,
                        writes := old(writes) + [SetActiveFolder(ADVANCED_APP_LAUNCHER)])
        else old(St())
    {
      if folderName == activeFolder {
        activeFolder := ADVANCED_APP_LAUNCHER;
        writes := writes + [SetActiveFolder(activeFolder)];
      }
    }

    /** The name goes to the deleted list and out of the folders and the
        folder order. */
    method DropFolder(folderName: string)
      requires Valid()
      modifies this
      ensures St() == old(St()).(deleted := old(deleted) + [folderName], folders := old(folders).Remove(folderName),
                                 foldersList := SpliceOne(old(foldersList), IndexOf(old(foldersList), folderName)),
                                 writes := old(writes) + [SetFolders(old(folders).Remove(folderName)),
                                   SetFoldersList(SpliceOne(old(foldersList), IndexOf(old(foldersList), folderName))),
                                   SetDeleted(old(deleted) + [folderName])])
    {
      var newDeleted := deleted + [folderName];
      var remaining := folders.Remove(folderName);
      var index := IndexOf(foldersList, folderName);
      var list := SpliceOne(foldersList, index);
      deleted := newDeleted;
      folders := remaining;
      writes := writes + [SetFolders(remaining)];
      foldersList := list;
      writes := writes + [SetFoldersList(list), SetDeleted(newDeleted)];
    }

    /** renameFolder; the folder to rename must exist. */
    method RenameFolder(oldName: string, newName: string)
      requires Valid() && oldName in folders.vals
      modifies this
      ensures Valid()
      ensures St() == RenameFolderStep(old(St()), oldName, newName)
    {
      ghost var s0 := St();
      MoveFolder(oldName, newName);
      ghost var s1 := St();
      // Inside the _setFolders callback:
      RenameInList(oldName, newName);
      ReviveDeleted(newName);
      ghost var s2 := St();
      FollowActive(oldName, newName);
      // The closing delete of the old name finds nothing left to delete.
      ghost var dw := if newName in s0.deleted then [SetDeleted(deleted)] else [];
      ghost var aw := if s0.activeFolder == oldName then [SetActiveFolder(newName)] else [];
      assert s2.writes == s1.writes + dw;
      assert writes == s0.writes + [SetFolders(folders)] + dw + aw + [SetFoldersList(foldersList)];
    }

    /** The old name's first place in the folder order takes the new name. */
    method RenameInList(oldName: string, newName: string)
      modifies this
      ensures St() == old(St()).(foldersList := RenamedList(old(foldersList), oldName, newName))
    {
      var indexOfOld := IndexOf(foldersList, oldName);
      if indexOfOld >= 0 {
        foldersList := foldersList[indexOfOld := newName];
      }
    }

    /** The active folder follows the rename, and the folder order is
        saved. */
    method FollowActive(oldName: string, newName: string)
      modifies this
      ensures St() == old(St()).(activeFolder := if old(activeFolder) == oldName then newName else old(activeFolder),
                                 writes := old(writes) + (if old(activeFolder) == oldName then [SetActiveFolder(newName)] else [])
                                           + [SetFoldersList(old(foldersList))])
    {
      if activeFolder == oldName {
        activeFolder := newName;
        writes := writes + [SetActiveFolder(activeFolder)];
      }
      writes := writes + [SetFoldersList(foldersList)];
    }

    /** The move of the record: `folders[newName] = folders[oldName];
        delete folders[oldName];` and the write. */
    method MoveFolder(oldName: string, newName: string)
      requires Valid() && oldName in folders.vals
      modifies this
      ensures Valid()
      ensures St() == old(St()).(folders := RenamedFolders(old(folders), oldName, newName),
                                 writes := old(writes) + [SetFolders(RenamedFolders(old(folders), oldName, newName))])
    {
      var oldFolder := folders.vals[oldName];
      folders := folders.Put(newName, oldFolder);
      folders := folders.Remove(oldName);
      writes := writes + [SetFolders(folders)];
    }

    /** A name being reused leaves the deleted list: its first entry goes. */
    method ReviveDeleted(name: string)
      requires Valid()
      modifies this
      ensures Valid()
      ensures St() == if name in old(deleted) then
          var d := SpliceOne(old(deleted), IndexOf(old(deleted), name));
          old(St()).(deleted := d, writes := old(writes) + [SetDeleted(d)])
        else old(St())
    {
      if name in deleted {
        var index := IndexOf(deleted, name);
        deleted := SpliceOne(deleted, index);
        writes := writes + [SetDeleted(deleted)];
      }
    }

    /** addAppToFolder */
    method AddAppToFolder(folderName: string, app: App)
      requires Valid() && folderName in folders.vals
      modifies this
      ensures Valid()
      ensures St() == AddAppToFolderStep(old(St()), folderName, app)
    {
      var folder := folders.vals[folderName];
      var appIndex := FindAppIndex(folder.apps, app.appID);
      if appIndex < 0 {
        folders := folders.Put(folderName, folder.(apps := folder.apps + [AppRef(app)]));
        writes := writes + [SetFolders(folders)];
      }
    }

    /** removeAppFromFolder */
    method RemoveAppFromFolder(folderName: string, app: App)
      requires Valid() && folderName in folders.vals
      modifies this
      ensures Valid()
      ensures St() == RemoveAppFromFolderStep(old(St()), folderName, app)
    {
      var folder := folders.vals[folderName];
      var appIndex := FindAppIndex(folder.apps, app.appID);
      folders := folders.Put(folderName, folder.(apps := SpliceOne(folder.apps, appIndex)));
      writes := writes + [SetFolders(folders)];
    }

    /** addPin */
    method AddPin(pin: PinRequest, components: Dict<ComponentConfig>, uuid: string)
      requires Valid() && components.Valid()
      modifies this
      ensures Valid()
      ensures St() == AddPinStep(old(St()), pin, components, uuid)
    {
      var componentToToggle := ResolveComponent(components, pin.name);
      if componentToToggle.Some? {
        writes := writes + [SetPin(PinKey(pin.name), PinFor(pin, componentToToggle.value, uuid))];
      }
    }

    /** removePin */
    method RemovePin(pin: PinRequest)
      requires Valid()
      modifies this
      ensures Valid()
      ensures St() == RemovePinStep(old(St()), pin)
    {
      writes := writes + [UnsetPin(PinKey(pin.name))];
    }

    /** addApp, once addUserDefinedComponent has answered (registered) and
        with the timestamp and the pin's uuid as inputs. */
    method AddApp(appID: string, form: NewAppForm, registered: bool,
                  components: Dict<ComponentConfig>, uuid: string) returns (outcome: AddAppOutcome)
      requires Valid() && components.Valid()
      requires registered ==> ADVANCED_APP_LAUNCHER in folders.vals && activeFolder in folders.vals
      modifies this
      ensures Valid()
      ensures St() == AddAppStep(old(St()), appID, form, registered, components, uuid)
      ensures outcome == AddAppOutcomeOf(registered)
    {
      var folder := activeFolder;
      var newAppData := App(appID, form.name, None, Some(form.url), Some("component"), None,
        if form.tags != "" then Split(form.tags) else [], Some(true), None);
      assert newAppData == NewAppRecord(appID, form);
      if !registered {
        return Failed("failed_to_add_app");
      }
      if folder == FAVORITES {
        AddPin(PinRequest(form.name, None), components, uuid);
      }
      FileNewApp(appID, newAppData);
      outcome := Added;
    }

    /** The filing of a new app: its definition, the two pushes and the
        writes of appDefinitions and folders. */
    method FileNewApp(appID: string, a: App)
      requires Valid() && ADVANCED_APP_LAUNCHER in folders.vals && activeFolder in folders.vals
      modifies this
      ensures St() == old(St()).(apps := old(apps).Put(appID, a),
                                 folders := WithNewApp(old(folders), old(activeFolder), a),
                                 writes := old(writes) + [SetAppDefinitions(old(apps).Put(appID, a)),
                                                          SetFolders(WithNewApp(old(folders), old(activeFolder), a))])
    {
      var defs := apps.Put(appID, a);
      var root := folders.vals[ADVANCED_APP_LAUNCHER];
      var once := folders.Put(ADVANCED_APP_LAUNCHER, root.(apps := root.apps + [a]));
      var target := once.vals[activeFolder];
      var twice := once.Put(activeFolder, target.(apps := target.apps + [a]));
      apps := defs;
      folders := twice;
      writes := writes + [SetAppDefinitions(defs), SetFolders(twice)];
    }

    /** deleteApp; the app must be defined. */
    method DeleteApp(appID: string)
      requires Valid() && appID in apps.vals
      modifies this
      ensures Valid()
      ensures St() == DeleteAppStep(old(St()), appID)
    {
      var pinWrite := UnsetPin(PinKey(apps.vals[appID].name));
      folders := PurgeFolders(folders, appID);
      deleted := deleted + [appID];
      apps := apps.Remove(appID);
      writes := writes + [pinWrite, SetAppDefinitions(apps), SetFolders(folders), SetDeleted(deleted)];
    }

    /** addTag */
    method AddTag(tag: string)
      requires Valid()
      modifies this
      ensures Valid()
      ensures St() == AddTagStep(old(St()), tag)
    {
      if IndexOf(tags, tag) < 0 {
        tags := tags + [tag];
      }
      writes := writes + [SetActiveLauncherTags(tags)];
    }

    /** deleteTag */
    method DeleteTag(tag: string)
      requires Valid()
      modifies this
      ensures Valid()
      ensures St() == DeleteTagStep(old(St()), tag)
    {
      tags := SpliceOne(tags, IndexOf(tags, tag));
      writes := writes + [SetActiveLauncherTags(tags)];
    }

    /** getActiveFolder: refreshes the cached active folder in place and
        returns it. */
    method GetActiveFolder() returns (folder: Folder)
      requires Valid() && activeFolder in folders.vals
      modifies this
      ensures Valid()
      ensures folder == ActiveFolderView(old(St()))
      ensures St() == GetActiveFolderStep(old(St()))
    {
      folder := folders.vals[activeFolder];
      var entries := RefreshEntryTags(folder.apps, apps, configComponents);
      folder := folder.(apps := entries, name := Some(activeFolder));
      folders := folders.Put(activeFolder, folder);
    }

    /** getAllAppsTags */
    method GetAllAppsTags() returns (result: seq<string>)
      requires Valid()
      ensures result == AllAppsTags(St())
      ensures NoDuplicates(result)
      ensures forall t :: t in result <==> exists a :: a in apps.Values() + configComponents.Values() && t in a.tags
    {
      var all := apps.Values() + configComponents.Values();
      var collected: seq<string> := [];
      var i := 0;
      while i < |all|
        invariant 0 <= i <= |all|
        invariant collected == AllTags(all[..i])
      {
        assert all[..i + 1][..i] == all[..i];
        collected := collected + all[i].tags;
        i := i + 1;
      }
      assert all[..i] == all;
      result := FirstOccurrences(collected);
      AllAppsTagsFacts(St());
    }
  }

  /** The orphan prune of loadInstalledConfigComponents, folder by folder
      in key order. */
  method PruneFolders(current: Dict<Folder>, names: seq<string>, ids: seq<string>) returns (pruned: Dict<Folder>)
    requires current.Valid()
    ensures pruned == PrunedFolders(current, names, ids)
  {
    pruned := current;
    var i := 0;
    while i < |current.keys|
      invariant 0 <= i <= |current.keys|
      invariant pruned.keys == current.keys && pruned.vals.Keys == current.vals.Keys
      invariant forall k :: k in current.vals ==>
        pruned.vals[k] == if k in current.keys[..i]
          then current.vals[k].(apps := PruneWalk(current.vals[k].apps, 0, names, ids))
          else current.vals[k]
    {
      var folderName := current.keys[i];
      var folder := pruned.vals[folderName];
      var kept := PruneOrphans(folder.apps, names, ids);
      pruned := Dict(pruned.keys, pruned.vals[folderName := folder.(apps := kept)]);
      assert current.keys[..i + 1] == current.keys[..i] + [folderName];
      i := i + 1;
    }
    assert current.keys[..i] == current.keys;
    assert pruned.vals == PrunedFolders(current, names, ids).vals;
  }

  /** The loop of loadInstalledConfigComponents over the catalog's names
      that builds the config components. */
  method MaterialiseConfigs(userApps: Dict<App>, initial: Dict<App>, catalog: Dict<ComponentConfig>) returns (configs: Dict<App>)
    requires userApps.Valid() && initial.Valid() && catalog.Valid()
    ensures configs == Materialise(userApps, initial, catalog, catalog.keys)
  {
    var names := catalog.keys;
    configs := initial;
    var n := 0;
    while n < |names|
      invariant 0 <= n <= |names|
      invariant configs.Valid()
      invariant Materialise(userApps, configs, catalog, names[n..]) == Materialise(userApps, initial, catalog, names)
    {
      var componentName := names[n];
      assert names[n..][0] == componentName;
      assert names[n..][1..] == names[n + 1..];
      if FindAppByField(userApps, configs, NameField, componentName).None? {
        var component := catalog.vals[componentName];
        if LaunchableByUser(component) {
          configs := configs.Put(componentName, ConfigComponentFor(componentName, component));
        }
      }
      n := n + 1;
    }
  }

  /** The loop of updateAppsInFolders. */
  method RefreshFolders(current: Dict<Folder>, configs: seq<App>) returns (updated: Dict<Folder>)
    requires current.Valid()
    ensures updated == RefreshedFolders(current, configs)
  {
    updated := current;
    var i := 0;
    while i < |current.keys|
      invariant 0 <= i <= |current.keys|
      invariant updated.keys == current.keys && updated.vals.Keys == current.vals.Keys
      invariant forall k :: k in current.vals ==>
        updated.vals[k] == if k in current.keys[..i] then RefreshedFolder(k, current.vals[k], configs) else current.vals[k]
    {
      var folderName := current.keys[i];
      if folderName != ADVANCED_APP_LAUNCHER {
        var folder := updated.vals[folderName];
        var refreshed := RefreshFolderApps(folder.apps, configs);
        updated := Dict(updated.keys, updated.vals[folderName := folder.(apps := refreshed)]);
      }
      assert current.keys[..i + 1] == current.keys[..i] + [folderName];
      i := i + 1;
    }
    assert current.keys[..i] == current.keys;
    assert updated.vals == RefreshedFolders(current, configs).vals;
  }

  /** The loop of getActiveFolder that refreshes the tags of each entry. */
  method RefreshEntryTags(current: seq<App>, apps: Dict<App>, configs: Dict<App>) returns (entries: seq<App>)
    requires apps.Valid() && configs.Valid()
    ensures entries == RefreshedTags(current, apps, configs)
  {
    ghost var refreshed := RefreshedTags(current, apps, configs);
    entries := current;
    var i := 0;
    while i < |entries|
      invariant 0 <= i <= |entries| && |entries| == |current|
      invariant forall j :: 0 <= j < i ==> entries[j] == refreshed[j]
      invariant forall j :: i <= j < |entries| ==> entries[j] == current[j]
    {
      var appData := FindAppByField(apps, configs, AppIDField, entries[i].appID);
      var refreshedTags := if appData.None? then [] else appData.value.tags;
      entries := entries[i := entries[i].(tags := refreshedTags)];
      i := i + 1;
    }
  }

  /** The loop of deleteApp that takes the app out of every folder. */
  method PurgeFolders(current: Dict<Folder>, appID: string) returns (purged: Dict<Folder>)
    requires current.Valid()
    ensures purged == PurgedFolders(current, appID)
  {
    purged := current;
    var i := 0;
    while i < |current.keys|
      invariant 0 <= i <= |current.keys|
      invariant purged.keys == current.keys && purged.vals.Keys == current.vals.Keys
      invariant forall k :: k in current.vals ==>
        purged.vals[k] == if k in current.keys[..i]
          then current.vals[k].(apps := WithAppRemoved(current.vals[k].apps, appID))
          else current.vals[k]
    {
      var key := current.keys[i];
      var folder := purged.vals[key];
      var appIndex := FindAppIndex(folder.apps, appID);
      purged := Dict(purged.keys, purged.vals[key := folder.(apps := SpliceOne(folder.apps, appIndex))]);
      assert current.keys[..i + 1] == current.keys[..i] + [key];
      i := i + 1;
    }
    assert current.keys[..i] == current.keys;
    assert purged.vals == PurgedFolders(current, appID).vals;
  }

  /** The start of initialize: the deleted list, the folder order and the
      app definitions kept, and the two writes made when something was
      deleted in an earlier run. */
  method FilterDeleted(store: StoreValues) returns (storedDeleted: seq<string>, folderList: seq<string>,
                                                    kept: Dict<App>, seeded: seq<Write>)
    requires store.appDefinitions.Valid()
    ensures storedDeleted == InitialDeleted(store)
    ensures folderList == InitialFoldersList(store)
    ensures kept == InitialApps(store)
    ensures seeded == if |storedDeleted| > 0
      then [SetFoldersList(folderList), SetAppDefinitions(AppsNotDeleted(store.appDefinitions, storedDeleted))]
      else []
  {
    storedDeleted := InitialDeleted(store);
    folderList := InitialFoldersList(store);
    var appList := Empty<App>();
    seeded := [];
    if |storedDeleted| > 0 {
      appList := FilterDeletedApps(store.appDefinitions, storedDeleted);
      seeded := [SetFoldersList(folderList), SetAppDefinitions(appList)];
    }
    kept := if |appList.keys| > 0 then appList else store.appDefinitions;
  }
}
