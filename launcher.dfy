/** The launcher's cached state (the module-level `data` object together
    with the log of store writes) and, for every mutator, the state it
    leaves behind. */
module Launcher {
  import opened Options
  import opened JsArrays
  import opened JsStrings
  import opened Dicts
  import opened Records
  import opened FolderOrder
  import opened FolderNames
  import opened FolderEdits
  import opened Tags
  import opened Lookup
  import opened Normalize
  import opened Refresh
  import opened ConfigComponents
  import opened Reconcile
  import opened Pins
  import opened Persist

  datatype State = State(
    folders: Dict<Folder>,
    foldersList: seq<string>,
    apps: Dict<App>,
    configComponents: Dict<App>,
    deleted: seq<string>,
    tags: seq<string>,
    activeFolder: string,
    filterText: string,
    sortBy: string,
    isFormVisible: bool,
    writes: seq<Write>)
  {
    /** The three tables are well-formed objects. */
    ghost predicate Valid() {
      folders.Valid() && apps.Valid() && configComponents.Valid()
    }
  }

  // ---------------------------------------------------------------------
  // initialize

  /** The state initialize builds from the store values, before the
      catalog arrives. */
  function FromStore(s: State, store: StoreValues): (r: State)
    requires LegacyValid(store.folders) && store.appDefinitions.Valid()
    ensures r.Valid()
  {
    var deleted := InitialDeleted(store);
    var list := InitialFoldersList(store);
    var seeded := if |deleted| > 0 then [SetFoldersList(list), SetAppDefinitions(AppsNotDeleted(store.appDefinitions, deleted))] else [];
    var folders := NormalizedFolders(store.folders);
    State(folders, list, InitialApps(store), Empty(), deleted, store.activeLauncherTags, store.activeFolder,
      store.filterText, store.sortBy, store.isFormVisible, s.writes + seeded + [SetFolders(folders)])
  }

  /** FromStore written out field by field. */
  lemma FromStoreIs(s: State, store: StoreValues, seeded: seq<Write>)
    requires LegacyValid(store.folders) && store.appDefinitions.Valid()
    requires seeded == if |InitialDeleted(store)| > 0
      then [SetFoldersList(InitialFoldersList(store)), SetAppDefinitions(AppsNotDeleted(store.appDefinitions, InitialDeleted(store)))]
      else []
    ensures FromStore(s, store) == State(NormalizedFolders(store.folders), InitialFoldersList(store), InitialApps(store),
      Empty(), InitialDeleted(store), store.activeLauncherTags, store.activeFolder, store.filterText, store.sortBy,
      store.isFormVisible, s.writes + seeded + [SetFolders(NormalizedFolders(store.folders))])
  {
  }

  /** loadInstalledConfigComponents with the component catalog in hand. */
  function LoadConfigStep(s: State, catalog: Dict<ComponentConfig>): (r: State)
    requires s.Valid() && catalog.Valid()
    ensures r.Valid()
  {
    s.(folders := PrunedFolders(s.folders, catalog.keys, s.apps.keys),
       configComponents := Materialise(s.apps, s.configComponents, catalog, catalog.keys))
  }

  /** updateAppsInFolders */
  function RefreshStep(s: State): (r: State)
    requires s.Valid()
    ensures r.Valid()
  {
    var folders := RefreshedFolders(s.folders, s.configComponents.Values());
    s.(folders := folders, writes := s.writes + [SetFolders(folders)])
  }

  /** initialize: the store values, then the catalog, then the refresh. */
  function InitializeStep(s: State, store: StoreValues, catalog: Dict<ComponentConfig>): (r: State)
    requires LegacyValid(store.folders) && store.appDefinitions.Valid() && catalog.Valid()
    ensures r.Valid()
  {
    RefreshStep(LoadConfigStep(FromStore(s, store), catalog))
  }

  /** After initialize: the folder order names the seeded folders not
      deleted, the deleted list is the stored one, and a catalog name is a
      config component exactly when it is launchable by the user and no
      kept app carries that name; no other config component exists. */
  lemma InitializeFacts(s: State, store: StoreValues, catalog: Dict<ComponentConfig>)
    requires LegacyValid(store.folders) && store.appDefinitions.Valid() && catalog.Valid()
    ensures var r := InitializeStep(s, store, catalog);
      && r.deleted == InitialDeleted(store)
      && (forall x :: x in r.foldersList <==> x in store.folders.vals && x !in r.deleted)
      && r.apps == InitialApps(store)
      && r.folders.keys == store.folders.keys
      && (forall k :: k in catalog.keys ==>
            (k in r.configComponents.vals <==>
              LaunchableByUser(catalog.vals[k]) && forall a :: a in r.apps.Values() ==> a.name != k))
      && (forall k :: k in r.configComponents.vals ==>
            k in catalog.keys && r.configComponents.vals[k] == ConfigComponentFor(k, catalog.vals[k]))
  {
    var s1 := FromStore(s, store);
    InitialFoldersListFacts(store);
    MaterialiseExactly(s1.apps, s1.configComponents, catalog, catalog.keys);
    MaterialiseFrame(s1.apps, s1.configComponents, catalog, catalog.keys);
  }

  /** initialize never drops a folder entry because its appID is deleted:
      an entry whose name is in the catalog is, after initialize, still
      there or replaced by a config component with the same trimmed appID,
      whatever the deleted list holds. */
  lemma InitializeKeepsCatalogEntries(s: State, store: StoreValues, catalog: Dict<ComponentConfig>, k: string, e: App)
    requires LegacyValid(store.folders) && store.appDefinitions.Valid() && catalog.Valid()
    requires k in store.folders.vals && e in NormalizedFolders(store.folders).vals[k].apps && e.name in catalog.keys
    ensures var r := InitializeStep(s, store, catalog);
      k in r.folders.vals && exists a :: a in r.folders.vals[k].apps && SameTrimmedID(a, e)
  {
    var s1 := FromStore(s, store);
    var s2 := LoadConfigStep(s1, catalog);
    var r := InitializeStep(s, store, catalog);
    var f := s1.folders.vals[k];
    var g := s2.folders.vals[k];
    PrunedFoldersFacts(s1.folders, catalog.keys, s1.apps.keys, k);
    NonOrphansMember(f.apps, e, catalog.keys, s1.apps.keys);
    NonOrphansMember(g.apps, e, catalog.keys, s1.apps.keys);
    var j :| 0 <= j < |g.apps| && g.apps[j] == e;
    RefreshedFoldersFacts(s2.folders, s2.configComponents.Values(), k);
    var a := r.folders.vals[k].apps[j];
    assert SameTrimmedID(a, e);
  }

  /** The deleted app x is still filed after initialize: the store marks
      x deleted, defines x and y, and has a folder F holding [o, x]; with an
      empty catalog the prune removes the orphan o and then skips x, so F
      ends up holding x although x's definition is gone. */
  lemma DeletedEntrySurvivesInitialize(s: State, ao: App, ax: App, ay: App)
    requires ao.appID == "o" && ax.appID == "x" && ay.appID == "y"
    ensures var store := DeletedXStore(FolderF([ao, ax]), ax, ay);
      var catalog: Dict<ComponentConfig> := Empty();
      LegacyValid(store.folders) && store.appDefinitions.Valid()
      && var r := InitializeStep(s, store, catalog);
        "x" in r.deleted && r.apps.keys == ["y"] && "F" in r.folders.vals && r.folders.vals["F"].apps == [ax]
  {
    var store := DeletedXStore(FolderF([ao, ax]), ax, ay);
    var catalog: Dict<ComponentConfig> := Empty();
    FolderFNormalized([ao, ax]);
    DeletedXStoreFacts(FolderF([ao, ax]), ax, ay);
    var s1 := FromStore(s, store);
    assert s1.folders.vals["F"].apps == [ao, ax];
    var s2 := LoadConfigStep(s1, catalog);
    PruneSkipsSecondOrphan(ao, ax, [], ["y"]);
    assert s2.folders.vals["F"].apps == [ax];
    assert s2.configComponents.Values() == [];
  }

  // ---------------------------------------------------------------------
  // reorderFolders

  function ReorderStep(s: State, destIndex: int, srcIndex: int): State
    requires 0 <= destIndex < |FoldersWhere(s.foldersList, false)|
  {
    var list := Reordered(s.foldersList, destIndex, srcIndex);
    s.(foldersList := list, writes := s.writes + [SetFoldersList(list)])
  }

  /** The reordered list keeps the fixed folders first, in their order,
      moves one orderable folder, and is a permutation of the old list. */
  lemma ReorderFacts(s: State, destIndex: int, srcIndex: int)
    requires 0 <= destIndex < |FoldersWhere(s.foldersList, false)|
    ensures var r := ReorderStep(s, destIndex, srcIndex);
      var fixed := FoldersWhere(s.foldersList, true);
      && r.foldersList[..|fixed|] == fixed
      && (forall i :: 0 <= i < |r.foldersList| ==> (IsFixed(r.foldersList[i]) <==> i < |fixed|))
      && multiset(r.foldersList) == multiset(s.foldersList)
      && r == s.(foldersList := r.foldersList, writes := s.writes + [SetFoldersList(r.foldersList)])
  {
    ReorderedKeepsFixed(s.foldersList, destIndex, srcIndex);
    ReorderedPermutes(s.foldersList, destIndex, srcIndex);
  }

  // ---------------------------------------------------------------------
  // addNewFolder

  function AddNewFolderStep(s: State, name: Option<string>): (r: State)
    requires s.Valid()
    ensures r.Valid()
  {
    var folderName := FolderNameFor(name, s.foldersList);
    var folders := s.folders.Put(folderName, NEW_FOLDER);
    var list := s.foldersList + [folderName];
    s.(folders := folders, foldersList := list, writes := s.writes + [SetFolders(folders), SetFoldersList(list)])
  }

  /** addNewFolder files an empty folder under the given name, or under a
      synthesised "New folder N" no listed folder has, and appends that
      name to the folder order; every other folder stays. */
  lemma AddNewFolderFacts(s: State, name: Option<string>)
    requires s.Valid()
    ensures var r := AddNewFolderStep(s, name); var n := FolderNameFor(name, s.foldersList);
      && (Truthy(name) ==> n == name.value)
      && (!Truthy(name) ==> n == NewFolderName(s.foldersList) && n !in s.foldersList)
      && n in r.folders.vals && r.folders.vals[n].apps == []
      && r.foldersList == s.foldersList + [n]
      && (forall k :: k != n ==> (k in r.folders.vals <==> k in s.folders.vals))
      && (forall k :: k != n && k in s.folders.vals ==> r.folders.vals[k] == s.folders.vals[k])
  {
    if !Truthy(name) {
      NewFolderNameIsFresh(s.foldersList);
    }
  }

  // ---------------------------------------------------------------------
  // deleteFolder

  function DeleteFolderStep(s: State, name: string): (r: State)
    requires s.Valid()
    ensures r.Valid()
  {
    var wasActive := name == s.activeFolder;
    var active := if wasActive then ADVANCED_APP_LAUNCHER else s.activeFolder;
    var activeWrite := if wasActive then [SetActiveFolder(ADVANCED_APP_LAUNCHER)] else [];
    var deleted := s.deleted + [name];
    var folders := s.folders.Remove(name);
    var list := SpliceOne(s.foldersList, IndexOf(s.foldersList, name));
    s.(activeFolder := active, deleted := deleted, folders := folders, foldersList := list,
       writes := s.writes + activeWrite + [SetFolders(folders), SetFoldersList(list), SetDeleted(deleted)])
  }

  /** deleteFolder records the name as deleted, drops the folder, removes
      the name's first place in the folder order (when it is listed), and
      falls back to the Advanced App Launcher folder when it was active. */
  lemma DeleteFolderFacts(s: State, name: string)
    requires s.Valid()
    ensures var r := DeleteFolderStep(s, name);
      && r.deleted == s.deleted + [name]
      && name !in r.folders.vals
      && (forall k :: k != name ==> (k in r.folders.vals <==> k in s.folders.vals))
      && (forall k :: k != name && k in s.folders.vals ==> r.folders.vals[k] == s.folders.vals[k])
      && (name in s.foldersList ==>
            var i := IndexOf(s.foldersList, name);
            0 <= i && r.foldersList == s.foldersList[..i] + s.foldersList[i + 1..] && name !in s.foldersList[..i])
      && (name !in s.foldersList ==>
            r.foldersList == if s.foldersList == [] then [] else s.foldersList[..|s.foldersList| - 1])
      && r.activeFolder == if s.activeFolder == name then ADVANCED_APP_LAUNCHER else s.activeFolder
  {
    if name in s.foldersList {
      SpliceAtIndexOfPresent(s.foldersList, name);
    } else {
      SpliceAtIndexOfAbsent(s.foldersList, name);
    }
  }

  // ---------------------------------------------------------------------
  // renameFolder

  function RenameFolderStep(s: State, oldName: string, newName: string): (r: State)
    requires s.Valid() && oldName in s.folders.vals
    ensures r.Valid()
  {
    var folders := RenamedFolders(s.folders, oldName, newName);
    var list := RenamedList(s.foldersList, oldName, newName);
    var wasDeleted := newName in s.deleted;
    var deleted := if wasDeleted then SpliceOne(s.deleted, IndexOf(s.deleted, newName)) else s.deleted;
    var deletedWrite := if wasDeleted then [SetDeleted(deleted)] else [];
    var wasActive := s.activeFolder == oldName;
    var active := if wasActive then newName else s.activeFolder;
    var activeWrite := if wasActive then [SetActiveFolder(newName)] else [];
    s.(folders := folders, foldersList := list, deleted := deleted, activeFolder := active,
       writes := s.writes + [SetFolders(folders)] + deletedWrite + activeWrite + [SetFoldersList(list)])
  }

  /** renameFolder with two different names moves the record, puts the
      new name in the old name's place in the folder order, and follows the
      active folder. */
  lemma RenameFolderFacts(s: State, oldName: string, newName: string)
    requires s.Valid() && oldName in s.folders.vals && oldName != newName
    ensures var r := RenameFolderStep(s, oldName, newName);
      && newName in r.folders.vals && r.folders.vals[newName] == s.folders.vals[oldName]
      && oldName !in r.folders.vals
      && (forall k :: k != oldName && k != newName && k in s.folders.vals ==> k in r.folders.vals && r.folders.vals[k] == s.folders.vals[k])
      && |r.foldersList| == |s.foldersList|
      && (oldName in s.foldersList ==>
            var i := IndexOf(s.foldersList, oldName);
            r.foldersList[i] == newName
            && forall j :: 0 <= j < |s.foldersList| && j != i ==> r.foldersList[j] == s.foldersList[j])
      && (oldName !in s.foldersList ==> r.foldersList == s.foldersList)
      && r.activeFolder == if s.activeFolder == oldName then newName else s.activeFolder
  {
    RenamedFoldersFacts(s.folders, oldName, newName);
    RenamedListFacts(s.foldersList, oldName, newName);
  }

  /** renameFolder takes the new name's first entry out of the deleted
      list, if it has one. */
  lemma RenameFolderRevives(s: State, oldName: string, newName: string)
    requires s.Valid() && oldName in s.folders.vals
    ensures var r := RenameFolderStep(s, oldName, newName);
      && (newName in s.deleted ==>
            var i := IndexOf(s.deleted, newName);
            0 <= i && r.deleted == s.deleted[..i] + s.deleted[i + 1..] && newName !in s.deleted[..i])
      && (newName !in s.deleted ==> r.deleted == s.deleted)
  {
    var r := RenameFolderStep(s, oldName, newName);
    assert r.deleted == if newName in s.deleted then SpliceOne(s.deleted, IndexOf(s.deleted, newName)) else s.deleted;
    if newName in s.deleted {
      SpliceAtIndexOfPresent(s.deleted, newName);
    }
  }

  /** Renaming a folder to its own name deletes it. */
  lemma RenameToSameNameDeletes(s: State, name: string)
    requires s.Valid() && name in s.folders.vals
    ensures name !in RenameFolderStep(s, name, name).folders.vals
  {
    RenamedFoldersFacts(s.folders, name, name);
  }

  // ---------------------------------------------------------------------
  // addAppToFolder, removeAppFromFolder

  function AddAppToFolderStep(s: State, folderName: string, app: App): (r: State)
    requires s.Valid() && folderName in s.folders.vals
    ensures r.Valid()
  {
    var folder := s.folders.vals[folderName];
    if FindAppIndex(folder.apps, app.appID) < 0 then
      var folders := s.folders.Put(folderName, folder.(apps := folder.apps + [AppRef(app)]));
      s.(folders := folders, writes := s.writes + [SetFolders(folders)])
    else s
  }

  /** addAppToFolder changes nothing, not even the store, when the folder
      already has the appID; otherwise it appends the reference; and a
      second call changes nothing. */
  lemma AddAppToFolderStepFacts(s: State, folderName: string, app: App)
    requires s.Valid() && folderName in s.folders.vals
    ensures var folder := s.folders.vals[folderName]; var r := AddAppToFolderStep(s, folderName, app);
      && (HasApp(folder.apps, app.appID) ==> r == s)
      && (!HasApp(folder.apps, app.appID) ==>
            r.folders.vals[folderName] == folder.(apps := folder.apps + [AppRef(app)])
            && r.folders.keys == s.folders.keys
            && forall k :: k in s.folders.vals && k != folderName ==> r.folders.vals[k] == s.folders.vals[k])
      && AddAppToFolderStep(r, folderName, app) == r
  {
    var folder := s.folders.vals[folderName];
    AddAppToFolderFacts(folder.apps, app);
    var r := AddAppToFolderStep(s, folderName, app);
    assert r.folders.vals[folderName].apps == WithAppAdded(folder.apps, app);
  }

  function RemoveAppFromFolderStep(s: State, folderName: string, app: App): (r: State)
    requires s.Valid() && folderName in s.folders.vals
    ensures r.Valid()
  {
    var folder := s.folders.vals[folderName];
    var folders := s.folders.Put(folderName, folder.(apps := WithAppRemoved(folder.apps, app.appID)));
    s.(folders := folders, writes := s.writes + [SetFolders(folders)])
  }

  /** removeAppFromFolder takes out the first entry with the appID, and
      -- the appID being absent -- the folder's last entry. */
  lemma RemoveAppFromFolderFacts(s: State, folderName: string, app: App)
    requires s.Valid() && folderName in s.folders.vals
    ensures var apps := s.folders.vals[folderName].apps; var r := RemoveAppFromFolderStep(s, folderName, app);
      && (HasApp(apps, app.appID) ==>
            var i := FindAppIndex(apps, app.appID);
            0 <= i && r.folders.vals[folderName].apps == apps[..i] + apps[i + 1..])
      && (!HasApp(apps, app.appID) ==>
            r.folders.vals[folderName].apps == if apps == [] then [] else apps[..|apps| - 1])
      && forall k :: k in s.folders.vals && k != folderName ==> r.folders.vals[k] == s.folders.vals[k]
  {
    var folder := s.folders.vals[folderName];
    RemoveAppFacts(folder.apps, app.appID);
    var r := RemoveAppFromFolderStep(s, folderName, app);
    assert r.folders.vals == s.folders.vals[folderName := folder.(apps := WithAppRemoved(folder.apps, app.appID))];
  }

  // ---------------------------------------------------------------------
  // addApp, deleteApp

  /** The form addApp is called with: the tags are the comma-separated
      text of the form's tag field. */
  datatype NewAppForm = NewAppForm(name: string, url: string, tags: string)

  /** What the callback is told: nothing, or the failed_to_add_app error. */
  datatype AddAppOutcome = Added | Failed(code: string)

  /** newAppData; `appID` is the timestamp, given as a parameter. */
  function NewAppRecord(appID: string, form: NewAppForm): (a: App)
    ensures a.appID == appID && a.name == form.name && a.kind == Some("component") && a.canDelete == Some(true)
    ensures a.tags == [] <==> form.tags == ""
    ensures Join(a.tags) == form.tags
  {
    App(appID, form.name, None, Some(form.url), Some("component"), None, TagsFromText(form.tags), Some(true), None)
  }

  /** The pin addPin writes, when the catalog has the component. */
  function AddPinStep(s: State, req: PinRequest, catalog: Dict<ComponentConfig>, uuid: string): State
    requires catalog.Valid()
  {
    match Resolved(catalog, req.name)
    case Some(c) => s.(writes := s.writes + [SetPin(PinKey(req.name), PinFor(req, c, uuid))])
    case None => s
  }

  function RemovePinStep(s: State, req: PinRequest): State {
    s.(writes := s.writes + [UnsetPin(PinKey(req.name))])
  }

  /** addPin writes nothing unless some catalog key is the pin's name or
      that name followed by " Component"; then it writes one pin under the
      escaped key, and removePin clears that same key. Nothing but the
      write log changes. */
  lemma PinStepFacts(s: State, req: PinRequest, catalog: Dict<ComponentConfig>, uuid: string)
    requires catalog.Valid()
    ensures (forall k :: k in catalog.vals ==> !NameMatches(k, req.name)) ==> AddPinStep(s, req, catalog, uuid) == s
    ensures (exists k :: k in catalog.vals && NameMatches(k, req.name)) ==>
      var r := AddPinStep(s, req, catalog, uuid);
      && r.(writes := s.writes) == s
      && |r.writes| == |s.writes| + 1 && r.writes[..|s.writes|] == s.writes
      && r.writes[|s.writes|].SetPin? && r.writes[|s.writes|].key == PinKey(req.name)
      && RemovePinStep(r, req).writes[|s.writes| + 1] == UnsetPin(r.writes[|s.writes|].key)
  {
    ResolvedFacts(catalog, req.name);
  }

  /** addApp once the launcher service answered: registered says whether
      addUserDefinedComponent succeeded. */
  function AddAppStep(s: State, appID: string, form: NewAppForm, registered: bool,
                      catalog: Dict<ComponentConfig>, uuid: string): (r: State)
    requires s.Valid() && catalog.Valid()
    requires registered ==> ADVANCED_APP_LAUNCHER in s.folders.vals && s.activeFolder in s.folders.vals
    ensures r.Valid()
  {
    if !registered then s
    else
      var a := NewAppRecord(appID, form);
      var pinned := if s.activeFolder == FAVORITES then AddPinStep(s, PinRequest(form.name, None), catalog, uuid) else s;
      var apps := s.apps.Put(appID, a);
      var folders := WithNewApp(s.folders, s.activeFolder, a);
      pinned.(apps := apps, folders := folders, writes := pinned.writes + [SetAppDefinitions(apps), SetFolders(folders)])
  }

  function AddAppOutcomeOf(registered: bool): AddAppOutcome {
    if registered then Added else Failed("failed_to_add_app")
  }

  /** A registered app is defined under its appID, filed at the end of the
      root folder and of the active folder, pinned when the active folder
      is Favorites and the catalog knows it, and persisted; a failed
      registration changes nothing. */
  lemma AddAppFacts(s: State, appID: string, form: NewAppForm, registered: bool, catalog: Dict<ComponentConfig>, uuid: string)
    requires s.Valid() && catalog.Valid()
    requires registered ==> ADVANCED_APP_LAUNCHER in s.folders.vals && s.activeFolder in s.folders.vals
    ensures !registered ==> AddAppStep(s, appID, form, registered, catalog, uuid) == s
    ensures registered ==>
      var r := AddAppStep(s, appID, form, registered, catalog, uuid); var a := NewAppRecord(appID, form);
      && r.apps.vals == s.apps.vals[appID := a]
      && r.folders.keys == s.folders.keys
      && (s.activeFolder != ADVANCED_APP_LAUNCHER ==>
            r.folders.vals[s.activeFolder].apps == s.folders.vals[s.activeFolder].apps + [a]
            && r.folders.vals[ADVANCED_APP_LAUNCHER].apps == s.folders.vals[ADVANCED_APP_LAUNCHER].apps + [a])
      && (s.activeFolder == ADVANCED_APP_LAUNCHER ==>
            r.folders.vals[ADVANCED_APP_LAUNCHER].apps == s.folders.vals[ADVANCED_APP_LAUNCHER].apps + [a, a])
      && (forall k :: k in s.folders.vals && k != s.activeFolder && k != ADVANCED_APP_LAUNCHER ==> r.folders.vals[k] == s.folders.vals[k])
      && r.writes[|r.writes| - 2..] == [SetAppDefinitions(r.apps), SetFolders(r.folders)]
      && (s.activeFolder != FAVORITES || Resolved(catalog, form.name).None? ==> |r.writes| == |s.writes| + 2)
      && (s.activeFolder == FAVORITES && Resolved(catalog, form.name).Some? ==>
            |r.writes| == |s.writes| + 3 && r.writes[|s.writes|].SetPin? && r.writes[|s.writes|].key == PinKey(form.name))
  {
    if registered {
      WithNewAppFacts(s.folders, s.activeFolder, NewAppRecord(appID, form));
    }
  }

  function DeleteAppStep(s: State, appID: string): (r: State)
    requires s.Valid() && appID in s.apps.vals
    ensures r.Valid()
  {
    var pinWrite := UnsetPin(PinKey(s.apps.vals[appID].name));
    var folders := PurgedFolders(s.folders, appID);
    var deleted := s.deleted + [appID];
    var apps := s.apps.Remove(appID);
    s.(folders := folders, deleted := deleted, apps := apps,
       writes := s.writes + [pinWrite, SetAppDefinitions(apps), SetFolders(folders), SetDeleted(deleted)])
  }

  /** deleteApp removes the app's pin and definition, records the appID as
      deleted and takes an entry out of every folder: the first one with
      the appID, or the last one in a folder without it. */
  lemma DeleteAppFacts(s: State, appID: string, k: string)
    requires s.Valid() && appID in s.apps.vals && k in s.folders.vals
    ensures var r := DeleteAppStep(s, appID); var f := s.folders.vals[k];
      && appID !in r.apps.vals
      && (forall id :: id != appID && id in s.apps.vals ==> id in r.apps.vals && r.apps.vals[id] == s.apps.vals[id])
      && r.deleted == s.deleted + [appID]
      && r.writes[|s.writes|] == UnsetPin(PinKey(s.apps.vals[appID].name))
      && r.folders.keys == s.folders.keys
      && k in r.folders.vals
      && (HasApp(f.apps, appID) ==>
            var i := FindAppIndex(f.apps, appID);
            0 <= i && r.folders.vals[k].apps == f.apps[..i] + f.apps[i + 1..])
      && (!HasApp(f.apps, appID) ==> r.folders.vals[k].apps == if f.apps == [] then [] else f.apps[..|f.apps| - 1])
  {
    RemoveAppFacts(s.folders.vals[k].apps, appID);
    PurgedFoldersFacts(s.folders, appID, k);
  }

  // ---------------------------------------------------------------------
  // addTag, deleteTag

  function AddTagStep(s: State, t: string): State {
    var tags := WithTag(s.tags, t);
    s.(tags := tags, writes := s.writes + [SetActiveLauncherTags(tags)])
  }

  function DeleteTagStep(s: State, t: string): State {
    var tags := WithoutTag(s.tags, t);
    s.(tags := tags, writes := s.writes + [SetActiveLauncherTags(tags)])
  }

  /** Adding a tag twice registers it as adding it once; deleting a
      registered tag deletes its first copy, and deleting one that is not
      registered deletes the last tag. */
  lemma TagStepFacts(s: State, t: string)
    ensures AddTagStep(AddTagStep(s, t), t).tags == AddTagStep(s, t).tags
    ensures multiset(AddTagStep(s, t).tags)[t] == if t in s.tags then multiset(s.tags)[t] else 1
    ensures t in s.tags ==>
      var i := IndexOf(s.tags, t);
      DeleteTagStep(s, t).tags == s.tags[..i] + s.tags[i + 1..] && t !in s.tags[..i]
    ensures t !in s.tags ==> DeleteTagStep(s, t).tags == if s.tags == [] then [] else s.tags[..|s.tags| - 1]
  {
    AddTagOnce(s.tags, t);
    DeleteTagFirst(s.tags, t);
  }

  // ---------------------------------------------------------------------
  // Read projections

  /** The folder getActiveFolder returns: its entries carry the tags of
      their apps, and it carries its own name. */
  function ActiveFolderView(s: State): Folder
    requires s.Valid() && s.activeFolder in s.folders.vals
  {
    var folder := s.folders.vals[s.activeFolder];
    folder.(apps := RefreshedTags(folder.apps, s.apps, s.configComponents), name := Some(s.activeFolder))
  }

  /** getActiveFolder writes the refresh into the cached folder itself. */
  function GetActiveFolderStep(s: State): (r: State)
    requires s.Valid() && s.activeFolder in s.folders.vals
    ensures r.Valid()
  {
    s.(folders := s.folders.Put(s.activeFolder, ActiveFolderView(s)))
  }

  /** The returned folder is the cached one with fresh tags on each entry
      and its name set; asking again gives the same folder. */
  lemma ActiveFolderFacts(s: State)
    requires s.Valid() && s.activeFolder in s.folders.vals
    ensures var v := ActiveFolderView(s); var f := s.folders.vals[s.activeFolder];
      && v.name == Some(s.activeFolder) && |v.apps| == |f.apps|
      && v.(apps := f.apps, name := f.name) == f
      && (forall i :: 0 <= i < |f.apps| ==> v.apps[i].(tags := f.apps[i].tags) == f.apps[i])
      && GetActiveFolderStep(s).folders.keys == s.folders.keys
      && ActiveFolderView(GetActiveFolderStep(s)) == v
  {
    var v := ActiveFolderView(s);
    var f := s.folders.vals[s.activeFolder];
    forall i | 0 <= i < |f.apps| ensures v.apps[i].(tags := f.apps[i].tags) == f.apps[i] {
      RefreshedTagsFacts(f.apps, s.apps, s.configComponents, i);
    }
    var r := GetActiveFolderStep(s);
    var w := ActiveFolderView(r);
    assert r.folders.vals[s.activeFolder] == v;
    assert |w.apps| == |v.apps|;
    forall i | 0 <= i < |v.apps| ensures w.apps[i] == v.apps[i] {
      assert v.apps[i].appID == f.apps[i].appID;
    }
    assert w.apps == v.apps;
  }

  /** getAllAppsTags */
  function AllAppsTags(s: State): seq<string>
    requires s.Valid()
  {
    FirstOccurrences(AllTags(s.apps.Values() + s.configComponents.Values()))
  }

  /** Every tag of every app and config component, each once. */
  lemma AllAppsTagsFacts(s: State)
    requires s.Valid()
    ensures NoDuplicates(AllAppsTags(s))
    ensures forall t :: t in AllAppsTags(s) <==>
      exists a :: a in s.apps.Values() + s.configComponents.Values() && t in a.tags
  {
    var all := s.apps.Values() + s.configComponents.Values();
    FirstOccurrencesFacts(AllTags(all));
    AllTagsMembers(all);
  }
}
