/** The records the launcher's state holds: app definitions, folders (in
    their canonical and their legacy shape) and the entries of the
    component catalog, together with the names of the fixed folders. */
module Records {
  import opened Options
  import opened Dicts

  /** getConstants */
  const ADVANCED_APP_LAUNCHER: string := "Advanced App Launcher"
  const DASHBOARDS: string := "Dashboards"
  const FAVORITES: string := "Favorites"

  /** getDragDisabled: the fixed folders, which the user cannot drag. */
  const DRAG_DISABLED: seq<string> := [ADVANCED_APP_LAUNCHER, DASHBOARDS, FAVORITES]

  /** An app definition, and equally an entry of a folder's app list: a
      folder entry is either an {appID, name, displayName} reference (its
      other properties undefined and its tags empty) or a full definition
      copied into the folder. `kind` is the `type` property. */
  datatype App = App(
    appID: string,
    name: string,
    displayName: Option<string>,
    url: Option<string>,
    kind: Option<string>,
    source: Option<string>,
    tags: seq<string>,
    canDelete: Option<bool>,
    icon: Option<string>)

  /** The {appID, name, displayName} reference addAppToFolder stores. */
  function AppRef(app: App): (r: App)
    ensures r.appID == app.appID && r.name == app.name && r.displayName == app.displayName
  {
    App(app.appID, app.name, app.displayName, None, None, None, [], None, None)
  }

  /** A folder record whose `apps` property has the shape A;
      `name` is the property getActiveFolder adds. */
  datatype FolderOf<A> = FolderOf(
    apps: A,
    icon: Option<string>,
    canEdit: Option<bool>,
    canDelete: Option<bool>,
    disableUserRemove: Option<bool>,
    name: Option<string>)

  /** A folder in the canonical shape: `apps` is an array. */
  type Folder = FolderOf<seq<App>>

  /** The `apps` of a folder as persisted: an array, or (deprecated) an
      object whose values are the apps. */
  datatype LegacyApps = AppsArray(items: seq<App>) | AppsObject(entries: Dict<App>)

  /** A folder as it comes from the store. */
  type RawFolder = FolderOf<LegacyApps>

  // The entries of the component catalog (getComponentList).

  /** foreign.components["App Launcher"].tags: a string or an array. */
  datatype TagsSetting = TagText(text: string) | TagArray(items: seq<string>)

  /** foreign.components["App Launcher"] */
  datatype LauncherSection = LauncherSection(launchableByUser: bool, tags: Option<TagsSetting>)

  /** foreign.components.Toolbar, and also foreign.Toolbar */
  datatype ToolbarSection = ToolbarSection(iconClass: Option<string>, iconURL: Option<string>)

  /** foreign.components */
  datatype ForeignComponents = ForeignComponents(
    appLauncher: Option<LauncherSection>,
    toolbar: Option<ToolbarSection>)

  /** foreign */
  datatype Foreign = Foreign(components: Option<ForeignComponents>, toolbar: Option<ToolbarSection>)

  /** component; `kind` is its `type` property. */
  datatype ComponentSection = ComponentSection(
    displayName: Option<string>,
    kind: Option<string>,
    windowGroup: Option<string>)

  /** One catalog entry; `group` and `list` describe a group of components. */
  datatype ComponentConfig = ComponentConfig(
    group: Option<string>,
    list: seq<string>,
    component: ComponentSection,
    foreign: Option<Foreign>)
}
