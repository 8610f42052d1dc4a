/** The writes the launcher makes to its distributed stores. Every write
    is taken to succeed, so each one is recorded in order together with
    the value written. */
module Persist {
  import opened Dicts
  import opened Records
  import opened Pins

  datatype Write =
    | SetFolders(folders: Dict<Folder>)              // appFolders.folders
    | SetFoldersList(list: seq<string>)              // appFolders.list
    | SetAppDefinitions(apps: Dict<App>)             // appDefinitions
    | SetActiveFolder(name: string)                  // activeFolder
    | SetDeleted(deleted: seq<string>)               // deleted
    | SetActiveLauncherTags(tags: seq<string>)       // activeLauncherTags
    | SetPin(key: string, pin: Pin)                  // toolbar store: pins.<name>
    | UnsetPin(key: string)                          // toolbar store: pins.<name>
}
