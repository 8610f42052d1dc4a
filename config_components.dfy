/** loadInstalledConfigComponents: with the component catalog in hand, the
    folders lose the entries whose app no longer exists anywhere, and every
    catalog entry the user may launch and the launcher does not know yet
    becomes a config component. */
module ConfigComponents {
  import opened Options
  import opened JsArrays
  import opened JsStrings
  import opened Dicts
  import opened Records
  import opened Tags
  import opened Lookup

  /** A folder entry naming no catalog component and no user-defined app. */
  predicate IsOrphan(entry: App, componentNames: seq<string>, userAppIDs: seq<string>) {
    entry.name !in componentNames && entry.appID !in userAppIDs
  }

  /** `apps.map((entry, i) => { if (orphan) apps.splice(i, 1); })` from
      position k on, cur being the array as it is by then: map visits the
      positions of the original array in turn, so after a removal the
      entry that moves into position i is never looked at. */
  function PruneWalk(cur: seq<App>, k: nat, names: seq<string>, ids: seq<string>): seq<App>
    decreases |cur| - k
  {
    if k >= |cur| then cur
    else if IsOrphan(cur[k], names, ids) then PruneWalk(RemoveAt(cur, k), k + 1, names, ids)
    else PruneWalk(cur, k + 1, names, ids)
  }

  /** The entries that are not orphans, in order. */
  function NonOrphans(s: seq<App>, names: seq<string>, ids: seq<string>): seq<App> {
    if s == [] then []
    else (if IsOrphan(s[0], names, ids) then [] else [s[0]]) + NonOrphans(s[1..], names, ids)
  }

  /** The prune loop for one folder's entries. */
  method PruneOrphans(apps: seq<App>, names: seq<string>, ids: seq<string>) returns (pruned: seq<App>)
    ensures pruned == PruneWalk(apps, 0, names, ids)
  {
    pruned := apps;
    var k := 0;
    while k < |apps|
      invariant k <= |apps| && |pruned| <= |apps|
      invariant PruneWalk(pruned, k, names, ids) == PruneWalk(apps, 0, names, ids)
    {
      if k < |pruned| && IsOrphan(pruned[k], names, ids) {
        pruned := RemoveAt(pruned, k);
      }
      k := k + 1;
    }
  }

  lemma {:induction false} NonOrphansConcat(a: seq<App>, b: seq<App>, names: seq<string>, ids: seq<string>)
    ensures NonOrphans(a + b, names, ids) == NonOrphans(a, names, ids) + NonOrphans(b, names, ids)
  {
    if a == [] {
      assert a + b == b;
    } else {
      assert (a + b)[0] == a[0];
      assert (a + b)[1..] == a[1..] + b;
      NonOrphansConcat(a[1..], b, names, ids);
    }
  }

  /** Removing one orphan leaves the non-orphans as they were. */
  lemma NonOrphansRemoveOrphan(cur: seq<App>, k: nat, names: seq<string>, ids: seq<string>)
    requires k < |cur| && IsOrphan(cur[k], names, ids)
    ensures NonOrphans(RemoveAt(cur, k), names, ids) == NonOrphans(cur, names, ids)
  {
    assert cur == (cur[..k] + [cur[k]]) + cur[k + 1..];
    NonOrphansConcat(cur[..k] + [cur[k]], cur[k + 1..], names, ids);
    NonOrphansConcat(cur[..k], [cur[k]], names, ids);
    NonOrphansConcat(cur[..k], cur[k + 1..], names, ids);
    assert NonOrphans([cur[k]], names, ids) == [];
  }

  /** The non-orphans are exactly the entries that are not orphans. */
  lemma {:induction false} NonOrphansMember(s: seq<App>, e: App, names: seq<string>, ids: seq<string>)
    ensures e in NonOrphans(s, names, ids) <==> e in s && !IsOrphan(e, names, ids)
  {
    if s != [] {
      NonOrphansMember(s[1..], e, names, ids);
      assert s == [s[0]] + s[1..];
    }
  }

  /** The prune never drops an entry that is not an orphan, keeps the order
      of what it keeps, and only ever removes entries. */
  lemma {:induction false} PruneKeepsNonOrphans(cur: seq<App>, k: nat, names: seq<string>, ids: seq<string>)
    ensures NonOrphans(PruneWalk(cur, k, names, ids), names, ids) == NonOrphans(cur, names, ids)
    ensures multiset(PruneWalk(cur, k, names, ids)) <= multiset(cur)
    decreases |cur| - k
  {
    if k < |cur| {
      if IsOrphan(cur[k], names, ids) {
        PruneKeepsNonOrphans(RemoveAt(cur, k), k + 1, names, ids);
        NonOrphansRemoveOrphan(cur, k, names, ids);
      } else {
        PruneKeepsNonOrphans(cur, k + 1, names, ids);
      }
    }
  }

  /** Of two orphans in a row only the first goes: the second moves into
      the position just visited and escapes the check. */
  lemma PruneSkipsSecondOrphan(a: App, b: App, names: seq<string>, ids: seq<string>)
    requires IsOrphan(a, names, ids) && IsOrphan(b, names, ids)
    ensures PruneWalk([a, b], 0, names, ids) == [b]
  {
    assert RemoveAt([a, b], 0) == [b];
  }

  /** Every folder after the prune. */
  function PrunedFolders(folders: Dict<Folder>, names: seq<string>, ids: seq<string>): (r: Dict<Folder>)
    requires folders.Valid()
    ensures r.Valid() && r.keys == folders.keys && r.vals.Keys == folders.vals.Keys
  {
    Dict(folders.keys, map k | k in folders.vals :: folders.vals[k].(apps := PruneWalk(folders.vals[k].apps, 0, names, ids)))
  }

  /** The prune keeps every folder and every property of it but its
      entries, and of those every one that is not an orphan, in order. */
  lemma PrunedFoldersFacts(folders: Dict<Folder>, names: seq<string>, ids: seq<string>, k: string)
    requires folders.Valid() && k in folders.vals
    ensures var f := folders.vals[k]; var g := PrunedFolders(folders, names, ids).vals[k];
      && g == f.(apps := g.apps)
      && NonOrphans(g.apps, names, ids) == NonOrphans(f.apps, names, ids)
      && multiset(g.apps) <= multiset(f.apps)
  {
    PruneKeepsNonOrphans(folders.vals[k].apps, 0, names, ids);
  }

  /** `_get(component, 'foreign.components.App Launcher.launchableByUser')`
      is truthy. */
  predicate LaunchableByUser(c: ComponentConfig) {
    c.foreign.Some? && c.foreign.value.components.Some?
    && c.foreign.value.components.value.appLauncher.Some?
    && c.foreign.value.components.value.appLauncher.value.launchableByUser
  }

  /** `component.foreign.Toolbar && component.foreign.Toolbar.iconClass ? … : null`. */
  function ToolbarIcon(c: ComponentConfig): Option<string> {
    if c.foreign.Some? && c.foreign.value.toolbar.Some? && Truthy(c.foreign.value.toolbar.value.iconClass)
    then c.foreign.value.toolbar.value.iconClass
    else None
  }

  /** The config component loadInstalledConfigComponents builds for a
      catalog entry: keyed, identified and named by the component's name,
      displayed by its display name (or that name), with source "config". */
  function ConfigComponentFor(name: string, c: ComponentConfig): (app: App)
    ensures app.appID == name && app.name == name && app.source == Some("config")
    ensures app.displayName == Some(Or(c.component.displayName, name))
    ensures app.tags == ExtractTags(c)
  {
    App(name, name, Some(Or(c.component.displayName, name)), None, None, Some("config"), ExtractTags(c), None, ToolbarIcon(c))
  }

  /** One visit of loadInstalledConfigComponents' loop: the catalog name
      becomes a config component unless findAppByField('name', …) finds an
      app or config component by that name, or it is not launchable. */
  function Visit(apps: Dict<App>, configs: Dict<App>, catalog: Dict<ComponentConfig>, name: string): (r: Dict<App>)
    requires apps.Valid() && configs.Valid() && catalog.Valid() && name in catalog.vals
    ensures r.Valid()
  {
    if FindAppByField(apps, configs, NameField, name).None? && LaunchableByUser(catalog.vals[name])
    then configs.Put(name, ConfigComponentFor(name, catalog.vals[name]))
    else configs
  }

  /** The config components after the catalog names ks have been visited
      in order. */
  function Materialise(apps: Dict<App>, configs: Dict<App>, catalog: Dict<ComponentConfig>, ks: seq<string>): (r: Dict<App>)
    requires apps.Valid() && configs.Valid() && catalog.Valid()
    requires forall k :: k in ks ==> k in catalog.vals
    ensures r.Valid()
    decreases |ks|
  {
    if ks == [] then configs
    else Materialise(apps, Visit(apps, configs, catalog, ks[0]), catalog, ks[1..])
  }

  /** A visit touches its own name only. */
  lemma VisitFrame(apps: Dict<App>, configs: Dict<App>, catalog: Dict<ComponentConfig>, name: string)
    requires apps.Valid() && configs.Valid() && catalog.Valid() && name in catalog.vals
    ensures var r := Visit(apps, configs, catalog, name);
      forall k :: k != name ==> (k in r.vals <==> k in configs.vals) && (k in configs.vals ==> r.vals[k] == configs.vals[k])
  {
  }

  /** Config components already there and not visited stay as they are;
      no other key appears unless it was visited. */
  lemma {:induction false} MaterialiseFrame(apps: Dict<App>, configs: Dict<App>, catalog: Dict<ComponentConfig>, ks: seq<string>)
    requires apps.Valid() && configs.Valid() && catalog.Valid()
    requires forall k :: k in ks ==> k in catalog.vals
    ensures forall k :: k !in ks ==> (k in Materialise(apps, configs, catalog, ks).vals <==> k in configs.vals)
    ensures forall k :: k !in ks && k in configs.vals ==> Materialise(apps, configs, catalog, ks).vals[k] == configs.vals[k]
    decreases |ks|
  {
    if ks != [] {
      VisitFrame(apps, configs, catalog, ks[0]);
      MaterialiseFrame(apps, Visit(apps, configs, catalog, ks[0]), catalog, ks[1..]);
    }
  }

  /** Config components each named by their own key. */
  ghost predicate NamedByKey(configs: Dict<App>) {
    forall k :: k in configs.vals ==> configs.vals[k].name == k
  }

  /** No config component carries the name of a key it does not have. */
  lemma NoneNamed(configs: Dict<App>, name: string)
    requires configs.Valid() && NamedByKey(configs) && name !in configs.vals
    ensures forall a :: a in configs.Values() ==> a.name != name
  {
    forall a | a in configs.Values() ensures a.name != name {
      var i :| 0 <= i < |configs.Values()| && configs.Values()[i] == a;
      assert configs.keys[i] in configs.vals;
    }
  }

  /** A name not yet a config component becomes one exactly when it is
      launchable and no user app carries it; the visit keeps every config
      component named by its key. */
  lemma VisitNew(apps: Dict<App>, configs: Dict<App>, catalog: Dict<ComponentConfig>, name: string)
    requires apps.Valid() && configs.Valid() && catalog.Valid() && name in catalog.vals
    requires NamedByKey(configs) && name !in configs.vals
    ensures var r := Visit(apps, configs, catalog, name);
      && NamedByKey(r)
      && (name in r.vals <==> LaunchableByUser(catalog.vals[name]) && forall a :: a in apps.Values() ==> a.name != name)
      && (name in r.vals ==> r.vals[name] == ConfigComponentFor(name, catalog.vals[name]))
  {
    FindAppByFieldFacts(apps, configs, NameField, name);
    NoneNamed(configs, name);
  }

  /** Starting from config components none of which is visited (as
      initialize leaves them: none at all), a visited catalog name ends up
      a config component exactly when it is launchable by the user and no
      user app carries that name, and then it is the one built for it. */
  lemma {:induction false} MaterialiseExactly(apps: Dict<App>, configs: Dict<App>, catalog: Dict<ComponentConfig>, ks: seq<string>)
    requires apps.Valid() && configs.Valid() && catalog.Valid()
    requires forall k :: k in ks ==> k in catalog.vals
    requires Distinct(ks) && NamedByKey(configs)
    requires forall k :: k in ks ==> k !in configs.vals
    ensures forall k :: k in ks ==>
      (k in Materialise(apps, configs, catalog, ks).vals <==>
        LaunchableByUser(catalog.vals[k]) && forall a :: a in apps.Values() ==> a.name != k)
    ensures forall k :: k in ks && k in Materialise(apps, configs, catalog, ks).vals ==>
      Materialise(apps, configs, catalog, ks).vals[k] == ConfigComponentFor(k, catalog.vals[k])
    decreases |ks|
  {
    if ks != [] {
      var name := ks[0];
      var next := Visit(apps, configs, catalog, name);
      VisitNew(apps, configs, catalog, name);
      VisitFrame(apps, configs, catalog, name);
      DistinctTail(ks);
      MaterialiseExactly(apps, next, catalog, ks[1..]);
      MaterialiseFrame(apps, next, catalog, ks[1..]);
    }
  }
}
