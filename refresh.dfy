/** updateAppsInFolders: every folder but the Advanced App Launcher folder
    has, for each config component in turn, the last entry whose trimmed
    appID equals the component's trimmed appID replaced by the component. */
module Refresh {
  import opened JsStrings
  import opened Dicts
  import opened Records

  predicate SameTrimmedID(a: App, b: App) {
    Trim(a.appID) == Trim(b.appID)
  }

  /** The position the inner `folder.apps.map` leaves in `index`: the last
      entry matching c, or -1. */
  function LastTrimmedMatch(apps: seq<App>, c: App): (i: int)
    ensures -1 <= i < |apps|
    ensures i >= 0 ==> SameTrimmedID(apps[i], c)
    ensures forall j :: i < j < |apps| ==> !SameTrimmedID(apps[j], c)
  {
    if apps == [] then -1
    else if SameTrimmedID(apps[|apps| - 1], c) then |apps| - 1
    else LastTrimmedMatch(apps[..|apps| - 1], c)
  }

  /** Extending the scanned prefix by one entry. */
  lemma LastTrimmedMatchStep(apps: seq<App>, i: nat, c: App)
    requires i < |apps|
    ensures LastTrimmedMatch(apps[..i + 1], c)
      == if SameTrimmedID(apps[i], c) then i else LastTrimmedMatch(apps[..i], c)
  {
    assert apps[..i + 1][..i] == apps[..i];
  }

  /** The inner scan, as the source writes it: a forward pass that
      overwrites index on every match. */
  method FindLastTrimmedMatch(apps: seq<App>, c: App) returns (index: int)
    ensures index == LastTrimmedMatch(apps, c)
  {
    index := -1;
    var i := 0;
    while i < |apps|
      invariant 0 <= i <= |apps|
      invariant index == LastTrimmedMatch(apps[..i], c)
    {
      LastTrimmedMatchStep(apps, i, c);
      if SameTrimmedID(apps[i], c) {
        index := i;
      }
      i := i + 1;
    }
    assert apps[..i] == apps;
  }

  /** `apps.splice(index, 1, c)` when index > -1. */
  function ReplaceLastMatch(apps: seq<App>, c: App): seq<App> {
    var i := LastTrimmedMatch(apps, c);
    if i >= 0 then apps[i := c] else apps
  }

  /** Only the last matching entry is replaced, and by c itself. */
  lemma ReplaceLastMatchFacts(apps: seq<App>, c: App)
    ensures |ReplaceLastMatch(apps, c)| == |apps|
    ensures forall j :: 0 <= j < |apps| ==>
      if j == LastTrimmedMatch(apps, c) then ReplaceLastMatch(apps, c)[j] == c && SameTrimmedID(apps[j], c)
      else ReplaceLastMatch(apps, c)[j] == apps[j]
  {
  }

  /** One folder's entries after every config component, in order. */
  function RefreshedApps(apps: seq<App>, configs: seq<App>): seq<App>
    decreases |configs|
  {
    if configs == [] then apps
    else RefreshedApps(ReplaceLastMatch(apps, configs[0]), configs[1..])
  }

  /** The refresh keeps the number of entries, and every entry either stays
      as it was or is now a config component with the same trimmed appID;
      an entry that matches no config component is untouched. */
  lemma {:induction false} RefreshedAppsShape(apps: seq<App>, configs: seq<App>)
    ensures |RefreshedApps(apps, configs)| == |apps|
    ensures forall j :: 0 <= j < |apps| ==>
      RefreshedApps(apps, configs)[j] == apps[j]
      || (RefreshedApps(apps, configs)[j] in configs && SameTrimmedID(RefreshedApps(apps, configs)[j], apps[j]))
    ensures forall j :: 0 <= j < |apps| && (forall c :: c in configs ==> !SameTrimmedID(apps[j], c)) ==>
      RefreshedApps(apps, configs)[j] == apps[j]
    decreases |configs|
  {
    if configs != [] {
      var next := ReplaceLastMatch(apps, configs[0]);
      ReplaceLastMatchFacts(apps, configs[0]);
      RefreshedAppsShape(next, configs[1..]);
      var r := RefreshedApps(apps, configs);
      assert r == RefreshedApps(next, configs[1..]);
      forall j | 0 <= j < |apps|
        ensures r[j] == apps[j] || (r[j] in configs && SameTrimmedID(r[j], apps[j]))
      {
        assert next[j] == apps[j] || (next[j] == configs[0] && SameTrimmedID(next[j], apps[j]));
        if r[j] != next[j] {
          assert r[j] in configs[1..];
        }
      }
      forall j | 0 <= j < |apps| && (forall c :: c in configs ==> !SameTrimmedID(apps[j], c))
        ensures r[j] == apps[j]
      {
        assert next[j] == apps[j];
        assert forall c :: c in configs[1..] ==> c in configs;
      }
    }
  }

  /** Processing the remaining config components after some of them. */
  lemma {:induction false} RefreshedAppsAppend(apps: seq<App>, a: seq<App>, c: App)
    ensures RefreshedApps(apps, a + [c]) == ReplaceLastMatch(RefreshedApps(apps, a), c)
    decreases |a|
  {
    if a == [] {
      assert [] + [c] == [c];
      assert [c][1..] == [];
    } else {
      assert (a + [c])[0] == a[0];
      assert (a + [c])[1..] == a[1..] + [c];
      RefreshedAppsAppend(ReplaceLastMatch(apps, a[0]), a[1..], c);
    }
  }

  lemma RefreshedAppsStep(apps: seq<App>, configs: seq<App>, n: nat)
    requires n < |configs|
    ensures RefreshedApps(apps, configs[..n + 1]) == ReplaceLastMatch(RefreshedApps(apps, configs[..n]), configs[n])
  {
    assert configs[..n + 1] == configs[..n] + [configs[n]];
    RefreshedAppsAppend(apps, configs[..n], configs[n]);
  }

  /** Two entry lists of the same length whose entries agree, position by
      position, on their trimmed appIDs. */
  predicate SameTrims(a: seq<App>, b: seq<App>) {
    |a| == |b| && forall j :: 0 <= j < |a| ==> SameTrimmedID(a[j], b[j])
  }

  /** A replacement keeps the trimmed appID at every position. */
  lemma ReplaceKeepsTrims(apps: seq<App>, c: App)
    ensures SameTrims(ReplaceLastMatch(apps, c), apps)
  {
    ReplaceLastMatchFacts(apps, c);
  }

  /** The last match depends on the trimmed appIDs alone. */
  lemma {:induction false} LastMatchByTrims(a: seq<App>, b: seq<App>, c: App)
    requires SameTrims(a, b)
    ensures LastTrimmedMatch(a, c) == LastTrimmedMatch(b, c)
    decreases |a|
  {
    if a != [] {
      var n := |a| - 1;
      assert SameTrimmedID(a[n], c) <==> SameTrimmedID(b[n], c);
      assert SameTrims(a[..n], b[..n]) by {
        forall j | 0 <= j < n ensures SameTrimmedID(a[..n][j], b[..n][j]) {
          assert a[..n][j] == a[j] && b[..n][j] == b[j];
        }
      }
      LastMatchByTrims(a[..n], b[..n], c);
    }
  }

  /** An entry that is already c stays c while no later config component
      shares its trimmed appID. */
  lemma {:induction false} RefreshKeepsAt(x: seq<App>, post: seq<App>, i: nat, c: App)
    requires i < |x| && x[i] == c
    requires forall d :: d in post ==> !SameTrimmedID(c, d)
    ensures |RefreshedApps(x, post)| == |x| && RefreshedApps(x, post)[i] == c
    decreases |post|
  {
    if post != [] {
      var y := ReplaceLastMatch(x, post[0]);
      ReplaceLastMatchFacts(x, post[0]);
      assert !SameTrimmedID(c, post[0]);
      assert y[i] == c;
      assert forall d :: d in post[1..] ==> d in post;
      RefreshKeepsAt(y, post[1..], i, c);
    }
  }

  /** The config component at position n ends up in place of the folder's
      last entry sharing its trimmed appID, unless a later component shares
      that appID too (the later one then wins). */
  lemma {:induction false} RefreshReplacesLastMatch(apps: seq<App>, configs: seq<App>, n: nat)
    requires n < |configs| && LastTrimmedMatch(apps, configs[n]) >= 0
    requires forall m :: n < m < |configs| ==> !SameTrimmedID(configs[m], configs[n])
    ensures |RefreshedApps(apps, configs)| == |apps|
    ensures RefreshedApps(apps, configs)[LastTrimmedMatch(apps, configs[n])] == configs[n]
    decreases n
  {
    var c := configs[n];
    var i := LastTrimmedMatch(apps, c);
    var next := ReplaceLastMatch(apps, configs[0]);
    assert RefreshedApps(apps, configs) == RefreshedApps(next, configs[1..]);
    if n == 0 {
      ReplaceLastMatchFacts(apps, c);
      forall d | d in configs[1..] ensures !SameTrimmedID(c, d) {
        var m :| 0 <= m < |configs[1..]| && configs[1..][m] == d;
        assert configs[m + 1] == d;
      }
      RefreshKeepsAt(next, configs[1..], i, c);
    } else {
      ReplaceKeepsTrims(apps, configs[0]);
      LastMatchByTrims(next, apps, c);
      assert configs[1..][n - 1] == c;
      forall m | n - 1 < m < |configs[1..]| ensures !SameTrimmedID(configs[1..][m], configs[1..][n - 1]) {
        assert configs[1..][m] == configs[m + 1];
      }
      RefreshReplacesLastMatch(next, configs[1..], n - 1);
    }
  }

  /** The loop over config components for one folder. */
  method RefreshFolderApps(apps: seq<App>, configs: seq<App>) returns (r: seq<App>)
    ensures r == RefreshedApps(apps, configs)
  {
    r := apps;
    var n := 0;
    while n < |configs|
      invariant 0 <= n <= |configs|
      invariant r == RefreshedApps(apps, configs[..n])
    {
      var c := configs[n];
      var index := FindLastTrimmedMatch(r, c);
      RefreshedAppsStep(apps, configs, n);
      if index > -1 {
        r := r[index := c];
      }
      n := n + 1;
    }
    assert configs[..n] == configs;
  }

  /** One folder after the refresh. */
  function RefreshedFolder(name: string, f: Folder, configs: seq<App>): Folder {
    if name == ADVANCED_APP_LAUNCHER then f else f.(apps := RefreshedApps(f.apps, configs))
  }

  /** All folders after the refresh. */
  function RefreshedFolders(folders: Dict<Folder>, configs: seq<App>): (r: Dict<Folder>)
    requires folders.Valid()
    ensures r.Valid() && r.keys == folders.keys && r.vals.Keys == folders.vals.Keys
  {
    Dict(folders.keys, map k | k in folders.vals :: RefreshedFolder(k, folders.vals[k], configs))
  }

  /** Folder names and every folder property but the entries stay; the
      Advanced App Launcher folder stays whole; each other folder keeps its
      number of entries, each of them kept or replaced by a config
      component with the same trimmed appID. */
  lemma RefreshedFoldersFacts(folders: Dict<Folder>, configs: seq<App>, k: string)
    requires folders.Valid() && k in folders.vals
    ensures var f := folders.vals[k]; var g := RefreshedFolders(folders, configs).vals[k];
      g.name == f.name && g.icon == f.icon && g.canEdit == f.canEdit && g.canDelete == f.canDelete
      && g.disableUserRemove == f.disableUserRemove && |g.apps| == |f.apps|
      && (k == ADVANCED_APP_LAUNCHER ==> g == f)
      && forall j :: 0 <= j < |f.apps| ==>
        g.apps[j] == f.apps[j] || (g.apps[j] in configs && SameTrimmedID(g.apps[j], f.apps[j]))
  {
    RefreshedAppsShape(folders.vals[k].apps, configs);
  }

  /** In every folder but the Advanced App Launcher folder, the last entry
      sharing a config component's trimmed appID is that component, unless
      a later component shares the appID too. */
  lemma RefreshedFolderReplaces(folders: Dict<Folder>, configs: seq<App>, k: string, n: nat)
    requires folders.Valid() && k in folders.vals && k != ADVANCED_APP_LAUNCHER
    requires n < |configs| && LastTrimmedMatch(folders.vals[k].apps, configs[n]) >= 0
    requires forall m :: n < m < |configs| ==> !SameTrimmedID(configs[m], configs[n])
    ensures var i := LastTrimmedMatch(folders.vals[k].apps, configs[n]);
      var g := RefreshedFolders(folders, configs).vals[k];
      i < |g.apps| && g.apps[i] == configs[n]
  {
    RefreshReplacesLastMatch(folders.vals[k].apps, configs, n);
  }
}
