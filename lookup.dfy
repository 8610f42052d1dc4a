/** The read projections over the cached apps: findAppByField, getAllApps
    and the tag refresh getActiveFolder applies to the active folder. */
module Lookup {
  import opened Options
  import opened Dicts
  import opened Records

  /** The two properties findAppByField is called with. */
  datatype AppField = NameField | AppIDField

  function FieldOf(app: App, field: AppField): string {
    match field
    case NameField => app.name
    case AppIDField => app.appID
  }

  /** Array.prototype.find: the first app whose field holds value. */
  function FindIn(apps: seq<App>, field: AppField, value: string): (r: Option<App>)
    ensures r.None? <==> forall i :: 0 <= i < |apps| ==> FieldOf(apps[i], field) != value
    ensures r.Some? ==> exists i :: (0 <= i < |apps| && apps[i] == r.value
      && FieldOf(apps[i], field) == value
      && forall j :: 0 <= j < i ==> FieldOf(apps[j], field) != value)
  {
    if apps == [] then None
    else if FieldOf(apps[0], field) == value then
      assert apps[0] == apps[0];
      Some(apps[0])
    else
      var r := FindIn(apps[1..], field, value);
      if r.Some? then
        var i :| 0 <= i < |apps[1..]| && apps[1..][i] == r.value
          && FieldOf(apps[1..][i], field) == value
          && forall j :: 0 <= j < i ==> FieldOf(apps[1..][j], field) != value;
        assert apps[i + 1] == r.value;
        assert forall j :: 0 < j < i + 1 ==> apps[j] == apps[1..][j - 1];
        r
      else
        assert forall i :: 0 < i < |apps| ==> apps[i] == apps[1..][i - 1];
        r
  }

  /** findAppByField: the first user app whose field holds value, and only
      when there is none, the first such config component. */
  function FindAppByField(apps: Dict<App>, configs: Dict<App>, field: AppField, value: string): (r: Option<App>)
    requires apps.Valid() && configs.Valid()
    ensures FindIn(apps.Values(), field, value).Some? ==> r == FindIn(apps.Values(), field, value)
    ensures FindIn(apps.Values(), field, value).None? ==> r == FindIn(configs.Values(), field, value)
  {
    var fromApps := FindIn(apps.Values(), field, value);
    if fromApps.Some? then fromApps else FindIn(configs.Values(), field, value)
  }

  /** What findAppByField finds carries the value, is one of the cached
      apps, and it finds something exactly when some cached app carries
      the value. */
  lemma FindAppByFieldFacts(apps: Dict<App>, configs: Dict<App>, field: AppField, value: string)
    requires apps.Valid() && configs.Valid()
    ensures var r := FindAppByField(apps, configs, field, value);
      && (r.Some? <==> exists a :: a in apps.Values() + configs.Values() && FieldOf(a, field) == value)
      && (r.Some? ==> FieldOf(r.value, field) == value && r.value in apps.Values() + configs.Values())
      && ((exists a :: a in apps.Values() && FieldOf(a, field) == value) ==> r.Some? && r.value in apps.Values())
  {
    var all := apps.Values() + configs.Values();
    var r := FindAppByField(apps, configs, field, value);
    if exists a :: a in all && FieldOf(a, field) == value {
      var a :| a in all && FieldOf(a, field) == value;
      if a in apps.Values() {
        var i :| 0 <= i < |apps.Values()| && apps.Values()[i] == a;
        assert FieldOf(apps.Values()[i], field) == value;
      } else {
        assert a in configs.Values();
        var i :| 0 <= i < |configs.Values()| && configs.Values()[i] == a;
        assert FieldOf(configs.Values()[i], field) == value;
      }
    }
  }

  /** getAllApps: Object.assign({}, apps, configComponents). */
  function AllApps(apps: Dict<App>, configs: Dict<App>): Dict<App>
    requires apps.Valid() && configs.Valid()
  {
    Assign(Assign(Empty(), apps), configs)
  }

  /** getAllApps holds every user app and every config component; on a
      shared key the config component wins; the user apps' keys come first
      in their own order. */
  lemma AllAppsFacts(apps: Dict<App>, configs: Dict<App>)
    requires apps.Valid() && configs.Valid()
    ensures AllApps(apps, configs) == Assign(apps, configs)
    ensures AllApps(apps, configs).Valid()
    ensures forall k :: k in AllApps(apps, configs).vals <==> k in apps.vals || k in configs.vals
    ensures forall k :: k in configs.vals ==> AllApps(apps, configs).vals[k] == configs.vals[k]
    ensures forall k :: k in apps.vals && k !in configs.vals ==> AllApps(apps, configs).vals[k] == apps.vals[k]
    ensures AllApps(apps, configs).keys[..|apps.keys|] == apps.keys
  {
    AssignToEmpty(apps);
  }

  /** getActiveFolder's refresh of each entry: the tags of the app
      findAppByField finds by appID, or [] when none is found. */
  function RefreshedTags(entries: seq<App>, apps: Dict<App>, configs: Dict<App>): (r: seq<App>)
    requires apps.Valid() && configs.Valid()
    ensures |r| == |entries|
    ensures forall i :: 0 <= i < |entries| ==>
      r[i] == entries[i].(tags := match FindAppByField(apps, configs, AppIDField, entries[i].appID)
                                  case Some(def) => def.tags
                                  case None => [])
  {
    seq(|entries|, i requires 0 <= i < |entries| =>
      match FindAppByField(apps, configs, AppIDField, entries[i].appID)
      case Some(def) => entries[i].(tags := def.tags)
      case None => entries[i].(tags := []))
  }

  /** After the refresh an entry whose app is defined carries that app's
      tags, an entry whose app is gone has no tags, and nothing else about
      the entries changes. */
  lemma RefreshedTagsFacts(entries: seq<App>, apps: Dict<App>, configs: Dict<App>, i: int)
    requires apps.Valid() && configs.Valid()
    requires 0 <= i < |entries|
    ensures var r := RefreshedTags(entries, apps, configs);
      && r[i].(tags := entries[i].tags) == entries[i]
      && ((forall a :: a in apps.Values() + configs.Values() ==> a.appID != entries[i].appID) ==> r[i].tags == [])
      && ((exists a :: a in apps.Values() && a.appID == entries[i].appID) ==>
            exists a :: a in apps.Values() && a.appID == entries[i].appID && a.tags == r[i].tags)
  {
    FindAppByFieldFacts(apps, configs, AppIDField, entries[i].appID);
  }
}
