/** Tags: the tags typed for a new app, the active tag registry
    (addTag/deleteTag), the tags a catalog entry declares, and the
    duplicate-free union of the tags of all apps (getAllAppsTags). */
module Tags {
  import opened Options
  import opened JsArrays
  import opened JsStrings
  import opened Records

  /** addApp's `app.tags !== "" ? app.tags.split(",") : []`: no tags for
      "", otherwise the comma-separated pieces, which join back to the
      text. */
  function TagsFromText(text: string): (tags: seq<string>)
    ensures tags == [] <==> text == ""
    ensures forall i :: 0 <= i < |tags| ==> ',' !in tags[i]
    ensures text != "" ==> Join(tags) == text
  {
    if text == "" then []
    else
      JoinSplit(text);
      Split(text)
  }

  /** The registry after addTag(t): t is pushed only when indexOf finds
      no copy of it. */
  function WithTag(tags: seq<string>, t: string): seq<string> {
    if IndexOf(tags, t) < 0 then tags + [t] else tags
  }

  /** The registry after deleteTag(t): tags.splice(tags.indexOf(t), 1). */
  function WithoutTag(tags: seq<string>, t: string): seq<string> {
    SpliceOne(tags, IndexOf(tags, t))
  }

  /** addTag leaves t registered exactly as often as before, or exactly
      once when it was missing; nothing else changes, and adding it again
      changes nothing. */
  lemma AddTagOnce(tags: seq<string>, t: string)
    ensures t in WithTag(tags, t)
    ensures multiset(WithTag(tags, t))[t] == if t in tags then multiset(tags)[t] else 1
    ensures t in tags ==> WithTag(tags, t) == tags
    ensures t !in tags ==> WithTag(tags, t) == tags + [t]
    ensures WithTag(WithTag(tags, t), t) == WithTag(tags, t)
  {
    if t !in tags {
      assert multiset(tags)[t] == 0;
    }
  }

  /** deleteTag of a registered tag removes its first copy and keeps the
      others in order; of an unregistered one it drops the last tag (the
      -1 that indexOf returns is read by splice as "the last position"). */
  lemma DeleteTagFirst(tags: seq<string>, t: string)
    ensures t in tags ==>
      var i := IndexOf(tags, t);
      && WithoutTag(tags, t) == tags[..i] + tags[i + 1..]
      && t !in tags[..i]
      && multiset(WithoutTag(tags, t)) + multiset{t} == multiset(tags)
    ensures t !in tags ==> WithoutTag(tags, t) == if tags == [] then [] else tags[..|tags| - 1]
  {
    if t in tags {
      SpliceAtIndexOfPresent(tags, t);
    } else {
      SpliceAtIndexOfAbsent(tags, t);
    }
  }

  /** extractTagsFromFinsembleComponentConfig: the tags under
      foreign.components["App Launcher"], a single string made into a
      one-element list, and [] when any level is missing or the tags are
      falsy (undefined or ""). */
  function ExtractTags(config: ComponentConfig): seq<string> {
    if config.foreign.None? then []
    else if config.foreign.value.components.None? then []
    else if config.foreign.value.components.value.appLauncher.None? then []
    else
      match config.foreign.value.components.value.appLauncher.value.tags
      case None => []
      case Some(TagText(text)) => if text == "" then [] else [text]
      case Some(TagArray(items)) => items
  }

  /** A catalog entry with a declared App Launcher section. */
  function ConfigWithTags(tags: TagsSetting): ComponentConfig {
    ComponentConfig(None, [], ComponentSection(None, None, None),
      Some(Foreign(Some(ForeignComponents(Some(LauncherSection(true, Some(tags))), None)), None)))
  }

  /** A single tag reads the same whether written as a string or as a
      one-element array, and the empty string reads as no tags. */
  lemma ExtractTagsNormalises(text: string)
    ensures ExtractTags(ConfigWithTags(TagText(text))) ==
      if text == "" then [] else ExtractTags(ConfigWithTags(TagArray([text])))
  {
  }

  /** The tags of the apps one after another, as `tags = tags.concat(app.tags)`
      collects them. */
  function AllTags(apps: seq<App>): seq<string> {
    if apps == [] then [] else AllTags(apps[..|apps| - 1]) + apps[|apps| - 1].tags
  }

  /** A tag is collected exactly when some app carries it. */
  lemma {:induction false} AllTagsMembers(apps: seq<App>)
    ensures forall t :: t in AllTags(apps) <==> exists i :: 0 <= i < |apps| && t in apps[i].tags
  {
    if apps != [] {
      var init := apps[..|apps| - 1];
      AllTagsMembers(init);
      assert forall i :: 0 <= i < |init| ==> init[i] == apps[i];
    }
  }

  /** The tags at positions from..: kept where indexOf finds them first. */
  function FirstOccurrencesFrom(all: seq<string>, from: nat): (r: seq<string>)
    requires from <= |all|
    ensures forall t :: t in r ==> t in all[from..] && IndexOf(all, t) >= from
    decreases |all| - from
  {
    if from == |all| then []
    else
      var rest := FirstOccurrencesFrom(all, from + 1);
      (if IndexOf(all, all[from]) == from then [all[from]] else []) + rest
  }

  /** `tags.filter((tag, index) => tags.indexOf(tag) === index)`. */
  function FirstOccurrences(all: seq<string>): seq<string> {
    FirstOccurrencesFrom(all, 0)
  }

  predicate NoDuplicates(s: seq<string>) {
    forall i, j :: 0 <= i < j < |s| ==> s[i] != s[j]
  }

  /** The tags of r come in the order of their first occurrence in all. */
  predicate InFirstOccurrenceOrder(all: seq<string>, r: seq<string>) {
    forall i, j :: 0 <= i < j < |r| ==> IndexOf(all, r[i]) < IndexOf(all, r[j])
  }

  lemma {:induction false} FirstOccurrencesFromOrdered(all: seq<string>, from: nat)
    requires from <= |all|
    ensures InFirstOccurrenceOrder(all, FirstOccurrencesFrom(all, from))
    decreases |all| - from
  {
    if from < |all| {
      FirstOccurrencesFromOrdered(all, from + 1);
      var rest := FirstOccurrencesFrom(all, from + 1);
      if IndexOf(all, all[from]) == from {
        OrderedCons(all, all[from], rest);
      }
    }
  }

  /** A tag first occurring before every tag of an ordered list can lead it. */
  lemma OrderedCons(all: seq<string>, x: string, rest: seq<string>)
    requires InFirstOccurrenceOrder(all, rest)
    requires forall t :: t in rest ==> IndexOf(all, t) > IndexOf(all, x)
    ensures InFirstOccurrenceOrder(all, [x] + rest)
  {
    var r := [x] + rest;
    forall i, j | 0 <= i < j < |r| ensures IndexOf(all, r[i]) < IndexOf(all, r[j]) {
      assert IndexOf(all, x) < IndexOf(all, r[j]) by {
        assert r[j] == rest[j - 1] && rest[j - 1] in rest;
      }
      if i > 0 {
        assert IndexOf(all, r[i]) < IndexOf(all, r[j]) by {
          assert r[i] == rest[i - 1] && r[j] == rest[j - 1];
        }
      }
    }
  }

  lemma {:induction false} FirstOccurrencesFromComplete(all: seq<string>, from: nat)
    requires from <= |all|
    ensures forall t :: t in all[from..] && IndexOf(all, t) >= from ==> t in FirstOccurrencesFrom(all, from)
    decreases |all| - from
  {
    if from < |all| {
      FirstOccurrencesFromComplete(all, from + 1);
      assert all[from..] == [all[from]] + all[from + 1..];
    }
  }

  /** getAllAppsTags' filter keeps every tag once, in the order of its
      first occurrence, and keeps no tag that was not there. */
  lemma FirstOccurrencesFacts(all: seq<string>)
    ensures var r := FirstOccurrences(all);
      && NoDuplicates(r)
      && (forall t :: t in r <==> t in all)
      && InFirstOccurrenceOrder(all, r)
  {
    FirstOccurrencesFromOrdered(all, 0);
    FirstOccurrencesFromComplete(all, 0);
    assert all[0..] == all;
    var r := FirstOccurrences(all);
    forall i, j | 0 <= i < j < |r| ensures r[i] != r[j] {
      assert IndexOf(all, r[i]) < IndexOf(all, r[j]);
    }
  }
}
