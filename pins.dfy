/** The toolbar pin addPin writes for a launcher entry, and the key it is
    stored under (addPin, removePin, and the pin removal in deleteApp). */
module Pins {
  import opened Options
  import opened JsStrings
  import opened Dicts
  import opened Records

  const DOT_ESCAPE: string := "^DOT^"
  const PINS_PREFIX: string := "pins."

  /** `name.replace(/[.]/g, "^DOT^")`: dots would otherwise split the store
      field path. */
  function EscapeDots(s: string): (r: string)
    ensures '.' !in r
    ensures |r| >= |s|
  {
    if s == [] then []
    else (if s[0] == '.' then DOT_ESCAPE else [s[0]]) + EscapeDots(s[1..])
  }

  /** Reads an escaped name back. */
  function UnescapeDots(s: string): string {
    if s == [] then []
    else if |s| >= 5 && s[..5] == DOT_ESCAPE then "." + UnescapeDots(s[5..])
    else [s[0]] + UnescapeDots(s[1..])
  }

  /** A name without '^' comes back from its escaped form. */
  lemma {:induction false} UnescapeEscape(s: string)
    requires '^' !in s
    ensures UnescapeDots(EscapeDots(s)) == s
  {
    if s != [] {
      var rest := EscapeDots(s[1..]);
      assert '^' !in s[1..] by {
        forall i | 0 <= i < |s[1..]| ensures s[1..][i] != '^' { assert s[1..][i] == s[i + 1]; }
      }
      UnescapeEscape(s[1..]);
      if s[0] == '.' {
        assert EscapeDots(s) == DOT_ESCAPE + rest;
        assert (DOT_ESCAPE + rest)[..5] == DOT_ESCAPE && (DOT_ESCAPE + rest)[5..] == rest;
      } else {
        assert EscapeDots(s) == [s[0]] + rest;
        assert ([s[0]] + rest)[1..] == rest;
        assert s[0] != '^';
      }
    }
  }

  /** With '^' allowed, two names share a key: "a.b" and "a^DOT^b". */
  lemma EscapeCollides()
    ensures EscapeDots("a.b") == EscapeDots("a^DOT^b") && "a.b" != "a^DOT^b"
  {
    assert EscapeDots("b") == "b";
    assert EscapeDots(".b") == "^DOT^b";
    assert EscapeDots("a.b") == "a^DOT^b";
    assert EscapeDots("^DOT^b") == "^DOT^b";
    assert EscapeDots("a^DOT^b") == "a^DOT^b";
  }

  /** "pins." + the escaped name: the toolbar store field of a pin. */
  function PinKey(name: string): (key: string)
    ensures |key| >= |PINS_PREFIX| && key[..|PINS_PREFIX|] == PINS_PREFIX
    ensures '.' !in key[|PINS_PREFIX|..]
  {
    assert (PINS_PREFIX + EscapeDots(name))[|PINS_PREFIX|..] == EscapeDots(name);
    PINS_PREFIX + EscapeDots(name)
  }

  /** Pin keys of names without '^' differ exactly when the names do. */
  lemma PinKeyInjective(a: string, b: string)
    requires '^' !in a && '^' !in b
    ensures PinKey(a) == PinKey(b) <==> a == b
  {
    if PinKey(a) == PinKey(b) {
      assert EscapeDots(a) == PinKey(a)[|PINS_PREFIX|..];
      assert EscapeDots(b) == PinKey(b)[|PINS_PREFIX|..];
      UnescapeEscape(a);
      UnescapeEscape(b);
    }
  }

  /** The catalog key addPin accepts for a pin name: the name itself, or
      the name followed by " Component" ("Welcome" finds
      "Welcome Component"). */
  predicate NameMatches(key: string, name: string) {
    key == name || key == name + " Component"
  }

  /** The last catalog position whose key matches, or -1: the search loop
      has no break, so a later match overwrites an earlier one. */
  function LastMatch(keys: seq<string>, name: string): (i: int)
    ensures -1 <= i < |keys|
    ensures i >= 0 ==> NameMatches(keys[i], name)
    ensures forall j :: i < j < |keys| ==> !NameMatches(keys[j], name)
  {
    if keys == [] then -1
    else if NameMatches(keys[|keys| - 1], name) then |keys| - 1
    else LastMatch(keys[..|keys| - 1], name)
  }

  lemma LastMatchStep(keys: seq<string>, i: nat, name: string)
    requires i < |keys|
    ensures LastMatch(keys[..i + 1], name)
      == if NameMatches(keys[i], name) then i else LastMatch(keys[..i], name)
  {
    assert keys[..i + 1][..i] == keys[..i];
  }

  /** The catalog entry addPin toggles. */
  function Resolved(components: Dict<ComponentConfig>, name: string): Option<ComponentConfig>
    requires components.Valid()
  {
    var i := LastMatch(components.keys, name);
    if i >= 0 then Some(components.vals[components.keys[i]]) else None
  }

  /** The search loop of addPin. */
  method ResolveComponent(components: Dict<ComponentConfig>, name: string) returns (found: Option<ComponentConfig>)
    requires components.Valid()
    ensures found == Resolved(components, name)
  {
    found := None;
    var i := 0;
    while i < |components.keys|
      invariant 0 <= i <= |components.keys|
      invariant found == (var m := LastMatch(components.keys[..i], name);
                          if m >= 0 then Some(components.vals[components.keys[m]]) else None)
    {
      LastMatchStep(components.keys, i, name);
      var componentName := components.keys[i];
      if NameMatches(componentName, name) {
        found := Some(components.vals[componentName]);
      }
      i := i + 1;
    }
    assert components.keys[..i] == components.keys;
  }

  /** A pin is found exactly when some catalog key matches the name, and it
      is the entry under the last such key. */
  lemma ResolvedFacts(components: Dict<ComponentConfig>, name: string)
    requires components.Valid()
    ensures Resolved(components, name).Some? <==> exists k :: k in components.vals && NameMatches(k, name)
    ensures Resolved(components, name).Some? ==> exists i :: (0 <= i < |components.keys|
      && NameMatches(components.keys[i], name)
      && Resolved(components, name).value == components.vals[components.keys[i]]
      && forall j :: i < j < |components.keys| ==> !NameMatches(components.keys[j], name))
  {
    var i := LastMatch(components.keys, name);
    if exists k :: k in components.vals && NameMatches(k, name) {
      var k :| k in components.vals && NameMatches(k, name);
      var j :| 0 <= j < |components.keys| && components.keys[j] == k;
      assert i >= j;
    }
  }

  /** The `pin` argument: the name and display name it is called with. */
  datatype PinRequest = PinRequest(name: string, displayName: Option<string>)

  /** `component` of a pin: a component type, or the list of a group. */
  datatype PinComponent = ComponentType(kind: string) | GroupList(list: seq<string>)

  datatype PinParams = PinParams(addToWorkspace: bool, monitor: string, groupName: Option<string>)

  /** The pin descriptor; `kind` is its `type` property and `labelText`
      its `label`. */
  datatype Pin = Pin(
    kind: string,
    labelText: string,
    component: PinComponent,
    fontIcon: Option<string>,
    icon: Option<string>,
    toolbarSection: string,
    uuid: string,
    params: PinParams)

  /** foreign.components.Toolbar when every step of the chain is defined;
      reading a property past a missing step throws. */
  function ComponentsToolbar(c: ComponentConfig): Option<ToolbarSection> {
    if c.foreign.Some? && c.foreign.value.components.Some? then c.foreign.value.components.value.toolbar
    else None
  }

  /** fontIcon: "ff-ungrid" for a group, else the toolbar icon class, and ""
      when the lookup throws. */
  function FontIcon(c: ComponentConfig): Option<string> {
    if Truthy(c.group) then Some("ff-ungrid")
    else match ComponentsToolbar(c)
      case Some(t) => t.iconClass
      case None => Some("")
  }

  /** icon: the toolbar icon URL, and "" when the lookup throws. */
  function ImageIcon(c: ComponentConfig): Option<string> {
    match ComponentsToolbar(c)
    case Some(t) => t.iconURL
    case None => Some("")
  }

  /** The pin addPin builds for a resolved catalog entry; the uuid is a
      parameter. */
  function PinFor(req: PinRequest, c: ComponentConfig, uuid: string): Pin {
    var componentType := Or(c.group, Or(c.component.kind, req.name));
    Pin(
      "componentLauncher",
      Or(req.displayName, req.name),
      if Truthy(c.group) then GroupList(c.list) else ComponentType(componentType),
      FontIcon(c),
      ImageIcon(c),
      "center",
      uuid,
      PinParams(true, "mine", if Truthy(c.component.windowGroup) then c.component.windowGroup else None))
  }

  /** What the descriptor says: a component launcher in the centre of the
      toolbar added to the workspace on the user's monitor, labelled by the
      display name or else the name; a group launches its list with the
      "ff-ungrid" icon, anything else launches its type, or failing that
      its own name. */
  lemma PinForFacts(req: PinRequest, c: ComponentConfig, uuid: string)
    ensures var p := PinFor(req, c, uuid);
      && p.kind == "componentLauncher" && p.toolbarSection == "center" && p.uuid == uuid
      && p.params.addToWorkspace && p.params.monitor == "mine"
      && p.labelText == (if Truthy(req.displayName) then req.displayName.value else req.name)
      && (Truthy(c.group) ==> p.component == GroupList(c.list) && p.fontIcon == Some("ff-ungrid"))
      && (!Truthy(c.group) && Truthy(c.component.kind) ==> p.component == ComponentType(c.component.kind.value))
      && (!Truthy(c.group) && !Truthy(c.component.kind) ==> p.component == ComponentType(req.name))
      && (p.params.groupName.Some? <==> Truthy(c.component.windowGroup))
      && (ComponentsToolbar(c).None? ==> p.icon == Some("") && (!Truthy(c.group) ==> p.fontIcon == Some("")))
  {
  }

  /** "Welcome" resolves to the catalog's "Welcome Component". */
  lemma WelcomeResolves(c: ComponentConfig)
    ensures Resolved(Dict(["Welcome Component"], map["Welcome Component" := c]), "Welcome") == Some(c)
  {
    var keys := ["Welcome Component"];
    assert NameMatches(keys[0], "Welcome");
    assert LastMatch(keys, "Welcome") == 0;
  }
}
