/** The `webform_actions` element plugin: its default properties, what kind of
    element it is, and which button settings its configuration form offers. */
module ActionsPlugin {
  import opened Wrappers
  import opened Buttons
  import ActionsElement

  /** A property value: a string, a boolean, or an empty array. */
  datatype PropValue = Text(text: string) | Flag(flag: bool) | EmptyArray

  /** The properties the plugin declares: three shared by every element, and
      three per button. */
  datatype Prop = Title | ElementAttributes | States | PerButton(button: Button, setting: Setting)

  /** The array key under which a property is stored. */
  function PropName(p: Prop): string {
    match p
    case Title => "title"
    case ElementAttributes => "attributes"
    case States => "states"
    case PerButton(b, s) => Key(b, s)
  }

  /** The shared property names are not per-button keys. */
  lemma BaseNameNotKey(b: Button, s: Setting)
    ensures Key(b, s) != "title" && Key(b, s) != "attributes" && Key(b, s) != "states"
  {
    ParseKeyRoundTrip(b, s);
    assert ParseKey("title") == None;
    assert ParseKey("attributes") == None;
    assert ParseKey("states") == None;
  }

  /** The properties every element has: title, attributes and states. */
  const BaseProperties: map<Prop, PropValue> := map[Title := Text(""), ElementAttributes := EmptyArray, States := EmptyArray]

  /** The default value of one per-button setting. */
  function DefaultValue(s: Setting): PropValue {
    match s
    case Hide => Flag(false)
    case Label => Text("")
    case Attributes => EmptyArray
  }

  /** The per-button properties of the buttons in `Order[from..]`. */
  function ButtonPropsFrom(from: nat): set<Prop>
    requires from <= |Order|
    decreases |Order| - from
  {
    if from == |Order| then {}
    else
      var b := Order[from];
      {PerButton(b, Hide), PerButton(b, Label), PerButton(b, Attributes)} + ButtonPropsFrom(from + 1)
  }

  /** A property is in `ButtonPropsFrom(from)` iff it belongs to a button at or
      after position `from`. */
  lemma {:induction false} ButtonPropsFromMember(from: nat, p: Prop)
    requires from <= |Order|
    decreases |Order| - from
    ensures p in ButtonPropsFrom(from) <==> p.PerButton? && from <= IndexOf(p.button)
  {
    if from < |Order| {
      ButtonPropsFromMember(from + 1, p);
      IndexOfOrder(from);
      if p.PerButton? && IndexOf(p.button) == from {
        assert p.button == Order[from];
        match p.setting
        case Hide =>
        case Label =>
        case Attributes =>
      }
    }
  }

  /** The loop of `getDefaultProperties` over `Order[from..]`. */
  function AddButtonDefaults(props: map<Prop, PropValue>, from: nat): (r: map<Prop, PropValue>)
    requires from <= |Order|
    decreases |Order| - from
    ensures r.Keys == props.Keys + ButtonPropsFrom(from)
  {
    if from == |Order| then props
    else
      var b := Order[from];
      var next := props[PerButton(b, Hide) := Flag(false)][PerButton(b, Label) := Text("")][PerButton(b, Attributes) := EmptyArray];
      AddButtonDefaults(next, from + 1)
  }

  /** Each button property receives its default; every other property keeps
      its value. */
  lemma {:induction false} AddButtonDefaultsValue(props: map<Prop, PropValue>, from: nat, p: Prop)
    requires from <= |Order|
    decreases |Order| - from
    ensures p.PerButton? && from <= IndexOf(p.button) ==>
              p in AddButtonDefaults(props, from) && AddButtonDefaults(props, from)[p] == DefaultValue(p.setting)
    ensures p in props && !(p.PerButton? && from <= IndexOf(p.button)) ==>
              p in AddButtonDefaults(props, from) && AddButtonDefaults(props, from)[p] == props[p]
  {
    if from < |Order| {
      var b := Order[from];
      var next := props[PerButton(b, Hide) := Flag(false)][PerButton(b, Label) := Text("")][PerButton(b, Attributes) := EmptyArray];
      AddButtonDefaultsValue(next, from + 1, p);
      IndexOfOrder(from);
      if p.PerButton? && IndexOf(p.button) == from {
        assert p.button == b;
        assert p in next && next[p] == DefaultValue(p.setting) by {
          match p.setting
          case Hide =>
          case Label =>
          case Attributes =>
        }
      } else if p in props && !(p.PerButton? && from <= IndexOf(p.button)) {
        assert p != PerButton(b, Hide) && p != PerButton(b, Label) && p != PerButton(b, Attributes);
        assert p in next && next[p] == props[p];
      }
    }
  }


  /** `ButtonPropsFrom(from)` holds three properties per remaining button. */
  lemma {:induction false} ButtonPropsFromSize(from: nat)
    requires from <= |Order|
    decreases |Order| - from
    ensures |ButtonPropsFrom(from)| == 3 * (|Order| - from)
  {
    if from < |Order| {
      var b := Order[from];
      IndexOfOrder(from);
      ButtonPropsFromSize(from + 1);
      ButtonPropsFromMember(from + 1, PerButton(b, Hide));
      ButtonPropsFromMember(from + 1, PerButton(b, Label));
      ButtonPropsFromMember(from + 1, PerButton(b, Attributes));
      var own := {PerButton(b, Hide), PerButton(b, Label), PerButton(b, Attributes)};
      assert |own| == 3;
      assert own !! ButtonPropsFrom(from + 1);
    }
  }

  /** The default of each property, property by property: title '', empty
      attributes and states, and for every button `_hide` FALSE, `__label` ''
      and `__attributes` empty. */
  function DefaultOf(p: Prop): PropValue {
    match p
    case Title => Text("")
    case ElementAttributes => EmptyArray
    case States => EmptyArray
    case PerButton(_, s) => DefaultValue(s)
  }

  /** The loop over every button declares every property with its default. */
  lemma AllButtonDefaults()
    ensures forall p: Prop :: p in AddButtonDefaults(BaseProperties, 0)
              && AddButtonDefaults(BaseProperties, 0)[p] == DefaultOf(p)
  {
    forall p: Prop
      ensures p in AddButtonDefaults(BaseProperties, 0) && AddButtonDefaults(BaseProperties, 0)[p] == DefaultOf(p)
    {
      AddButtonDefaultsValue(BaseProperties, 0, p);
      match p
      case PerButton(b, s) =>
        assert 0 <= IndexOf(b);
      case _ =>
        assert p in BaseProperties && BaseProperties[p] == DefaultOf(p);
    }
  }

  /** `getDefaultProperties`: every property, with its default. */
  function DefaultProperties(): (r: map<Prop, PropValue>)
    ensures forall p: Prop :: p in r && r[p] == DefaultOf(p)
  {
    AllButtonDefaults();
    AddButtonDefaults(BaseProperties, 0)
  }

  lemma BaseSize()
    ensures |BaseProperties.Keys| == 3
  {
    assert BaseProperties.Keys == {Title, ElementAttributes, States};
  }

  lemma BaseNotPerButton()
    ensures BaseProperties.Keys !! ButtonPropsFrom(0)
  {
    assert BaseProperties.Keys == {Title, ElementAttributes, States};
    ButtonPropsFromMember(0, Title);
    ButtonPropsFromMember(0, ElementAttributes);
    ButtonPropsFromMember(0, States);
  }

  lemma DisjointUnionSize<T>(a: set<T>, b: set<T>)
    requires a !! b
    ensures |a + b| == |a| + |b|
  {
    assert a * b == {};
  }

  /** `getDefaultProperties` declares 21 properties. */
  lemma DefaultPropertiesSize()
    ensures |DefaultProperties()| == 21
  {
    var perButton := ButtonPropsFrom(0);
    ButtonPropsFromSize(0);
    BaseSize();
    BaseNotPerButton();
    DisjointUnionSize(BaseProperties.Keys, perButton);
    assert DefaultProperties().Keys == BaseProperties.Keys + perButton;
  }

  /** The 21 properties are stored under 21 distinct keys. */
  lemma PropNamesDistinct(p: Prop, q: Prop)
    requires p != q
    ensures PropName(p) != PropName(q)
  {
    if p.PerButton? && q.PerButton? {
      ParseKeyRoundTrip(p.button, p.setting);
      ParseKeyRoundTrip(q.button, q.setting);
    } else if p.PerButton? {
      BaseNameNotKey(p.button, p.setting);
    } else if q.PerButton? {
      BaseNameNotKey(q.button, q.setting);
    }
  }

  /** Whether the webform lets users save drafts (`none`, `authenticated`, `all`). */
  datatype DraftSetting = DraftNone | DraftAuthenticated | DraftAll

  /** Whether the webform has a preview page (DISABLED, OPTIONAL, REQUIRED). */
  datatype PreviewSetting = PreviewDisabled | PreviewOptional | PreviewRequired

  /** What the configuration form asks of the webform being edited. */
  datatype Webform = Webform(draft: DraftSetting, isWizard: bool, preview: PreviewSetting, numberOfActions: nat)

  /** One row of the button table in `form()`: the button, whether its
      settings are accessible, and whether it carries a description. */
  datatype ButtonRow = ButtonRow(button: Button, access: bool, hasDescription: bool)

  /** The button table built by `form()`. */
  function ButtonTable(w: Webform): seq<ButtonRow> {
    var draftEnabled := w.draft != DraftNone;
    var wizardEnabled := w.isWizard;
    var previewEnabled := w.preview != PreviewDisabled;
    [ ButtonRow(Submit, true, false),
      ButtonRow(Draft, draftEnabled, false),
      ButtonRow(WizardPrev, wizardEnabled, true),
      ButtonRow(WizardNext, wizardEnabled, true),
      ButtonRow(PreviewPrev, previewEnabled, true),
      ButtonRow(PreviewNext, previewEnabled, true) ]
  }

  /** One `<name>_settings` fieldset: its key, its access, and the keys and
      access of the hide checkbox, the label field and the attributes field. */
  datatype SettingsGroup = SettingsGroup(
    key: string,
    button: Button,
    access: bool,
    hasDescription: bool,
    hideKey: string,
    hideAccess: bool,
    labelKey: string,
    attributesKey: string)

  function Group(row: ButtonRow, w: Webform): SettingsGroup {
    var name := Name(row.button);
    SettingsGroup(
      name + "_settings",
      row.button,
      row.access,
      row.hasDescription,
      name + "_hide",
      w.numberOfActions > 1,
      name + "__label",
      name + "__attributes")
  }

  /** The per-button part of `form()`: one settings group per button, in the
      order of the fixed button list, editing that button's three properties;
      the hide checkbox is offered only when the webform has more than one
      action. */
  function SettingsForm(w: Webform): (r: seq<SettingsGroup>)
    ensures |r| == |Order|
    ensures forall i :: 0 <= i < |r| ==> r[i].button == Order[i] && r[i].key == Name(Order[i]) + "_settings"
    ensures forall i :: 0 <= i < |r| ==>
              && r[i].hideKey == PropName(PerButton(Order[i], Hide))
              && r[i].labelKey == PropName(PerButton(Order[i], Label))
              && r[i].attributesKey == PropName(PerButton(Order[i], Attributes))
    ensures forall i :: 0 <= i < |r| ==> (r[i].hideAccess <==> w.numberOfActions > 1)
  {
    var table := ButtonTable(w);
    seq(|table|, i requires 0 <= i < |table| => Group(table[i], w))
  }

  /** When a button's settings matter for a webform: submit always, draft when
      drafts are enabled, the wizard buttons for a wizard, the preview buttons
      when preview is not disabled. */
  predicate Relevant(b: Button, w: Webform) {
    match b
    case Submit => true
    case Draft => w.draft != DraftNone
    case WizardPrev | WizardNext => w.isWizard
    case PreviewPrev | PreviewNext => w.preview != PreviewDisabled
  }

  /** A settings group is accessible exactly when its button is relevant. */
  lemma SettingsAccessFollowsRelevance(w: Webform)
    ensures forall i :: 0 <= i < |SettingsForm(w)| ==> (SettingsForm(w)[i].access <==> Relevant(Order[i], w))
  {
  }

  /** No two settings groups edit the same property key. */
  lemma SettingsFormKeysDistinct(w: Webform, i: nat, j: nat)
    requires i < |SettingsForm(w)| && j < |SettingsForm(w)| && i != j
    ensures SettingsForm(w)[i].hideKey != SettingsForm(w)[j].hideKey
    ensures SettingsForm(w)[i].labelKey != SettingsForm(w)[j].labelKey
    ensures SettingsForm(w)[i].attributesKey != SettingsForm(w)[j].attributesKey
  {
    var r := SettingsForm(w);
    Buttons.OrderListsEveryButtonOnce();
    assert Order[i] != Order[j];
    PropNamesDistinct(PerButton(Order[i], Hide), PerButton(Order[j], Hide));
    PropNamesDistinct(PerButton(Order[i], Label), PerButton(Order[j], Label));
    PropNamesDistinct(PerButton(Order[i], Attributes), PerButton(Order[j], Attributes));
  }

  /** The default the plugin declares for one setting of one button. */
  lemma ButtonDefault(b: Button, s: Setting)
    ensures DefaultProperties()[PerButton(b, s)] == DefaultValue(s)
  {
    assert DefaultProperties()[PerButton(b, s)] == DefaultOf(PerButton(b, s));
  }

  /** The plugin's defaults, read as an element's button settings, are the
      settings that leave a button unchanged. */
  lemma DefaultPropertiesAreInert(b: Button, btn: ActionsElement.ButtonEl)
    ensures DefaultProperties()[PerButton(b, Hide)] == Flag(ActionsElement.DefaultSettings.hide)
    ensures DefaultProperties()[PerButton(b, Label)] == Text(ActionsElement.DefaultSettings.customLabel)
    ensures DefaultProperties()[PerButton(b, Attributes)] == EmptyArray
    ensures ActionsElement.DefaultSettings.attributes == ActionsElement.NoOverrides
    ensures ActionsElement.ApplySettings(btn, ActionsElement.DefaultSettings) == btn
  {
    ButtonDefault(b, Hide);
    ButtonDefault(b, Label);
    ButtonDefault(b, Attributes);
    ActionsElement.DefaultSettingsAreInert(btn);
  }

  /** `isInput`. */
  function IsInput(element: map<string, PropValue>): bool {
    false
  }

  /** `isContainer`. */
  function IsContainer(element: map<string, PropValue>): bool {
    false
  }

  /** `isRoot`. */
  function IsRoot(): bool {
    true
  }

  /** `getTestValues`: the test values for an element, if any. */
  function TestValues(element: map<string, PropValue>, w: Webform): Option<seq<string>> {
    None
  }

  /** `build`: the rendered output for an element value. */
  function Build(format: string, element: map<string, PropValue>, value: string): seq<string> {
    []
  }

  /** The actions element is a root element that is neither an input nor a
      container, and it never has a value: no test values and an empty build. */
  lemma ActionsElementHoldsNoValue(element: map<string, PropValue>, w: Webform, format: string, value: string)
    ensures !IsInput(element) && !IsContainer(element) && IsRoot()
    ensures TestValues(element, w) == None
    ensures Build(format, element, value) == []
  {
  }
}
