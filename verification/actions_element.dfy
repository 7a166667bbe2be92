/** The `webform_actions` render element: its process step gathers the form's
    action buttons into the element, applies the per-button hide flag, custom
    label and attribute overrides, hides the whole element when no button is
    left visible, and hides the form's original `actions`. */
module ActionsElement {
  import opened Wrappers
  import opened Buttons

  /** Attribute names other than `class`, with their values. The `class`
      attribute is an ordered list of tokens and is kept apart. */
  type AttrMap = m: map<string, string> | "class" !in m witness map[]

  /** An `#access` entry: the key absent, present with value NULL, or a
      boolean. PHP's `isset` is false for the first two; the array `+=`
      operator only looks at whether the key is present. */
  datatype Access = Unset | Null | Flag(value: bool)

  /** One button render array. `access` is `#access`, `value`
      the button text, `custom` the `#webform_actions_button_custom` marker,
      `classes` the `class` attribute (a missing list is the empty one) and
      `attrs` every other attribute. */
  datatype ButtonEl = ButtonEl(
    access: Access,
    value: string,
    custom: bool,
    classes: seq<string>,
    attrs: AttrMap)

  /** A `<button>__attributes` property: the class tokens to append and the
      other attributes to replace. */
  datatype Overrides = Overrides(classes: seq<string>, attrs: AttrMap)

  const NoOverrides := Overrides([], map[])

  /** The `<button>_hide`, `<button>__label` and `<button>__attributes`
      properties of the element for one button. */
  datatype ButtonSettings = ButtonSettings(hide: bool, customLabel: string, attributes: Overrides)

  /** The settings of a button whose properties are unset. */
  const DefaultSettings := ButtonSettings(false, "", NoOverrides)

  /** The `webform_actions` element: its own `#access`, its `class` attribute,
      the per-button settings, the button children it holds and every other
      key (such as `#type` or `#weight`). */
  datatype Element = Element(
    access: Access,
    classes: seq<string>,
    settings: map<Button, ButtonSettings>,
    buttons: map<Button, ButtonEl>,
    properties: map<string, string>)

  /** The complete form's `actions` element. */
  datatype FormActions = FormActions(
    access: Access,
    buttons: map<Button, ButtonEl>,
    properties: map<string, string>)

  /** The outcome of processing: the element, the form's `actions`, and the
      buttons the loop visited, in the order it visited them. */
  datatype Processed = Processed(element: Element, actions: FormActions, visited: seq<Button>)

  const FormActionsClass := "form-actions"
  const WebformActionsClass := "webform-actions"

  function SettingsFor(settings: map<Button, ButtonSettings>, b: Button): ButtonSettings {
    if b in settings then settings[b] else DefaultSettings
  }

  /** PHP's `empty()` on a string: the empty string and "0". */
  predicate IsEmptyText(s: string) {
    s == "" || s == "0"
  }

  /** Visible: `#access` anything but FALSE. With `#access` absent, NULL or a
      boolean this is the code's test, see `IsVisibleIsAccessTest`. */
  predicate IsVisible(btn: ButtonEl) {
    btn.access != Flag(false)
  }

  /** Visibility is the code's test: `#access` not set (absent or NULL) or
      identical to TRUE. */
  lemma IsVisibleIsAccessTest(btn: ButtonEl)
    ensures IsVisible(btn) <==> btn.access.Unset? || btn.access.Null? || btn.access == Flag(true)
  {
  }

  /** Some button of `buttons` is visible. */
  predicate AnyVisible(buttons: map<Button, ButtonEl>) {
    exists b :: b in buttons && IsVisible(buttons[b])
  }

  function HideStep(btn: ButtonEl, s: ButtonSettings): ButtonEl {
    if s.hide then btn.(access := Flag(false)) else btn
  }

  function LabelStep(btn: ButtonEl, s: ButtonSettings): ButtonEl {
    if !IsEmptyText(s.customLabel) && !btn.custom then btn.(value := s.customLabel) else btn
  }

  function AttributesStep(btn: ButtonEl, ov: Overrides): ButtonEl {
    if ov == NoOverrides then btn
    else btn.(classes := btn.classes + ov.classes, attrs := btn.attrs + ov.attrs)
  }

  /** What processing does to one present button. */
  function ApplySettings(btn: ButtonEl, s: ButtonSettings): (r: ButtonEl)
    ensures r.access == (if s.hide then Flag(false) else btn.access)
    ensures r.value == (if !IsEmptyText(s.customLabel) && !btn.custom then s.customLabel else btn.value)
    ensures r.custom == btn.custom
    ensures r.classes == btn.classes + s.attributes.classes
    ensures forall n :: n in s.attributes.attrs ==> n in r.attrs && r.attrs[n] == s.attributes.attrs[n]
    ensures forall n :: n !in s.attributes.attrs ==>
              (n in r.attrs <==> n in btn.attrs) && (n in btn.attrs ==> r.attrs[n] == btn.attrs[n])
  {
    AttributesStep(LabelStep(HideStep(btn, s), s), s.attributes)
  }

  /** Adds the two wrapper classes and copies the form's actions into the
      element; keys the element already has are kept (PHP's array `+=`). */
  function CopyFormActions(e: Element, form: FormActions): (r: Element)
    ensures r.classes == e.classes + [FormActionsClass, WebformActionsClass]
    ensures r.settings == e.settings
    ensures r.access == (if e.access.Unset? then form.access else e.access)
    ensures r.buttons.Keys == e.buttons.Keys + form.buttons.Keys
    ensures forall b :: b in e.buttons ==> r.buttons[b] == e.buttons[b]
    ensures forall b :: b in form.buttons && b !in e.buttons ==> r.buttons[b] == form.buttons[b]
    ensures r.properties.Keys == e.properties.Keys + form.properties.Keys
    ensures forall k :: k in e.properties ==> r.properties[k] == e.properties[k]
    ensures forall k :: k in form.properties && k !in e.properties ==> r.properties[k] == form.properties[k]
  {
    var withClasses := e.(classes := e.classes + [FormActionsClass, WebformActionsClass]);
    withClasses.(
      access := if withClasses.access.Unset? then form.access else withClasses.access,
      buttons := form.buttons + withClasses.buttons,
      properties := form.properties + withClasses.properties)
  }

  /** Some button at position `from` or later of the fixed list is present in
      `buttons` and visible. */
  predicate VisibleFrom(buttons: map<Button, ButtonEl>, from: nat)
    requires from <= |Order|
    decreases |Order| - from
  {
    from < |Order| && ((Order[from] in buttons && IsVisible(buttons[Order[from]])) || VisibleFrom(buttons, from + 1))
  }

  /** `VisibleFrom` is the search for a visible present button at or after `from`. */
  lemma {:induction false} VisibleFromFindsVisible(buttons: map<Button, ButtonEl>, from: nat)
    requires from <= |Order|
    decreases |Order| - from
    ensures VisibleFrom(buttons, from) <==> exists b :: b in buttons && from <= IndexOf(b) && IsVisible(buttons[b])
  {
    if from < |Order| {
      IndexOfOrder(from);
      VisibleFromFindsVisible(buttons, from + 1);
      assert forall c :: from <= IndexOf(c) ==> c == Order[from] || from + 1 <= IndexOf(c);
    }
  }

  /** The state the button loop carries: the buttons so far, the
      has-visible-button flag, and the buttons visited from here on. */
  datatype Walked = Walked(buttons: map<Button, ButtonEl>, hasVisible: bool, visited: seq<Button>)

  /** The loop over `Order[from..]`: skips absent buttons, applies the settings
      to present ones and ORs their visibility into `hasVisible`. */
  function Walk(settings: map<Button, ButtonSettings>, buttons: map<Button, ButtonEl>,
                hasVisible: bool, from: nat): (r: Walked)
    requires from <= |Order|
    decreases |Order| - from
    ensures r.buttons.Keys == buttons.Keys
    ensures forall b :: b in buttons ==>
              r.buttons[b] == (if from <= IndexOf(b) then ApplySettings(buttons[b], SettingsFor(settings, b))
                               else buttons[b])
    ensures r.hasVisible <==> hasVisible || VisibleFrom(r.buttons, from)
  {
    if from == |Order| then Walked(buttons, hasVisible, [])
    else
      var b := Order[from];
      IndexOfOrder(from);
      if b !in buttons then Walk(settings, buttons, hasVisible, from + 1)
      else
        var btn := ApplySettings(buttons[b], SettingsFor(settings, b));
        var next := buttons[b := btn];
        var rest := Walk(settings, next, hasVisible || IsVisible(btn), from + 1);
        Walked(rest.buttons, rest.hasVisible, [b] + rest.visited)
  }

  /** The buttons of `bs` that are in `keys`, in the order of `bs`. */
  function Present(bs: seq<Button>, keys: set<Button>): seq<Button> {
    if bs == [] then []
    else (if bs[0] in keys then [bs[0]] else []) + Present(bs[1..], keys)
  }

  /** `Present` over the list from `from` onwards, one element peeled off. */
  lemma PresentStep(from: nat, keys: set<Button>)
    requires from < |Order|
    ensures Present(Order[from..], keys)
            == (if Order[from] in keys then [Order[from]] else []) + Present(Order[from + 1..], keys)
  {
    assert Order[from..][1..] == Order[from + 1..];
  }

  /** An iteration of the loop for an absent button changes nothing. */
  lemma WalkSkipStep(settings: map<Button, ButtonSettings>, buttons: map<Button, ButtonEl>,
                     hasVisible: bool, from: nat)
    requires from < |Order| && Order[from] !in buttons
    ensures Walk(settings, buttons, hasVisible, from) == Walk(settings, buttons, hasVisible, from + 1)
  {
  }

  /** One iteration of the loop for a present button, as far as the visited
      buttons go. */
  lemma WalkVisitedStep(settings: map<Button, ButtonSettings>, buttons: map<Button, ButtonEl>,
                        hasVisible: bool, from: nat)
    requires from < |Order| && Order[from] in buttons
    ensures var btn := ApplySettings(buttons[Order[from]], SettingsFor(settings, Order[from]));
            Walk(settings, buttons, hasVisible, from).visited
            == [Order[from]] + Walk(settings, buttons[Order[from] := btn], hasVisible || IsVisible(btn), from + 1).visited
  {
  }

  /** The loop visits exactly the present buttons, in the fixed order. */
  lemma {:induction false} WalkVisitsPresentInOrder(settings: map<Button, ButtonSettings>,
                                                    buttons: map<Button, ButtonEl>,
                                                    hasVisible: bool, from: nat)
    requires from <= |Order|
    decreases |Order| - from
    ensures Walk(settings, buttons, hasVisible, from).visited == Present(Order[from..], buttons.Keys)
  {
    if from < |Order| {
      var b := Order[from];
      var visited := Walk(settings, buttons, hasVisible, from).visited;
      PresentStep(from, buttons.Keys);
      if b !in buttons {
        assert visited == Present(Order[from + 1..], buttons.Keys) by {
          WalkSkipStep(settings, buttons, hasVisible, from);
          WalkVisitsPresentInOrder(settings, buttons, hasVisible, from + 1);
        }
      } else {
        assert visited == [b] + Present(Order[from + 1..], buttons.Keys) by {
          var btn := ApplySettings(buttons[b], SettingsFor(settings, b));
          var next := buttons[b := btn];
          assert next.Keys == buttons.Keys;
          WalkVisitedStep(settings, buttons, hasVisible, from);
          WalkVisitsPresentInOrder(settings, next, hasVisible || IsVisible(btn), from + 1);
        }
      }
    }
  }

  /** The present buttons of `Order[from..]` are those at or after `from`,
      in strictly increasing position. */
  lemma {:induction false} PresentInOrder(from: nat, keys: set<Button>)
    requires from <= |Order|
    decreases |Order| - from
    ensures forall b :: b in Present(Order[from..], keys) <==> b in keys && from <= IndexOf(b)
    ensures forall i, j :: 0 <= i < j < |Present(Order[from..], keys)| ==>
              IndexOf(Present(Order[from..], keys)[i]) < IndexOf(Present(Order[from..], keys)[j])
  {
    if from < |Order| {
      var b := Order[from];
      var tail := Order[from..];
      assert tail[0] == b && tail[1..] == Order[from + 1..];
      IndexOfOrder(from);
      PresentInOrder(from + 1, keys);
      var rest := Present(Order[from + 1..], keys);
      assert Present(tail, keys) == (if b in keys then [b] else []) + rest;
      assert forall c :: c in keys && from <= IndexOf(c) && c != b ==> from + 1 <= IndexOf(c);
    }
  }

  /** `processWebformActions`: the processed element and form actions. */
  function Process(e: Element, form: FormActions): (r: Processed)
    ensures r.actions == form.(access := Flag(false))
    ensures r.element.classes == e.classes + [FormActionsClass, WebformActionsClass]
    ensures r.element.settings == e.settings
    ensures r.element.properties == CopyFormActions(e, form).properties
    ensures r.element.buttons.Keys == e.buttons.Keys + form.buttons.Keys
    ensures forall b :: b in e.buttons ==>
              r.element.buttons[b] == ApplySettings(e.buttons[b], SettingsFor(e.settings, b))
    ensures forall b :: b in form.buttons && b !in e.buttons ==>
              r.element.buttons[b] == ApplySettings(form.buttons[b], SettingsFor(e.settings, b))
    ensures forall b :: b in r.visited <==> b in r.element.buttons
    ensures forall i, j :: 0 <= i < j < |r.visited| ==> IndexOf(r.visited[i]) < IndexOf(r.visited[j])
    ensures r.element.access ==
              (if AnyVisible(r.element.buttons) then CopyFormActions(e, form).access else Flag(false))
  {
    var merged := CopyFormActions(e, form);
    var walked := Walk(merged.settings, merged.buttons, false, 0);
    WalkVisitsPresentInOrder(merged.settings, merged.buttons, false, 0);
    VisibleFromFindsVisible(walked.buttons, 0);
    PresentInOrder(0, merged.buttons.Keys);
    var element := merged.(buttons := walked.buttons);
    var element := if !walked.hasVisible then element.(access := Flag(false)) else element;
    Processed(element, form.(access := Flag(false)), walked.visited)
  }

  /** `processWebformActions` on the complete form, whose `actions` key may be
      missing. Without it the copy `$element += NULL` is a fatal error in PHP;
      `None` stands for that error. */
  function ProcessCompleteForm(e: Element, actions: Option<FormActions>): (r: Option<Processed>)
    ensures r.None? <==> actions.None?
    ensures actions.Some? ==> r == Some(Process(e, actions.value))
  {
    if actions.None? then None else Some(Process(e, actions.value))
  }

  /** An element whose `#access` key is present with value NULL keeps it: the
      copy does not take the form's FALSE, and a visible button leaves the
      element shown. */
  lemma NullAccessSurvivesCopy(e: Element, form: FormActions, b: Button)
    requires e.access == Null && form.access == Flag(false)
    requires b in e.buttons && e.buttons[b].access.Unset? && b !in e.settings
    ensures Process(e, form).element.access == Null
  {
    var r := Process(e, form);
    assert r.element.buttons[b] == ApplySettings(e.buttons[b], DefaultSettings);
    assert IsVisible(r.element.buttons[b]);
  }

  /** Processing visits the buttons of the element and of the form's actions
      in the order submit, draft, wizard_prev, wizard_next, preview_prev,
      preview_next, skipping absent ones. */
  lemma ProcessVisitsPresentInOrder(e: Element, form: FormActions)
    ensures Process(e, form).visited == Present(Order, e.buttons.Keys + form.buttons.Keys)
  {
    var merged := CopyFormActions(e, form);
    WalkVisitsPresentInOrder(merged.settings, merged.buttons, false, 0);
    assert Order[0..] == Order;
  }

  /** When every present button is flagged hidden, the whole element is hidden. */
  lemma AllHiddenHidesElement(e: Element, form: FormActions)
    requires forall b :: b in e.buttons.Keys + form.buttons.Keys ==> SettingsFor(e.settings, b).hide
    ensures Process(e, form).element.access == Flag(false)
  {
  }

  /** A present, unhidden button whose `#access` is absent, NULL or TRUE keeps the
      element's own access as copied. */
  lemma OpenButtonKeepsElementAccess(e: Element, form: FormActions, b: Button)
    requires b in CopyFormActions(e, form).buttons
    requires !SettingsFor(e.settings, b).hide
    requires IsVisible(CopyFormActions(e, form).buttons[b])
    ensures Process(e, form).element.access == CopyFormActions(e, form).access
  {
    var r := Process(e, form);
    assert IsVisible(r.element.buttons[b]);
  }

  /** Unset per-button properties change nothing about a button. */
  lemma DefaultSettingsAreInert(btn: ButtonEl)
    ensures ApplySettings(btn, DefaultSettings) == btn
  {
  }

  /** The loop without per-button settings leaves every button as it was. */
  lemma WalkWithoutSettings(buttons: map<Button, ButtonEl>, hasVisible: bool, from: nat)
    requires from <= |Order|
    ensures Walk(map[], buttons, hasVisible, from).buttons == buttons
  {
    var r := Walk(map[], buttons, hasVisible, from);
    forall b | b in buttons
      ensures r.buttons[b] == buttons[b]
    {
      DefaultSettingsAreInert(buttons[b]);
    }
  }

  /** An element with no per-button settings keeps every copied button as it was. */
  lemma UnsetSettingsKeepButtons(e: Element, form: FormActions)
    requires e.settings == map[]
    ensures Process(e, form).element.buttons == CopyFormActions(e, form).buttons
  {
    var merged := CopyFormActions(e, form);
    WalkWithoutSettings(merged.buttons, false, 0);
    assert Process(e, form).element.buttons == Walk(merged.settings, merged.buttons, false, 0).buttons;
  }

  /** The draft button of the button test form: the override's class follows
      the button's own class, and `style` is set. */
  lemma DraftButtonOverrideExample()
    ensures
      var btn := ButtonEl(Unset, "Save Draft", false, ["webform-button--draft"], map[]);
      var s := ButtonSettings(false, "", Overrides(["draft_button_attributes"], map["style" := "color: blue"]));
      var r := ApplySettings(btn, s);
      r.classes == ["webform-button--draft", "draft_button_attributes"]
      && r.attrs == map["style" := "color: blue"]
      && r.value == "Save Draft"
      && IsVisible(r)
  {
  }
}
