# webform_actions: button-group composition

A Dafny model of the `webform_actions` element of the Drupal Webform module.
The element gathers a webform's action buttons into one group. There are six
buttons: `submit`, `draft`, `wizard_prev`, `wizard_next`, `preview_prev` and
`preview_next`. For each button the element carries three properties:

- a hide flag (`<button>_hide`);
- a custom label (`<button>__label`);
- attribute overrides (`<button>__attributes`).

The model covers two pieces of code:

- The element's process step (`processWebformActions`). It adds the wrapper
  classes and copies the form's `actions` into the element. Then it walks the
  fixed button list and, for each present button, applies the hide flag, the
  label and the attribute overrides. If no button is left visible, it hides the
  element. Finally it hides the form's original `actions`.
- The element plugin's configuration model. This covers the default
  properties, the element-kind flags, and the per-button settings groups of the
  configuration form, including which of them are accessible.

Files:

- `wrappers.dfy`: `Option`. `None` means a value is absent.
- `buttons.dfy`: the `Button` enumeration and its fixed `Order`. It also holds
  the per-button property naming (`Key`) and its inverse (`ParseKey`).
- `actions_element.dfy`: the render element and its process step.
- `actions_plugin.dfy`: the element plugin.

Modelling choices:

- **Typed render arrays.** A button is a record. It holds `#access`
  (`Access`), `#value`, the `#webform_actions_button_custom` marker, the
  `class` list and the other attributes. The element's per-button properties
  are a `map<Button, ButtonSettings>`, and an absent entry means the defaults.
- **`#access` has three states.** The key can be absent, present with value
  NULL, or a boolean (`Access`). PHP's `isset` treats the first two alike. The
  array `+=` does not: it keeps every key the element has, NULL included.
- **Left-biased copy.** PHP's `$element += $complete_form['actions']` is modelled
  field by field. Keys the element already has always win, even when their
  value is NULL.
- **PHP `empty()` on the label.** A label of `""` or `"0"` is treated as empty,
  as PHP's `empty()` does.
- **The `class` attribute.** It is kept apart from the other attributes
  (`AttrMap` cannot hold `class`). Overrides append to it, and a missing class
  list counts as the empty list.
- **Plugin property keys.** The plugin's properties use the datatype `Prop`. A
  separate lemma proves that `Prop` maps one-to-one onto the PHP string keys
  (`title`, `submit_hide`, `draft__label`, …).

Behaviour of the code worth noting:

- `processWebformActions` does not look at the draft, wizard or preview
  settings. An enabled, unhidden draft button stays visible even when drafts
  are off. Relevance only decides which settings fieldsets the configuration
  form shows (`Relevant`, `SettingsAccessFollowsRelevance`).
- A button with no usable custom label keeps its current `#value`. The process
  step does not look up any default label.
- Visibility is `#access` absent, NULL or identical to TRUE. It is not "not hidden".

## Model

| member | source | states |
|---|---|---|
| `Buttons.IndexOf` | src/Element/WebformActions.php:17-24 | every button has a position in the fixed list submit, draft, wizard_prev, wizard_next, preview_prev, preview_next, and that position holds the button |
| `Buttons.OrderListsEveryButtonOnce` | src/Element/WebformActions.php:17-24 | the fixed list has six entries, names every button, and names none twice |
| `Buttons.ParseKeyRoundTrip` | src/Plugin/WebformElement/WebformActions.php:33-37 | reading a per-button property key (`<button>_hide`, `<button>__label`, `<button>__attributes`) back recovers the button and the setting it was built from |
| `Buttons.KeyInjective` | src/Plugin/WebformElement/WebformActions.php:33-37 | no two button settings share a property key |
| `ActionsElement.ApplySettings` | src/Element/WebformActions.php:69-90 | a set hide flag makes `#access` FALSE, otherwise `#access` is unchanged; a non-empty label replaces `#value` only when the button is not marked custom; override classes are appended after the existing ones in order, duplicates kept; each other override attribute replaces that attribute; every other attribute and the custom marker are unchanged |
| `ActionsElement.CopyFormActions` | src/Element/WebformActions.php:55-59 | `form-actions` then `webform-actions` are appended to the element's classes; the form's actions are copied in as a left-biased union: access, buttons and other keys the element already has are kept, and missing ones come from the form's actions |
| `ActionsElement.Walk` | src/Element/WebformActions.php:61-95 | the loop keeps the set of buttons as it is; it applies a button's settings exactly to the present buttons at or after the current position; the has-visible flag ends true iff it started true or some present button at or after the current position is visible once processed |
| `ActionsElement.IsVisibleIsAccessTest` | src/Element/WebformActions.php:92 | a button counts as visible exactly when its `#access` is absent, NULL or identical to TRUE |
| `ActionsElement.VisibleFromFindsVisible` | src/Element/WebformActions.php:62-95 | the loop's visibility search from a position succeeds iff some present button at or after that position is visible |
| `ActionsElement.WalkVisitsPresentInOrder` | src/Element/WebformActions.php:63-67 | the loop visits exactly the present buttons of the remaining list, in list order, and skips absent ones |
| `ActionsElement.Process` | src/Element/WebformActions.php:54-106 | after processing, the form's `actions` has `#access` FALSE and is otherwise unchanged; every button of the element or of the form's actions is processed with the element's settings for it, and no other button appears; visited buttons follow the fixed order; the element's `#access` is FALSE iff no processed button is visible, and otherwise stays as copied |
| `ActionsElement.ProcessCompleteForm` | src/Element/WebformActions.php:54-59 | when the complete form has no `actions`, the copy `$element += NULL` fails and processing yields the error result; otherwise the result is that of `Process` on the form's actions |
| `ActionsElement.NullAccessSurvivesCopy` | src/Element/WebformActions.php:59-100 | an element whose `#access` is present as NULL keeps NULL even when the form's actions have `#access` FALSE, as long as one button stays visible |
| `ActionsElement.ProcessVisitsPresentInOrder` | src/Element/WebformActions.php:63-67 | processing visits the present buttons in the order submit, draft, wizard_prev, wizard_next, preview_prev, preview_next and creates nothing for absent ones |
| `ActionsElement.AllHiddenHidesElement` | src/Element/WebformActions.php:69-100 | when every present button has its hide flag set, the whole element ends with `#access` FALSE |
| `ActionsElement.OpenButtonKeepsElementAccess` | src/Element/WebformActions.php:92-100 | one present, unhidden button whose `#access` is absent, NULL or TRUE keeps the element's own `#access` |
| `ActionsElement.DefaultSettingsAreInert` | src/Element/WebformActions.php:69-90 | with no hide flag, an empty label and no attribute overrides, a button is left exactly as it was |
| `ActionsElement.WalkWithoutSettings` | src/Element/WebformActions.php:63-90 | with no per-button properties the loop changes no button |
| `ActionsElement.UnsetSettingsKeepButtons` | src/Element/WebformActions.php:63-90 | an element without per-button properties keeps every copied button unchanged |
| `ActionsElement.DraftButtonOverrideExample` | src/Tests/WebformSubmissionFormElementTest.php:108 | the draft button of the button test form keeps `webform-button--draft`, followed by `draft_button_attributes`, gets `style: color: blue`, keeps the label "Save Draft" and stays visible |
| `ActionsPlugin.AddButtonDefaults` | src/Plugin/WebformElement/WebformActions.php:33-37 | the loop over the remaining buttons adds exactly those buttons' three properties to the ones already declared |
| `ActionsPlugin.AddButtonDefaultsValue` | src/Plugin/WebformElement/WebformActions.php:33-37 | each added property gets its default (`_hide` FALSE, `__label` '', `__attributes` empty); every property declared before keeps its value |
| `ActionsPlugin.DefaultProperties` | src/Plugin/WebformElement/WebformActions.php:24-39 | every property is declared with its default: title '', attributes and states empty, and per button `_hide` FALSE, `__label` '', `__attributes` empty |
| `ActionsPlugin.ButtonDefault` | src/Plugin/WebformElement/WebformActions.php:33-37 | each button's `_hide` defaults to FALSE, its `__label` to '' and its `__attributes` to the empty array |
| `ActionsPlugin.DefaultPropertiesSize` | src/Plugin/WebformElement/WebformActions.php:24-39 | there are 21 default properties, three shared and three per button, and no others |
| `ActionsPlugin.PropNamesDistinct` | src/Plugin/WebformElement/WebformActions.php:27-36 | distinct properties are stored under distinct array keys, so no default overwrites another |
| `ActionsPlugin.DefaultPropertiesAreInert` | src/Plugin/WebformElement/WebformActions.php:33-37 | the plugin's per-button defaults are the element's unset settings, and those leave a button unchanged when the element is processed |
| `ActionsPlugin.SettingsForm` | src/Plugin/WebformElement/WebformActions.php:133-172 | one settings group per button, in the fixed button order, keyed `<name>_settings`, with fields `<name>_hide`, `<name>__label` and `<name>__attributes` (the per-button property keys); the hide checkbox is accessible iff the webform has more than one action |
| `ActionsPlugin.SettingsAccessFollowsRelevance` | src/Plugin/WebformElement/WebformActions.php:91-145 | a group is accessible iff its button is relevant: submit always, draft iff the draft setting is not none, wizard buttons iff the webform is a wizard, preview buttons iff preview is not disabled |
| `ActionsPlugin.SettingsFormKeysDistinct` | src/Plugin/WebformElement/WebformActions.php:153-171 | no two settings groups edit the same hide, label or attributes property |
| `ActionsPlugin.ActionsElementHoldsNoValue` | src/Plugin/WebformElement/WebformActions.php:44-76 | the element is never an input and never a container, and it is a root element; it has no test values and builds to an empty array |

## Left out

- Host render plumbing is not modelled: `getInfo`'s process and theme-wrapper registration, `processContainer`, and the HTML rendering of buttons. This includes the classes the theme adds later (`button`, `js-form-submit`, …).
- Form-API details of `form()` are not modelled: translated titles, labels and descriptions (`$this->t`), the `#states` visibility selectors, the config-factory lookups of default labels and button classes, `parent::form`, and the outer `Buttons` fieldset. The settings groups record only keys, access, and whether a description is present.
- `buildConfigurationForm` is not modelled. When the webform has no actions yet, it sets a default title of "Actions" through the host form and also assigns `$this->key`, which has no effect on anything modelled.
- `src/Form/WebformAdminHtmlToTextForm.php` is not modelled. It is batch file conversion through entity queries, file moves and saves, with float progress reporting; all of it is host I/O.
- The two test files are browser-driven integration tests and are not modelled. One rendered button from WebformSubmissionFormElementTest.php:108 is restated as `DraftButtonOverrideExample`.
- `#access` values that are neither NULL nor booleans (access-result objects) are not modelled. Under the `=== TRUE` test such values would count as not visible.
- A button without a class list is treated as having the empty list. PHP's `array_merge` on a missing list is not modelled.
- The hide flag is a boolean, and the label is a string. Other PHP value types in these properties, and class overrides with string keys (which `array_merge` would overwrite instead of append), are not modelled.
- The form's `actions` is modelled as access, buttons and other keys. It carries no `#attributes` and no per-button properties. The element always has `#attributes` by the time of the copy, so an `#attributes` entry could never be copied.
- The webform is reduced to what `form()` asks of it: the draft setting (none, authenticated, all), whether it is a wizard, the preview setting (disabled, optional, required), and its number of actions. How the host computes these is not modelled.
