/** The fixed list of webform action buttons and the naming scheme of the
    per-button element properties (`<button>_hide`, `<button>__label`,
    `<button>__attributes`). */
module Buttons {
  import opened Wrappers

  /** The six buttons a `webform_actions` element can group. */
  datatype Button = Submit | Draft | WizardPrev | WizardNext | PreviewPrev | PreviewNext

  /** The order in which the buttons are listed, and processed. */
  const Order: seq<Button> := [Submit, Draft, WizardPrev, WizardNext, PreviewPrev, PreviewNext]

  /** The machine name of a button, which is also its key in the form. */
  function Name(b: Button): string {
    match b
    case Submit => "submit"
    case Draft => "draft"
    case WizardPrev => "wizard_prev"
    case WizardNext => "wizard_next"
    case PreviewPrev => "preview_prev"
    case PreviewNext => "preview_next"
  }

  /** The position of a button in `Order`. */
  function IndexOf(b: Button): (i: nat)
    ensures i < |Order| && Order[i] == b
  {
    match b
    case Submit => 0
    case Draft => 1
    case WizardPrev => 2
    case WizardNext => 3
    case PreviewPrev => 4
    case PreviewNext => 5
  }

  /** Every button occurs in `Order`, exactly once. */
  lemma OrderListsEveryButtonOnce()
    ensures |Order| == 6
    ensures forall b: Button :: b in Order
    ensures forall i, j :: 0 <= i < j < |Order| ==> Order[i] != Order[j]
  {
    forall b: Button
      ensures b in Order
    {
      assert Order[IndexOf(b)] == b;
    }
  }

  /** `IndexOf` inverts indexing into `Order`. */
  lemma IndexOfOrder(i: nat)
    requires i < |Order|
    ensures IndexOf(Order[i]) == i
  {
    OrderListsEveryButtonOnce();
  }

  /** The button with a given machine name, if any. */
  function FromName(s: string): (r: Option<Button>)
    ensures r.Some? ==> Name(r.value) == s
  {
    if s == "submit" then Some(Submit)
    else if s == "draft" then Some(Draft)
    else if s == "wizard_prev" then Some(WizardPrev)
    else if s == "wizard_next" then Some(WizardNext)
    else if s == "preview_prev" then Some(PreviewPrev)
    else if s == "preview_next" then Some(PreviewNext)
    else None
  }

  lemma NameRoundTrip(b: Button)
    ensures FromName(Name(b)) == Some(b)
  {
  }

  /** The three per-button settings an element carries. */
  datatype Setting = Hide | Label | Attributes

  function Suffix(s: Setting): string {
    match s
    case Hide => "_hide"
    case Label => "__label"
    case Attributes => "__attributes"
  }

  /** The property key of setting `s` of button `b`, e.g. `draft__label`. */
  function Key(b: Button, s: Setting): string {
    Name(b) + Suffix(s)
  }

  /** Reads a key as the suffix `s` after a button name. */
  function ParseWith(key: string, s: Setting): (r: Option<(Button, Setting)>)
    ensures r.Some? ==> r.value.1 == s && Key(r.value.0, s) == key
  {
    var suffix := Suffix(s);
    if |suffix| <= |key| && key[|key| - |suffix|..] == suffix then
      match FromName(key[..|key| - |suffix|])
      case Some(b) =>
        assert key == key[..|key| - |suffix|] + key[|key| - |suffix|..];
        Some((b, s))
      case None => None
    else None
  }

  /** The inverse of `Key`: which button setting a property key names. */
  function ParseKey(key: string): (r: Option<(Button, Setting)>)
    ensures r.Some? ==> Key(r.value.0, r.value.1) == key
  {
    if ParseWith(key, Hide).Some? then ParseWith(key, Hide)
    else if ParseWith(key, Label).Some? then ParseWith(key, Label)
    else ParseWith(key, Attributes)
  }

  /** The last character of each suffix tells the settings apart. */
  function LastChar(s: Setting): char {
    match s
    case Hide => 'e'
    case Label => 'l'
    case Attributes => 's'
  }

  lemma KeyEndsWith(b: Button, s: Setting)
    ensures |Key(b, s)| > 0 && Key(b, s)[|Key(b, s)| - 1] == LastChar(s)
  {
  }

  lemma ParseWithOwnSuffix(b: Button, s: Setting)
    ensures ParseWith(Key(b, s), s) == Some((b, s))
  {
    var key := Key(b, s);
    assert key[..|Name(b)|] == Name(b);
    assert key[|Name(b)|..] == Suffix(s);
    NameRoundTrip(b);
  }

  lemma ParseWithOtherSuffix(b: Button, s: Setting, t: Setting)
    requires s != t
    ensures ParseWith(Key(b, s), t) == None
  {
    KeyEndsWith(b, s);
  }

  /** Parsing a property key recovers the button and setting it was built from. */
  lemma ParseKeyRoundTrip(b: Button, s: Setting)
    ensures ParseKey(Key(b, s)) == Some((b, s))
  {
    ParseWithOwnSuffix(b, s);
    match s
    case Hide =>
    case Label =>
      ParseWithOtherSuffix(b, s, Hide);
    case Attributes =>
      ParseWithOtherSuffix(b, s, Hide);
      ParseWithOtherSuffix(b, s, Label);
  }

  /** No two button settings share a property key. */
  lemma KeyInjective(b1: Button, s1: Setting, b2: Button, s2: Setting)
    requires Key(b1, s1) == Key(b2, s2)
    ensures b1 == b2 && s1 == s2
  {
    ParseKeyRoundTrip(b1, s1);
    ParseKeyRoundTrip(b2, s2);
  }
}
