/**
 * `_FormInputWidget` and the form's action buttons
 * (Components/PerspectiveComponents/Inputs/FormComponent.py): the text entry with its read-only
 * guard, the state predicates and the button text checks.
 */
module FormComponent {
  import opened Wrappers
  import opened Failures
  import opened Strings
  import opened TypedKeys

  /** A character that survives `text.encode("ascii", "ignore").decode()`. */
  predicate IsAscii(c: char) {
    c as int < 128
  }

  /**
   * The value expected back: the text with every non-ASCII character removed. Every ASCII
   * character survives, in order: the one at `i` lands after the ASCII characters before it.
   */
  function ExpectedText(text: string): (r: string)
    ensures forall i :: 0 <= i < |r| ==> IsAscii(r[i])
    ensures r == text <==> forall i :: 0 <= i < |text| ==> IsAscii(text[i])
    ensures |r| == Count(IsAscii, text)
    ensures forall i :: 0 <= i < |text| && IsAscii(text[i]) ==>
              Count(IsAscii, text[..i]) < |r| && r[Count(IsAscii, text[..i])] == text[i]
  {
    FilterIdentity(IsAscii, text);
    FilterPlaces(IsAscii, text);
    Filter(IsAscii, text)
  }

  /** The attributes of the input element, by name. */
  type Attributes = map<string, string>

  /**
   * Attributes the driver reports as booleans: Selenium's `get_attribute` answers `"true"` for a
   * present boolean attribute, whatever its value, and `None` for an absent one.
   */
  predicate IsBooleanAttribute(name: string) {
    name == "readonly" || name == "disabled"
  }

  /** `get_attribute(name)`: `None` when the element has no such attribute, `"true"` for a boolean one. */
  function GetAttribute(attrs: Attributes, name: string): (r: Option<string>)
    ensures r.Some? <==> name in attrs
    ensures r.Some? && IsBooleanAttribute(name) ==> r.value == "true"
    ensures r.Some? && !IsBooleanAttribute(name) ==> r.value == attrs[name]
  {
    if name !in attrs then None
    else if IsBooleanAttribute(name) then Some("true")
    else Some(attrs[name])
  }

  /** `is_enabled`: enabled exactly when there is no `disabled` attribute, whatever its value. */
  function IsEnabled(attrs: Attributes): (r: bool)
    ensures r <==> "disabled" !in attrs
    ensures "disabled" in attrs && attrs["disabled"] == "" ==> !r
  {
    GetAttribute(attrs, "disabled").None?
  }

  /** `is_read_only`: read-only exactly when there is a `readonly` attribute, whatever its value. */
  function IsReadOnly(attrs: Attributes): (r: bool)
    ensures r <==> "readonly" in attrs
    ensures "readonly" in attrs && attrs["readonly"] == "" ==> r
  {
    GetAttribute(attrs, "readonly").Some?
  }

  /**
   * The guard of `_set_text`: the `readonly` attribute as read is truthy. Read through
   * `get_attribute`, which reports a present `readonly` as `"true"`, it agrees with `is_read_only`.
   */
  function ReadOnlyGuard(readonly: Option<string>): (r: bool)
    ensures r <==> readonly.Some? && readonly.value != ""
    ensures forall attrs: Attributes :: GetAttribute(attrs, "readonly") == readonly ==> (r <==> IsReadOnly(attrs))
  {
    readonly.Some? && readonly.value != ""
  }

  /**
   * `_set_text`: refuse a read-only field before touching it; otherwise read the current value,
   * send the keys that clear it and type the text, and check the value read back against the
   * expected one. A missing current value cannot be iterated (TypeError). The result is the keys
   * sent.
   */
  function SetText(readonly: Option<string>, text: string, current: Option<string>, readBack: Option<string>)
    : (r: Result<string, Error>)
    ensures ReadOnlyGuard(readonly) ==> r == Failure(ElementNotInteractable)
    ensures !ReadOnlyGuard(readonly) && current.None? ==> r == Failure(TypeError)
    ensures r.Success? <==> !ReadOnlyGuard(readonly) && current.Some? && readBack == Some(ExpectedText(text))
    ensures r.Failure? && !ReadOnlyGuard(readonly) && current.Some? ==> r.error == AssertionFailed
    ensures r.Success? ==> r.value == KeysFor(current.value, text)
  {
    if ReadOnlyGuard(readonly) then Failure(ElementNotInteractable)
    else if current.None? then Failure(TypeError)
    else
      var keys := KeysFor(current.value, text);
      if readBack != Some(ExpectedText(text)) then Failure(AssertionFailed) else Success(keys)
  }

  /** No ASCII character is an editing key. */
  lemma AsciiIsNoEditingKey(c: char)
    requires IsAscii(c)
    ensures !IsEditingKey(c)
  {
  }

  /**
   * On a field that takes the keys as typed, from any caret position, `_set_text` succeeds
   * exactly when the text is ASCII (for texts without editing keys): the comparison assumes the field
   * drops what the ASCII encoding drops.
   */
  lemma SetTextOnModelField(readonly: Option<string>, text: string, current: string, caret: nat)
    requires !ReadOnlyGuard(readonly) && caret <= |current|
    requires forall i :: 0 <= i < |text| ==> !IsEditingKey(text[i])
    ensures var typedValue := TypeKeys(Field(current, caret), KeysFor(current, text)).value;
            SetText(readonly, text, Some(current), Some(typedValue)).Success?
            <==> forall i :: 0 <= i < |text| ==> IsAscii(text[i])
  {
    KeysReplaceValue(current, caret, text);
  }

  /** The text of an action button; an empty text means the button is not there. */
  function ButtonText(text: string): (r: Result<string, Error>)
    ensures r.Success? <==> text != ""
    ensures r.Success? ==> r.value == text
    ensures r.Failure? ==> r.error == NoSuchElement
  {
    if text == "" then Failure(NoSuchElement) else Success(text)
  }

  /** `get_cancel_action_button_text`. */
  function CancelActionButtonText(text: string): (r: Result<string, Error>)
    ensures r.Success? ==> r.value == text && |r.value| > 0
    ensures r.Failure? <==> text == ""
    ensures r.Failure? ==> r.error == NoSuchElement
  {
    ButtonText(text)
  }

  /** `get_submit_action_button_text`. */
  function SubmitActionButtonText(text: string): (r: Result<string, Error>)
    ensures r.Success? ==> r.value == text && |r.value| > 0
    ensures r.Failure? <==> text == ""
    ensures r.Failure? ==> r.error == NoSuchElement
  {
    ButtonText(text)
  }
}
