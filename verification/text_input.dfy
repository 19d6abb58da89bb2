/**
 * `CommonTextInput` (Components/Common/TextInput.py): which element is typed into and read, and
 * `set_text` composed from the text wait, the key sequence and the read-back check.
 */
module TextInput {
  import opened Wrappers
  import opened Failures
  import opened Strings
  import opened Locators
  import opened ComponentPieces
  import opened TypedKeys
  import opened ElementPolicies

  /** `_INTERNAL_INPUT_LOCATOR`. */
  const InternalInputLocator: Locator := Located(TagName, "input")

  /** A text input: its own piece and the internal `<input>` piece built under it with no timeout. */
  datatype TextInput = TextInput(piece: Piece, internal: Piece)

  /** `CommonTextInput.__init__`. */
  function NewTextInput(id: nat, own: Locator, parent: seq<Locator>, timeout: real): (t: TextInput)
    ensures t.piece.own == own && t.piece.parent == parent
    ensures t.internal.Chain() == t.piece.Chain() + [InternalInputLocator]
    ensures t.internal.timeout == 0.0 && t.internal.id != t.piece.id
  {
    var p := Piece(id, own, parent, timeout);
    TextInput(p, Piece(id + 1, InternalInputLocator, p.Chain(), 0.0))
  }

  /** `_needs_to_get_input_element`: the element's tag is neither `input` nor `textarea`. */
  predicate NeedsInputElement(tag: string) {
    tag !in ["input", "textarea"]
  }

  /** The piece `get_text` reads and `set_text` types into. */
  function Target(t: TextInput, tag: string): (p: Piece)
    ensures NeedsInputElement(tag) ==> p == t.internal
    ensures !NeedsInputElement(tag) ==> p == t.piece
  {
    if NeedsInputElement(tag) then t.internal else t.piece
  }

  /** Built by `NewTextInput`, the internal target's locator list is the input's plus the `<input>` tag. */
  lemma TargetChain(id: nat, own: Locator, parent: seq<Locator>, timeout: real, tag: string)
    ensures var t := NewTextInput(id, own, parent, timeout);
            Target(t, tag).Chain()
            == t.piece.Chain() + (if tag == "input" || tag == "textarea" then [] else [InternalInputLocator])
  {
  }

  /** `placeholder_text_exists`: a placeholder attribute and no value attribute. */
  function PlaceholderTextExists(placeholder: Option<string>, value: Option<string>): (r: bool)
    ensures r ==> value.None?
    ensures r <==> placeholder.Some? && !value.Some?
  {
    placeholder.Some? && value.None?
  }

  /** A character `set_text` expects to see back: printable, a newline or a tab. */
  predicate Kept(isPrintable: char -> bool, c: char) {
    isPrintable(c) || c == '\n' || c == '\t'
  }

  function KeptBy(isPrintable: char -> bool): char -> bool {
    c => Kept(isPrintable, c)
  }

  /**
   * The value expected back from `set_text`: every kept character survives, in order, and nothing
   * else does.
   */
  function ExpectedText(isPrintable: char -> bool, text: string): (r: string)
    ensures forall i :: 0 <= i < |r| ==> Kept(isPrintable, r[i])
    ensures r == text <==> forall i :: 0 <= i < |text| ==> Kept(isPrintable, text[i])
    ensures |r| == Count(KeptBy(isPrintable), text)
    ensures forall i :: 0 <= i < |text| && Kept(isPrintable, text[i]) ==>
              Count(KeptBy(isPrintable), text[..i]) < |r| && r[Count(KeptBy(isPrintable), text[..i])] == text[i]
  {
    var keep := KeptBy(isPrintable);
    FilterIdentity(keep, text);
    FilterPlaces(keep, text);
    Filter(keep, text)
  }

  /** What `set_text` did: the piece typed into, the keys sent, whether the field was cleared first. */
  datatype Typing = Typing(target: Piece, keys: string, cleared: bool)

  /** Firefox's `clear()` runs when the keys hold no ESCAPE. */
  function FirefoxClears(driverName: string, keys: string): bool {
    driverName == "firefox" && Escape !in keys
  }

  /** The keys hold an ESCAPE exactly when the text does. */
  lemma EscapeOnlyFromText(current: string, text: string)
    ensures Escape in KeysFor(current, text) <==> Escape in text
  {
    var keys := KeysFor(current, text);
    if Escape in keys {
      var i :| 0 <= i < |keys| && keys[i] == Escape;
      assert i >= 2 * |current|;
      assert keys[2 * |current|..][i - 2 * |current|] == Escape;
    }
    if Escape in text {
      var i :| 0 <= i < |text| && text[i] == Escape;
      assert keys[2 * |current| + i] == Escape;
    }
  }

  /**
   * `set_text`: wait briefly for a non-empty value (its outcome ignored unless it raises), read
   * the current value, type the keys that clear it followed by the text into the target piece,
   * then wait for the value to equal the expected text and assert that it does.
   */
  function SetText(t: TextInput, text: string, isPrintable: char -> bool, prePolls: seq<Poll>,
                   current: Option<string>, tag: string, driverName: string, readPolls: seq<Poll>)
    : (r: Result<Typing, Error>)
    requires |prePolls| > 0 && |readPolls| > 0
    ensures WaitOnText(Some(""), TextDoesNotEqual, prePolls).Failure? ==>
              r == Failure(WaitOnText(Some(""), TextDoesNotEqual, prePolls).error)
    ensures WaitOnText(Some(""), TextDoesNotEqual, prePolls).Success? && current.None? ==> r == Failure(TypeError)
    ensures r.Success? <==>
              && WaitOnText(Some(""), TextDoesNotEqual, prePolls).Success?
              && current.Some?
              && WaitOnText(Some(ExpectedText(isPrintable, text)), TextEquals, readPolls)
                 == Success(ExpectedText(isPrintable, text))
    ensures r.Success? ==>
              && r.value.target == Target(t, tag)
              && r.value.keys == KeysFor(current.value, text)
              && (r.value.cleared <==> driverName == "firefox" && Escape !in text)
  {
    var _ :- WaitOnText(Some(""), TextDoesNotEqual, prePolls);
    if current.None? then Failure(TypeError)
    else
      var keys := KeysFor(current.value, text);
      EscapeOnlyFromText(current.value, text);
      var expected := ExpectedText(isPrintable, text);
      var seen :- WaitOnText(Some(expected), TextEquals, readPolls);
      if seen != expected then Failure(AssertionFailed)
      else Success(Typing(Target(t, tag), keys, FirefoxClears(driverName, keys)))
  }

  /**
   * Once the first wait and the read of the current value went through, `set_text` succeeds
   * exactly when a poll reads the expected text before anything else stops the waiting.
   */
  lemma SetTextSucceedsIffExpectedRead(t: TextInput, text: string, isPrintable: char -> bool, prePolls: seq<Poll>,
                                       current: string, tag: string, driverName: string, readPolls: seq<Poll>)
    requires |prePolls| > 0 && |readPolls| > 0
    requires WaitOnText(Some(""), TextDoesNotEqual, prePolls).Success?
    ensures var expected := ExpectedText(isPrintable, text);
            SetText(t, text, isPrintable, prePolls, Some(current), tag, driverName, readPolls).Success?
            <==> exists j :: 0 <= j < |readPolls| && KeptPolling(Some(expected), TextEquals, readPolls, j)
                             && readPolls[j] == Read(expected)
  {
    var expected := ExpectedText(isPrintable, text);
    SatisfiedIffReached(Some(expected), TextEquals, readPolls);
    var w := WaitOnText(Some(expected), TextEquals, readPolls);
    if w.Success? && w.value == expected {
      assert Satisfied(Some(expected), TextEquals, w.value);
    }
  }

  /**
   * On a field that takes the keys as typed, read back once, `set_text` succeeds exactly when every
   * character of the text is one the expected value keeps (for texts without editing keys).
   */
  lemma SetTextOnModelField(t: TextInput, text: string, isPrintable: char -> bool, current: string, caret: nat,
                            tag: string, driverName: string)
    requires caret <= |current|
    requires forall i :: 0 <= i < |text| ==> !IsEditingKey(text[i])
    ensures var typedValue := TypeKeys(Field(current, caret), KeysFor(current, text)).value;
            SetText(t, text, isPrintable, [Read(current)], Some(current), tag, driverName, [Read(typedValue)]).Success?
            <==> forall i :: 0 <= i < |text| ==> Kept(isPrintable, text[i])
  {
    KeysReplaceValue(current, caret, text);
    var expected := ExpectedText(isPrintable, text);
    assert WaitOnText(Some(""), TextDoesNotEqual, [Read(current)]).Success? by {
      if current != "" {
        assert Satisfied(Some(""), TextDoesNotEqual, current);
        assert KeptPolling(Some(""), TextDoesNotEqual, [Read(current)], 0);
      } else {
        assert KeptPolling(Some(""), TextDoesNotEqual, [Read(current)], 1);
      }
    }
    var w := WaitOnText(Some(expected), TextEquals, [Read(text)]);
    if text == expected {
      assert Satisfied(Some(expected), TextEquals, text);
      assert KeptPolling(Some(expected), TextEquals, [Read(text)], 0);
      assert w == Success(text);
    } else {
      assert KeptPolling(Some(expected), TextEquals, [Read(text)], 1);
      assert w == Success(text);
    }
  }
}
