/**
 * The key sequences the text-entry widgets type (Components/PerspectiveComponents/Inputs/FormComponent.py
 * and Components/Common/TextInput.py), and a model of the text field receiving them.
 */
module TypedKeys {
  import opened Strings

  /** Selenium's `Keys` constants in use: code points of the Unicode private-use area. */
  const Backspace: char := '\U{E003}'
  const Shift: char := '\U{E008}'
  const Control: char := '\U{E009}'
  const Escape: char := '\U{E00C}'
  const ArrowRight: char := '\U{E014}'
  const Command: char := '\U{E03D}'

  /** The editing keys the sequence relies on. */
  predicate IsEditingKey(c: char) {
    c == Backspace || c == ArrowRight
  }

  /** What is typed for `text`: an empty text becomes a space and a backspace. */
  function Typed(text: string): (r: string)
    ensures |r| > 0
    ensures text != "" ==> r == text
  {
    if text == "" then " " + [Backspace] else text
  }

  /**
   * The keys sent to a field holding `current`: one arrow-right per character, one backspace per
   * character, then what is typed for `text`.
   */
  function KeysFor(current: string, text: string): (r: string)
    ensures |r| == 2 * |current| + |Typed(text)|
    ensures forall i :: 0 <= i < |current| ==> r[i] == ArrowRight
    ensures forall i :: |current| <= i < 2 * |current| ==> r[i] == Backspace
    ensures r[2 * |current|..] == Typed(text)
  {
    Repeat(ArrowRight, |current|) + Repeat(Backspace, |current|) + Typed(text)
  }

  /** A text field: its value and the caret position. */
  datatype Field = Field(value: string, caret: nat)

  predicate ValidField(f: Field) {
    f.caret <= |f.value|
  }

  /**
   * One key: arrow-right moves the caret right, stopping at the end; backspace deletes the
   * character before the caret; any other character is inserted at the caret.
   */
  function Press(f: Field, k: char): (g: Field)
    requires ValidField(f)
    ensures ValidField(g)
  {
    if k == ArrowRight then
      Field(f.value, if f.caret < |f.value| then f.caret + 1 else f.caret)
    else if k == Backspace then
      if f.caret == 0 then f else Field(f.value[..f.caret - 1] + f.value[f.caret..], f.caret - 1)
    else
      Field(f.value[..f.caret] + [k] + f.value[f.caret..], f.caret + 1)
  }

  /** `send_keys`: the keys pressed in order. */
  function TypeKeys(f: Field, keys: string): (g: Field)
    requires ValidField(f)
    ensures ValidField(g)
    decreases |keys|
  {
    if |keys| == 0 then f else TypeKeys(Press(f, keys[0]), keys[1..])
  }

  /** Typing is sequential: a concatenation of keys is typed part by part. */
  lemma {:induction false} TypeKeysAppend(f: Field, a: string, b: string)
    requires ValidField(f)
    ensures TypeKeys(f, a + b) == TypeKeys(TypeKeys(f, a), b)
    decreases |a|
  {
    if |a| > 0 {
      assert (a + b)[0] == a[0];
      assert (a + b)[1..] == a[1..] + b;
      TypeKeysAppend(Press(f, a[0]), a[1..], b);
    } else {
      assert a + b == b;
    }
  }

  /** Enough arrow-right presses carry the caret to the end, leaving the value alone. */
  lemma {:induction false} ArrowsReachEnd(f: Field, n: nat)
    requires ValidField(f) && n >= |f.value| - f.caret
    ensures TypeKeys(f, Repeat(ArrowRight, n)) == Field(f.value, |f.value|)
    decreases n
  {
    if n > 0 {
      var r := Repeat(ArrowRight, n);
      assert r[0] == ArrowRight && r[1..] == Repeat(ArrowRight, n - 1);
      ArrowsReachEnd(Press(f, ArrowRight), n - 1);
    }
  }

  /** From the end of the value, one backspace per character empties the field. */
  lemma {:induction false} BackspacesClear(v: string)
    ensures TypeKeys(Field(v, |v|), Repeat(Backspace, |v|)) == Field("", 0)
    decreases |v|
  {
    if |v| > 0 {
      var r := Repeat(Backspace, |v|);
      assert r[0] == Backspace && r[1..] == Repeat(Backspace, |v| - 1);
      assert Press(Field(v, |v|), Backspace) == Field(v[..|v| - 1], |v| - 1);
      BackspacesClear(v[..|v| - 1]);
    }
  }

  /** Plain characters typed at the end of a value are appended to it. */
  lemma {:induction false} PlainCharactersAppend(v: string, s: string)
    requires forall i :: 0 <= i < |s| ==> !IsEditingKey(s[i])
    ensures TypeKeys(Field(v, |v|), s) == Field(v + s, |v + s|)
    decreases |s|
  {
    if |s| > 0 {
      assert Press(Field(v, |v|), s[0]) == Field(v + [s[0]], |v| + 1);
      PlainCharactersAppend(v + [s[0]], s[1..]);
      assert v + [s[0]] + s[1..] == v + s;
    }
  }

  /** Into an empty field, what is typed for `text` leaves exactly `text`. */
  lemma TypedIntoEmpty(text: string)
    requires forall i :: 0 <= i < |text| ==> !IsEditingKey(text[i])
    ensures TypeKeys(Field("", 0), Typed(text)).value == text
  {
    if text == "" {
      var keys := [' ', Backspace];
      assert Typed(text) == keys;
      assert Press(Field("", 0), ' ') == Field(" ", 1);
      assert keys[1..] == [Backspace];
      assert Press(Field(" ", 1), Backspace) == Field("", 0);
      assert TypeKeys(Field(" ", 1), [Backspace]) == TypeKeys(Field("", 0), []);
    } else {
      PlainCharactersAppend("", text);
      assert "" + text == text;
    }
  }

  /**
   * Whatever the caret position, typing `KeysFor(current, text)` into a field holding `current`
   * leaves exactly `text` in it, provided the text itself holds no editing key.
   */
  lemma KeysReplaceValue(current: string, caret: nat, text: string)
    requires caret <= |current|
    requires forall i :: 0 <= i < |text| ==> !IsEditingKey(text[i])
    ensures TypeKeys(Field(current, caret), KeysFor(current, text)).value == text
  {
    var f := Field(current, caret);
    var arrows := Repeat(ArrowRight, |current|);
    var backs := Repeat(Backspace, |current|);
    assert KeysFor(current, text) == arrows + backs + Typed(text);
    TypeKeysAppend(f, arrows + backs, Typed(text));
    TypeKeysAppend(f, arrows, backs);
    ArrowsReachEnd(f, |current|);
    BackspacesClear(current);
    TypedIntoEmpty(text);
  }
}
