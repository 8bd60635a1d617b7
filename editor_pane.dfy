/**
 * The Markdown editor pane of `components/features/admin/editor-pane.tsx`:
 * the Tab key replaces the selection with two spaces, and the text area
 * grows to its content but never below 500 pixels.
 *
 * The text area is a class whose fields are the DOM state the component
 * reads and writes; `onChange` is taken to store the new value in `value`,
 * as the controlling parent does.
 */
module EditorPane {
  import opened Wrappers
  import opened Text

  /** What a Tab inserts. */
  const Indent: string := "  "

  /** The smallest height the auto-resize effect sets, in pixels. */
  const MinHeight: int := 500

  /**
   * `value.substring(0, start) + '  ' + value.substring(end)`: the selection
   * [start, end) is replaced by two spaces.
   */
  function TabInsert(value: string, start: int, end: int): (v: string)
    ensures 0 <= start <= end <= |value| ==>
      && |v| == |value| - (end - start) + |Indent|
      && v[..start] == value[..start]
      && v[start..start + |Indent|] == Indent
      && v[start + |Indent|..] == value[end..]
  {
    Substring(value, 0, start) + Indent + Substring(value, end, |value|)
  }

  /**
   * Taking the two inserted spaces back out leaves the text with the
   * selection deleted; with a collapsed selection it is the text itself.
   */
  lemma RemoveIndent(value: string, start: nat, end: nat)
    requires start <= end <= |value|
    ensures var v := TabInsert(value, start, end);
      && v[..start] + v[start + |Indent|..] == value[..start] + value[end..]
      && (start == end ==> v[..start] + v[start + |Indent|..] == value)
  {
    var v := TabInsert(value, start, end);
    assert v[..start] + v[start + |Indent|..] == value[..start] + value[end..];
    if start == end {
      assert value[..start] + value[start..] == value;
    }
  }

  /** `Math.max(scrollHeight, 500)`. */
  function FittedHeight(scrollHeight: int): (h: int)
    ensures h >= MinHeight && h >= scrollHeight
    ensures h == MinHeight || h == scrollHeight
  {
    if scrollHeight >= MinHeight then scrollHeight else MinHeight
  }

  class TextArea {
    var value: string
    var selectionStart: nat
    var selectionEnd: nat
    /** `style.height` in pixels. */
    var height: int

    /** A selection as the DOM keeps it: ordered and within the text. */
    predicate Valid()
      reads this
    {
      selectionStart <= selectionEnd <= |value|
    }

    constructor (initial: string)
      ensures value == initial && selectionStart == 0 && selectionEnd == 0
      ensures Valid()
    {
      value := initial;
      selectionStart := 0;
      selectionEnd := 0;
      height := MinHeight;
    }

    /** The effect run on every change of `value`: fit the height to the content. */
    method AutoResize(scrollHeight: int)
      modifies this
      ensures height == FittedHeight(scrollHeight)
      ensures value == old(value) && selectionStart == old(selectionStart) && selectionEnd == old(selectionEnd)
    {
      height := FittedHeight(scrollHeight);
    }

    /**
     * `handleKeyDown`. Tab replaces the selection by two spaces, reports the
     * new text through `onChange` and collapses the cursor after the spaces;
     * any other key changes nothing and calls nobody.
     */
    method HandleKeyDown(key: string) returns (change: Option<string>)
      requires Valid()
      modifies this
      ensures Valid()
      ensures key != "Tab" ==>
        && change == None
        && value == old(value) && selectionStart == old(selectionStart) && selectionEnd == old(selectionEnd)
      ensures key == "Tab" ==>
        && change == Some(TabInsert(old(value), old(selectionStart), old(selectionEnd)))
        && value == TabInsert(old(value), old(selectionStart), old(selectionEnd))
        && selectionStart == selectionEnd == old(selectionStart) + |Indent|
      ensures height == old(height)
    {
      change := None;
      if key == "Tab" {
        var start := selectionStart;
        var end := selectionEnd;
        var newValue := Substring(value, 0, start) + Indent + Substring(value, end, |value|);
        change := Some(newValue);
        value := newValue;
        selectionEnd := start + |Indent|;
        selectionStart := selectionEnd;
      }
    }
  }
}
