/** The form controls the reducers read and write, and the button that triggered a cycle. */
module Controls {
  import opened Wrappers

  datatype Tag = Input | Select | Button | OtherTag

  /** An `<option>` of a select: its displayed text and its value. */
  datatype Choice = Choice(caption: string, value: string)

  /** A form control. An INPUT's value is `text`; a SELECT's value is that of its selected option. */
  class Control {
    const tag: Tag
    const name: string
    var text: string
    var options: seq<Choice>
    var selectedIndex: int

    /** A select's `selectedIndex` is -1 or the index of one of its options. */
    ghost predicate Valid()
      reads this
    {
      -1 <= selectedIndex < |options|
    }

    constructor (tag: Tag, name: string, text: string, options: seq<Choice>, selectedIndex: int)
      requires -1 <= selectedIndex < |options|
      ensures this.tag == tag && this.name == name && this.text == text
      ensures this.options == options && this.selectedIndex == selectedIndex
      ensures Valid()
    {
      this.tag, this.name, this.text := tag, name, text;
      this.options, this.selectedIndex := options, selectedIndex;
    }

    /** `element.value` */
    function Value(): (v: string)
      reads this
      ensures tag == Select && 0 <= selectedIndex < |options| ==> v == options[selectedIndex].value
      ensures tag == Select && !(0 <= selectedIndex < |options|) ==> v == ""
      ensures tag != Select ==> v == text
    {
      if tag == Select then
        if 0 <= selectedIndex < |options| then options[selectedIndex].value else ""
      else text
    }

    /** `select.remove(i)`. Removing the selected option, or removing any option while none is
        selected, selects the first remaining one (the selectedness rule of a single-choice
        select, disabled options aside); options after `i` shift down by one. */
    method Remove(i: int)
      requires Valid() && 0 <= i < |options|
      modifies this
      ensures Valid()
      ensures options == old(options[..i] + options[i + 1..])
      ensures selectedIndex == old(
        if selectedIndex > i then selectedIndex - 1
        else if (selectedIndex == i || selectedIndex == -1) && |options| > 1 then 0
        else if selectedIndex == i then -1
        else selectedIndex)
      ensures text == old(text)
    {
      options := options[..i] + options[i + 1..];
      if selectedIndex > i {
        selectedIndex := selectedIndex - 1;
      } else if (selectedIndex == i || selectedIndex == -1) && |options| > 0 {
        selectedIndex := 0;
      } else if selectedIndex == i {
        selectedIndex := -1;
      }
    }

    /** `select.appendChild(option)`; a select with nothing selected selects its first option. */
    method Append(c: Choice)
      requires Valid()
      modifies this
      ensures Valid()
      ensures options == old(options) + [c]
      ensures selectedIndex == if old(selectedIndex) == -1 then 0 else old(selectedIndex)
      ensures text == old(text)
    {
      options := options + [c];
      if selectedIndex == -1 {
        selectedIndex := 0;
      }
    }

    /** `select.selectedIndex = i`; an index out of range selects nothing. */
    method SetSelectedIndex(i: int)
      requires Valid()
      modifies this
      ensures Valid()
      ensures selectedIndex == if 0 <= i < |options| then i else -1
      ensures options == old(options) && text == old(text)
    {
      selectedIndex := if 0 <= i < |options| then i else -1;
    }
  }

  /** The button that triggered a render: its `name`, its `data-field` attribute (as
      `dataset.field` reads it), and the `input` inside its enclosing `.filter-wrapper`, if any. */
  datatype Action = Action(name: string, field: string, wrapperInput: Option<Control>)
}
