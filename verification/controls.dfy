/** A filter button: the value a click hands to the page, and whether the
    button is drawn as the current selection. */
module Controls {

  datatype Choice<T> = Choice(value: T, active: bool)

  /** A button for `value` while `current` is selected. */
  function ChoiceFor<T(==)>(value: T, current: T): (c: Choice<T>)
    ensures c.value == value
    ensures c.active <==> value == current
  {
    Choice(value, value == current)
  }

  /** One button per value, in order, against the current selection. */
  function ChoicesFor<T(==)>(values: seq<T>, current: T): (r: seq<Choice<T>>)
    ensures |r| == |values|
    ensures forall i :: 0 <= i < |r| ==> r[i] == ChoiceFor(values[i], current)
  {
    seq(|values|, i requires 0 <= i < |values| => ChoiceFor(values[i], current))
  }
}
