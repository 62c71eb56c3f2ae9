/** base_argument_t: one bound variable of a match result, and the per-argument status. */
module Arguments {
  import opened CTypes

  /** Text is an abstract sequence of characters, whatever the string type. */
  type Text = seq<char>

  /** Status of one argv token after validation. */
  datatype ArgumentStatus =
    | StatusInvalid      // the argument does not work
    | StatusValid        // the argument works
    | StatusValidPrefix  // the argument is a prefix of something that may work

  /**
   * How many times the argument appeared (an unsigned int), and the values
   * captured for it in order.
   */
  datatype Argument = Argument(count: UInt, values: seq<Text>)

  /** The error values.at(0) raises on an empty vector. */
  datatype ValueError = OutOfRange

  datatype ValueResult = Found(text: Text) | Failed(error: ValueError)

  /** base_argument_t(): a count of 0 and no values. */
  const DefaultArgument: Argument := Argument(0, [])

  /** value(): the first captured value, or out_of_range when there is none. */
  function Value(a: Argument): (r: ValueResult)
    ensures r.Found? <==> a.values != []
    ensures r.Found? ==> r.text == a.values[0]
    ensures r.Failed? ==> r.error == OutOfRange
  {
    if |a.values| == 0 then Failed(OutOfRange) else Found(a.values[0])
  }

  /** A default argument has not appeared, holds no values, and has no value() to give. */
  lemma DefaultArgumentHasNoValue()
    ensures DefaultArgument.count == 0 && DefaultArgument.values == []
    ensures Value(DefaultArgument) == Failed(OutOfRange)
  {
  }

  /** An argument holding a single value gives that value back, whatever its count. */
  lemma SingleValue(count: UInt, v: Text)
    ensures Value(Argument(count, [v])) == Found(v)
  {
  }
}
