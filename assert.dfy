/** The argument validators of `my.java.util.Assert`: pure checks that throw `IllegalArgumentException`. */
module Assert {
  import opened Wrappers
  import opened JavaStrings

  /** `java.lang.IllegalArgumentException` with its message. */
  datatype IllegalArgumentException = IllegalArgumentException(message: string)

  /** The message `String.format("@%s cannot be null.", argumentName)`. */
  function NullMessage(argumentName: string): string
  {
    "@" + argumentName + " cannot be null."
  }

  /** The message `String.format("@%s cannot be null or empty.", argumentName)`. */
  function BlankMessage(argumentName: string): string
  {
    "@" + argumentName + " cannot be null or empty."
  }

  /** Fails exactly when the argument is null; on success nothing else happens. */
  function NotNull<T>(argumentName: string, argumentValue: Option<T>): (r: Outcome<IllegalArgumentException>)
    ensures r.Fail? <==> argumentValue.None?
    ensures r.Fail? ==> r.error == IllegalArgumentException(NullMessage(argumentName))
  {
    if argumentValue.None? then Fail(IllegalArgumentException(NullMessage(argumentName))) else Pass
  }

  /**
   * Fails when the argument is null, empty, or empty after `trim()`. A value is accepted exactly
   * when it holds at least one character above U+0020.
   */
  function NotNullOrEmptyOrWhiteSpace(argumentName: string, argumentValue: Option<string>): (r: Outcome<IllegalArgumentException>)
    ensures r.Pass? <==> argumentValue.Some? && exists i :: 0 <= i < |argumentValue.value| && !IsTrimmable(argumentValue.value[i])
    ensures r.Fail? ==> r.error == IllegalArgumentException(BlankMessage(argumentName))
  {
    if argumentValue.None? || |argumentValue.value| == 0 || (TrimEmptyIff(argumentValue.value); Trim(argumentValue.value) == []) then
      Fail(IllegalArgumentException(BlankMessage(argumentName)))
    else
      Pass
  }
}
