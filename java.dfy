/** The few pieces of the Java platform that the event and the specifier rely on. */
module Java {
  import opened Wrappers

  /** Java's `long`. */
  newtype Long = x: int | -0x8000_0000_0000_0000 <= x < 0x8000_0000_0000_0000

  /** The exceptions the modelled code throws, each with its message. */
  datatype Exception =
    | IllegalStateException(message: string)
    | IllegalArgumentException(message: string)
    | RuntimeException(message: string)

  /** A value of static type `Object`: null, a `String`, or an instance of some other
      class, known here only by its simple class name. */
  datatype Object = Null | Str(s: string) | Instance(simpleName: string)

  /** The text that Java's string concatenation `+` produces for a `String` operand
      that may be null. */
  function Show(s: Option<string>): string
  {
    match s
    case None => "null"
    case Some(t) => t
  }
}
