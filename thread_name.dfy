/** The `%t` conversion specifier: the name of the thread that logged the event. Its
    parsed value is a String holding the thread name. */
module ThreadName {
  import opened Wrappers
  import opened Java
  import opened PropertyStore
  import opened Pattern
  import opened Log4jEvents

  const ConversionCharacter := 't'

  /** `getConversionCharacter()`. */
  function GetConversionCharacter(): (c: char)
    ensures c == 't'
  {
    ConversionCharacter
  }

  /** `parseLiteralAfterFormatModifierWasUnapplied(ps)`: the rendered event carries the
      processed string's literal and offsets unchanged. */
  function ParseLiteralAfterFormatModifierWasUnapplied(ps: ProcessedString): (r: RenderedLogEvent)
    ensures r.literal == ps.processed && r.from == ps.from && r.to == ps.to
  {
    RenderedLogEvent(ps.processed, ps.from, ps.to)
  }

  /** `findNext(logContent, from)`: `from` must be an offset inside the content or at
      its end. At the end there is no next boundary (null); anywhere else the search
      is not implemented and throws. */
  function FindNext(logContent: string, from: int): (r: Result<Option<int>, Exception>)
    requires 0 <= from <= |logContent|
    ensures r == Success(None) <==> from == |logContent|
    ensures r.Failure? <==> from < |logContent|
    ensures r.Failure? ==> r.error == RuntimeException("findNext() NOT YET IMPLEMENTED")
  {
    if |logContent| == from then Success(None)
    else Failure(RuntimeException("findNext() NOT YET IMPLEMENTED"))
  }

  /** What `injectIntoEvent` does to an event's property store: nothing for null, an
      IllegalArgumentException for a value that is not a String, and otherwise the
      thread property set to the string. */
  function Injected(p: Properties, value: Object): (r: Result<Properties, Exception>)
    ensures value.Null? ==> r == Success(p)
    ensures value.Instance? ==>
              r == Failure(IllegalArgumentException("invalid value type " + value.simpleName + ", expected String"))
    ensures value.Str? ==> r.Success? && StringValue(r.value, ThreadProperty) == Some(value.s)
    ensures value.Str? ==> r.Success? && r.value.Keys == p.Keys + {ThreadProperty}
    ensures value.Str? ==> r.Success? && forall k :: k in p && k != ThreadProperty ==> r.value[k] == p[k]
  {
    match value
    case Null => Success(p)
    case Instance(name) => Failure(IllegalArgumentException("invalid value type " + name + ", expected String"))
    case Str(s) => Success(p[ThreadProperty := Some(s)])
  }

  /** `injectIntoEvent(e, value)`: on success the event's store becomes `Injected`'s
      result; on failure the exception is thrown and the event is left as it was. */
  method InjectIntoEvent(e: Log4jEventImpl, value: Object) returns (outcome: Outcome<Exception>)
    modifies e`properties
    ensures Injected(old(e.properties), value).Success? ==>
              outcome == Pass && e.properties == Injected(old(e.properties), value).value
    ensures Injected(old(e.properties), value).Failure? ==>
              outcome == Fail(Injected(old(e.properties), value).error) && e.properties == old(e.properties)
    ensures value.Str? ==> e.GetThreadName() == Some(value.s)
    ensures e.GetLogCategory() == old(e.GetLogCategory()) && e.GetMessage() == old(e.GetMessage())
    ensures e.GetRawRepresentation() == old(e.GetRawRepresentation())
    ensures forall c :: e.GetLogLevel(c) == old(e.GetLogLevel(c))
  {
    if value == Null {
      return Pass;
    }
    if !value.Str? {
      return Fail(IllegalArgumentException("invalid value type " + value.simpleName + ", expected String"));
    }
    e.SetThreadName(Some(value.s));
    return Pass;
  }
}
