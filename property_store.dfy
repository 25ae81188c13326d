/** The keyed string-property store an event inherits from its timed-event base.
    Store-and-return semantics: setting a name to a value (null included) makes the
    name present with exactly that value; nothing else changes. */
module PropertyStore {
  import opened Wrappers

  /** Property name to stored string; a present name may hold null (None). */
  type Properties = map<string, Option<string>>

  /** `getStringProperty(name)`: None stands for the null property (name absent),
      Some(v) for a property whose `getString()` is v. */
  function Lookup(p: Properties, name: string): Option<Option<string>>
  {
    if name in p then Some(p[name]) else None
  }

  /** The shape every string getter of the event shares: null for a missing property,
      otherwise the property's string, which may itself be null. */
  function StringValue(p: Properties, name: string): Option<string>
  {
    match Lookup(p, name)
    case None => None
    case Some(s) => s
  }
}
