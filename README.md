# log4j event and thread-name specifier — a Dafny model

This project models two pieces of a parser that turns log4j text logs back into
structured events.

- **`Log4jEventImpl`**: the structured event a parsed log record becomes. It is a
  timed event with a line number, a timestamp and a keyed string-property store.
  Level, category, thread name, message and raw text are held in that store under
  the names `log-level`, `log-category`, `thread`, `message` and `raw`. The getters
  return null when a property is absent. The level getter throws
  `IllegalStateException` when the stored literal names no level. The raw text is
  append-only: the first line is stored unchanged, and each later line is joined to
  the text with `"\n"`. In Dafny this is the class `Log4jEvents.Log4jEventImpl`, with
  the store as a `map<string, Option<string>>` field that the setters and `Append`
  reassign. The getters are functions that read that field.
- **`ThreadName`**: the `%t` conversion specifier. Its conversion character is `'t'`.
  Rendering copies a processed string's literal and offsets. `findNext` answers "no
  next boundary" at the end of the content and is not implemented anywhere else.
  `injectIntoEvent` writes a String value into an event's thread property. In Dafny
  these are the functions of module `ThreadName` and the method
  `ThreadName.InjectIntoEvent`, which mutates an event object.

Modules: `Wrappers` (Option, Result, Outcome), `Java` (`long`, the thrown
exceptions, values of static type `Object`, and how `+` renders a null String),
`Log4jLevel` (levels seen through a literal lookup), `PropertyStore` (the inherited
property store), `Log4jEvents` (the event), `Pattern` (processed strings and rendered
spans) and `ThreadName`.

Decisions the Java code leaves open:

- **Null values in the store.** Storing null under a name keeps the name present
  with a null value (`None`). This is what `getLogLevel`'s separate check for a null
  string assumes. So the no-argument constructor leaves every one of the five
  properties present and null, the raw property included.
- **Appending to a null raw text, or appending a null line.** `append` then follows
  Java's string concatenation, which renders a null operand as `"null"`
  (`Java.Show`). Appending to a raw property that is absent stores the line itself,
  null or not.
- **Level vocabulary.** It is not fixed here. A `Catalog` maps literals to levels.
  `FromLiteral` is the partial lookup `Log4jLevel.fromLiteral` performs, and
  `ToLiteral` is `toLiteral`. The getter takes the catalog as a parameter.
- **The timed-event base** starts with an empty property store. The line number and
  timestamp are plain `long` fields.

## Model

| member | source | states |
|---|---|---|
| `Log4jEvents.Log4jEventImpl.constructor` | main/src/main/java/io/novaordis/events/log4j/impl/Log4jEventImpl.java:57-67 | the new event has the given line number and timestamp; its store holds exactly the five properties; level is the level's literal or null; category, thread, message and raw text are the arguments, the raw text coming from one append onto a store with no raw property |
| `Log4jEvents.Log4jEventImpl.Default` | main/src/main/java/io/novaordis/events/log4j/impl/Log4jEventImpl.java:48-51 | zero line number and timestamp; all five properties present and null, so every getter returns null |
| `Log4jEvents.Log4jEventImpl.GetLogLevel` | main/src/main/java/io/novaordis/events/log4j/impl/Log4jEventImpl.java:76-101 | returns null exactly when the level property is absent or null; fails exactly when the stored literal is not recognised, with the IllegalStateException message `invalid 'log-level' value: "<s>"`; otherwise returns the level the literal names |
| `Log4jEvents.Log4jEventImpl.GetLogCategory` | main/src/main/java/io/novaordis/events/log4j/impl/Log4jEventImpl.java:103-114 | null exactly when the category property is absent or holds null; otherwise the stored string |
| `Log4jEvents.Log4jEventImpl.GetThreadName` | main/src/main/java/io/novaordis/events/log4j/impl/Log4jEventImpl.java:116-127 | null exactly when the thread property is absent or holds null; otherwise the stored string |
| `Log4jEvents.Log4jEventImpl.GetMessage` | main/src/main/java/io/novaordis/events/log4j/impl/Log4jEventImpl.java:129-140 | null exactly when the message property is absent or holds null; otherwise the stored string |
| `Log4jEvents.Log4jEventImpl.GetRawRepresentation` | main/src/main/java/io/novaordis/events/log4j/impl/Log4jEventImpl.java:142-153 | null exactly when the raw property is absent or holds null; otherwise the stored string |
| `Log4jEvents.Log4jEventImpl.SetLogLevel` | main/src/main/java/io/novaordis/events/log4j/impl/Log4jEventImpl.java:178-181 | stores the level's literal, or null for a null level, under `log-level` alone; the other four getters are unchanged |
| `Log4jEvents.Log4jEventImpl.SetLogCategory` | main/src/main/java/io/novaordis/events/log4j/impl/Log4jEventImpl.java:183-186 | writes only `log-category`; the category getter then returns the value set; level, thread, message and raw getters are unchanged |
| `Log4jEvents.Log4jEventImpl.SetThreadName` | main/src/main/java/io/novaordis/events/log4j/impl/Log4jEventImpl.java:188-191 | writes only `thread`; the thread getter then returns the value set; the other getters are unchanged |
| `Log4jEvents.Log4jEventImpl.SetMessage` | main/src/main/java/io/novaordis/events/log4j/impl/Log4jEventImpl.java:193-196 | writes only `message`; the message getter then returns the value set; the other getters are unchanged |
| `Log4jEvents.Log4jEventImpl.Append` | main/src/main/java/io/novaordis/events/log4j/impl/Log4jEventImpl.java:198-217 | the store becomes `Appended` of the old store: level, category, thread and message are untouched |
| `Log4jEvents.Appended` | main/src/main/java/io/novaordis/events/log4j/impl/Log4jEventImpl.java:201-217 | append changes the raw property only: the raw name is present afterwards, and every other property keeps its name and value |
| `Log4jEvents.AppendFirstLine` | main/src/main/java/io/novaordis/events/log4j/impl/Log4jEventImpl.java:203-209 | with no raw property yet, the appended line is stored unchanged |
| `Log4jEvents.AppendLaterLine` | main/src/main/java/io/novaordis/events/log4j/impl/Log4jEventImpl.java:211-216 | with raw text `r`, appending `line` makes it `r + "\n" + line` |
| `Log4jEvents.AppendGrowsRaw` | main/src/main/java/io/novaordis/events/log4j/impl/Log4jEventImpl.java:211-216 | the old raw text is a prefix of the new one, and what follows it is exactly a newline and the line |
| `Log4jEvents.AppendedAllExtends` | main/src/main/java/io/novaordis/events/log4j/impl/Log4jEventImpl.java:198-217 | appending a sequence of lines to raw text `r` yields `r`, a newline, then the lines joined by newlines |
| `Log4jEvents.AppendedAllJoins` | main/src/main/java/io/novaordis/events/log4j/impl/Log4jEventImpl.java:198-217 | an event with no raw property that has every line of a record appended in turn holds exactly those lines joined by newlines, the first with no separator |
| `Log4jEvents.AppendToNullRaw` | main/src/main/java/io/novaordis/events/log4j/impl/Log4jEventImpl.java:211-216 | a raw property that is present but null is not treated as absent: appending `line` gives `"null\n" + line`, as Java's concatenation renders the null |
| `Log4jEvents.AppendedAllAfterNullRaw` | main/src/main/java/io/novaordis/events/log4j/impl/Log4jEventImpl.java:198-217 | an event whose raw property holds null, as the no-argument constructor leaves it, gets `"null"`, a newline, then the appended lines joined by newlines |
| `Log4jEvents.AppendedAllKeepsOthers` | main/src/main/java/io/novaordis/events/log4j/impl/Log4jEventImpl.java:201-217 | any number of appends leaves every getter other than the raw one unchanged |
| `Log4jEvents.SplitAfterLine` | main/src/main/java/io/novaordis/events/log4j/impl/Log4jEventImpl.java:211-216 | a raw text made of a newline-free line, a newline and more text splits into that line followed by the lines of the rest |
| `Log4jEvents.SplitJoinLines` | main/src/main/java/io/novaordis/events/log4j/impl/Log4jEventImpl.java:198-217 | the raw text keeps a record's physical lines recoverable: cutting the joined text at newlines gives back the lines, provided none holds a newline |
| `Log4jEvents.RecognisedLevelRoundTrip` | main/src/main/java/io/novaordis/events/log4j/impl/Log4jEventImpl.java:79-100 | once `setLogLevel` has stored a level's literal and the catalog maps that literal back to the level, `getLogLevel` returns the level |
| `Log4jEvents.UnrecognisedLevelFails` | main/src/main/java/io/novaordis/events/log4j/impl/Log4jEventImpl.java:93-98 | a stored literal the catalog does not recognise makes `getLogLevel` throw IllegalStateException rather than return a default |
| `ThreadName.GetConversionCharacter` | main/src/main/java/io/novaordis/events/log4j/pattern/convspec/ThreadName.java:49-53 | the conversion character is always `'t'` |
| `ThreadName.ParseLiteralAfterFormatModifierWasUnapplied` | main/src/main/java/io/novaordis/events/log4j/pattern/convspec/ThreadName.java:55-60 | the rendered event's literal, `from` and `to` are those of the processed string |
| `ThreadName.FindNext` | main/src/main/java/io/novaordis/events/log4j/pattern/convspec/ThreadName.java:62-73 | returns "no next boundary" exactly when `from` is the end of the content; for any other offset it throws `RuntimeException("findNext() NOT YET IMPLEMENTED")` and never returns a boundary |
| `ThreadName.Injected` | main/src/main/java/io/novaordis/events/log4j/pattern/convspec/ThreadName.java:75-94 | null leaves the store as it is; a non-String fails with IllegalArgumentException `invalid value type <SimpleName>, expected String`; a String sets the thread property to it and keeps every other property |
| `ThreadName.InjectIntoEvent` | main/src/main/java/io/novaordis/events/log4j/pattern/convspec/ThreadName.java:75-94 | succeeds exactly when `Injected` does and then leaves the event's store as `Injected` says; on failure throws that exception and leaves the event unchanged; a String becomes the thread name; level, category, message and raw text never change |

## Left out

- `toString` of the event is not modelled. It formats the timestamp with a Java date formatter.
- The timed-event base class (`setStringProperty`, `getStringProperty`, `setLineNumber`, the timestamp) is not part of this model. It is stood in for by a map with store-and-return semantics, and the line number and timestamp are plain fields.
- The level enumeration is not part of this model. It is an opaque partial lookup (`Catalog`), and no vocabulary is fixed.
- `ThreadName.FindNext`: `ConversionPatternComponent.checkConsistency` is not part of this model. Its effect is stated as the precondition `0 <= from <= |logContent|`; what it throws for other offsets is not modelled.
- `ThreadName.FindNext`: the boundary search for an offset before the end of the content is not implemented in the source. The model returns the source's "not yet implemented" exception there and does not invent a search.
- The parsed value that a `RenderedLogEvent` may carry beside its literal and offsets is not modelled. Its constructor is not part of this model.
- The parts of `ThreadName` inherited from its specifier base class are not part of this model. They cover adding characters while compiling a pattern and format-modifier handling.
- The `Logger` (`%c`) specifier is not modelled. Apart from its constant `'c'`, its only parsing method throws "not yet implemented".
- The pattern compiler, the line matcher, multi-line continuation and the `Message` specifier are not part of this model. Their source is not among the modelled files.
- Strings are Dafny strings, sequences of Unicode scalar values, standing for Java's sequences of UTF-16 chars: a character outside the Basic Multilingual Plane counts as one character here but as a surrogate pair (two chars) in Java, so `ThreadName.FindNext`'s end-of-content test and every offset disagree with Java's `length()` on such text.
- Reference arguments are never null in the model (the event passed to `ThreadName.InjectIntoEvent`, the processed string, the log content), so the NullPointerExceptions a null receiver raises in Java, such as `injectIntoEvent(null, "x")`, are not modelled; `injectIntoEvent(null, null)`, which returns before touching the event in Java, has no counterpart.
