/** The structured log4j event: a timed event whose level, category, thread name,
    message and raw text live in its string-property store. The raw text is
    append-only: the first line is stored as it is, every later line is joined to it
    with a newline. */
module Log4jEvents {
  import opened Wrappers
  import opened Java
  import opened Log4jLevel
  import opened PropertyStore

  const LogLevelProperty := "log-level"
  const LogCategoryProperty := "log-category"
  const ThreadProperty := "thread"
  const MessageProperty := "message"
  const RawProperty := "raw"

  /** What `setLogLevel` stores: the level's literal, or null for a null level. */
  function LevelLiteral(level: Option<Level>): Option<string>
  {
    match level
    case None => None
    case Some(l) => Some(ToLiteral(l))
  }

  /** The property store after `append(line)`: the raw property alone changes. */
  function Appended(p: Properties, line: Option<string>): (q: Properties)
    ensures q.Keys == p.Keys + {RawProperty}
    ensures forall k :: k in p && k != RawProperty ==> q[k] == p[k]
  {
    match Lookup(p, RawProperty)
    case None => p[RawProperty := line]
    case Some(r) => p[RawProperty := Some(Show(r) + "\n" + Show(line))]
  }

  /** The store after appending each of `lines`, in order. */
  function AppendedAll(p: Properties, lines: seq<string>): Properties
    decreases |lines|
  {
    if |lines| == 0 then p else AppendedAll(Appended(p, Some(lines[0])), lines[1..])
  }

  /** The lines of a record, separated by newlines. */
  function JoinLines(lines: seq<string>): string
    requires |lines| > 0
    decreases |lines|
  {
    if |lines| == 1 then lines[0] else lines[0] + "\n" + JoinLines(lines[1..])
  }

  /** The position of the first newline in `s`, or `|s|` when there is none. */
  function NewlineIndex(s: string): (i: nat)
    ensures i <= |s|
    ensures i < |s| ==> s[i] == '\n'
    ensures forall j :: 0 <= j < i ==> s[j] != '\n'
    decreases |s|
  {
    if |s| == 0 || s[0] == '\n' then 0 else 1 + NewlineIndex(s[1..])
  }

  /** The lines of a raw text, cut at every newline. */
  function SplitLines(s: string): seq<string>
    decreases |s|
  {
    var i := NewlineIndex(s);
    if i == |s| then [s] else [s[..i]] + SplitLines(s[i + 1..])
  }

  class Log4jEventImpl {
    var lineNumber: Long
    var timestamp: Long
    var properties: Properties

    /** `Log4jEventImpl(lineNumber, timestamp, level, category, threadName, message, rawLine)`:
        sets the four fields through their setters, then records the raw line by one
        `append`. The timed-event base starts with no properties. */
    constructor (lineNumber: Long, timestamp: Long, level: Option<Level>, category: Option<string>,
                 threadName: Option<string>, message: Option<string>, rawLine: Option<string>)
      ensures this.lineNumber == lineNumber && this.timestamp == timestamp
      ensures properties == map[LogLevelProperty := LevelLiteral(level),
                                LogCategoryProperty := category,
                                ThreadProperty := threadName,
                                MessageProperty := message,
                                RawProperty := rawLine]
      ensures GetLogCategory() == category && GetThreadName() == threadName
      ensures GetMessage() == message && GetRawRepresentation() == rawLine
    {
      this.timestamp := timestamp;
      this.lineNumber := lineNumber;
      properties := map[];
      new;
      SetLogLevel(level);
      SetLogCategory(category);
      SetThreadName(threadName);
      SetMessage(message);
      Append(rawLine);
    }

    /** The no-argument constructor: zero line number and timestamp, every field null,
        and a null raw line appended, which leaves a raw property holding null. */
    constructor Default()
      ensures lineNumber == 0 && timestamp == 0
      ensures properties == map[LogLevelProperty := None, LogCategoryProperty := None,
                                ThreadProperty := None, MessageProperty := None,
                                RawProperty := None]
      ensures GetLogCategory() == None && GetThreadName() == None
      ensures GetMessage() == None && GetRawRepresentation() == None
    {
      timestamp := 0;
      lineNumber := 0;
      properties := map[];
      new;
      SetLogLevel(None);
      SetLogCategory(None);
      SetThreadName(None);
      SetMessage(None);
      Append(None);
    }

    /** `getLogLevel()`: null when the level property is absent or holds null; the
        level its literal names otherwise; an IllegalStateException, never a default,
        when the literal names no level. */
    function GetLogLevel(catalog: Catalog): (r: Result<Option<Level>, Exception>)
      reads this
      ensures r == Success(None) <==> StringValue(properties, LogLevelProperty) == None
      ensures r.Failure? <==> StringValue(properties, LogLevelProperty).Some? &&
                              FromLiteral(catalog, StringValue(properties, LogLevelProperty).value) == None
      ensures r.Success? && r.value.Some? ==>
                FromLiteral(catalog, StringValue(properties, LogLevelProperty).value) == r.value
      ensures r.Failure? ==>
                r.error == IllegalStateException("invalid '" + LogLevelProperty + "' value: \"" +
                                                 StringValue(properties, LogLevelProperty).value + "\"")
    {
      match Lookup(properties, LogLevelProperty)
      case None => Success(None)
      case Some(None) => Success(None)
      case Some(Some(s)) =>
        match FromLiteral(catalog, s)
        case None => Failure(IllegalStateException("invalid '" + LogLevelProperty + "' value: \"" + s + "\""))
        case Some(level) => Success(Some(level))
    }

    /** `getLogCategory()`: null exactly when the property is absent or holds null. */
    function GetLogCategory(): (r: Option<string>)
      reads this
      ensures r.None? <==> LogCategoryProperty !in properties || properties[LogCategoryProperty].None?
      ensures r.Some? ==> properties[LogCategoryProperty] == r
    {
      StringValue(properties, LogCategoryProperty)
    }

    /** `getThreadName()`: null exactly when the property is absent or holds null. */
    function GetThreadName(): (r: Option<string>)
      reads this
      ensures r.None? <==> ThreadProperty !in properties || properties[ThreadProperty].None?
      ensures r.Some? ==> properties[ThreadProperty] == r
    {
      StringValue(properties, ThreadProperty)
    }

    /** `getMessage()`: null exactly when the property is absent or holds null. */
    function GetMessage(): (r: Option<string>)
      reads this
      ensures r.None? <==> MessageProperty !in properties || properties[MessageProperty].None?
      ensures r.Some? ==> properties[MessageProperty] == r
    {
      StringValue(properties, MessageProperty)
    }

    /** `getRawRepresentation()`: null exactly when the property is absent or holds null. */
    function GetRawRepresentation(): (r: Option<string>)
      reads this
      ensures r.None? <==> RawProperty !in properties || properties[RawProperty].None?
      ensures r.Some? ==> properties[RawProperty] == r
    {
      StringValue(properties, RawProperty)
    }

    /** `setLogLevel(level)`: stores the level's literal, or null. */
    method SetLogLevel(level: Option<Level>)
      modifies this`properties
      ensures properties == old(properties)[LogLevelProperty := LevelLiteral(level)]
      ensures GetLogCategory() == old(GetLogCategory()) && GetThreadName() == old(GetThreadName())
      ensures GetMessage() == old(GetMessage()) && GetRawRepresentation() == old(GetRawRepresentation())
    {
      properties := properties[LogLevelProperty := LevelLiteral(level)];
    }

    method SetLogCategory(s: Option<string>)
      modifies this`properties
      ensures properties == old(properties)[LogCategoryProperty := s]
      ensures GetLogCategory() == s
      ensures GetThreadName() == old(GetThreadName()) && GetMessage() == old(GetMessage())
      ensures GetRawRepresentation() == old(GetRawRepresentation())
      ensures forall c :: GetLogLevel(c) == old(GetLogLevel(c))
    {
      properties := properties[LogCategoryProperty := s];
    }

    method SetThreadName(s: Option<string>)
      modifies this`properties
      ensures properties == old(properties)[ThreadProperty := s]
      ensures GetThreadName() == s
      ensures GetLogCategory() == old(GetLogCategory()) && GetMessage() == old(GetMessage())
      ensures GetRawRepresentation() == old(GetRawRepresentation())
      ensures forall c :: GetLogLevel(c) == old(GetLogLevel(c))
    {
      properties := properties[ThreadProperty := s];
    }

    method SetMessage(s: Option<string>)
      modifies this`properties
      ensures properties == old(properties)[MessageProperty := s]
      ensures GetMessage() == s
      ensures GetLogCategory() == old(GetLogCategory()) && GetThreadName() == old(GetThreadName())
      ensures GetRawRepresentation() == old(GetRawRepresentation())
      ensures forall c :: GetLogLevel(c) == old(GetLogLevel(c))
    {
      properties := properties[MessageProperty := s];
    }

    /** `append(line)`: reads the raw property, joins the line to it and writes it back. */
    method Append(line: Option<string>)
      modifies this`properties
      ensures properties == Appended(old(properties), line)
      ensures GetLogCategory() == old(GetLogCategory()) && GetThreadName() == old(GetThreadName())
      ensures GetMessage() == old(GetMessage())
      ensures forall c :: GetLogLevel(c) == old(GetLogLevel(c))
    {
      var p := Lookup(properties, RawProperty);
      var rawRepresentation: Option<string>;
      if p == None {
        rawRepresentation := line;
      } else {
        rawRepresentation := Some(Show(p.value) + "\n" + Show(line));
      }
      properties := properties[RawProperty := rawRepresentation];
    }
  }

  /** The first line appended to an event without raw text is stored unchanged. */
  lemma AppendFirstLine(p: Properties, line: Option<string>)
    requires RawProperty !in p
    ensures StringValue(Appended(p, line), RawProperty) == line
  {
  }

  /** A later line is joined to the existing raw text `r` with a newline. */
  lemma AppendLaterLine(p: Properties, r: string, line: string)
    requires RawProperty in p && p[RawProperty] == Some(r)
    ensures StringValue(Appended(p, Some(line)), RawProperty) == Some(r + "\n" + line)
  {
  }

  /** Appending never shortens or rewrites raw text: the old text is a prefix of the
      new one, and what is added is a newline followed by the line. */
  lemma AppendGrowsRaw(p: Properties, r: string, line: string)
    requires RawProperty in p && p[RawProperty] == Some(r)
    ensures var q := Appended(p, Some(line));
            StringValue(q, RawProperty).Some? && r <= StringValue(q, RawProperty).value &&
            StringValue(q, RawProperty).value[|r|..] == "\n" + line
  {
  }

  /** Appending lines to raw text `r` adds a newline and the joined lines. */
  lemma {:induction false} AppendedAllExtends(p: Properties, r: string, lines: seq<string>)
    requires RawProperty in p && p[RawProperty] == Some(r)
    requires |lines| > 0
    ensures StringValue(AppendedAll(p, lines), RawProperty) == Some(r + "\n" + JoinLines(lines))
    decreases |lines|
  {
    var p' := Appended(p, Some(lines[0]));
    assert p'[RawProperty] == Some(r + "\n" + lines[0]);
    if |lines| > 1 {
      AppendedAllExtends(p', r + "\n" + lines[0], lines[1..]);
      assert r + "\n" + lines[0] + "\n" + JoinLines(lines[1..]) == r + "\n" + JoinLines(lines);
    }
  }

  /** An event with no raw property that has every physical line of a record appended
      in turn holds exactly those lines joined by newlines. */
  lemma {:induction false} AppendedAllJoins(p: Properties, lines: seq<string>)
    requires RawProperty !in p
    requires |lines| > 0
    ensures StringValue(AppendedAll(p, lines), RawProperty) == Some(JoinLines(lines))
  {
    var p' := Appended(p, Some(lines[0]));
    if |lines| > 1 {
      AppendedAllExtends(p', lines[0], lines[1..]);
    }
  }

  /** A raw property that is present but holds null is not treated as absent: Java's
      concatenation renders it as "null", so the line follows "null" and a newline. */
  lemma AppendToNullRaw(p: Properties, line: string)
    requires RawProperty in p && p[RawProperty] == None
    ensures StringValue(Appended(p, Some(line)), RawProperty) == Some("null\n" + line)
  {
    assert Show(None) + "\n" == "null\n";
  }

  /** Appending the lines of a record to an event whose raw property holds null, as the
      no-argument constructor leaves it, yields "null", a newline, then the joined lines. */
  lemma {:induction false} AppendedAllAfterNullRaw(p: Properties, lines: seq<string>)
    requires RawProperty in p && p[RawProperty] == None
    requires |lines| > 0
    ensures StringValue(AppendedAll(p, lines), RawProperty) == Some("null\n" + JoinLines(lines))
  {
    var p' := Appended(p, Some(lines[0]));
    AppendToNullRaw(p, lines[0]);
    if |lines| > 1 {
      AppendedAllExtends(p', "null\n" + lines[0], lines[1..]);
      assert "null\n" + lines[0] + "\n" + JoinLines(lines[1..]) == "null\n" + JoinLines(lines);
    }
  }

  /** Appending lines leaves every property other than the raw text as it was. */
  lemma {:induction false} AppendedAllKeepsOthers(p: Properties, lines: seq<string>, k: string)
    requires k != RawProperty
    ensures StringValue(AppendedAll(p, lines), k) == StringValue(p, k)
    decreases |lines|
  {
    if |lines| > 0 {
      AppendedAllKeepsOthers(Appended(p, Some(lines[0])), lines[1..], k);
    }
  }

  /** Cutting `a + "\n" + b` at its first newline gives back `a` when `a` has none. */
  lemma NewlineIndexAfter(a: string, b: string)
    requires forall j :: 0 <= j < |a| ==> a[j] != '\n'
    ensures NewlineIndex(a + "\n" + b) == |a|
  {
    var s := a + "\n" + b;
    assert forall j :: 0 <= j < |a| ==> s[j] == a[j];
    assert s[|a|] == '\n';
  }

  /** Cutting `a + "\n" + b` at newlines gives `a`, then the lines of `b`, when `a`
      holds no newline. */
  lemma SplitAfterLine(a: string, b: string)
    requires forall j :: 0 <= j < |a| ==> a[j] != '\n'
    ensures SplitLines(a + "\n" + b) == [a] + SplitLines(b)
  {
    var s := a + "\n" + b;
    NewlineIndexAfter(a, b);
    assert s[..|a|] == a;
    assert s[|a| + 1..] == b;
  }

  /** The raw text keeps the record's physical lines recoverable: splitting the joined
      lines at newlines gives them back, as long as no line holds a newline itself. */
  lemma {:induction false} SplitJoinLines(lines: seq<string>)
    requires |lines| > 0
    requires forall i, j :: 0 <= i < |lines| && 0 <= j < |lines[i]| ==> lines[i][j] != '\n'
    ensures SplitLines(JoinLines(lines)) == lines
    decreases |lines|
  {
    if |lines| == 1 {
      assert NewlineIndex(lines[0]) == |lines[0]|;
    } else {
      SplitAfterLine(lines[0], JoinLines(lines[1..]));
      SplitJoinLines(lines[1..]);
      assert lines == [lines[0]] + lines[1..];
    }
  }

  /** A recognised level stored by `setLogLevel` is what `getLogLevel` returns. */
  lemma RecognisedLevelRoundTrip(e: Log4jEventImpl, catalog: Catalog, level: Level)
    requires Recognised(catalog, level)
    requires LogLevelProperty in e.properties && e.properties[LogLevelProperty] == LevelLiteral(Some(level))
    ensures e.GetLogLevel(catalog) == Success(Some(level))
  {
  }

  /** A literal the catalog does not recognise makes `getLogLevel` fail. */
  lemma UnrecognisedLevelFails(e: Log4jEventImpl, catalog: Catalog, s: string)
    requires FromLiteral(catalog, s) == None
    requires LogLevelProperty in e.properties && e.properties[LogLevelProperty] == Some(s)
    ensures e.GetLogLevel(catalog).Failure?
    ensures e.GetLogLevel(catalog).error.IllegalStateException?
  {
  }
}
