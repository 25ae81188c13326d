/** The severity levels, seen only through their literal form. The vocabulary is not
    fixed here: a `Catalog` is the partial lookup from literal to level that
    `Log4jLevel.fromLiteral` performs. */
module Log4jLevel {
  import opened Wrappers

  datatype Level = Level(literal: string)

  type Catalog = map<string, Level>

  function ToLiteral(level: Level): string
  {
    level.literal
  }

  /** The level a literal names, or None when the catalog does not recognise it. */
  function FromLiteral(catalog: Catalog, s: string): Option<Level>
  {
    if s in catalog then Some(catalog[s]) else None
  }

  /** A level whose literal the catalog maps back to the level itself. */
  predicate Recognised(catalog: Catalog, level: Level)
  {
    FromLiteral(catalog, ToLiteral(level)) == Some(level)
  }
}
