/** The scraper's records: Python dictionaries from field names to values. */
module Records {
  import opened PyStr

  /** The field values the scraper stores in a movie dictionary. */
  datatype Value = Null | Str(s: string) | Int(i: int) | Bool(b: bool)

  /** One movie: field name to value (`movie[info_id]`). */
  type Record = map<string, Value>

  /** The dataset: record key (`"NNN-MM"`) to record (`self.movies`). */
  type Movies = map<string, Record>

  /** How an f-string renders a field value. */
  function Text(v: Value): string
  {
    match v
    case Null => "None"
    case Str(s) => s
    case Int(i) => IntToString(i)
    case Bool(b) => if b then "True" else "False"
  }

}
