/** The series record as it arrives in a page's `data` array: a JSON object
    with the keys `name`, `imdb_rating` and `genre`, any of which may be
    absent. */
module Records {

  datatype Option<T> = None | Some(value: T) {
    /** `dict.get(key, default)`. */
    function GetOr(default: T): T {
      if Some? then value else default
    }
  }

  /** `imdb_rating` is taken as already parsed to a number. */
  datatype RawRecord = RawRecord(name: Option<string>, imdbRating: Option<real>, genre: Option<string>)
}
