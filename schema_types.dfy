/** What every Mongoose model here shares: document ids, timestamps as integer
  * milliseconds, and the two errors a write can throw. */
module SchemaTypes {
  import opened Wrappers

  /** A MongoDB ObjectId, compared as `toString()` values compare. */
  type ObjectId = nat

  /** A JavaScript `Date`, as milliseconds since the epoch. */
  type Millis = int

  /** `ValidationError` names every path whose validator failed; `DuplicateKey` is
    * MongoDB's error 11000, naming the first field of the violated unique index. */
  datatype DbError = ValidationError(paths: set<string>) | DuplicateKey(field: string)

  /** Mongoose's `required` validator on a String path: it fails on `null`,
    * `undefined` and on the empty string. */
  predicate RequiredString(v: Option<string>) {
    v.Some? && v.value != ""
  }

  /** The failing path, if the check failed. */
  function FailsIf(failed: bool, path: string): set<string> {
    if failed then {path} else {}
  }
}
