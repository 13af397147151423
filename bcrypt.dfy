/** The two bcrypt calls the routes make. Hashing is an opaque function supplied by
  * the caller; a salted bcrypt hash verifies exactly the input it was made from. */
module Bcrypt {
  import opened Wrappers

  type Hasher = string -> string

  /** bcrypt hashes are 60-character strings, never empty. */
  ghost predicate NonEmptyHashes(hash: Hasher) {
    forall s :: hash(s) != ""
  }

  /** `bcrypt.compare(data, encrypted)`: `None` when it throws because an argument is
    * missing (a `null` token or an absent OTP), otherwise whether `encrypted` is the
    * hash of `data`. */
  function Compare(data: Option<string>, encrypted: Option<string>, hash: Hasher): (r: Option<bool>)
    ensures r.None? <==> data.None? || encrypted.None?
    ensures r == Some(true) <==> data.Some? && encrypted == Some(hash(data.value))
  {
    if data.None? || encrypted.None? then None else Some(encrypted.value == hash(data.value))
  }
}
