/** lib/models/AttendanceKey.model.js: a rotating proof-of-presence key, removed by a
  * TTL index 30 seconds after it was created. */
module AttendanceKeyModel {
  import opened Wrappers
  import opened SchemaTypes

  datatype AttendanceKey = AttendanceKey(classId: string, key: string, createdAt: Millis)

  /** `index: { expires: '30s' }` on createdAt. */
  const KeyTtlMillis: int := 30000

  function KeyFailures(classId: Option<string>, key: Option<string>): set<string> {
    FailsIf(!RequiredString(classId), "classId") + FailsIf(!RequiredString(key), "key")
  }

  /** `AttendanceKey.create` at time `now`: classId and key are required strings,
    * createdAt defaults to now. */
  function NewKey(classId: Option<string>, key: Option<string>, createdAt: Option<Millis>, now: Millis)
    : (r: Result<AttendanceKey, DbError>)
    ensures r.Ok? <==> RequiredString(classId) && RequiredString(key)
    ensures r.Err? ==> r.error == ValidationError(KeyFailures(classId, key))
    ensures r.Ok? ==> Some(r.value.classId) == classId && Some(r.value.key) == key
                      && r.value.createdAt == createdAt.GetOr(now)
  {
    var failed := KeyFailures(classId, key);
    if failed != {} then Err(ValidationError(failed))
    else Ok(AttendanceKey(classId.value, key.value, createdAt.GetOr(now)))
  }

  /** A key is eligible for removal by the TTL index once 30 s have passed since createdAt. */
  predicate Expired(k: AttendanceKey, now: Millis) {
    now >= k.createdAt + KeyTtlMillis
  }

  /** The keys of `classId` that are not yet eligible for removal at `now`, oldest
    * first. MongoDB deletes an expired key lazily, when its TTL monitor next runs
    * (about once a minute), so the collection may still hold some expired keys. */
  function LiveKeys(keys: seq<AttendanceKey>, classId: string, now: Millis): (r: seq<AttendanceKey>)
    ensures forall k :: k in r <==> k in keys && k.classId == classId && !Expired(k, now)
  {
    if keys == [] then []
    else
      var rest := LiveKeys(keys[1..], classId, now);
      assert keys == [keys[0]] + keys[1..];
      if keys[0].classId == classId && !Expired(keys[0], now) then [keys[0]] + rest else rest
  }

  /** Inserting a key: classId carries no unique index, so success depends only on
    * the new document, never on the keys already stored. */
  function InsertKey(keys: seq<AttendanceKey>, classId: Option<string>, key: Option<string>, now: Millis)
    : (r: Result<seq<AttendanceKey>, DbError>)
    ensures r.Ok? <==> NewKey(classId, key, None, now).Ok?
    ensures r.Ok? ==> r.value == keys + [NewKey(classId, key, None, now).value]
  {
    match NewKey(classId, key, None, now)
    case Ok(k) => Ok(keys + [k])
    case Err(e) => Err(e)
  }

  /** Two keys issued for one class less than 30 s apart both stay live, side by
    * side, until the older one expires. */
  lemma {:induction false} KeysCoexist(keys: seq<AttendanceKey>, classId: string, k1: string, k2: string,
                                       t1: Millis, t2: Millis, now: Millis)
    requires classId != "" && k1 != "" && k2 != ""
    requires t1 <= t2 <= now < t1 + KeyTtlMillis
    ensures InsertKey(keys, Some(classId), Some(k1), t1).Ok?
    ensures var once := InsertKey(keys, Some(classId), Some(k1), t1).value;
            InsertKey(once, Some(classId), Some(k2), t2).Ok? &&
            var twice := InsertKey(once, Some(classId), Some(k2), t2).value;
            AttendanceKey(classId, k1, t1) in LiveKeys(twice, classId, now) &&
            AttendanceKey(classId, k2, t2) in LiveKeys(twice, classId, now)
  {
    var once := InsertKey(keys, Some(classId), Some(k1), t1).value;
    var twice := InsertKey(once, Some(classId), Some(k2), t2).value;
    assert twice == keys + [AttendanceKey(classId, k1, t1)] + [AttendanceKey(classId, k2, t2)];
    assert AttendanceKey(classId, k1, t1) in twice;
    assert AttendanceKey(classId, k2, t2) in twice;
  }
}
