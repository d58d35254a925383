/**
  The token store of token_management.py: one module-level cache slot
  (`token_store['token_info']`) backed by one JSON file, "token_info.json".

  The file is abstracted to what `load_token_info` can observe of it: it does
  not exist, it does not parse as JSON, or it holds a record.  Timestamps are
  integers on one clock, and the current time is the parameter `now`.
*/
module TokenManagement {
  import opened Wrappers

  /**
    A stored credential record.  `refreshToken` is optional because the
    provider may send none (Python `None`); `expiresAt` is optional because
    the refresh manager writes records without it.
  */
  datatype TokenInfo = TokenInfo(
    token: string,
    refreshToken: Option<string>,
    tokenUri: string,
    clientId: string,
    clientSecret: string,
    scopes: seq<string>,
    expiresAt: Option<int>)

  /** What opening and JSON-decoding the backing file yields. */
  datatype FileState = Missing | Malformed | Holds(record: TokenInfo)

  /**
    The store's own validity test: the record carries `expires_at` and that
    instant lies strictly after `now`.
  */
  predicate IsTokenValid(info: TokenInfo, now: int)
    // fail closed: a valid record always carries an expiry, and it is still ahead
    ensures IsTokenValid(info, now) ==> info.expiresAt.Some? && now < info.expiresAt.value
  {
    match info.expiresAt
    case None => false
    case Some(expiresAt) => expiresAt > now
  }

  /** A populated cache slot holds the same record as the file. */
  predicate CacheAgreesWithFile(cache: Option<TokenInfo>, file: FileState)
  {
    cache.Some? ==> file == Holds(cache.value)
  }

  /** What one call of `load_token_info` returns, and the cache slot after it. */
  datatype LoadOutcome = LoadOutcome(returned: Option<TokenInfo>, cache: Option<TokenInfo>)

  /**
    The decision `load_token_info` takes, over the cache slot and the file.
    A populated cache decides alone: its record if valid, otherwise `None`.
    Only an empty cache consults the file, and only a valid record read from
    the file is promoted into the cache.
  */
  function LoadDecision(cache: Option<TokenInfo>, file: FileState, now: int): (d: LoadOutcome)
    // anything handed back is valid now, and is what the cache holds afterwards
    ensures d.returned.Some? ==> IsTokenValid(d.returned.value, now) && d.cache == d.returned
    // the record handed back is the cached one or, on a cold cache, the file's
    ensures d.returned.Some? ==> d.returned == cache || (cache.None? && file == Holds(d.returned.value))
    // the cache changes only by filling an empty slot from the file
    ensures d.cache != cache ==> cache.None? && file.Holds? && d.cache == Some(file.record)
    // a valid cached record, or on a cold cache a valid file record, is handed back
    ensures cache.Some? && IsTokenValid(cache.value, now) ==> d.returned.Some?
    ensures cache.None? && file.Holds? && IsTokenValid(file.record, now) ==> d.returned.Some?
    // handing back nothing leaves the cache as it was
    ensures d.returned.None? ==> d.cache == cache
  {
    match cache
    case Some(cached) =>
      if IsTokenValid(cached, now) then LoadOutcome(cache, cache) else LoadOutcome(None, cache)
    case None =>
      match file
      case Missing => LoadOutcome(None, None)
      case Malformed => LoadOutcome(None, None)
      case Holds(record) =>
        if IsTokenValid(record, now) then LoadOutcome(Some(record), Some(record))
        else LoadOutcome(None, None)
  }

  /**
    The store: the cache slot and the contents of the file "token_info.json".
    The source keeps the slot in a module global; here it is an object passed
    to its clients.  Every method keeps a populated cache equal to the file's
    record (`Consistent`).  Records are values here, whereas the source's
    cache holds the very dict its caller passed in or got back.
  */
  class TokenStore {
    var cache: Option<TokenInfo>
    var file: FileState

    predicate Consistent()
      reads this
    {
      CacheAgreesWithFile(cache, file)
    }

    /** Process start: the cache dict is empty and the file is whatever is on disk. */
    constructor (file: FileState)
      ensures cache == None && this.file == file
      ensures Consistent()
    {
      cache := None;
      this.file := file;
    }

    /** `save_token_info`: overwrite the cache slot, then the file. */
    method Save(info: TokenInfo)
      modifies this
      ensures cache == Some(info) && file == Holds(info)
      ensures Consistent()
    {
      cache := Some(info);
      file := Holds(info);
    }

    /** `load_token_info`: never writes the file; follows `LoadDecision`. */
    method Load(now: int) returns (r: Option<TokenInfo>)
      modifies this
      ensures file == old(file)
      ensures LoadOutcome(r, cache) == LoadDecision(old(cache), old(file), now)
      ensures old(Consistent()) ==> Consistent()
    {
      if cache.Some? {
        if IsTokenValid(cache.value, now) {
          return cache;
        } else {
          return None;
        }
      }
      match file
      case Missing =>
        return None;
      case Malformed =>
        return None;
      case Holds(record) =>
        if IsTokenValid(record, now) {
          cache := Some(record);
          return Some(record);
        } else {
          return None;
        }
    }
  }

  /** A record without `expires_at` is never valid. */
  lemma NoExpiryIsInvalid(info: TokenInfo, now: int)
    requires info.expiresAt.None?
    ensures !IsTokenValid(info, now)
  {
  }

  /** Valid exactly when the expiry is strictly later than now; the expiry instant itself is expired. */
  lemma ValidIffExpiresLater(info: TokenInfo, now: int)
    ensures IsTokenValid(info, now) <==> info.expiresAt.Some? && now < info.expiresAt.value
    ensures info.expiresAt == Some(now) ==> !IsTokenValid(info, now)
  {
  }

  /** Once invalid, a record stays invalid at every later time. */
  lemma InvalidStaysInvalid(info: TokenInfo, now: int, later: int)
    requires now <= later
    requires !IsTokenValid(info, now)
    ensures !IsTokenValid(info, later)
  {
  }

  /** A populated, valid cache is returned and nothing changes. */
  lemma LoadCacheHit(cached: TokenInfo, file: FileState, now: int)
    requires IsTokenValid(cached, now)
    ensures LoadDecision(Some(cached), file, now) == LoadOutcome(Some(cached), Some(cached))
  {
  }

  /** A populated but invalid cache gives `None` without consulting the file, even a file with a valid record. */
  lemma LoadStaleCacheIgnoresFile(cached: TokenInfo, file: FileState, now: int)
    requires !IsTokenValid(cached, now)
    ensures LoadDecision(Some(cached), file, now) == LoadOutcome(None, Some(cached))
    ensures LoadDecision(Some(cached), file, now) == LoadDecision(Some(cached), Missing, now)
  {
  }

  /** On a cold cache, a missing or malformed file gives `None` and the cache stays empty. */
  lemma LoadColdUnreadableFile(file: FileState, now: int)
    requires file == Missing || file == Malformed
    ensures LoadDecision(None, file, now) == LoadOutcome(None, None)
  {
  }

  /** On a cold cache, the file's record is returned and cached exactly when it is valid. */
  lemma LoadColdFileRecord(record: TokenInfo, now: int)
    ensures IsTokenValid(record, now) ==>
      LoadDecision(None, Holds(record), now) == LoadOutcome(Some(record), Some(record))
    ensures !IsTokenValid(record, now) ==>
      LoadDecision(None, Holds(record), now) == LoadOutcome(None, None)
  {
  }

  /** Saving then loading gives back the saved record when it is valid, and `None` when it is not. */
  lemma SaveThenLoad(info: TokenInfo, now: int)
    ensures LoadDecision(Some(info), Holds(info), now).returned ==
      (if IsTokenValid(info, now) then Some(info) else None)
    ensures LoadDecision(Some(info), Holds(info), now).cache == Some(info)
  {
  }
}
