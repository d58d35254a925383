/**
  Sequences of store operations, as the application issues them: saving a
  record obtained from the authorization exchange, loading, and attempting a
  refresh.  The state is the pair the two source files share: the cache slot
  and the backing file.
*/
module Lifecycle {
  import opened Wrappers
  import opened TokenManagement
  import opened TokenManager

  datatype State = State(cache: Option<TokenInfo>, file: FileState)

  /** One call into the token layer, with the inputs its oracles supply. */
  datatype Op =
    | SaveOp(info: TokenInfo)
    | LoadOp(now: int)
    | RefreshOp(info: TokenInfo, expired: bool, reply: RefreshReply)

  /** The state after one operation, as `TokenStore.Save`, `TokenStore.Load` and `RefreshAccessToken` leave it. */
  function Step(s: State, op: Op): State
  {
    match op
    case SaveOp(info) => State(Some(info), Holds(info))
    case LoadOp(now) => State(LoadDecision(s.cache, s.file, now).cache, s.file)
    case RefreshOp(info, expired, reply) =>
      match RefreshDecision(info, expired, reply).saved
      case Some(record) => State(Some(record), Holds(record))
      case None => s
  }

  /** The state after a sequence of operations, first to last. */
  function Run(s: State, ops: seq<Op>): State
    decreases |ops|
  {
    if ops == [] then s else Run(Step(s, ops[0]), ops[1..])
  }

  /** The cache, once populated, agrees with the file: `TokenStore.Consistent` on a `State`. */
  predicate InSync(s: State)
  {
    CacheAgreesWithFile(s.cache, s.file)
  }

  /** Every operation keeps the cache in agreement with the file. */
  lemma StepKeepsInSync(s: State, op: Op)
    requires InSync(s)
    ensures InSync(Step(s, op))
  {
  }

  /** From any state where the cache agrees with the file, the cache agrees with the file after any sequence of operations. */
  lemma {:induction false} RunKeepsInSync(s: State, ops: seq<Op>)
    requires InSync(s)
    ensures InSync(Run(s, ops))
    decreases |ops|
  {
    if ops != [] {
      StepKeepsInSync(s, ops[0]);
      RunKeepsInSync(Step(s, ops[0]), ops[1..]);
    }
  }

  /** What each of a sequence of loads returns, at the given times. */
  function LoadResults(s: State, nows: seq<int>): (rs: seq<Option<TokenInfo>>)
    ensures |rs| == |nows|
    decreases |nows|
  {
    if nows == [] then []
    else
      var d := LoadDecision(s.cache, s.file, nows[0]);
      [d.returned] + LoadResults(State(d.cache, s.file), nows[1..])
  }

  /** The state after a sequence of loads. */
  function LoadAll(s: State, nows: seq<int>): State
    decreases |nows|
  {
    if nows == [] then s
    else LoadAll(State(LoadDecision(s.cache, s.file, nows[0]).cache, s.file), nows[1..])
  }

  /**
    A cached record that is invalid at `t0` blocks the store: every load at
    `t0` or later returns `None` and leaves the state as it was, whatever the
    file holds, until the next save.
  */
  lemma {:induction false} StaleCacheBlocksLoads(s: State, t0: int, nows: seq<int>)
    requires s.cache.Some? && !TokenManagement.IsTokenValid(s.cache.value, t0)
    requires forall i :: 0 <= i < |nows| ==> t0 <= nows[i]
    ensures forall i :: 0 <= i < |nows| ==> LoadResults(s, nows)[i] == None
    ensures LoadAll(s, nows) == s
    decreases |nows|
  {
    if nows != [] {
      InvalidStaysInvalid(s.cache.value, t0, nows[0]);
      assert LoadDecision(s.cache, s.file, nows[0]) == LoadOutcome(None, s.cache);
      StaleCacheBlocksLoads(s, t0, nows[1..]);
      forall i | 0 <= i < |nows| ensures LoadResults(s, nows)[i] == None {
        if i > 0 {
          assert LoadResults(s, nows)[i] == LoadResults(s, nows[1..])[i - 1];
        }
      }
    }
  }

  /** A refresh that saves: the guard held and the provider answered. */
  predicate RefreshSucceeds(info: TokenInfo, expired: bool, reply: RefreshReply)
  {
    RefreshDecision(info, expired, reply).saved.Some?
  }

  /** A load right after a successful refresh returns `None`: the saved record has no `expires_at`. */
  lemma RefreshThenLoadIsNone(s: State, info: TokenInfo, expired: bool, reply: RefreshReply, now: int)
    requires RefreshSucceeds(info, expired, reply)
    ensures var after := Step(s, RefreshOp(info, expired, reply));
      LoadDecision(after.cache, after.file, now).returned == None
  {
  }

  /**
    After a successful refresh, every load in a run of loads that follows it
    returns `None`, at any times at all, although the file holds the new record.
  */
  lemma {:induction false} RefreshBlocksAllLoads(s: State, info: TokenInfo, expired: bool, reply: RefreshReply, nows: seq<int>)
    requires RefreshSucceeds(info, expired, reply)
    ensures var after := Step(s, RefreshOp(info, expired, reply));
      && after.file == Holds(RefreshDecision(info, expired, reply).saved.value)
      && (forall i :: 0 <= i < |nows| ==> LoadResults(after, nows)[i] == None)
  {
    var after := Step(s, RefreshOp(info, expired, reply));
    if nows != [] {
      // the saved record is invalid at every time, in particular at the earliest load
      StaleCacheBlocksLoads(after, Min(nows), nows);
    }
  }

  /** The smallest element of a non-empty sequence. */
  function Min(xs: seq<int>): (m: int)
    requires xs != []
    ensures forall i :: 0 <= i < |xs| ==> m <= xs[i]
    decreases |xs|
  {
    if |xs| == 1 then xs[0]
    else
      var rest := Min(xs[1..]);
      assert forall i :: 1 <= i < |xs| ==> xs[i] == xs[1..][i - 1];
      if xs[0] <= rest then xs[0] else rest
  }
}
