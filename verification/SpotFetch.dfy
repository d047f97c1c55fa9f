/**
 Looking up a token's spot index while many threads convert blocks: a read of the shared map, and
 on a miss a double-checked, lock-guarded fetch that replaces the map. A run is any interleaving.
 The API is taken to give the same answer, `api`, throughout the run.
 */
module SpotFetch {
  import opened Common
  import opened SenderCodec

  type Index = i: nat | i < U64

  type SpotMap = map<Address, Index>

  /** Where one conversion of a system transaction to `token` stands. */
  datatype Thread =
    | Looking(token: Address)      // about to read the map
    | Blocked(token: Address)      // missed; wants the fetch lock
    | Rechecking(token: Address)   // holds the lock; about to read the map again
    | Fetching(token: Address)     // holds the lock; missed again
    | Writing(token: Address)      // holds the lock; the API has answered
    | Persisting(token: Address)   // holds the lock; the map is replaced
    | Done(token: Address, s: U256)
  {
    predicate Holds() { Rechecking? || Fetching? || Writing? || Persisting? }
  }

  datatype State = State(spots: SpotMap, lock: Option<nat>, threads: seq<Thread>, fetches: nat)

  /** Threads start out looking; the map is whatever the database held. */
  function Start(spots: SpotMap, tokens: seq<Address>): State
  {
    State(spots, None, seq(|tokens|, i requires 0 <= i < |tokens| => Looking(tokens[i])), 0)
  }

  predicate Enabled(s: State, t: nat)
  {
    t < |s.threads| && !s.threads[t].Done? && (s.threads[t].Blocked? ==> s.lock == None)
  }

  /** Thread `t` performs its next atomic action. */
  function Apply(api: SpotMap, s: State, t: nat): State
    requires Enabled(s, t)
  {
    match s.threads[t]
    case Looking(token) =>
      if token in s.spots then s.(threads := s.threads[t := Done(token, SpotS(s.spots[token]))])
      else s.(threads := s.threads[t := Blocked(token)])
    case Blocked(token) => s.(lock := Some(t), threads := s.threads[t := Rechecking(token)])
    case Rechecking(token) =>
      if token in s.spots then s.(lock := None, threads := s.threads[t := Looking(token)])
      else s.(threads := s.threads[t := Fetching(token)])
    case Fetching(token) => s.(fetches := s.fetches + 1, threads := s.threads[t := Writing(token)])
    case Writing(token) => s.(spots := api, threads := s.threads[t := Persisting(token)])
    case Persisting(token) => s.(lock := None, threads := s.threads[t := Looking(token)])
  }

  /** A schedule names the thread that moves at each step. */
  predicate IsRun(api: SpotMap, s: State, schedule: seq<nat>)
    decreases |schedule|
  {
    schedule == [] || (Enabled(s, schedule[0]) && IsRun(api, Apply(api, s, schedule[0]), schedule[1..]))
  }

  function Final(api: SpotMap, s: State, schedule: seq<nat>): State
    requires IsRun(api, s, schedule)
    decreases |schedule|
  {
    if schedule == [] then s else Final(api, Apply(api, s, schedule[0]), schedule[1..])
  }

  /** `s` encodes the entry `spots` has for `token`. */
  ghost predicate Encodes(spots: SpotMap, token: Address, s: U256)
  {
    token in spots && s == SpotS(spots[token])
  }

  /** The map in force is the initial one until the single fetch is written, then the API's. */
  ghost predicate Inv(api: SpotMap, initial: SpotMap, s: State)
  {
    && (s.lock.Some? ==> s.lock.value < |s.threads| && s.threads[s.lock.value].Holds())
    && (forall t: nat :: t < |s.threads| && s.threads[t].Holds() ==> s.lock == Some(t))
    && (s.spots == api || (s.spots == initial && (s.fetches == 0 || AnswerPending(s))))
    && s.fetches <= 1
    && (forall t: nat :: t < |s.threads| ==>
          && (s.threads[t].Fetching? ==> s.threads[t].token !in s.spots && s.fetches == 0)
          && (s.threads[t].Writing? ==> s.fetches == 1)
          && (s.threads[t].Persisting? ==> s.spots == api)
          && (s.threads[t].Done? ==>
                || Encodes(initial, s.threads[t].token, s.threads[t].s)
                || Encodes(api, s.threads[t].token, s.threads[t].s)))
  }

  /** The API's answer is in but not written yet. */
  ghost predicate AnswerPending(s: State)
  {
    s.lock.Some? && s.lock.value < |s.threads| && s.threads[s.lock.value].Writing?
  }

  ghost predicate Listed(api: SpotMap, s: State)
  {
    forall t: nat :: t < |s.threads| ==> s.threads[t].token in api
  }

  /** Nobody has missed: the map the run began with is in force and has every token. */
  ghost predicate Known(initial: SpotMap, s: State)
  {
    && s.spots == initial && s.lock == None && s.fetches == 0
    && (forall t: nat :: t < |s.threads| ==>
          && (s.threads[t].Looking? || s.threads[t].Done?) && s.threads[t].token in initial
          && (s.threads[t].Done? ==> Encodes(initial, s.threads[t].token, s.threads[t].s)))
  }

  /** What holds throughout a run if one of the two maps lists every token. */
  ghost predicate Safe(api: SpotMap, initial: SpotMap, s: State)
  {
    (Inv(api, initial, s) && Listed(api, s)) || Known(initial, s)
  }

  lemma StepKeepsInv(api: SpotMap, initial: SpotMap, s: State, t: nat)
    requires Inv(api, initial, s) && Listed(api, s) && Enabled(s, t)
    ensures Inv(api, initial, Apply(api, s, t)) && Listed(api, Apply(api, s, t))
  {
  }

  lemma StepKeepsKnown(api: SpotMap, initial: SpotMap, s: State, t: nat)
    requires Known(initial, s) && Enabled(s, t)
    ensures Known(initial, Apply(api, s, t))
  {
  }

  lemma StepKeepsSafe(api: SpotMap, initial: SpotMap, s: State, t: nat)
    requires Safe(api, initial, s) && Enabled(s, t)
    ensures Safe(api, initial, Apply(api, s, t))
  {
    if Known(initial, s) {
      StepKeepsKnown(api, initial, s, t);
    } else {
      StepKeepsInv(api, initial, s, t);
    }
  }

  lemma {:induction false} RunKeepsSafe(api: SpotMap, initial: SpotMap, s: State, schedule: seq<nat>)
    requires Safe(api, initial, s) && IsRun(api, s, schedule)
    ensures Safe(api, initial, Final(api, s, schedule))
    decreases |schedule|
  {
    if schedule != [] {
      StepKeepsSafe(api, initial, s, schedule[0]);
      RunKeepsSafe(api, initial, Apply(api, s, schedule[0]), schedule[1..]);
    }
  }

  /** Threads `t` and `u` are both between taking and releasing the fetch lock. */
  ghost predicate BothHold(s: State, t: nat, u: nat)
  {
    t < |s.threads| && u < |s.threads| && s.threads[t].Holds() && s.threads[u].Holds()
  }

  /** One of the two maps, the API's or the one from the database, lists every token. */
  ghost predicate Served(api: SpotMap, initial: SpotMap, tokens: seq<Address>)
  {
    (forall token <- tokens :: token in api) || (forall token <- tokens :: token in initial)
  }

  lemma StartIsSafe(api: SpotMap, initial: SpotMap, tokens: seq<Address>)
    requires Served(api, initial, tokens)
    ensures Safe(api, initial, Start(initial, tokens))
  {
    var s := Start(initial, tokens);
    assert forall t: nat :: t < |s.threads| ==> s.threads[t].token in tokens;
    if forall token <- tokens :: token in api {
      assert Inv(api, initial, s) && Listed(api, s);
    } else {
      assert Known(initial, s);
    }
  }

  /**
   If one map lists every token met, the whole run fetches at most once, at most one thread is ever
   past the fetch lock, and every sender a thread fabricates encodes a map entry for its own token.
   */
  lemma AtMostOneFetch(api: SpotMap, initial: SpotMap, tokens: seq<Address>, schedule: seq<nat>)
    requires Served(api, initial, tokens)
    requires IsRun(api, Start(initial, tokens), schedule)
    ensures var s := Final(api, Start(initial, tokens), schedule);
            && s.fetches <= 1
            && (forall t: nat, u: nat :: BothHold(s, t, u) ==> t == u)
            && (forall t: nat :: t < |s.threads| && s.threads[t].Done? ==>
                  || Encodes(initial, s.threads[t].token, s.threads[t].s)
                  || Encodes(api, s.threads[t].token, s.threads[t].s))
  {
    StartIsSafe(api, initial, tokens);
    RunKeepsSafe(api, initial, Start(initial, tokens), schedule);
  }

  // Termination ---------------------------------------------------------------------------------

  function Rank(spots: SpotMap, thread: Thread): nat
  {
    match thread
    case Looking(token) => if token in spots then 1 else 7
    case Blocked(_) => 6
    case Rechecking(_) => 5
    case Fetching(_) => 4
    case Writing(_) => 3
    case Persisting(_) => 2
    case Done(_, _) => 0
  }

  function Remaining(spots: SpotMap, threads: seq<Thread>): nat
  {
    if threads == [] then 0 else Rank(spots, threads[0]) + Remaining(spots, threads[1..])
  }

  /** Replacing the map by one that lists every token, and lowering one rank, lowers the total. */
  lemma {:induction false} RemainingDrops(
    spots: SpotMap, spots': SpotMap, threads: seq<Thread>, t: nat, thread: Thread)
    requires t < |threads| && Rank(spots', thread) < Rank(spots, threads[t])
    requires spots == spots' || forall u <- threads :: u.token in spots'
    ensures Remaining(spots', threads[t := thread]) < Remaining(spots, threads)
  {
    if t == 0 {
      assert threads[t := thread][1..] == threads[1..];
      RemainingFalls(spots, spots', threads[1..]);
    } else {
      assert threads[t := thread][1..] == threads[1..][t - 1 := thread];
      RemainingDrops(spots, spots', threads[1..], t - 1, thread);
    }
  }

  lemma {:induction false} RemainingFalls(spots: SpotMap, spots': SpotMap, threads: seq<Thread>)
    requires spots == spots' || forall u <- threads :: u.token in spots'
    ensures Remaining(spots', threads) <= Remaining(spots, threads)
  {
    if threads != [] {
      RemainingFalls(spots, spots', threads[1..]);
    }
  }

  lemma StepProgresses(api: SpotMap, initial: SpotMap, s: State, t: nat)
    requires Safe(api, initial, s) && Enabled(s, t)
    ensures var s' := Apply(api, s, t); Remaining(s'.spots, s'.threads) < Remaining(s.spots, s.threads)
  {
    var s' := Apply(api, s, t);
    assert s'.threads == s.threads[t := s'.threads[t]];
    RemainingDrops(s.spots, s'.spots, s.threads, t, s'.threads[t]);
  }

  lemma {:induction false} RunsAreBounded(api: SpotMap, initial: SpotMap, s: State, schedule: seq<nat>)
    requires Safe(api, initial, s) && IsRun(api, s, schedule)
    ensures |schedule| <= Remaining(s.spots, s.threads)
    decreases |schedule|
  {
    if schedule != [] {
      StepProgresses(api, initial, s, schedule[0]);
      StepKeepsSafe(api, initial, s, schedule[0]);
      RunsAreBounded(api, initial, Apply(api, s, schedule[0]), schedule[1..]);
    }
  }

  /**
   Every conversion finishes: no schedule is longer than `Remaining`, and where no thread can move
   all of them have their sender.
   */
  lemma EveryThreadFinishes(api: SpotMap, initial: SpotMap, tokens: seq<Address>, schedule: seq<nat>)
    requires Served(api, initial, tokens)
    requires IsRun(api, Start(initial, tokens), schedule)
    ensures |schedule| <= Remaining(initial, Start(initial, tokens).threads)
    ensures var s := Final(api, Start(initial, tokens), schedule);
            (forall t: nat :: !Enabled(s, t)) ==> forall t: nat :: t < |s.threads| ==> s.threads[t].Done?
  {
    var start := Start(initial, tokens);
    StartIsSafe(api, initial, tokens);
    RunsAreBounded(api, initial, start, schedule);
    RunKeepsSafe(api, initial, start, schedule);
    var s := Final(api, start, schedule);
    if s.lock.Some? {
      assert Enabled(s, s.lock.value);
    }
    forall t: nat | t < |s.threads| && !s.threads[t].Done?
      ensures exists u: nat :: Enabled(s, u)
    {
      assert s.lock.None? ==> Enabled(s, t);
    }
  }

  // Runs that do not end ------------------------------------------------------------------------

  lemma {:induction false} RunsCompose(api: SpotMap, s: State, a: seq<nat>, b: seq<nat>)
    requires IsRun(api, s, a) && IsRun(api, Final(api, s, a), b)
    ensures IsRun(api, s, a + b) && Final(api, s, a + b) == Final(api, Final(api, s, a), b)
    decreases |a|
  {
    if a == [] {
      assert a + b == b;
    } else {
      assert (a + b)[1..] == a[1..] + b;
      RunsCompose(api, Apply(api, s, a[0]), a[1..], b);
    }
  }

  /** Miss, lock, look again, ask, write, unlock. */
  function Turn(t: nat): seq<nat> { [t, t, t, t, t, t] }

  /** A thread that misses replaces the map and is back where it was. */
  lemma OneTurn(api: SpotMap, s: State, t: nat)
    requires t < |s.threads| && s.threads[t].Looking? && s.threads[t].token !in s.spots && s.lock == None
    ensures IsRun(api, s, Turn(t)) && Final(api, s, Turn(t)) == s.(spots := api, fetches := s.fetches + 1)
  {
    var a := Apply(api, s, t);
    var b := Apply(api, a, t);
    var c := Apply(api, b, t);
    var d := Apply(api, c, t);
    var e := Apply(api, d, t);
    var f := Apply(api, e, t);
    assert f.threads == s.threads;
    assert IsRun(api, f, []) && IsRun(api, e, [t]) && IsRun(api, d, [t, t]) && IsRun(api, c, [t, t, t]);
    assert IsRun(api, b, [t, t, t, t]) && IsRun(api, a, [t, t, t, t, t]);
    assert Final(api, e, [t]) == f && Final(api, d, [t, t]) == f && Final(api, c, [t, t, t]) == f;
    assert Final(api, b, [t, t, t, t]) == f && Final(api, a, [t, t, t, t, t]) == f;
  }

  function Turns(t: nat, n: nat): (schedule: seq<nat>)
    ensures |schedule| == 6 * n
  {
    if n == 0 then [] else Turn(t) + Turns(t, n - 1)
  }

  /** If the API does not list its token, it can do so for ever. */
  lemma {:induction false} ManyTurns(api: SpotMap, s: State, t: nat, n: nat)
    requires t < |s.threads| && s.threads[t].Looking? && s.threads[t].token !in api
    requires s.spots == api && s.lock == None
    ensures IsRun(api, s, Turns(t, n)) && Final(api, s, Turns(t, n)) == s.(fetches := s.fetches + n)
    decreases n
  {
    if n > 0 {
      OneTurn(api, s, t);
      ManyTurns(api, Final(api, s, Turn(t)), t, n - 1);
      RunsCompose(api, s, Turn(t), Turns(t, n - 1));
    }
  }

  /** One token the first map lacks and one the API lacks are enough for a run of any length. */
  lemma RunOnAndOn(api: SpotMap, initial: SpotMap, tokens: seq<Address>, i: nat, j: nat, n: nat)
    requires i < |tokens| && tokens[i] !in initial && j < |tokens| && tokens[j] !in api
    ensures
      var start, schedule := Start(initial, tokens), Turn(i) + Turns(j, n);
      && IsRun(api, start, schedule) && |schedule| == 6 * (n + 1)
      && Final(api, start, schedule) == start.(spots := api, fetches := n + 1)
  {
    var start := Start(initial, tokens);
    OneTurn(api, start, i);
    ManyTurns(api, Final(api, start, Turn(i)), j, n);
    RunsCompose(api, start, Turn(i), Turns(j, n));
  }

  ghost predicate BoundedBy(api: SpotMap, s: State, n: nat)
  {
    forall schedule: seq<nat> :: IsRun(api, s, schedule) ==> |schedule| <= n
  }

  ghost predicate FetchesOnce(api: SpotMap, s: State)
  {
    forall schedule: seq<nat> :: IsRun(api, s, schedule) ==> Final(api, s, schedule).fetches <= 1
  }

  /**
   Conversion ends under every schedule, and fetches at most once under every schedule, exactly if one
   of the two maps lists every token met. A token that only the first map has is not enough beside one
   that only the API has: the fetch for the latter takes the former away.
   */
  lemma EveryRunEndsIff(api: SpotMap, initial: SpotMap, tokens: seq<Address>)
    ensures (exists n: nat :: BoundedBy(api, Start(initial, tokens), n)) <==> Served(api, initial, tokens)
    ensures FetchesOnce(api, Start(initial, tokens)) <==> Served(api, initial, tokens)
  {
    var start := Start(initial, tokens);
    if Served(api, initial, tokens) {
      forall schedule: seq<nat> | IsRun(api, start, schedule)
        ensures |schedule| <= Remaining(initial, start.threads) && Final(api, start, schedule).fetches <= 1
      {
        EveryThreadFinishes(api, initial, tokens, schedule);
        AtMostOneFetch(api, initial, tokens, schedule);
      }
      assert BoundedBy(api, start, Remaining(initial, start.threads));
    } else {
      var missed :| missed in tokens && missed !in initial;
      var dropped :| dropped in tokens && dropped !in api;
      var i :| 0 <= i < |tokens| && tokens[i] == missed;
      var j :| 0 <= j < |tokens| && tokens[j] == dropped;
      forall n: nat
        ensures !BoundedBy(api, start, n)
      {
        RunOnAndOn(api, initial, tokens, i, j, n);
        assert |Turn(i) + Turns(j, n)| > n;
      }
      RunOnAndOn(api, initial, tokens, i, j, 1);
      assert Final(api, start, Turn(i) + Turns(j, 1)).fetches == 2;
    }
  }

  /** Token 1 is in the database, token 2 is new: whoever meets 2 first keeps whoever meets 1 busy for ever. */
  lemma FetchDropsKnownToken(n: nat)
    ensures
      var api, initial: SpotMap := map[2 := 0], map[1 := 0];
      var start, schedule := Start(initial, [2, 1]), Turn(0) + Turns(1, n);
      && IsRun(api, start, schedule) && |schedule| > n
      && Final(api, start, schedule) == State(api, None, [Looking(2), Looking(1)], n + 1)
  {
    RunOnAndOn(map[2 := 0], map[1 := 0], [2, 1], 0, 1, n);
  }

  /** While neither the API nor the map in force knows its token, a thread is not done. */
  lemma {:induction false} UnlistedNeverFinishes(api: SpotMap, s: State, schedule: seq<nat>, t: nat)
    requires IsRun(api, s, schedule) && t < |s.threads| && !s.threads[t].Done?
    requires s.threads[t].token !in api && s.threads[t].token !in s.spots
    ensures var s' := Final(api, s, schedule); t < |s'.threads| && !s'.threads[t].Done?
    decreases |schedule|
  {
    if schedule != [] {
      UnlistedNeverFinishes(api, Apply(api, s, schedule[0]), schedule[1..], t);
    }
  }
}
