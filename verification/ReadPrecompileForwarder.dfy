/**
 The single-flight cache behind forwarded read precompile calls.

 `Cache` is the structure guarded by the cache mutex; its two methods are the two critical sections
 of `resolve`. `State` and `Step` put any number of concurrent `resolve` calls on top of it: every
 step is one lock-protected action, and a run is any interleaving of them.
 */
module ReadPrecompileForwarder {
  import opened Common

  const MAX_CACHE_ENTRIES: nat := 16_384

  datatype Key = Key(block: nat, head: nat, address: nat, input: Bytes)

  datatype Response = Output(bytes: Bytes) | Rejected

  /** What `request` returned: an upstream response, or the text of the failure. */
  datatype Reply = Answer(response: Response) | Failure(message: string)

  /** Identity of one shared `InFlight` allocation. */
  type Slot = nat

  datatype CacheView = CacheView(newest: nat, responses: map<Key, Response>, inFlight: map<Key, Slot>)

  /** What the first critical section of `resolve` decides. */
  datatype Entry = Hit(response: Response) | Join(slot: Slot) | Lead(slot: Slot)

  function Enter(c: CacheView, key: Key, unused: Slot): (CacheView, Entry)
  {
    if key in c.responses then (c, Hit(c.responses[key]))
    else if key in c.inFlight then (c, Join(c.inFlight[key]))
    else (c.(inFlight := c.inFlight[key := unused]), Lead(unused))
  }

  /** Entries the chain has not moved past. */
  function Current(responses: map<Key, Response>, newest: nat): map<Key, Response>
  {
    map k | k in responses && k.block >= newest :: responses[k]
  }

  function Prune(responses: map<Key, Response>, newest: nat): map<Key, Response>
  {
    if |responses| < MAX_CACHE_ENTRIES then responses
    else
      var current := Current(responses, newest);
      if |current| < MAX_CACHE_ENTRIES then current else map[]
  }

  function Complete(c: CacheView, key: Key, reply: Reply): CacheView
  {
    var inFlight := c.inFlight - {key};
    match reply
    case Failure(_) => c.(inFlight := inFlight)
    case Answer(response) =>
      var newest := Max(c.newest, key.block);
      CacheView(newest, Prune(c.responses, newest)[key := response], inFlight)
  }

  class Cache {
    var newestBlockNumber: nat
    var responses: map<Key, Response>
    var inFlight: map<Key, Slot>

    function View(): CacheView
      reads this
    {
      CacheView(newestBlockNumber, responses, inFlight)
    }

    constructor ()
      ensures View() == CacheView(0, map[], map[])
    {
      newestBlockNumber, responses, inFlight := 0, map[], map[];
    }

    /** First critical section of `resolve`; `unused` is the identity of a new `InFlight`. */
    method EnterLocked(key: Key, unused: Slot) returns (entry: Entry)
      modifies this
      ensures (View(), entry) == Enter(old(View()), key, unused)
    {
      if key in responses {
        return Hit(responses[key]);
      }
      if key in inFlight {
        return Join(inFlight[key]);
      }
      inFlight := inFlight[key := unused];
      return Lead(unused);
    }

    /** Second critical section of `resolve`, run by the leader once its request is over. */
    method CompleteLocked(key: Key, reply: Reply)
      modifies this
      ensures View() == Complete(old(View()), key, reply)
      ensures inFlight == old(inFlight) - {key}
      ensures reply.Failure? ==> responses == old(responses) && newestBlockNumber == old(newestBlockNumber)
      ensures reply.Answer? ==>
        && newestBlockNumber == (if old(newestBlockNumber) < key.block then key.block else old(newestBlockNumber))
        && if |old(responses)| < MAX_CACHE_ENTRIES then responses == old(responses)[key := reply.response]
           else
             var kept := map k | k in old(responses) && k.block >= newestBlockNumber :: old(responses)[k];
             responses == (if |kept| < MAX_CACHE_ENTRIES then kept else map[])[key := reply.response]
    {
      inFlight := inFlight - {key};
      if reply.Answer? {
        newestBlockNumber := Max(newestBlockNumber, key.block);
        if |responses| >= MAX_CACHE_ENTRIES {
          responses := Current(responses, newestBlockNumber);
          if |responses| >= MAX_CACHE_ENTRIES {
            responses := map[];
          }
        }
        responses := responses[key := reply.response];
      }
    }
  }

  /**
   One call of `resolve` on a cache nobody else is using; `reply` is what upstream would say. The first
   answer for a key is given again, and a failure leaves the cache as if it had not been asked.
   */
  method Resolve(cache: Cache, key: Key, unused: Slot, reply: Reply) returns (r: Reply)
    requires key !in cache.inFlight
    modifies cache
    ensures key !in cache.inFlight
    ensures key in old(cache.responses) ==> r == Answer(old(cache.responses)[key]) && cache.View() == old(cache.View())
    ensures key !in old(cache.responses) ==> r == reply
    ensures r.Answer? ==> key in cache.responses && Answer(cache.responses[key]) == r
    ensures r.Failure? ==> cache.View() == old(cache.View())
  {
    var entry := cache.EnterLocked(key, unused);
    if entry.Hit? {
      return Answer(entry.response);
    }
    cache.CompleteLocked(key, reply);
    assert old(cache.inFlight)[key := unused] - {key} == old(cache.inFlight);
    return reply;
  }

  // ---------------------------------------------------------------------------------------------
  // Interleavings
  // ---------------------------------------------------------------------------------------------

  /** How a finished call came by its reply. */
  datatype Role = FromCache | Led(slot: Slot) | Followed(slot: Slot)

  /** Where one `resolve` call stands. */
  datatype Call =
    | Start(key: Key)                              // about to take the cache lock
    | Requesting(key: Key, slot: Slot)             // leader, request outstanding
    | Replied(key: Key, slot: Slot, reply: Reply)  // leader, request over, cache untouched
    | Stored(key: Key, slot: Slot, reply: Reply)   // leader, cache updated and unlocked
    | Published(key: Key, slot: Slot, reply: Reply) // leader, result written, nobody notified
    | Checking(key: Key, slot: Slot)               // follower, about to inspect the result
    | Parked(key: Key, slot: Slot)                 // follower, asleep on the condition variable
    | Done(key: Key, reply: Reply, role: Role)
  {
    /** In flight as far as the cache is concerned. */
    predicate AwaitsStore() { Requesting? || Replied? }

    predicate Leader() { Requesting? || Replied? || Stored? || Published? || (Done? && role.Led?) }

    predicate Follower() { Checking? || Parked? || (Done? && role.Followed?) }

    /** The slot this call leads or follows. */
    function Via(): Slot
      requires Leader() || Follower()
    {
      if Done? then role.slot else slot
    }

    /** The leader has called `notify_all`. */
    predicate HasNotified() { Done? }

    predicate HasPublished() { Published? || Done? }
  }

  /** One reply the upstream (or the timeout) gave to one request. */
  datatype Given = Given(address: nat, input: Bytes, reply: Reply)

  /** A shared result cell; all fields but `result` only record history. */
  datatype InFlight = InFlight(result: Option<Reply>, key: Key, leader: nat, notified: bool)

  /** `upstream` records every reply so far. */
  datatype State = State(cache: CacheView, slots: seq<InFlight>, calls: seq<Call>, upstream: set<Given>)

  const Init := State(CacheView(0, map[], map[]), [], [], {})

  datatype Step =
    | Arrive(key: Key)           // a new call of `resolve`
    | EnterCache(c: nat)
    | Respond(c: nat, reply: Reply) // the request returns anything at all
    | Store(c: nat)
    | Publish(c: nat)
    | Notify(c: nat)
    | Check(c: nat)              // inspect the result; park if there is none
    | Spurious(c: nat)           // the condition variable wakes up for no reason

  predicate Enabled(s: State, step: Step)
  {
    match step
    case Arrive(_) => true
    case EnterCache(c) => c < |s.calls| && s.calls[c].Start?
    case Respond(c, _) => c < |s.calls| && s.calls[c].Requesting?
    case Store(c) => c < |s.calls| && s.calls[c].Replied?
    case Publish(c) => c < |s.calls| && s.calls[c].Stored? && s.calls[c].slot < |s.slots|
    case Notify(c) => c < |s.calls| && s.calls[c].Published? && s.calls[c].slot < |s.slots|
    case Check(c) => c < |s.calls| && s.calls[c].Checking? && s.calls[c].slot < |s.slots|
    case Spurious(c) => c < |s.calls| && s.calls[c].Parked?
  }

  /** `notify_all`: every call parked on `slot` goes back to checking. */
  function Wake(call: Call, slot: Slot): Call
  {
    if call.Parked? && call.slot == slot then Checking(call.key, slot) else call
  }

  function AfterEnter(s: State, c: nat): State
    requires Enabled(s, EnterCache(c))
  {
    var key := s.calls[c].key;
    var (cache, entry) := Enter(s.cache, key, |s.slots|);
    match entry
    case Hit(response) => s.(calls := s.calls[c := Done(key, Answer(response), FromCache)])
    case Join(slot) => s.(calls := s.calls[c := Checking(key, slot)])
    case Lead(slot) =>
      s.(cache := cache, calls := s.calls[c := Requesting(key, slot)],
         slots := s.slots + [InFlight(None, key, c, false)])
  }

  function AfterStore(s: State, c: nat): State
    requires Enabled(s, Store(c))
  {
    var Replied(key, slot, reply) := s.calls[c];
    s.(cache := Complete(s.cache, key, reply), calls := s.calls[c := Stored(key, slot, reply)])
  }

  function AfterPublish(s: State, c: nat): State
    requires Enabled(s, Publish(c))
  {
    var Stored(key, slot, reply) := s.calls[c];
    s.(slots := s.slots[slot := s.slots[slot].(result := Some(reply))],
       calls := s.calls[c := Published(key, slot, reply)])
  }

  function AfterNotify(s: State, c: nat): State
    requires Enabled(s, Notify(c))
  {
    var Published(key, slot, reply) := s.calls[c];
    var calls := s.calls[c := Done(key, reply, Led(slot))];
    s.(slots := s.slots[slot := s.slots[slot].(notified := true)],
       calls := seq(|calls|, i requires 0 <= i < |calls| => Wake(calls[i], slot)))
  }

  function AfterCheck(s: State, c: nat): State
    requires Enabled(s, Check(c))
  {
    var Checking(key, slot) := s.calls[c];
    match s.slots[slot].result
    case None => s.(calls := s.calls[c := Parked(key, slot)])
    case Some(reply) => s.(calls := s.calls[c := Done(key, reply, Followed(slot))])
  }

  function Apply(s: State, step: Step): State
    requires Enabled(s, step)
  {
    match step
    case Arrive(key) => s.(calls := s.calls + [Start(key)])
    case EnterCache(c) => AfterEnter(s, c)
    case Respond(c, reply) =>
      var Requesting(key, slot) := s.calls[c];
      s.(calls := s.calls[c := Replied(key, slot, reply)],
         upstream := s.upstream + {Given(key.address, key.input, reply)})
    case Store(c) => AfterStore(s, c)
    case Publish(c) => AfterPublish(s, c)
    case Notify(c) => AfterNotify(s, c)
    case Check(c) => AfterCheck(s, c)
    case Spurious(c) => s.(calls := s.calls[c := Checking(s.calls[c].key, s.calls[c].slot)])
  }

  predicate IsRun(s: State, steps: seq<Step>)
    decreases |steps|
  {
    steps == [] || (Enabled(s, steps[0]) && IsRun(Apply(s, steps[0]), steps[1..]))
  }

  function Final(s: State, steps: seq<Step>): State
    requires IsRun(s, steps)
    decreases |steps|
  {
    if steps == [] then s else Final(Apply(s, steps[0]), steps[1..])
  }

  // ---------------------------------------------------------------------------------------------
  // The invariant
  // ---------------------------------------------------------------------------------------------

  /** Every cached response is one upstream gave for that address and input. */
  ghost predicate CacheOk(c: CacheView, upstream: set<Given>)
  {
    && |c.responses| <= MAX_CACHE_ENTRIES
    && c.inFlight.Keys !! c.responses.Keys
    && (forall k <- c.responses ::
          k.block <= c.newest && Given(k.address, k.input, Answer(c.responses[k])) in upstream)
  }

  /** Slot `i` was allocated by call `c` for `key`. */
  ghost predicate Owns(s: State, c: nat, key: Key, i: Slot)
  {
    i < |s.slots| && s.slots[i].key == key && s.slots[i].leader == c
  }

  ghost predicate InTable(s: State, key: Key, i: Slot)
  {
    key in s.cache.inFlight && s.cache.inFlight[key] == i
  }

  ghost predicate Genuine(s: State, key: Key, reply: Reply)
  {
    Given(key.address, key.input, reply) in s.upstream
  }

  /** What holds of each call on its own. */
  ghost predicate CallOk(s: State, c: nat)
    requires c < |s.calls|
  {
    match s.calls[c]
    case Start(_) => true
    case Requesting(key, i) => Owns(s, c, key, i) && InTable(s, key, i)
    case Replied(key, i, reply) => Owns(s, c, key, i) && InTable(s, key, i) && Genuine(s, key, reply)
    case Stored(key, i, reply) => Owns(s, c, key, i) && Genuine(s, key, reply)
    case Published(key, i, reply) => Owns(s, c, key, i) && Genuine(s, key, reply)
    case Checking(key, i) => i < |s.slots| && s.slots[i].key == key
    case Parked(key, i) => i < |s.slots| && s.slots[i].key == key && !s.slots[i].notified
    case Done(key, reply, role) =>
      && Genuine(s, key, reply)
      && match role
         case FromCache => reply.Answer?
         case Led(i) => Owns(s, c, key, i)
         case Followed(i) => i < |s.slots| && s.slots[i].key == key && s.slots[i].result == Some(reply)
  }

  /** A slot's leader leads it, and its result appears exactly when the leader publishes. */
  ghost predicate SlotOk(s: State, i: Slot)
    requires i < |s.slots|
  {
    var slot := s.slots[i];
    && slot.leader < |s.calls|
    && var leader := s.calls[slot.leader];
       && leader.Leader() && leader.Via() == i && leader.key == slot.key
       && slot.notified == leader.HasNotified()
       && slot.result == if leader.HasPublished() then Some(leader.reply) else None
  }

  /** A key is in flight on behalf of a leader that has not stored yet. */
  ghost predicate FlightOk(s: State, k: Key)
    requires k in s.cache.inFlight
  {
    var i := s.cache.inFlight[k];
    && i < |s.slots| && s.slots[i].key == k && s.slots[i].leader < |s.calls|
    && s.calls[s.slots[i].leader].AwaitsStore()
  }

  ghost predicate Inv(s: State)
  {
    && CacheOk(s.cache, s.upstream)
    && (forall c: nat :: c < |s.calls| ==> CallOk(s, c))
    && (forall i: Slot :: i < |s.slots| ==> SlotOk(s, i))
    && (forall k <- s.cache.inFlight :: FlightOk(s, k))
  }

  lemma PruneBounds(responses: map<Key, Response>, newest: nat)
    ensures |Prune(responses, newest)| < MAX_CACHE_ENTRIES
    ensures forall k <- Prune(responses, newest) :: k in responses && Prune(responses, newest)[k] == responses[k]
  {
  }

  /** Adding a key grows a map by at most one. */
  lemma InsertSize<K, V>(m: map<K, V>, k: K, v: V)
    ensures |m[k := v]| <= |m| + 1
  {
    assert m[k := v].Keys == m.Keys + {k};
  }

  lemma CompleteKeepsCache(c: CacheView, key: Key, reply: Reply, upstream: set<Given>)
    requires CacheOk(c, upstream)
    requires Given(key.address, key.input, reply) in upstream
    ensures CacheOk(Complete(c, key, reply), upstream)
    ensures key !in Complete(c, key, reply).inFlight
    ensures forall k :: k != key ==> (k in c.inFlight <==> k in Complete(c, key, reply).inFlight)
    ensures forall k <- Complete(c, key, reply).inFlight :: Complete(c, key, reply).inFlight[k] == c.inFlight[k]
  {
    if reply.Answer? {
      var newest := Max(c.newest, key.block);
      PruneBounds(c.responses, newest);
      InsertSize(Prune(c.responses, newest), key, reply.response);
    }
  }

  lemma EnterKeepsCalls(s: State, d: nat, c: nat)
    requires Inv(s) && Enabled(s, EnterCache(d)) && c < |s.calls|
    ensures CallOk(AfterEnter(s, d), c)
  {
    if c != d {
      assert CallOk(s, c);
    } else if s.calls[d].key in s.cache.inFlight {
      assert FlightOk(s, s.calls[d].key);
    }
  }

  lemma StoreKeepsCalls(s: State, d: nat, c: nat)
    requires Inv(s) && Enabled(s, Store(d)) && c < |s.calls|
    ensures CallOk(AfterStore(s, d), c)
  {
    assert CallOk(s, c) && CallOk(s, d);
    CompleteKeepsCache(s.cache, s.calls[d].key, s.calls[d].reply, s.upstream);
  }

  lemma PublishKeepsCalls(s: State, d: nat, c: nat)
    requires Inv(s) && Enabled(s, Publish(d)) && c < |s.calls|
    ensures CallOk(AfterPublish(s, d), c)
  {
    assert CallOk(s, c) && CallOk(s, d) && SlotOk(s, s.calls[d].slot);
  }

  lemma NotifyKeepsCalls(s: State, d: nat, c: nat)
    requires Inv(s) && Enabled(s, Notify(d)) && c < |s.calls|
    ensures CallOk(AfterNotify(s, d), c)
  {
    assert CallOk(s, c) && CallOk(s, d);
  }

  lemma CheckKeepsCalls(s: State, d: nat, c: nat)
    requires Inv(s) && Enabled(s, Check(d)) && c < |s.calls|
    ensures CallOk(AfterCheck(s, d), c)
  {
    assert CallOk(s, c) && SlotOk(s, s.calls[d].slot);
    assert CallOk(s, s.slots[s.calls[d].slot].leader);
  }

  /** One step keeps what holds of each call. */
  lemma StepKeepsCalls(s: State, step: Step, c: nat)
    requires Inv(s) && Enabled(s, step) && c < |Apply(s, step).calls|
    ensures CallOk(Apply(s, step), c)
  {
    match step
    case Arrive(_) => assert c < |s.calls| ==> CallOk(s, c);
    case EnterCache(d) => EnterKeepsCalls(s, d, c);
    case Respond(d, _) => assert CallOk(s, c);
    case Store(d) => StoreKeepsCalls(s, d, c);
    case Publish(d) => PublishKeepsCalls(s, d, c);
    case Notify(d) => NotifyKeepsCalls(s, d, c);
    case Check(d) => CheckKeepsCalls(s, d, c);
    case Spurious(d) => assert CallOk(s, c);
  }

  lemma EnterKeepsSlots(s: State, d: nat, i: Slot)
    requires Inv(s) && Enabled(s, EnterCache(d)) && i < |AfterEnter(s, d).slots|
    ensures SlotOk(AfterEnter(s, d), i)
  {
    assert i < |s.slots| ==> SlotOk(s, i);
  }

  lemma PublishKeepsSlots(s: State, d: nat, i: Slot)
    requires Inv(s) && Enabled(s, Publish(d)) && i < |s.slots|
    ensures SlotOk(AfterPublish(s, d), i)
  {
    assert SlotOk(s, i) && CallOk(s, d);
  }

  lemma NotifyKeepsSlots(s: State, d: nat, i: Slot)
    requires Inv(s) && Enabled(s, Notify(d)) && i < |s.slots|
    ensures SlotOk(AfterNotify(s, d), i)
  {
    assert SlotOk(s, i) && CallOk(s, d);
  }

  lemma StepKeepsSlots(s: State, step: Step, i: Slot)
    requires Inv(s) && Enabled(s, step) && i < |Apply(s, step).slots|
    ensures SlotOk(Apply(s, step), i)
  {
    match step
    case EnterCache(c) => EnterKeepsSlots(s, c, i);
    case Publish(c) => PublishKeepsSlots(s, c, i);
    case Notify(c) => NotifyKeepsSlots(s, c, i);
    case _ => assert SlotOk(s, i);
  }

  lemma StoreKeepsFlights(s: State, d: nat, k: Key)
    requires Inv(s) && Enabled(s, Store(d)) && k in AfterStore(s, d).cache.inFlight
    ensures FlightOk(AfterStore(s, d), k)
  {
    assert CallOk(s, d);
    CompleteKeepsCache(s.cache, s.calls[d].key, s.calls[d].reply, s.upstream);
    assert FlightOk(s, k) && SlotOk(s, s.cache.inFlight[k]);
  }

  lemma EnterKeepsFlights(s: State, d: nat, k: Key)
    requires Inv(s) && Enabled(s, EnterCache(d)) && k in AfterEnter(s, d).cache.inFlight
    ensures FlightOk(AfterEnter(s, d), k)
  {
    if k in s.cache.inFlight {
      assert FlightOk(s, k);
    }
  }

  lemma StepKeepsFlights(s: State, step: Step, k: Key)
    requires Inv(s) && Enabled(s, step) && k in Apply(s, step).cache.inFlight
    ensures FlightOk(Apply(s, step), k)
  {
    match step
    case EnterCache(d) => EnterKeepsFlights(s, d, k);
    case Store(d) => StoreKeepsFlights(s, d, k);
    case _ =>
      assert s.cache == Apply(s, step).cache;
      assert FlightOk(s, k);
  }

  lemma StepKeepsInv(s: State, step: Step)
    requires Inv(s) && Enabled(s, step)
    ensures Inv(Apply(s, step))
  {
    var s' := Apply(s, step);
    if step.Store? {
      assert CallOk(s, step.c);
      CompleteKeepsCache(s.cache, s.calls[step.c].key, s.calls[step.c].reply, s.upstream);
    }
    forall c: nat | c < |s'.calls| ensures CallOk(s', c) { StepKeepsCalls(s, step, c); }
    forall i: Slot | i < |s'.slots| ensures SlotOk(s', i) { StepKeepsSlots(s, step, i); }
    forall k | k in s'.cache.inFlight ensures FlightOk(s', k) { StepKeepsFlights(s, step, k); }
  }

  lemma {:induction false} RunKeepsInv(s: State, steps: seq<Step>)
    requires Inv(s) && IsRun(s, steps)
    ensures Inv(Final(s, steps))
    decreases |steps|
  {
    if steps != [] {
      StepKeepsInv(s, steps[0]);
      RunKeepsInv(Apply(s, steps[0]), steps[1..]);
    }
  }

  // ---------------------------------------------------------------------------------------------
  // What every interleaving guarantees
  // ---------------------------------------------------------------------------------------------

  /** Calls `c` and `d` are both asking upstream for the same key. */
  predicate OneKeyRequested(s: State, c: nat, d: nat)
  {
    && c < |s.calls| && d < |s.calls|
    && s.calls[c].Requesting? && s.calls[d].Requesting? && s.calls[c].key == s.calls[d].key
  }

  /**
   Single flight: at most one call per key is asking upstream, a key is never both in flight and
   cached, the cache is bounded and not ahead of the newest block, and each entry is a genuine
   upstream response for its address and input.
   */
  lemma SingleFlight(steps: seq<Step>)
    requires IsRun(Init, steps)
    ensures var s := Final(Init, steps);
            && (forall c: nat, d: nat :: OneKeyRequested(s, c, d) ==> c == d)
            && s.cache.inFlight.Keys !! s.cache.responses.Keys
            && |s.cache.responses| <= MAX_CACHE_ENTRIES
            && (forall k <- s.cache.responses ::
                  && k.block <= s.cache.newest
                  && Given(k.address, k.input, Answer(s.cache.responses[k])) in s.upstream)
  {
    RunKeepsInv(Init, steps);
    var s := Final(Init, steps);
    forall c: nat, d: nat | OneKeyRequested(s, c, d) ensures c == d {
      assert CallOk(s, c) && CallOk(s, d);
    }
  }

  /**
   No wake-up is lost: while a follower sleeps, the leader of its slot asks for the same key and
   still has its `notify_all` ahead of it.
   */
  lemma NoLostWakeUp(steps: seq<Step>, c: nat)
    requires IsRun(Init, steps)
    requires c < |Final(Init, steps).calls| && Final(Init, steps).calls[c].Parked?
    ensures var s := Final(Init, steps);
            var slot := s.calls[c].slot;
            && slot < |s.slots| && s.slots[slot].leader < |s.calls|
            && var leader := s.calls[s.slots[slot].leader];
               leader.Leader() && leader.Via() == slot && leader.key == s.calls[c].key && !leader.HasNotified()
  {
    RunKeepsInv(Init, steps);
    var s := Final(Init, steps);
    assert CallOk(s, c);
    assert SlotOk(s, s.calls[c].slot);
  }

  /**
   Whatever a finished call returns was given by upstream for its own address and input; a call
   served from the cache never returns a failure, and a follower returns its leader's reply.
   */
  lemma RepliesAreGenuine(steps: seq<Step>, c: nat)
    requires IsRun(Init, steps)
    requires c < |Final(Init, steps).calls| && Final(Init, steps).calls[c].Done?
    ensures var s := Final(Init, steps);
            var call := s.calls[c];
            && Given(call.key.address, call.key.input, call.reply) in s.upstream
            && (call.role.FromCache? ==> call.reply.Answer?)
            && (call.role.Followed? ==>
                  && call.role.slot < |s.slots| && s.slots[call.role.slot].leader < |s.calls|
                  && var leader := s.calls[s.slots[call.role.slot].leader];
                     leader.HasPublished() && leader.key == call.key && leader.reply == call.reply)
  {
    RunKeepsInv(Init, steps);
    var s := Final(Init, steps);
    assert CallOk(s, c);
    if s.calls[c].role.Followed? {
      assert SlotOk(s, s.calls[c].role.slot);
    }
  }

  /**
   A failed request leaves its key in neither table, so the failure is not cached and the next call
   to enter with that key asks upstream itself.
   */
  lemma FailureIsNotCached(steps: seq<Step>, c: nat, unused: Slot)
    requires IsRun(Init, steps)
    requires c < |Final(Init, steps).calls|
    requires Final(Init, steps).calls[c].Replied? && Final(Init, steps).calls[c].reply.Failure?
    ensures var s := Final(Init, steps);
            var key := s.calls[c].key;
            var cache := Apply(s, Store(c)).cache;
            && key !in cache.responses && key !in cache.inFlight
            && Enter(cache, key, unused).1 == Lead(unused)
  {
    RunKeepsInv(Init, steps);
    assert CallOk(Final(Init, steps), c);
  }

  /** The leader of this step is about to store an answer and finds the cache full. */
  ghost predicate StoresIntoFull(s: State, step: Step)
    requires Enabled(s, step)
  {
    step.Store? && s.calls[step.c].reply.Answer? && |s.cache.responses| >= MAX_CACHE_ENTRIES
  }

  /**
   What a store does to the cache. Nothing leaves a cache that is not full. A full one loses the entries
   the chain has moved past; the others stay, unless they fill the cache by themselves.
   */
  lemma StoreReplacesIff(s: State, c: nat, k: Key)
    requires Enabled(s, Store(c)) && s.calls[c].reply.Answer? && k != s.calls[c].key
    ensures
      var next := Apply(s, Store(c)).cache;
      var moved := (set x | x in s.cache.responses && x.block < next.newest);
      && s.calls[c].key in next.responses && Answer(next.responses[s.calls[c].key]) == s.calls[c].reply
      && next.newest >= s.cache.newest && next.newest >= s.calls[c].key.block
      && (next.newest == s.cache.newest || next.newest == s.calls[c].key.block)
      && (k in next.responses <==>
            && k in s.cache.responses
            && (|s.cache.responses| >= MAX_CACHE_ENTRIES ==>
                  k.block >= next.newest && |s.cache.responses| - |moved| < MAX_CACHE_ENTRIES))
      && (k in next.responses ==> next.responses[k] == s.cache.responses[k])
  {
    CurrentSize(s.cache.responses, Apply(s, Store(c)).cache.newest);
  }

  lemma CurrentSize(responses: map<Key, Response>, newest: nat)
    ensures |Current(responses, newest)| == |responses| - |(set k | k in responses && k.block < newest)|
  {
    var current, moved := Current(responses, newest), (set k | k in responses && k.block < newest);
    assert current.Keys + moved == responses.Keys && current.Keys !! moved;
    assert |current.Keys + moved| == |current.Keys| + |moved|;
  }

  lemma RemovalNeedsFull(s: State, step: Step, k: Key)
    requires Inv(s) && Enabled(s, step) && k in s.cache.responses
    requires k !in Apply(s, step).cache.responses || Apply(s, step).cache.responses[k] != s.cache.responses[k]
    ensures StoresIntoFull(s, step)
  {
    if step.Store? {
      assert CallOk(s, step.c);
      if s.calls[step.c].reply.Answer? {
        StoreReplacesIff(s, step.c, k);
      }
    }
  }

  /** In any run an entry leaves the cache only with a step that stores an answer and finds the cache full. */
  lemma RemovedOnlyWhenFull(before: seq<Step>, step: Step, k: Key)
    requires IsRun(Init, before) && Enabled(Final(Init, before), step)
    requires k in Final(Init, before).cache.responses && k !in Apply(Final(Init, before), step).cache.responses
    ensures StoresIntoFull(Final(Init, before), step)
  {
    RunKeepsInv(Init, before);
    RemovalNeedsFull(Final(Init, before), step, k);
  }

  ghost predicate NeverFull(s: State, steps: seq<Step>)
    requires IsRun(s, steps)
    decreases |steps|
  {
    steps == [] || (!StoresIntoFull(s, steps[0]) && NeverFull(Apply(s, steps[0]), steps[1..]))
  }

  lemma {:induction false} CachedStays(s: State, steps: seq<Step>, k: Key)
    requires Inv(s) && IsRun(s, steps) && NeverFull(s, steps) && k in s.cache.responses
    ensures Inv(Final(s, steps)) && k in Final(s, steps).cache.responses
    ensures Final(s, steps).cache.responses[k] == s.cache.responses[k]
    decreases |steps|
  {
    if steps != [] {
      StepKeepsInv(s, steps[0]);
      if k !in Apply(s, steps[0]).cache.responses
         || Apply(s, steps[0]).cache.responses[k] != s.cache.responses[k] {
        RemovalNeedsFull(s, steps[0], k);
        assert false;
      }
      CachedStays(Apply(s, steps[0]), steps[1..], k);
    }
  }

  /**
   Reads agree: once a key has been answered, every call for it that enters later returns that same
   answer without asking upstream again, until an answer is stored into a full cache.
   */
  lemma ReadsAgree(before: seq<Step>, steps: seq<Step>, k: Key, c: nat)
    requires IsRun(Init, before) && k in Final(Init, before).cache.responses
    requires IsRun(Final(Init, before), steps) && NeverFull(Final(Init, before), steps)
    requires var s := Final(Final(Init, before), steps); c < |s.calls| && s.calls[c] == Start(k)
    ensures
      var first, s := Final(Init, before).cache.responses[k], Final(Final(Init, before), steps);
      && Enabled(s, EnterCache(c)) && Apply(s, EnterCache(c)).calls[c] == Done(k, Answer(first), FromCache)
      && Apply(s, EnterCache(c)).cache == s.cache && Apply(s, EnterCache(c)).upstream == s.upstream
  {
    RunKeepsInv(Init, before);
    CachedStays(Final(Init, before), steps, k);
  }

  /** As long as an entry is cached its value never changes, whatever steps are taken. */
  lemma CachedAnswersAreStable(steps: seq<Step>, step: Step, k: Key)
    requires IsRun(Init, steps) && Enabled(Final(Init, steps), step)
    requires k in Final(Init, steps).cache.responses && k in Apply(Final(Init, steps), step).cache.responses
    ensures Apply(Final(Init, steps), step).cache.responses[k] == Final(Init, steps).cache.responses[k]
  {
    var s := Final(Init, steps);
    match step
    case Store(c) =>
      RunKeepsInv(Init, steps);
      assert CallOk(s, c);
      PruneBounds(s.cache.responses, Max(s.cache.newest, s.calls[c].key.block));
    case EnterCache(c) =>
    case _ => assert s.cache == Apply(s, step).cache;
  }

  /**
   Pruning a full cache spares every entry of the newest block exactly when they are few enough;
   otherwise it empties the cache.
   */
  lemma PruneSparesHead(responses: map<Key, Response>, newest: nat)
    requires |responses| >= MAX_CACHE_ENTRIES
    ensures (forall k <- responses :: k.block >= newest ==> k in Prune(responses, newest))
       <==> |Current(responses, newest)| < MAX_CACHE_ENTRIES
  {
    var current := Current(responses, newest);
    if |current| >= MAX_CACHE_ENTRIES {
      assert current.Keys != {};
      var k :| k in current.Keys;
      assert k in responses && k.block >= newest && k !in Prune(responses, newest);
    }
  }

  lemma OneStep(s: State, step: Step, rest: seq<Step>)
    requires Enabled(s, step) && IsRun(Apply(s, step), rest)
    ensures IsRun(s, [step] + rest) && Final(s, [step] + rest) == Final(Apply(s, step), rest)
  {
    assert ([step] + rest)[1..] == rest;
  }

  lemma {:induction false} RunsCompose(s: State, a: seq<Step>, b: seq<Step>)
    requires IsRun(s, a) && IsRun(Final(s, a), b)
    ensures IsRun(s, a + b) && Final(s, a + b) == Final(Final(s, a), b)
    decreases |a|
  {
    if a == [] {
      assert a + b == b;
    } else {
      assert (a + b)[1..] == a[1..] + b;
      RunsCompose(Apply(s, a[0]), a[1..], b);
    }
  }

  lemma TwoCallsEnter(key: Key)
    ensures
      var steps := [Arrive(key), Arrive(key), EnterCache(0), EnterCache(1), Check(1)];
      && IsRun(Init, steps)
      && Final(Init, steps) == State(CacheView(0, map[], map[key := 0]), [InFlight(None, key, 0, false)],
                                     [Requesting(key, 0), Parked(key, 0)], {})
  {
    var a := Apply(Init, Arrive(key));
    var b := Apply(a, Arrive(key));
    var c := Apply(b, EnterCache(0));
    var d := Apply(c, EnterCache(1));
    assert b.calls == [Start(key), Start(key)] && c.calls == [Requesting(key, 0), Start(key)];
    assert d.calls == [Requesting(key, 0), Checking(key, 0)];
    var e := Apply(d, Check(1));
    assert e.calls == [Requesting(key, 0), Parked(key, 0)];
    OneStep(d, Check(1), []);
    OneStep(c, EnterCache(1), [Check(1)] + []);
    OneStep(b, EnterCache(0), [EnterCache(1)] + ([Check(1)] + []));
    OneStep(a, Arrive(key), [EnterCache(0)] + ([EnterCache(1)] + ([Check(1)] + [])));
    OneStep(Init, Arrive(key), [Arrive(key)] + ([EnterCache(0)] + ([EnterCache(1)] + ([Check(1)] + []))));
    assert [Arrive(key), Arrive(key), EnterCache(0), EnterCache(1), Check(1)] ==
           [Arrive(key)] + ([Arrive(key)] + ([EnterCache(0)] + ([EnterCache(1)] + ([Check(1)] + []))));
  }

  lemma LeaderPublishes(s: State, key: Key, reply: Reply)
    requires s.calls == [Requesting(key, 0), Parked(key, 0)] && s.slots == [InFlight(None, key, 0, false)]
    ensures
      var steps := [Respond(0, reply), Store(0), Publish(0)];
      && IsRun(s, steps)
      && Final(s, steps).calls == [Published(key, 0, reply), Parked(key, 0)]
      && Final(s, steps).slots == [InFlight(Some(reply), key, 0, false)]
      && Final(s, steps).upstream == s.upstream + {Given(key.address, key.input, reply)}
  {
    var a := Apply(s, Respond(0, reply));
    assert a.calls == [Replied(key, 0, reply), Parked(key, 0)];
    var b := Apply(a, Store(0));
    assert b.calls == [Stored(key, 0, reply), Parked(key, 0)];
    OneStep(b, Publish(0), []);
    OneStep(a, Store(0), [Publish(0)] + []);
    OneStep(s, Respond(0, reply), [Store(0)] + ([Publish(0)] + []));
    assert [Respond(0, reply), Store(0), Publish(0)] == [Respond(0, reply)] + ([Store(0)] + ([Publish(0)] + []));
  }

  lemma FollowerReturns(s: State, key: Key, reply: Reply)
    requires s.calls == [Published(key, 0, reply), Parked(key, 0)]
    requires s.slots == [InFlight(Some(reply), key, 0, false)]
    ensures
      var steps := [Notify(0), Check(1)];
      && IsRun(s, steps) && Final(s, steps).upstream == s.upstream
      && Final(s, steps).calls == [Done(key, reply, Led(0)), Done(key, reply, Followed(0))]
  {
    var a := Apply(s, Notify(0));
    assert a.calls == [Done(key, reply, Led(0)), Checking(key, 0)];
    OneStep(a, Check(1), []);
    OneStep(s, Notify(0), [Check(1)] + []);
    assert [Notify(0), Check(1)] == [Notify(0)] + ([Check(1)] + []);
  }

  /** Two calls for one key at once: one request, and both return what it brought. */
  lemma OneRequestServesTwo(key: Key, reply: Reply)
    ensures
      var steps := [Arrive(key), Arrive(key), EnterCache(0), EnterCache(1), Check(1)]
                   + [Respond(0, reply), Store(0), Publish(0)] + [Notify(0), Check(1)];
      && IsRun(Init, steps)
      && Final(Init, steps).calls == [Done(key, reply, Led(0)), Done(key, reply, Followed(0))]
      && Final(Init, steps).upstream == {Given(key.address, key.input, reply)}
  {
    var a := [Arrive(key), Arrive(key), EnterCache(0), EnterCache(1), Check(1)];
    var b := [Respond(0, reply), Store(0), Publish(0)];
    TwoCallsEnter(key);
    LeaderPublishes(Final(Init, a), key, reply);
    RunsCompose(Init, a, b);
    FollowerReturns(Final(Init, a + b), key, reply);
    RunsCompose(Init, a + b, [Notify(0), Check(1)]);
  }

  // ---------------------------------------------------------------------------------------------
  // Every call returns
  // ---------------------------------------------------------------------------------------------

  /** Steps a call has at most left; a check that finds a result is worth one. */
  function Rank(s: State, call: Call): nat
  {
    match call
    case Start(_) => 6
    case Requesting(_, _) => 5
    case Replied(_, _, _) => 4
    case Stored(_, _, _) => 3
    case Published(_, _, _) => 1
    case Checking(_, i) => if i < |s.slots| && s.slots[i].result.Some? then 1 else 3
    case Parked(_, _) => 2
    case Done(_, _, _) => 0
  }

  /** Total rank of the calls from number `from` on. */
  function Remaining(s: State, from: nat): nat
    requires from <= |s.calls|
    decreases |s.calls| - from
  {
    if from == |s.calls| then 0 else Rank(s, s.calls[from]) + Remaining(s, from + 1)
  }

  /** Call `d` ranks no higher in `s'` than in `s`, and strictly lower if it is call `c`. */
  ghost predicate RankFell(s: State, s': State, c: nat, d: nat)
    requires d < |s.calls|
  {
    && |s'.calls| == |s.calls|
    && Rank(s', s'.calls[d]) <= Rank(s, s.calls[d])
    && (d == c ==> Rank(s', s'.calls[d]) < Rank(s, s.calls[d]))
  }

  /** Pointwise no larger, and smaller at `c`: the total is smaller if `c` is counted. */
  lemma RemainingDrops(s: State, s': State, c: nat, from: nat)
    requires |s.calls| == |s'.calls| && c < |s.calls| && from <= |s.calls|
    requires forall d: nat :: d < |s.calls| ==> RankFell(s, s', c, d)
    ensures Remaining(s', from) + (if from <= c then 1 else 0) <= Remaining(s, from)
    decreases |s.calls| - from
  {
    if from < |s.calls| {
      assert RankFell(s, s', c, from);
      RemainingDrops(s, s', c, from + 1);
    }
  }

  /** Steps the calls take themselves, as opposed to new arrivals and spurious wake-ups. */
  predicate Own(step: Step) { !step.Arrive? && !step.Spurious? }

  lemma EnterRanks(s: State, c: nat, d: nat)
    requires Inv(s) && Enabled(s, EnterCache(c)) && d < |s.calls|
    ensures RankFell(s, AfterEnter(s, c), c, d)
  {
    assert CallOk(s, d);
  }

  lemma PublishRanks(s: State, c: nat, d: nat)
    requires Inv(s) && Enabled(s, Publish(c)) && d < |s.calls|
    ensures RankFell(s, AfterPublish(s, c), c, d)
  {
  }

  lemma NotifyRanks(s: State, c: nat, d: nat)
    requires Inv(s) && Enabled(s, Notify(c)) && d < |s.calls|
    ensures RankFell(s, AfterNotify(s, c), c, d)
  {
    assert CallOk(s, c) && SlotOk(s, s.calls[c].slot);
  }

  lemma OwnStepRanks(s: State, step: Step, d: nat)
    requires Inv(s) && Enabled(s, step) && Own(step) && d < |s.calls|
    ensures RankFell(s, Apply(s, step), step.c, d)
  {
    match step
    case EnterCache(c) => EnterRanks(s, c, d);
    case Respond(_, _) =>
    case Store(_) =>
    case Publish(c) => PublishRanks(s, c, d);
    case Notify(c) => NotifyRanks(s, c, d);
    case Check(_) =>
  }

  lemma OwnStepProgresses(s: State, step: Step)
    requires Inv(s) && Enabled(s, step) && Own(step)
    ensures Remaining(Apply(s, step), 0) < Remaining(s, 0)
  {
    var s' := Apply(s, step);
    forall d: nat | d < |s.calls| ensures RankFell(s, s', step.c, d) {
      OwnStepRanks(s, step, d);
    }
    RemainingDrops(s, s', step.c, 0);
  }

  /** The next step of call `c`, or of the leader it sleeps on. */
  function Pending(s: State, c: nat): Step
    requires c < |s.calls| && !s.calls[c].Done? && !s.calls[c].Parked?
  {
    match s.calls[c]
    case Start(_) => EnterCache(c)
    case Requesting(_, _) => Respond(c, Failure("timed out"))
    case Replied(_, _, _) => Store(c)
    case Stored(_, _, _) => Publish(c)
    case Published(_, _, _) => Notify(c)
    case Checking(_, _) => Check(c)
  }

  lemma CanProceed(s: State, c: nat) returns (step: Step)
    requires Inv(s) && c < |s.calls| && !s.calls[c].Done?
    ensures Enabled(s, step) && Own(step)
  {
    assert CallOk(s, c);
    if s.calls[c].Parked? {
      assert SlotOk(s, s.calls[c].slot);
      var leader := s.slots[s.calls[c].slot].leader;
      assert CallOk(s, leader);
      step := Pending(s, leader);
    } else {
      step := Pending(s, c);
    }
  }

  lemma {:induction false} RunsAreBounded(s: State, steps: seq<Step>)
    requires Inv(s) && IsRun(s, steps)
    requires forall step <- steps :: Own(step)
    ensures |steps| <= Remaining(s, 0)
    decreases |steps|
  {
    if steps != [] {
      assert Own(steps[0]);
      StepKeepsInv(s, steps[0]);
      OwnStepProgresses(s, steps[0]);
      RunsAreBounded(Apply(s, steps[0]), steps[1..]);
    }
  }

  /** How many steps of its own call `c` takes, and how often it is woken for no reason. */
  function Moves(steps: seq<Step>, c: nat): nat
  {
    if steps == [] then 0 else (if Own(steps[0]) && steps[0].c == c then 1 else 0) + Moves(steps[1..], c)
  }

  function Wakes(steps: seq<Step>, c: nat): nat
  {
    if steps == [] then 0 else (if steps[0] == Spurious(c) then 1 else 0) + Wakes(steps[1..], c)
  }

  /** Neither arrivals nor the steps of others raise a call's rank; a spurious wake-up does, by one. */
  lemma StepRanks(s: State, step: Step, c: nat)
    requires Inv(s) && Enabled(s, step) && c < |s.calls|
    ensures
      var s' := Apply(s, step);
      && c < |s'.calls|
      && Rank(s', s'.calls[c]) + Moves([step], c) <= Rank(s, s.calls[c]) + Wakes([step], c)
  {
    assert [step][1..] == [];
    if Own(step) {
      OwnStepRanks(s, step, c);
    }
  }

  lemma {:induction false} CallIsBounded(s: State, steps: seq<Step>, c: nat)
    requires Inv(s) && IsRun(s, steps) && c < |s.calls|
    ensures
      var s' := Final(s, steps);
      && c < |s'.calls|
      && Moves(steps, c) + Rank(s', s'.calls[c]) <= Rank(s, s.calls[c]) + Wakes(steps, c)
    decreases |steps|
  {
    if steps != [] {
      assert [steps[0]][1..] == [];
      StepKeepsInv(s, steps[0]);
      StepRanks(s, steps[0], c);
      CallIsBounded(Apply(s, steps[0]), steps[1..], c);
    }
  }

  /**
   No livelock and no deadlock. From any reachable state on, whatever arrives and whoever moves, a call
   takes at most six steps of its own, and one more for each time it is woken for no reason. Where no
   call can move, all have returned.
   */
  lemma EveryCallReturns(before: seq<Step>, steps: seq<Step>)
    requires IsRun(Init, before) && IsRun(Final(Init, before), steps)
    ensures forall c: nat :: c < |Final(Init, before).calls| ==> Moves(steps, c) <= 6 + Wakes(steps, c)
    ensures (forall step <- steps :: Own(step)) ==> |steps| <= Remaining(Final(Init, before), 0)
    ensures var s := Final(Final(Init, before), steps);
            (forall step :: Own(step) ==> !Enabled(s, step)) ==>
              forall c: nat :: c < |s.calls| ==> s.calls[c].Done?
  {
    RunKeepsInv(Init, before);
    forall c: nat | c < |Final(Init, before).calls|
      ensures Moves(steps, c) <= 6 + Wakes(steps, c)
    {
      CallIsBounded(Final(Init, before), steps, c);
    }
    if forall step <- steps :: Own(step) {
      RunsAreBounded(Final(Init, before), steps);
    }
    RunKeepsInv(Final(Init, before), steps);
    var s := Final(Final(Init, before), steps);
    forall c: nat | c < |s.calls| && !s.calls[c].Done?
      ensures exists step :: Own(step) && Enabled(s, step)
    {
      var step := CanProceed(s, c);
    }
  }

  // ---------------------------------------------------------------------------------------------
  // Pricing
  // ---------------------------------------------------------------------------------------------

  const READ_PRECOMPILE_BASE_GAS: nat := 1000
  const READ_PRECOMPILE_GAS_PER_BYTE: nat := 33

  function ReadPrecompileGas(inputLen: nat, outputLen: nat): nat
  {
    READ_PRECOMPILE_BASE_GAS + READ_PRECOMPILE_GAS_PER_BYTE * (inputLen + outputLen)
  }

  datatype CallResult = Success(gasUsed: nat, bytes: Bytes) | OutOfGas | Fatal(message: string)

  /** `call`: price the reply of `resolve` locally. */
  function Price(input: Bytes, gasLimit: nat, reply: Reply): CallResult
  {
    match reply
    case Failure(message) => Fatal(message)
    case Answer(Rejected) => OutOfGas
    case Answer(Output(bytes)) =>
      var gas := ReadPrecompileGas(|input|, |bytes|);
      if gas > gasLimit then OutOfGas else Success(gas, bytes)
  }

  /**
   What a call comes to. It succeeds exactly if upstream gave an output and the limit covers 1000 gas
   and 33 for each byte in or out, and then returns that output at that price. It fails fatally exactly
   if the request failed, and is out of gas otherwise.
   */
  lemma PriceIs(input: Bytes, gasLimit: nat, reply: Reply, gas: nat, bytes: Bytes, message: string)
    ensures Price(input, gasLimit, reply) == Success(gas, bytes)
       <==> reply == Answer(Output(bytes)) && gas == 1000 + 33 * |input| + 33 * |bytes| && gas <= gasLimit
    ensures Price(input, gasLimit, reply) == Fatal(message) <==> reply == Failure(message)
    ensures Price(input, gasLimit, reply) == OutOfGas
       <==> reply.Answer? && (reply.response.Rejected? || gasLimit < 1000 + 33 * (|input| + |reply.response.bytes|))
  {
  }

  /** More gas never hurts: a priced call that succeeds does so identically at any higher limit. */
  lemma PriceMonotone(input: Bytes, low: nat, high: nat, reply: Reply)
    requires low <= high && Price(input, low, reply).Success?
    ensures Price(input, high, reply) == Price(input, low, reply)
    ensures Price(input, low, reply).gasUsed <= low
  {
  }
}
