/**
 Many tasks using one block store: every get is a series of sections that run under a lock of the
 store, with a fetch from the source in between, and the sections of all tasks interleave freely.
 */
module StoreTasks {
  import opened Batching
  import opened BlockStore
  import opened Common
  import opened Lru
  import opened LruIndex

  /** Where one `get_by_number` or `get_by_numbers` stands. */
  datatype Task =
    | Look(n: nat)                                                 // about to look into the cache
    | Fetch(n: nat)                                                // missed; the source is asked
    | Hold(n: nat, block: Block)                                   // has the block; nothing stored yet
    | Kept(n: nat, block: Block)                                   // cached; not indexed yet
    | Done(n: nat, reply: Option<Block>)
    | LookAll(hs: seq<nat>)
    | FetchAll(hs: seq<nat>, got: Found, missing: seq<nat>)
    | HoldAll(hs: seq<nat>, got: Found, missing: seq<nat>, fetched: seq<Block>)
    | KeptAll(hs: seq<nat>, got: Found)
    | DoneAll(hs: seq<nat>, replies: Option<seq<Block>>)

  datatype State = State(cached: Cached, index: Index, tasks: seq<Task>)

  datatype Step =
    | Ask(n: nat)
    | AskAll(hs: seq<nat>)
    | IndexBlock(n: nat)             // `index_block` on a block of the chain that came another way
    | Go(t: nat, order: seq<nat>)    // a task's next section; `order` is how a hash map is walked

  ghost predicate Enabled(w: World, s: State, step: Step)
  {
    match step
    case Ask(_) => true
    case AskAll(_) => true
    case IndexBlock(n) => Read(ViewOf(w), n).Some?
    case Go(t, order) =>
      && t < |s.tasks| && !s.tasks[t].Done? && !s.tasks[t].DoneAll?
      && (s.tasks[t].KeptAll? ==> Walks(order, s.tasks[t].got))
  }

  /** `order` visits every entry once. */
  ghost predicate Walks(order: seq<nat>, got: Found)
  {
    && (forall i :: 0 <= i < |order| ==> order[i] in got)
    && (forall n :: n in got ==> n in order)
    && Distinct(order)
  }

  function Put(s: State, t: nat, task: Task): State
    requires t < |s.tasks|
  {
    s.(tasks := s.tasks[t := task])
  }

  /** A section of `get_by_number`. */
  function GoOne(w: World, s: State, t: nat): State
    requires t < |s.tasks|
  {
    match s.tasks[t]
    case Look(n) =>
      (match Find(s.cached, n)
       case Some(b) => Put(s.(cached := Touch(s.cached, n)), t, Done(n, Some(b)))
       case None => Put(s, t, if n in w.gaps then Hold(n, w.gaps[n]) else Fetch(n)))
    case Fetch(n) =>
      (match Read(w.source, n)
       case None => Put(s, t, Done(n, None))
       case Some(b) => Put(s, t, Hold(n, b)))
    case Hold(n, b) => Put(s.(cached := Insert(s.cached, BLOCK_CACHE_LIMIT, n, b)), t, Kept(n, b))
    case Kept(n, b) => Put(s.(index := Indexed(s.index, b)), t, Done(n, Some(b)))
    case _ => s
  }

  /** A section of `get_by_numbers`. */
  ghost function GoAll(w: World, s: State, t: nat, order: seq<nat>): State
    requires Enabled(w, s, Go(t, order))
  {
    match s.tasks[t]
    case LookAll(hs) =>
      var (cached, got, missing) := Sweep(s.cached, w.gaps, hs);
      Put(s.(cached := cached), t, if missing == [] then KeptAll(hs, got) else FetchAll(hs, got, missing))
    case FetchAll(hs, got, missing) =>
      (match CollectAll(w.source, missing)
       case None => Put(s, t, DoneAll(hs, None))
       case Some(fetched) => Put(s, t, HoldAll(hs, got, missing, fetched)))
    case HoldAll(hs, got, missing, fetched) =>
      Put(s.(cached := KeepAll(s.cached, fetched)), t, KeptAll(hs, AddAll(got, fetched)))
    case KeptAll(hs, got) =>
      Put(s.(index := IndexedAll(s.index, got, order)), t, DoneAll(hs, Handed(hs, got)))
    case _ => s
  }

  ghost function Apply(w: World, s: State, step: Step): State
    requires Enabled(w, s, step)
  {
    match step
    case Ask(n) => s.(tasks := s.tasks + [Look(n)])
    case AskAll(hs) => s.(tasks := s.tasks + [LookAll(hs)])
    case IndexBlock(n) => s.(index := Indexed(s.index, Read(ViewOf(w), n).value))
    case Go(t, order) =>
      if s.tasks[t].Look? || s.tasks[t].Fetch? || s.tasks[t].Hold? || s.tasks[t].Kept? then GoOne(w, s, t)
      else GoAll(w, s, t, order)
  }

  const START: State := State([], BiMap(map[], map[], []), [])

  ghost predicate IsRun(w: World, s: State, steps: seq<Step>)
    decreases |steps|
  {
    steps == [] || (Enabled(w, s, steps[0]) && IsRun(w, Apply(w, s, steps[0]), steps[1..]))
  }

  ghost function Final(w: World, s: State, steps: seq<Step>): State
    requires IsRun(w, s, steps)
    decreases |steps|
  {
    if steps == [] then s else Final(w, Apply(w, s, steps[0]), steps[1..])
  }

  // ---------- What every section keeps ----------

  /** What holds of a task wherever it stands; a finished one has the answer of the view. */
  ghost predicate TaskOk(w: World, task: Task)
  {
    match task
    case Look(_) => true
    case Fetch(n) => n !in w.gaps
    case Hold(n, b) => Read(ViewOf(w), n) == Some(b)
    case Kept(n, b) => Read(ViewOf(w), n) == Some(b)
    case Done(n, reply) => reply == Read(ViewOf(w), n)
    case LookAll(_) => true
    case FetchAll(hs, got, missing) => Gathered(got, ViewOf(w)) && Covered(hs, got, missing) && NotGaps(w, missing)
    case HoldAll(hs, got, missing, fetched) =>
      && Gathered(got, ViewOf(w)) && Covered(hs, got, missing) && NotGaps(w, missing)
      && CollectAll(w.source, missing) == Some(fetched)
    case KeptAll(hs, got) => Gathered(got, ViewOf(w)) && Covered(hs, got, [])
    case DoneAll(hs, replies) => replies == if Distinct(hs) then CollectAll(ViewOf(w), hs) else None
  }

  ghost predicate Inv(w: World, hashAt: nat -> Hash, s: State)
  {
    && Faithful(s.cached, ViewOf(w)) && |s.cached| <= BLOCK_CACHE_LIMIT && Truthful(s.index, hashAt)
    && (forall i :: 0 <= i < |s.tasks| ==> TaskOk(w, s.tasks[i]))
  }

  // ---------- Every run ----------

  /** One task moves on, and the others are as they were. */
  lemma PutKeepsInv(w: World, hashAt: nat -> Hash, s: State, cached: Cached, index: Index, t: nat, task: Task)
    requires Inv(w, hashAt, s) && t < |s.tasks|
    requires Faithful(cached, ViewOf(w)) && |cached| <= BLOCK_CACHE_LIMIT && Truthful(index, hashAt) && TaskOk(w, task)
    ensures Inv(w, hashAt, Put(s.(cached := cached, index := index), t, task))
  {
  }

  lemma GoOneKeepsInv(w: World, hashAt: nat -> Hash, s: State, t: nat)
    requires Chain(ViewOf(w), hashAt) && Inv(w, hashAt, s) && t < |s.tasks|
    ensures Inv(w, hashAt, GoOne(w, s, t))
  {
    match s.tasks[t]
    case Look(n) =>
      TouchIsFaithful(s.cached, ViewOf(w), n);
      if Find(s.cached, n).Some? {
        WithoutFound(s.cached, n);
      }
    case Hold(n, _) => InsertIsFaithful(s.cached, ViewOf(w), n);
    case Kept(n, b) =>
      assert Linked(b, n, hashAt);
      IndexingIsTruthful(s.index, hashAt, ViewOf(w), n);
    case _ =>
  }

  lemma LookAllKeepsInv(w: World, hashAt: nat -> Hash, s: State, t: nat, order: seq<nat>)
    requires Inv(w, hashAt, s) && Enabled(w, s, Go(t, order)) && s.tasks[t].LookAll?
    ensures Inv(w, hashAt, GoAll(w, s, t, order))
  {
    var hs := s.tasks[t].hs;
    var (cached, got, missing) := Sweep(s.cached, w.gaps, hs);
    SweepFinds(w, s.cached, hs);
    SweepInserts(s.cached, w.gaps, hs);
    var next := if missing == [] then KeptAll(hs, got) else FetchAll(hs, got, missing);
    PutKeepsInv(w, hashAt, s, cached, s.index, t, next);
  }

  lemma FetchAllKeepsInv(w: World, hashAt: nat -> Hash, s: State, t: nat, order: seq<nat>)
    requires Inv(w, hashAt, s) && Enabled(w, s, Go(t, order)) && s.tasks[t].FetchAll?
    ensures Inv(w, hashAt, GoAll(w, s, t, order))
  {
    var FetchAll(hs, got, missing) := s.tasks[t];
    assert TaskOk(w, s.tasks[t]);
    match CollectAll(w.source, missing)
    case None =>
      FailedFetch(w, hs, got, missing);
      PutKeepsInv(w, hashAt, s, s.cached, s.index, t, DoneAll(hs, None));
    case Some(fetched) => PutKeepsInv(w, hashAt, s, s.cached, s.index, t, HoldAll(hs, got, missing, fetched));
  }

  lemma HoldAllKeepsInv(w: World, hashAt: nat -> Hash, s: State, t: nat, order: seq<nat>)
    requires Chain(ViewOf(w), hashAt)
    requires Inv(w, hashAt, s) && Enabled(w, s, Go(t, order)) && s.tasks[t].HoldAll?
    ensures Inv(w, hashAt, GoAll(w, s, t, order))
  {
    var HoldAll(hs, got, missing, fetched) := s.tasks[t];
    assert TaskOk(w, s.tasks[t]);
    FetchedAreOurs(w, hashAt, missing);
    KeepAllIsFaithful(ViewOf(w), s.cached, fetched);
    KeepAllIsBounded(s.cached, fetched);
    FetchedCover(ViewOf(w), hs, got, missing, fetched);
    PutKeepsInv(w, hashAt, s, KeepAll(s.cached, fetched), s.index, t, KeptAll(hs, AddAll(got, fetched)));
  }

  lemma KeptAllKeepsInv(w: World, hashAt: nat -> Hash, s: State, t: nat, order: seq<nat>)
    requires Chain(ViewOf(w), hashAt)
    requires Inv(w, hashAt, s) && Enabled(w, s, Go(t, order)) && s.tasks[t].KeptAll?
    ensures Inv(w, hashAt, GoAll(w, s, t, order))
  {
    var KeptAll(hs, got) := s.tasks[t];
    assert TaskOk(w, s.tasks[t]);
    IndexAllIsTruthful(ViewOf(w), hashAt, s.index, got, order);
    HandedIs(ViewOf(w), hs, got);
    assert AllIn(hs, got);
    PutKeepsInv(w, hashAt, s, s.cached, IndexedAll(s.index, got, order), t, DoneAll(hs, Handed(hs, got)));
  }

  lemma GoAllKeepsInv(w: World, hashAt: nat -> Hash, s: State, t: nat, order: seq<nat>)
    requires Chain(ViewOf(w), hashAt) && Inv(w, hashAt, s) && Enabled(w, s, Go(t, order))
    ensures Inv(w, hashAt, GoAll(w, s, t, order))
  {
    match s.tasks[t]
    case LookAll(_) => LookAllKeepsInv(w, hashAt, s, t, order);
    case FetchAll(_, _, _) => FetchAllKeepsInv(w, hashAt, s, t, order);
    case HoldAll(_, _, _, _) => HoldAllKeepsInv(w, hashAt, s, t, order);
    case KeptAll(_, _) => KeptAllKeepsInv(w, hashAt, s, t, order);
    case _ =>
  }

  lemma StepKeepsInv(w: World, hashAt: nat -> Hash, s: State, step: Step)
    requires Chain(ViewOf(w), hashAt) && Inv(w, hashAt, s) && Enabled(w, s, step)
    ensures Inv(w, hashAt, Apply(w, s, step))
  {
    match step
    case Ask(_) =>
    case AskAll(_) =>
    case IndexBlock(n) => IndexingIsTruthful(s.index, hashAt, ViewOf(w), n);
    case Go(t, order) =>
      GoOneKeepsInv(w, hashAt, s, t);
      GoAllKeepsInv(w, hashAt, s, t, order);
  }

  lemma {:induction false} RunKeepsInv(w: World, hashAt: nat -> Hash, s: State, steps: seq<Step>)
    requires Chain(ViewOf(w), hashAt) && Inv(w, hashAt, s) && IsRun(w, s, steps)
    ensures Inv(w, hashAt, Final(w, s, steps))
    decreases |steps|
  {
    if steps != [] {
      StepKeepsInv(w, hashAt, s, steps[0]);
      RunKeepsInv(w, hashAt, Apply(w, s, steps[0]), steps[1..]);
    }
  }

  /**
   However the sections of concurrent gets, fetches, indexings and evictions interleave: every finished
   get has returned what the view has, every finished list of gets what one get after the other would
   have, or an error if it names a height twice; the cache agrees with the view; and hash lookups are
   true, bounded and mutual.
   */
  lemma EveryRunRefinesTheView(w: World, hashAt: nat -> Hash, steps: seq<Step>)
    requires Chain(ViewOf(w), hashAt) && IsRun(w, START, steps)
    ensures
      var s := Final(w, START, steps);
      && Faithful(s.cached, ViewOf(w)) && |s.cached| <= BLOCK_CACHE_LIMIT && Truthful(s.index, hashAt)
      && (forall t :: 0 <= t < |s.tasks| && s.tasks[t].Done? ==> s.tasks[t].reply == Read(ViewOf(w), s.tasks[t].n))
      && (forall t :: 0 <= t < |s.tasks| && s.tasks[t].DoneAll? ==>
            s.tasks[t].replies == if Distinct(s.tasks[t].hs) then CollectAll(ViewOf(w), s.tasks[t].hs) else None)
  {
    RunKeepsInv(w, hashAt, START, steps);
    var s := Final(w, START, steps);
    assert forall t :: 0 <= t < |s.tasks| ==> TaskOk(w, s.tasks[t]);
  }

  // ---------- What each section does ----------

  /** The gets that answer a single height. */
  predicate Single(task: Task)
  {
    task.Look? || task.Fetch? || task.Hold? || task.Kept? || task.Done?
  }

  /** Both stand for the same call. */
  predicate SameCall(a: Task, b: Task)
  {
    if Single(a) then Single(b) && a.n == b.n else !Single(b) && a.hs == b.hs
  }

  /** Sections a get has at most left. */
  function Rank(task: Task): nat
  {
    match task
    case Look(_) => 4
    case Fetch(_) => 3
    case Hold(_, _) => 2
    case Kept(_, _) => 1
    case Done(_, _) => 0
    case LookAll(_) => 4
    case FetchAll(_, _, _) => 3
    case HoldAll(_, _, _, _) => 2
    case KeptAll(_, _) => 1
    case DoneAll(_, _) => 0
  }

  /** No section changes what a get was asked for; its own bring it nearer to its end, others do not touch it. */
  lemma StepRanks(w: World, s: State, step: Step, t: nat)
    requires Enabled(w, s, step) && t < |s.tasks|
    ensures
      var s' := Apply(w, s, step);
      && t < |s'.tasks| && SameCall(s.tasks[t], s'.tasks[t])
      && if step.Go? && step.t == t then Rank(s'.tasks[t]) < Rank(s.tasks[t]) else s'.tasks[t] == s.tasks[t]
  {
  }

  /** How many sections of task `t` a run has. */
  function Moves(steps: seq<Step>, t: nat): nat
  {
    if steps == [] then 0 else (if steps[0].Go? && steps[0].t == t then 1 else 0) + Moves(steps[1..], t)
  }

  lemma {:induction false} GetIsBounded(w: World, s: State, steps: seq<Step>, t: nat)
    requires IsRun(w, s, steps) && t < |s.tasks|
    ensures
      var s' := Final(w, s, steps);
      && t < |s'.tasks| && SameCall(s.tasks[t], s'.tasks[t])
      && Moves(steps, t) + Rank(s'.tasks[t]) <= Rank(s.tasks[t])
    decreases |steps|
  {
    if steps != [] {
      StepRanks(w, s, steps[0], t);
      GetIsBounded(w, Apply(w, s, steps[0]), steps[1..], t);
    }
  }

  lemma {:induction false} SomeWalk(got: Found, todo: set<nat>) returns (order: seq<nat>)
    requires todo <= got.Keys
    ensures Distinct(order) && forall n :: n in order <==> n in todo
    decreases |todo|
  {
    if todo == {} {
      order := [];
    } else {
      var n :| n in todo;
      var rest := SomeWalk(got, todo - {n});
      order := rest + [n];
      assert forall i :: 0 <= i < |rest| ==> rest[i] in rest;
    }
  }

  /**
   Every get ends: whatever the others do, a call that has been made takes at most four sections, can
   always take its next one, and ends with an answer to what it was asked for.
   */
  lemma EveryGetEnds(w: World, before: seq<Step>, call: Step, steps: seq<Step>)
    requires IsRun(w, START, before) && (call.Ask? || call.AskAll?)
    requires IsRun(w, Apply(w, Final(w, START, before), call), steps)
    ensures
      var t, s := |Final(w, START, before).tasks|, Final(w, Apply(w, Final(w, START, before), call), steps);
      && Moves(steps, t) <= 4 && t < |s.tasks|
      && (if call.Ask? then Single(s.tasks[t]) && s.tasks[t].n == call.n
          else !Single(s.tasks[t]) && s.tasks[t].hs == call.hs)
      && (s.tasks[t].Done? || s.tasks[t].DoneAll? || exists order :: Enabled(w, s, Go(t, order)))
  {
    var start := Final(w, START, before);
    var t := |start.tasks|;
    GetIsBounded(w, Apply(w, start, call), steps, t);
    var s := Final(w, Apply(w, start, call), steps);
    if s.tasks[t].KeptAll? {
      var order := SomeWalk(s.tasks[t].got, s.tasks[t].got.Keys);
      assert forall i :: 0 <= i < |order| ==> order[i] in order;
      assert Enabled(w, s, Go(t, order));
    } else if !s.tasks[t].Done? && !s.tasks[t].DoneAll? {
      assert Enabled(w, s, Go(t, []));
    }
  }

  /** What the sections of a single get leave behind. */
  lemma GetLeavesTraces(w: World, hashAt: nat -> Hash, steps: seq<Step>, t: nat, order: seq<nat>)
    requires Chain(ViewOf(w), hashAt) && IsRun(w, START, steps)
    requires Enabled(w, Final(w, START, steps), Go(t, order)) && Single(Final(w, START, steps).tasks[t])
    ensures
      var s := Final(w, START, steps);
      var s', n := Apply(w, s, Go(t, order)), s.tasks[t].n;
      && (s.tasks[t].Look? && Find(s.cached, n).Some? ==>
            s'.tasks[t] == Done(n, Find(s.cached, n)) && s'.cached == Touch(s.cached, n) && s'.index == s.index)
      && (s.tasks[t].Hold? ==> Find(s'.cached, n) == Read(ViewOf(w), n) && s'.index == s.index)
      && (s.tasks[t].Kept? ==>
            && s'.tasks[t].Done? && s'.cached == s.cached && Read(ViewOf(w), n).Some?
            && var b := Read(ViewOf(w), n).value;
               && b.hash in s'.index.left && s'.index.left[b.hash] == n
               && (n > 0 ==> b.parentHash in s'.index.left && s'.index.left[b.parentHash] == n - 1))
      && (s'.tasks[t].Fetch? ==> Find(s.cached, n).None? && n !in w.gaps)
  {
    var s := Final(w, START, steps);
    RunKeepsInv(w, hashAt, START, steps);
    assert TaskOk(w, s.tasks[t]);
    match s.tasks[t]
    case Hold(n, b) => FindInserted(s.cached, BLOCK_CACHE_LIMIT, n, b, n);
    case Kept(n, b) => IndexedIsFound(s.index, hashAt, ViewOf(w), n);
    case _ =>
  }

  lemma LookAllLeavesTraces(w: World, s: State, t: nat, order: seq<nat>)
    requires Enabled(w, s, Go(t, order)) && s.tasks[t].LookAll?
    requires Faithful(s.cached, ViewOf(w)) && |s.cached| <= BLOCK_CACHE_LIMIT
    ensures
      var task, s' := s.tasks[t], Apply(w, s, Go(t, order));
      && (s'.tasks[t].KeptAll? || (s'.tasks[t].FetchAll? && s'.tasks[t].missing != []))
      && ((forall i :: 0 <= i < |task.hs| ==> Find(s.cached, task.hs[i]).Some?) ==> s'.tasks[t].KeptAll?)
      && (|task.hs| <= BLOCK_CACHE_LIMIT ==>
            forall i :: 0 <= i < |task.hs| && task.hs[i] in w.gaps ==> Find(s'.cached, task.hs[i]).Some?)
  {
    var hs := s.tasks[t].hs;
    SweepFinds(w, s.cached, hs);
    if forall i :: 0 <= i < |hs| ==> Find(s.cached, hs[i]).Some? {
      NothingIsMissing(s.cached, w.gaps, hs);
    }
    forall i | 0 <= i < |hs| && hs[i] in w.gaps && |hs| <= BLOCK_CACHE_LIMIT
      ensures Find(Sweep(s.cached, w.gaps, hs).0, hs[i]).Some?
    {
      SweptIsCached(s.cached, w.gaps, hs, i);
    }
  }

  /** What the sections of a list of gets leave behind. */
  lemma ListLeavesTraces(w: World, hashAt: nat -> Hash, steps: seq<Step>, t: nat, order: seq<nat>)
    requires Chain(ViewOf(w), hashAt) && IsRun(w, START, steps)
    requires Enabled(w, Final(w, START, steps), Go(t, order))
    ensures
      var s := Final(w, START, steps);
      var task, s' := s.tasks[t], Apply(w, s, Go(t, order));
      && (task.LookAll? ==> s'.tasks[t].KeptAll? || (s'.tasks[t].FetchAll? && s'.tasks[t].missing != []))
      && (task.LookAll? && (forall i :: 0 <= i < |task.hs| ==> Find(s.cached, task.hs[i]).Some?) ==>
            s'.tasks[t].KeptAll?)
      && (task.LookAll? && |task.hs| <= BLOCK_CACHE_LIMIT ==>
            forall i :: 0 <= i < |task.hs| && task.hs[i] in w.gaps ==> Find(s'.cached, task.hs[i]).Some?)
      && (task.HoldAll? && |task.missing| <= BLOCK_CACHE_LIMIT ==>
            forall i :: 0 <= i < |task.missing| ==>
              Find(s'.cached, task.missing[i]) == Read(ViewOf(w), task.missing[i]))
      && (task.KeptAll? && 2 * |task.got| <= HASH_INDEX_LIMIT ==> Findable(s'.index, task.got.Keys, task.got))
  {
    var s := Final(w, START, steps);
    var task, s' := s.tasks[t], Apply(w, s, Go(t, order));
    RunKeepsInv(w, hashAt, START, steps);
    StepKeepsInv(w, hashAt, s, Go(t, order));
    assert TaskOk(w, task);
    match task
    case LookAll(hs) => LookAllLeavesTraces(w, s, t, order);
    case HoldAll(hs, got, missing, fetched) =>
      FetchedAreOurs(w, hashAt, missing);
      forall i | 0 <= i < |missing| && |missing| <= BLOCK_CACHE_LIMIT
        ensures Find(s'.cached, missing[i]) == Read(ViewOf(w), missing[i])
      {
        FetchedAreCached(s.cached, fetched, i);
      }
    case KeptAll(hs, got) =>
      if 2 * |got| <= HASH_INDEX_LIMIT {
        WalkedAreFindable(s.index, hashAt, ViewOf(w), got, order);
      }
    case _ =>
  }
}
