/** Readers and background reloads of the evaluation cache, interleaved step by step. Any
    number of builders may be under way at once, including late ones that outlive their
    timeout; every access to the shared indexes is a step of its own, guarded only by the
    readers-writer lock. */
module CacheProtocol {
  import opened Entities
  import opened EvalCacheIndexes
  import opened EvalCacheService
  import opened Text
  import Preparation

  datatype Query =
    | LookupQuery(s: string)
    | AnyQuery(tags: seq<string>)
    | AllQuery(tags: seq<string>)
    | ExportQuery

  datatype Answer =
    | OneFlag(flag: Option<Flag>)
    | ManyFlags(flags: map<nat, Flag>)
    | ExportedFlags(idCache: map<string, Flag>)

  /** What a query answers on one container, in one go. */
  function AnswerOf(c: CacheContainer, q: Query): Answer {
    match q
    case LookupQuery(s) => OneFlag(GetByFlagKeyOrID(c, s))
    case AnyQuery(tags) => ManyFlags(TagsAny(c, tags))
    case AllQuery(tags) => ManyFlags(TagsAll(c, tags))
    case ExportQuery => ExportedFlags(c.idCache)
  }

  /** Where a reader that holds the read lock stands. */
  datatype Progress =
    | AtIDs
    | AtKeys
    | AtTag(i: nat, results: map<nat, Flag>)
    | Finished(answer: Answer)

  /** A reader, with the number of the generation that was installed when it took the lock. */
  datatype Reader = Reader(query: Query, progress: Progress, since: nat)

  /** A builder has fetched and prepared, then takes the lock, swaps and releases. */
  datatype Builder = Waiting(c: CacheContainer) | Locked(c: CacheContainer) | Swapped

  datatype Reply = Reply(query: Query, answer: Answer, generation: nat)

  /** `cache` is the shared field; `fetched`, `installed` and `replies` record the run. */
  datatype State = State(
    cache: CacheContainer,
    writer: Option<nat>,
    readers: map<nat, Reader>,
    builders: map<nat, Builder>,
    fetched: seq<seq<Flag>>,
    installed: seq<CacheContainer>,
    replies: seq<Reply>)

  const INITIAL: State := State(EMPTY, None, map[], map[], [], [EMPTY], [])

  datatype Step =
    | Fetch(b: nat, list: Option<seq<Flag>>)
    | Lock(b: nat)
    | Swap(b: nat)
    | Unlock(b: nat)
    | RLock(r: nat, query: Query)
    | Read(r: nat)
    | RUnlock(r: nat)

  predicate Enabled(st: State, step: Step) {
    match step
    case Fetch(b, _) => b !in st.builders
    case Lock(b) => b in st.builders && st.builders[b].Waiting? && st.writer == None && st.readers == map[]
    case Swap(b) => b in st.builders && st.builders[b].Locked?
    case Unlock(b) => b in st.builders && st.builders[b].Swapped?
    case RLock(r, _) => r !in st.readers && st.writer == None
    case Read(r) => r in st.readers && !st.readers[r].progress.Finished?
    case RUnlock(r) => r in st.readers && st.readers[r].progress.Finished?
  }

  function Start(q: Query): Progress {
    match q
    case LookupQuery(_) => AtIDs
    case AnyQuery(_) => AtTag(0, map[])
    case AllQuery(_) => AtTag(0, map[])
    case ExportQuery => AtIDs
  }

  /** One access to the shared indexes. */
  function Advance(c: CacheContainer, q: Query, p: Progress): Progress {
    match q
    case LookupQuery(s) =>
      if p.AtKeys? then Finished(OneFlag(if s in c.keyCache then Some(c.keyCache[s]) else None))
      else if s in c.idCache then Finished(OneFlag(Some(c.idCache[s])))
      else AtKeys
    case AnyQuery(tags) =>
      if p.AtTag? && p.i < |tags| then AtTag(p.i + 1, p.results + Under(c.tagCache, tags[p.i]))
      else Finished(ManyFlags(if p.AtTag? then p.results else map[]))
    case AllQuery(tags) =>
      if p.AtTag? && p.i < |tags| then
        if tags[p.i] !in c.tagCache then Finished(ManyFlags(map[]))
        else
          var fSet := c.tagCache[tags[p.i]];
          if p.i == 0 then AtTag(1, fSet)
          else
            var kept := map id | id in p.results && id in fSet :: p.results[id];
            if kept == map[] then Finished(ManyFlags(kept)) else AtTag(p.i + 1, kept)
      else Finished(ManyFlags(if p.AtTag? then p.results else map[]))
    case ExportQuery => Finished(ExportedFlags(c.idCache))
  }

  function Apply(lib: Library, st: State, step: Step): State
    requires Enabled(st, step)
  {
    match step
    case Fetch(b, list) =>
      if list.Some? && Build(lib, list.value).Some? then
        st.(builders := st.builders[b := Waiting(Build(lib, list.value).value)], fetched := st.fetched + [list.value])
      else st
    case Lock(b) => st.(writer := Some(b), builders := st.builders[b := Locked(st.builders[b].c)])
    case Swap(b) =>
      st.(cache := st.builders[b].c, builders := st.builders[b := Swapped],
          installed := st.installed + [st.builders[b].c])
    case Unlock(b) => st.(writer := None, builders := st.builders - {b})
    case RLock(r, q) => st.(readers := st.readers[r := Reader(q, Start(q), |st.installed|)])
    case Read(r) =>
      var reader := st.readers[r];
      st.(readers := st.readers[r := reader.(progress := Advance(st.cache, reader.query, reader.progress))])
    case RUnlock(r) =>
      var reader := st.readers[r];
      st.(readers := st.readers - {r},
          replies := st.replies + [Reply(reader.query, reader.progress.answer, |st.installed|)])
  }

  /** The state after a schedule; a step that is blocked does not happen. */
  function Execute(lib: Library, steps: seq<Step>): State {
    if steps == [] then INITIAL
    else
      var st := Execute(lib, steps[..|steps| - 1]);
      var step := steps[|steps| - 1];
      if Enabled(st, step) then Apply(lib, st, step) else st
  }

  // ----- the invariant -----

  /** The container was built from one of the fetched lists. */
  ghost predicate Fetched(lib: Library, lists: seq<seq<Flag>>, c: CacheContainer) {
    exists i :: 0 <= i < |lists| && Build(lib, lists[i]) == Some(c)
  }

  /** What a reader has so far is what the current container gives so far. */
  predicate OnTrack(c: CacheContainer, q: Query, p: Progress) {
    match p
    case AtIDs => q.LookupQuery? || q.ExportQuery?
    case AtKeys => q.LookupQuery? && q.s !in c.idCache
    case AtTag(i, results) =>
      (match q
       case AnyQuery(tags) => i <= |tags| && results == TagsAny(c, tags[..i])
       case AllQuery(tags) => i <= |tags| && KnowsAll(c, tags[..i]) && results == TagsAll(c, tags[..i])
       case _ => false)
    case Finished(answer) => answer == AnswerOf(c, q)
  }

  ghost predicate Inv(lib: Library, st: State) {
    Exclusive(st) && Recorded(lib, st) && ReadersOnTrack(st) && RepliesConsistent(st)
  }

  ghost predicate ReadersOnTrack(st: State) {
    && (forall r :: r in st.readers ==> st.readers[r].since == |st.installed|)
    && (forall r :: r in st.readers ==> OnTrack(st.cache, st.readers[r].query, st.readers[r].progress))
  }

  ghost predicate RepliesConsistent(st: State) {
    forall k :: 0 <= k < |st.replies| ==> Consistent(st.installed, st.replies[k])
  }

  /** The lock: a builder that is past it is the writer, and a writer shuts out readers. */
  ghost predicate Exclusive(st: State) {
    && (st.writer.Some? ==> st.readers == map[])
    && (forall b :: b in st.builders && !st.builders[b].Waiting? ==> st.writer == Some(b))
  }

  /** Everything that is or will be installed was fetched and prepared successfully. */
  ghost predicate Recorded(lib: Library, st: State) {
    && st.installed != [] && st.installed[0] == EMPTY && st.installed[|st.installed| - 1] == st.cache
    && (forall k :: 1 <= k < |st.installed| ==> Fetched(lib, st.fetched, st.installed[k]))
    && (forall b :: b in st.builders && !st.builders[b].Swapped? ==> Fetched(lib, st.fetched, st.builders[b].c))
  }

  /** The reply is what its query answers on the generation that it read. */
  predicate Consistent(installed: seq<CacheContainer>, reply: Reply) {
    1 <= reply.generation <= |installed| && reply.answer == AnswerOf(installed[reply.generation - 1], reply.query)
  }

  lemma StartOnTrack(c: CacheContainer, q: Query)
    ensures OnTrack(c, q, Start(q))
  {
  }

  lemma AdvanceOnTrack(c: CacheContainer, q: Query, p: Progress)
    requires OnTrack(c, q, p) && !p.Finished?
    ensures OnTrack(c, q, Advance(c, q, p))
  {
    match q {
      case AnyQuery(tags) =>
        if p.i < |tags| {
          assert tags[..p.i + 1][..p.i] == tags[..p.i];
        } else {
          assert tags[..p.i] == tags;
        }
      case AllQuery(tags) =>
        if p.i < |tags| && tags[p.i] in c.tagCache {
          if p.i == 0 {
            FirstTag(c, tags);
          } else {
            var kept := map id | id in p.results && id in c.tagCache[tags[p.i]] :: p.results[id];
            NextTag(c, tags, p.i, p.results, kept);
            if kept == map[] {
              NoneLeft(c, tags, p.i + 1);
            }
          }
        } else {
          assert p.i == |tags| ==> tags[..p.i] == tags;
        }
      case _ =>
    }
  }

  lemma FetchedGrows(lib: Library, lists: seq<seq<Flag>>, list: seq<Flag>, c: CacheContainer)
    ensures Fetched(lib, lists, c) ==> Fetched(lib, lists + [list], c)
    ensures Build(lib, list) == Some(c) ==> Fetched(lib, lists + [list], c)
  {
    if Fetched(lib, lists, c) {
      var i :| 0 <= i < |lists| && Build(lib, lists[i]) == Some(c);
      assert (lists + [list])[i] == lists[i];
    }
    assert (lists + [list])[|lists|] == list;
  }

  lemma ApplyKeepsExclusive(lib: Library, st: State, step: Step)
    requires Exclusive(st) && Enabled(st, step)
    ensures Exclusive(Apply(lib, st, step))
  {
  }

  lemma FetchKeepsRecorded(lib: Library, st: State, b: nat, list: seq<Flag>, c: CacheContainer)
    requires Recorded(lib, st) && Build(lib, list) == Some(c)
    ensures Recorded(lib, st.(builders := st.builders[b := Waiting(c)], fetched := st.fetched + [list]))
  {
    forall x
      ensures Fetched(lib, st.fetched, x) ==> Fetched(lib, st.fetched + [list], x)
      ensures Build(lib, list) == Some(x) ==> Fetched(lib, st.fetched + [list], x)
    {
      FetchedGrows(lib, st.fetched, list, x);
    }
  }

  lemma SwapKeepsRecorded(lib: Library, st: State, b: nat)
    requires Recorded(lib, st) && b in st.builders && st.builders[b].Locked?
    ensures var c := st.builders[b].c;
            Recorded(lib, st.(cache := c, builders := st.builders[b := Swapped], installed := st.installed + [c]))
  {
  }

  lemma ApplyKeepsRecorded(lib: Library, st: State, step: Step)
    requires Recorded(lib, st) && Enabled(st, step)
    ensures Recorded(lib, Apply(lib, st, step))
  {
    match step {
      case Fetch(b, list) =>
        if list.Some? && Build(lib, list.value).Some? {
          FetchKeepsRecorded(lib, st, b, list.value, Build(lib, list.value).value);
        }
      case Swap(b) => SwapKeepsRecorded(lib, st, b);
      case _ =>
    }
  }

  lemma ApplyKeepsReaders(lib: Library, st: State, step: Step)
    requires Exclusive(st) && ReadersOnTrack(st) && Enabled(st, step)
    ensures ReadersOnTrack(Apply(lib, st, step))
  {
    match step {
      case RLock(r, q) => StartOnTrack(st.cache, q);
      case Read(r) => AdvanceOnTrack(st.cache, st.readers[r].query, st.readers[r].progress);
      case _ =>
    }
  }

  /** A reply repeats what its reader has on the current generation, and stays what it is
      when another generation is installed. */
  lemma ApplyKeepsReplies(lib: Library, st: State, step: Step)
    requires Recorded(lib, st) && ReadersOnTrack(st) && RepliesConsistent(st) && Enabled(st, step)
    ensures RepliesConsistent(Apply(lib, st, step))
  {
    var st' := Apply(lib, st, step);
    forall k | 0 <= k < |st.replies|
      ensures st'.replies[k] == st.replies[k] && Consistent(st'.installed, st.replies[k])
    {
      assert Consistent(st.installed, st.replies[k]);
    }
  }

  lemma ApplyKeepsInv(lib: Library, st: State, step: Step)
    requires Inv(lib, st) && Enabled(st, step)
    ensures Inv(lib, Apply(lib, st, step))
  {
    ApplyKeepsExclusive(lib, st, step);
    ApplyKeepsRecorded(lib, st, step);
    ApplyKeepsReaders(lib, st, step);
    ApplyKeepsReplies(lib, st, step);
  }

  lemma {:induction false} ExecuteKeepsInv(lib: Library, steps: seq<Step>)
    ensures Inv(lib, Execute(lib, steps))
  {
    if steps != [] {
      ExecuteKeepsInv(lib, steps[..|steps| - 1]);
      var st, step := Execute(lib, steps[..|steps| - 1]), steps[|steps| - 1];
      if Enabled(st, step) {
        ApplyKeepsInv(lib, st, step);
      }
    }
  }

  // ----- the theorems -----

  /** Single-generation reads: in every interleaving each reply is what its query answers on
      one container that was installed, the initial empty one or one that was built from one
      successfully fetched and prepared list. */
  lemma SingleGenerationReads(lib: Library, steps: seq<Step>, k: nat)
    requires k < |Execute(lib, steps).replies|
    ensures var st := Execute(lib, steps);
            var reply := st.replies[k];
            exists c ::
              && c in st.installed && (c == EMPTY || Fetched(lib, st.fetched, c))
              && reply.answer == AnswerOf(c, reply.query)
  {
    ExecuteKeepsInv(lib, steps);
    var st := Execute(lib, steps);
    var reply := st.replies[k];
    assert Consistent(st.installed, reply);
    var c := st.installed[reply.generation - 1];
    assert c in st.installed && (c == EMPTY || Fetched(lib, st.fetched, c)) && reply.answer == AnswerOf(c, reply.query);
  }

  /** Reads are atomic: no reload takes effect between a reader's lock and its unlock, and
      while a builder holds the lock nobody reads. */
  lemma ReadersSeeNoSwap(lib: Library, steps: seq<Step>, r: nat)
    requires r in Execute(lib, steps).readers
    ensures var st := Execute(lib, steps);
            && st.readers[r].since == |st.installed|
            && (forall b :: b in st.builders ==> st.builders[b].Waiting?)
  {
    ExecuteKeepsInv(lib, steps);
  }

  /** A scan of the list: the answer the query promises, without any index. */
  ghost predicate IsScanAnswer(ps: seq<Flag>, q: Query, a: Answer) {
    match q
    case LookupQuery(s) => a.OneFlag? && IsFound(a.flag, ps, s)
    case AnyQuery(tags) => a.ManyFlags? && IsScan(a.flags, ps, tags, Some(ANY))
    case AllQuery(tags) => a.ManyFlags? && IsScan(a.flags, ps, tags, Some(ALL))
    case ExportQuery => a.ExportedFlags? && IDsIndexed(a.idCache, ps)
  }

  /** The flag whose ID spells `s`, else the flag keyed `s`, else nothing. */
  ghost predicate IsFound(r: Option<Flag>, ps: seq<Flag>, s: string) {
    if exists f :: f in ps && f.id != 0 && Decimal(f.id) == s then r.Some? && r.value in ps && Decimal(r.value.id) == s
    else if s != "" && exists f :: f in ps && f.key == s then r.Some? && r.value in ps && r.value.key == s
    else r == None
  }

  lemma AnswerIsScan(ps: seq<Flag>, q: Query)
    requires DistinctIDs(ps) && DistinctKeys(ps)
    ensures IsScanAnswer(ps, q, AnswerOf(IndexAll(ps), q))
  {
    IndexAllIndexes(ps);
    match q {
      case LookupQuery(s) => GetFinds(IndexAll(ps), ps, s);
      case AnyQuery(tags) => TagQueryScans(ps, tags, Some(ANY));
      case AllQuery(tags) => TagQueryScans(ps, tags, Some(ALL));
      case ExportQuery =>
    }
  }

  /** The empty list of the initial cache, or one of the fetched lists as prepared. */
  ghost predicate IsGeneration(lib: Library, lists: seq<seq<Flag>>, ps: seq<Flag>) {
    ps == [] || exists i :: 0 <= i < |lists| && PrepareAll(lib, lists[i]) == Some(ps)
  }

  /** When the fetched flags have distinct IDs and keys, every reply of every interleaving is
      a scan of one generation of the flag list. */
  lemma ReadsAreScans(lib: Library, steps: seq<Step>, k: nat)
    requires k < |Execute(lib, steps).replies|
    requires forall i :: 0 <= i < |Execute(lib, steps).fetched| ==>
      DistinctIDs(Execute(lib, steps).fetched[i]) && DistinctKeys(Execute(lib, steps).fetched[i])
    ensures var st := Execute(lib, steps);
            exists ps ::
              IsGeneration(lib, st.fetched, ps) && IsScanAnswer(ps, st.replies[k].query, st.replies[k].answer)
  {
    SingleGenerationReads(lib, steps, k);
    var st := Execute(lib, steps);
    var reply := st.replies[k];
    var c :| c in st.installed && (c == EMPTY || Fetched(lib, st.fetched, c))
        && reply.answer == AnswerOf(c, reply.query);
    var ps: seq<Flag> := [];
    if c != EMPTY {
      var i :| 0 <= i < |st.fetched| && Build(lib, st.fetched[i]) == Some(c);
      PreparedKeepsIdentity(lib, st.fetched[i]);
      ps := PrepareAll(lib, st.fetched[i]).value;
    }
    assert c == IndexAll(ps) && IsGeneration(lib, st.fetched, ps);
    AnswerIsScan(ps, reply.query);
  }

  /** A reload whose fetch or preparation fails changes nothing at all. */
  lemma FailedReloadChangesNothing(lib: Library, steps: seq<Step>, b: nat, list: Option<seq<Flag>>)
    requires list == None || exists f :: f in list.value && Preparation.Prepare(lib, f) == None
    ensures Execute(lib, steps + [Fetch(b, list)]) == Execute(lib, steps)
  {
    assert (steps + [Fetch(b, list)])[..|steps|] == steps;
    if list.Some? {
      FailsWith(lib, list.value);
    }
  }
}
