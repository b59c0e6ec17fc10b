/** What the protocol of readers and reloads achieves: reads and reloads complete, and once a
    reload has swapped its indexes in, it is its list that is served. */
module CacheProgress {
  import opened Entities
  import opened EvalCacheIndexes
  import opened CacheProtocol

  lemma ExecuteOneMore(lib: Library, steps: seq<Step>, step: Step)
    ensures Execute(lib, steps + [step])
            == if Enabled(Execute(lib, steps), step) then Apply(lib, Execute(lib, steps), step) else Execute(lib, steps)
  {
    assert (steps + [step])[..|steps|] == steps;
  }

  // ----- what is served after a swap -----

  predicate SwapsNothing(steps: seq<Step>) {
    forall i :: 0 <= i < |steps| ==> !steps[i].Swap?
  }

  /** The container is served: it is the latest generation, and the replies from `n` on were read on that. */
  ghost predicate Serves(st: State, c: CacheContainer, generation: nat, n: nat) {
    && st.cache == c && |st.installed| == generation && n <= |st.replies|
    && (forall k :: n <= k < |st.replies| ==> st.replies[k].generation == generation)
  }

  lemma ApplyServes(lib: Library, st: State, step: Step, c: CacheContainer, generation: nat, n: nat)
    requires Serves(st, c, generation, n) && Enabled(st, step) && !step.Swap?
    ensures Serves(Apply(lib, st, step), c, generation, n)
  {
  }

  lemma {:induction false} ServesOn(lib: Library, front: seq<Step>, back: seq<Step>, c: CacheContainer,
                                    generation: nat, n: nat)
    requires Serves(Execute(lib, front), c, generation, n) && SwapsNothing(back)
    ensures Serves(Execute(lib, front + back), c, generation, n)
  {
    if back == [] {
      assert front + back == front;
    } else {
      var init, step := back[..|back| - 1], back[|back| - 1];
      ServesOn(lib, front, init, c, generation, n);
      ExecuteOneMore(lib, front + init, step);
      assert front + back == front + init + [step];
      if Enabled(Execute(lib, front + init), step) {
        ApplyServes(lib, Execute(lib, front + init), step, c, generation, n);
      }
    }
  }

  /** As long as no other builder swaps, every reply after a swap is what its query answers on the container of
      the builder that swapped. */
  lemma SwappedIsServed(lib: Library, front: seq<Step>, b: nat, back: seq<Step>, k: nat)
    requires Enabled(Execute(lib, front), Swap(b)) && SwapsNothing(back)
    requires |Execute(lib, front).replies| <= k < |Execute(lib, front + [Swap(b)] + back).replies|
    ensures var reply := Execute(lib, front + [Swap(b)] + back).replies[k];
            reply.answer == AnswerOf(Execute(lib, front).builders[b].c, reply.query)
  {
    var before, st := Execute(lib, front), Execute(lib, front + [Swap(b)] + back);
    ExecuteOneMore(lib, front, Swap(b));
    ServesOn(lib, front + [Swap(b)], back, before.builders[b].c, |before.installed| + 1, |before.replies|);
    ExecuteKeepsInv(lib, front + [Swap(b)] + back);
    assert Consistent(st.installed, st.replies[k]);
  }

  /** The builder has what it built from its list, and has not swapped it in yet. */
  ghost predicate Holds(st: State, b: nat, c: CacheContainer) {
    b in st.builders && !st.builders[b].Swapped? && st.builders[b].c == c
  }

  lemma ApplyHolds(lib: Library, st: State, step: Step, b: nat, c: CacheContainer)
    requires Holds(st, b, c) && Enabled(st, step) && step != Swap(b)
    ensures Holds(Apply(lib, st, step), b, c)
  {
  }

  lemma {:induction false} HoldsOn(lib: Library, front: seq<Step>, back: seq<Step>, b: nat, c: CacheContainer)
    requires Holds(Execute(lib, front), b, c) && Swap(b) !in back
    ensures Holds(Execute(lib, front + back), b, c)
  {
    if back == [] {
      assert front + back == front;
    } else {
      var init, step := back[..|back| - 1], back[|back| - 1];
      HoldsOn(lib, front, init, b, c);
      ExecuteOneMore(lib, front + init, step);
      assert front + back == front + init + [step];
      assert step in back;
      if Enabled(Execute(lib, front + init), step) {
        ApplyHolds(lib, Execute(lib, front + init), step, b, c);
      }
    }
  }

  /** From fetch to reply: whatever happens between a fetch and the swap of its builder, and between that and a
      reply, as long as nobody swaps again the reply is what its query answers on the list that was fetched. */
  lemma FetchedIsServed(lib: Library, front: seq<Step>, b: nat, list: seq<Flag>,
                        mid: seq<Step>, back: seq<Step>, k: nat)
    requires b !in Execute(lib, front).builders && Build(lib, list).Some?
    requires Swap(b) !in mid && SwapsNothing(back)
    requires var fetched := front + [Fetch(b, Some(list))] + mid;
             && Enabled(Execute(lib, fetched), Swap(b))
             && |Execute(lib, fetched).replies| <= k < |Execute(lib, fetched + [Swap(b)] + back).replies|
    ensures var reply := Execute(lib, front + [Fetch(b, Some(list))] + mid + [Swap(b)] + back).replies[k];
            reply.answer == AnswerOf(Build(lib, list).value, reply.query)
  {
    var fetched := front + [Fetch(b, Some(list))];
    ExecuteOneMore(lib, front, Fetch(b, Some(list)));
    HoldsOn(lib, fetched, mid, b, Build(lib, list).value);
    SwappedIsServed(lib, fetched + mid, b, back, k);
  }

  // ----- a reload completes -----

  /** Nobody reads and nobody holds the lock. */
  predicate Idle(st: State) {
    st.writer == None && st.readers == map[]
  }

  /** A builder that meets no reader installs what it fetched, and releases the lock. */
  lemma ReloadCompletes(lib: Library, steps: seq<Step>, b: nat, list: seq<Flag>)
    requires Idle(Execute(lib, steps)) && b !in Execute(lib, steps).builders && Build(lib, list).Some?
    ensures var st := Execute(lib, steps + [Fetch(b, Some(list))] + [Lock(b)] + [Swap(b)] + [Unlock(b)]);
            Idle(st) && st.cache == Build(lib, list).value && b !in st.builders
  {
    ExecuteOneMore(lib, steps, Fetch(b, Some(list)));
    ExecuteOneMore(lib, steps + [Fetch(b, Some(list))], Lock(b));
    ExecuteOneMore(lib, steps + [Fetch(b, Some(list))] + [Lock(b)], Swap(b));
    ExecuteOneMore(lib, steps + [Fetch(b, Some(list))] + [Lock(b)] + [Swap(b)], Unlock(b));
  }

  // ----- a read completes -----

  /** How many accesses a reader still needs at most. */
  function Left(q: Query, p: Progress): nat {
    match p
    case Finished(_) => 0
    case AtIDs => 2
    case AtKeys => 1
    case AtTag(i, _) =>
      match q
      case AnyQuery(tags) => if i <= |tags| then |tags| - i + 1 else 1
      case AllQuery(tags) => if i <= |tags| then |tags| - i + 1 else 1
      case _ => 1
  }

  lemma AdvanceGetsCloser(c: CacheContainer, q: Query, p: Progress)
    requires OnTrack(c, q, p) && !p.Finished?
    ensures Left(q, Advance(c, q, p)) < Left(q, p)
  {
  }

  function Reads(r: nat, n: nat): seq<Step> {
    seq(n, _ => Read(r))
  }

  /** The reader is reading its query on the shared container. */
  ghost predicate IsReading(st: State, before: State, r: nat, q: Query) {
    && st == before.(readers := st.readers) && r in st.readers && st.readers[r].query == q
    && st.readers - {r} == before.readers - {r}
    && OnTrack(st.cache, q, st.readers[r].progress)
  }

  lemma {:induction false} ReadsGetCloser(lib: Library, steps: seq<Step>, before: State, r: nat, q: Query, n: nat)
    requires IsReading(Execute(lib, steps), before, r, q)
    ensures var st := Execute(lib, steps + Reads(r, n));
            && IsReading(st, before, r, q)
            && (|| st.readers[r].progress.Finished?
                || Left(q, st.readers[r].progress) + n <= Left(q, Execute(lib, steps).readers[r].progress))
  {
    if n == 0 {
      assert steps + Reads(r, 0) == steps;
    } else {
      ReadsGetCloser(lib, steps, before, r, q, n - 1);
      var st := Execute(lib, steps + Reads(r, n - 1));
      assert steps + Reads(r, n) == steps + Reads(r, n - 1) + [Read(r)];
      ExecuteOneMore(lib, steps + Reads(r, n - 1), Read(r));
      if !st.readers[r].progress.Finished? {
        AdvanceOnTrack(st.cache, q, st.readers[r].progress);
        AdvanceGetsCloser(st.cache, q, st.readers[r].progress);
      }
    }
  }

  /** A reader that finds the lock free answers after enough accesses, on the container it found. */
  lemma ReadCompletes(lib: Library, steps: seq<Step>, r: nat, q: Query, n: nat)
    requires Execute(lib, steps).writer == None && r !in Execute(lib, steps).readers && Left(q, Start(q)) <= n
    ensures var before := Execute(lib, steps);
            Execute(lib, steps + [RLock(r, q)] + Reads(r, n) + [RUnlock(r)]).replies
            == before.replies + [Reply(q, AnswerOf(before.cache, q), |before.installed|)]
  {
    var before := Execute(lib, steps);
    ExecuteOneMore(lib, steps, RLock(r, q));
    StartOnTrack(before.cache, q);
    ReadsGetCloser(lib, steps + [RLock(r, q)], before, r, q, n);
    ExecuteOneMore(lib, steps + [RLock(r, q)] + Reads(r, n), RUnlock(r));
  }
}
