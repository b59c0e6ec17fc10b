/** The snapshots of every flag form a chain, whatever the requests address. */
module SnapshotChain {
  import opened Entities
  import opened Tables
  import opened Database
  import opened Handlers

  /** The ID of the newest snapshot of the flag, 0 if it has none. */
  function Newest(snapshots: seq<SnapshotRow>, flagID: nat): (id: nat)
    ensures id <= |snapshots|
  {
    if snapshots == [] then 0
    else if snapshots[|snapshots| - 1].flagID == flagID then |snapshots|
    else Newest(snapshots[..|snapshots| - 1], flagID)
  }

  /** It is a snapshot of the flag and no later one is. */
  lemma {:induction false} NewestIsNewest(snapshots: seq<SnapshotRow>, flagID: nat)
    ensures var id := Newest(snapshots, flagID);
            && (id > 0 ==> snapshots[id - 1].flagID == flagID)
            && (forall k :: id <= k < |snapshots| ==> snapshots[k].flagID != flagID)
  {
    if snapshots != [] {
      NewestIsNewest(snapshots[..|snapshots| - 1], flagID);
    }
  }

  /** Every flag points to its newest snapshot. */
  ghost predicate PointsToNewest(db: DB) {
    forall i :: 0 <= i < |db.flags| ==> db.flags[i].snapshotID == Newest(db.snapshots, i + 1)
  }

  /** Every snapshot is one of an existing flag and carries the ID of the flag's snapshot before it. */
  ghost predicate Linked(db: DB) {
    forall k :: 0 <= k < |db.snapshots| ==> LinkedAt(db.snapshots, k, |db.flags|)
  }

  predicate LinkedAt(snapshots: seq<SnapshotRow>, k: nat, flags: nat)
    requires k < |snapshots|
  {
    && 1 <= snapshots[k].flagID <= flags
    && snapshots[k].body.id == snapshots[k].flagID
    && snapshots[k].body.snapshotID == Newest(snapshots[..k], snapshots[k].flagID)
  }

  lemma {:induction false} NoneNewest(snapshots: seq<SnapshotRow>, flagID: nat)
    requires forall k :: 0 <= k < |snapshots| ==> snapshots[k].flagID != flagID
    ensures Newest(snapshots, flagID) == 0
  {
    if snapshots != [] {
      NoneNewest(snapshots[..|snapshots| - 1], flagID);
    }
  }

  /** No edit moves a snapshot ID; a new flag starts without one. */
  lemma EditKeepsSnapshotIDs(lib: Library, db: DB, req: Request)
    ensures var db' := EditOf(lib, db, req).db;
            && db'.snapshots == db.snapshots
            && |db.flags| <= |db'.flags| <= |db.flags| + 1
            && (forall i :: 0 <= i < |db.flags| ==> db'.flags[i].snapshotID == db.flags[i].snapshotID)
            && (|db'.flags| > |db.flags| ==> db'.flags[|db.flags|].snapshotID == 0)
  {
  }

  lemma SameIDsSameChain(db: DB, db': DB)
    requires PointsToNewest(db) && Linked(db) && db'.snapshots == db.snapshots
    requires |db.flags| <= |db'.flags| <= |db.flags| + 1
    requires forall i :: 0 <= i < |db.flags| ==> db'.flags[i].snapshotID == db.flags[i].snapshotID
    requires |db'.flags| > |db.flags| ==> db'.flags[|db.flags|].snapshotID == 0
    ensures PointsToNewest(db') && Linked(db')
  {
    forall k | 0 <= k < |db'.snapshots|
      ensures LinkedAt(db'.snapshots, k, |db'.flags|) && db'.snapshots[k].flagID != |db.flags| + 1
    {
      assert LinkedAt(db.snapshots, k, |db.flags|);
    }
    NoneNewest(db.snapshots, |db.flags| + 1);
  }

  lemma EditKeepsChain(lib: Library, db: DB, req: Request)
    requires PointsToNewest(db) && Linked(db)
    ensures PointsToNewest(EditOf(lib, db, req).db) && Linked(EditOf(lib, db, req).db)
    ensures EditOf(lib, db, req).db.snapshots == db.snapshots
  {
    EditKeepsSnapshotIDs(lib, db, req);
    SameIDsSameChain(db, EditOf(lib, db, req).db);
  }

  lemma NewestOfAppended(snapshots: seq<SnapshotRow>, s: SnapshotRow, flagID: nat)
    ensures Newest(snapshots + [s], flagID) == if s.flagID == flagID then |snapshots| + 1 else Newest(snapshots, flagID)
  {
    assert (snapshots + [s])[..|snapshots|] == snapshots;
  }

  lemma SnapshotKeepsChain(db: DB, flagID: nat, subject: string)
    requires PointsToNewest(db) && Linked(db)
    ensures PointsToNewest(SaveFlagSnapshot(db, flagID, subject)) && Linked(SaveFlagSnapshot(db, flagID, subject))
    ensures db.snapshots <= SaveFlagSnapshot(db, flagID, subject).snapshots
  {
    if LiveFlag(db, flagID) {
      var db' := SaveFlagSnapshot(db, flagID, subject);
      var s := SnapshotRow(flagID, subject, Load(db, flagID));
      forall i | 0 <= i < |db'.flags|
        ensures db'.flags[i].snapshotID == Newest(db'.snapshots, i + 1)
      {
        NewestOfAppended(db.snapshots, s, i + 1);
      }
      forall k | 0 <= k < |db'.snapshots|
        ensures LinkedAt(db'.snapshots, k, |db'.flags|)
      {
        if k < |db.snapshots| {
          assert LinkedAt(db.snapshots, k, |db.flags|);
          assert db'.snapshots[..k] == db.snapshots[..k];
        } else {
          assert db'.snapshots[..k] == db.snapshots;
        }
      }
    }
  }

  lemma StepKeepsChain(lib: Library, db: DB, req: Request)
    requires PointsToNewest(db) && Linked(db)
    ensures PointsToNewest(Step(lib, db, req)) && Linked(Step(lib, db, req))
    ensures db.snapshots <= Step(lib, db, req).snapshots
  {
    EditKeepsChain(lib, db, req);
    SnapshotKeepsChain(EditOf(lib, db, req).db, FlagOf(db, req), SubjectOf(req));
  }

  /** Snapshot chain: after any requests whatever, every flag points to its newest snapshot (or
      to none), and walking from there through the snapshot IDs stored in the bodies visits
      exactly the flag's snapshots, newest first. */
  lemma {:induction false} SnapshotsFormChains(lib: Library, reqs: seq<Request>)
    ensures PointsToNewest(Execute(lib, reqs)) && Linked(Execute(lib, reqs))
  {
    if reqs != [] {
      SnapshotsFormChains(lib, reqs[..|reqs| - 1]);
      StepKeepsChain(lib, Execute(lib, reqs[..|reqs| - 1]), reqs[|reqs| - 1]);
    }
  }

  /** The IDs visited by walking the chain from a snapshot. */
  function Walk(snapshots: seq<SnapshotRow>, id: nat): seq<nat>
    decreases id
  {
    if id == 0 || id > |snapshots| then []
    else
      var previous := snapshots[id - 1].body.snapshotID;
      [id] + if previous < id then Walk(snapshots, previous) else []
  }

  function IDsOf(snapshots: seq<SnapshotRow>, flagID: nat, n: nat): seq<nat>
    requires n <= |snapshots|
  {
    if n == 0 then []
    else if snapshots[n - 1].flagID == flagID then [n] + IDsOf(snapshots, flagID, n - 1)
    else IDsOf(snapshots, flagID, n - 1)
  }

  lemma {:induction false} IDsFromNewest(snapshots: seq<SnapshotRow>, flagID: nat, n: nat)
    requires n <= |snapshots|
    ensures Newest(snapshots[..n], flagID) <= n
    ensures IDsOf(snapshots, flagID, n) == IDsOf(snapshots, flagID, Newest(snapshots[..n], flagID))
  {
    if n > 0 {
      assert snapshots[..n][..n - 1] == snapshots[..n - 1];
      IDsFromNewest(snapshots, flagID, n - 1);
    }
  }

  lemma {:induction false} WalkVisits(db: DB, flagID: nat, n: nat)
    requires Linked(db) && n <= |db.snapshots| && (n > 0 ==> db.snapshots[n - 1].flagID == flagID)
    ensures Walk(db.snapshots, n) == IDsOf(db.snapshots, flagID, n)
  {
    if n > 0 {
      assert LinkedAt(db.snapshots, n - 1, |db.flags|);
      NewestIsNewest(db.snapshots[..n - 1], flagID);
      var previous := db.snapshots[n - 1].body.snapshotID;
      IDsFromNewest(db.snapshots, flagID, n - 1);
      assert previous == Newest(db.snapshots[..n - 1], flagID);
      WalkVisits(db, flagID, previous);
    }
  }

  /** Walking the chain from a flag's snapshot ID visits all of its snapshots and no other,
      newest first. */
  lemma ChainVisitsEverySnapshot(lib: Library, reqs: seq<Request>, flagID: nat)
    requires Exists(Execute(lib, reqs).flags, flagID)
    ensures var db := Execute(lib, reqs);
            Walk(db.snapshots, db.flags[flagID - 1].snapshotID) == IDsOf(db.snapshots, flagID, |db.snapshots|)
  {
    var db := Execute(lib, reqs);
    SnapshotsFormChains(lib, reqs);
    IDsFromNewest(db.snapshots, flagID, |db.snapshots|);
    NewestIsNewest(db.snapshots, flagID);
    assert db.snapshots[..|db.snapshots|] == db.snapshots;
    WalkVisits(db, flagID, db.flags[flagID - 1].snapshotID);
  }

  /** Snapshots are never altered or removed: an earlier state's are a prefix of a later one's. */
  lemma {:induction false} SnapshotsAreKept(lib: Library, reqs: seq<Request>, n: nat)
    requires n <= |reqs|
    ensures Execute(lib, reqs[..n]).snapshots <= Execute(lib, reqs).snapshots
  {
    if n == |reqs| {
      assert reqs[..n] == reqs;
    } else {
      var init := reqs[..|reqs| - 1];
      SnapshotsAreKept(lib, init, n);
      assert init[..n] == reqs[..n];
      SnapshotsFormChains(lib, init);
      StepKeepsChain(lib, Execute(lib, init), reqs[|reqs| - 1]);
    }
  }
}
