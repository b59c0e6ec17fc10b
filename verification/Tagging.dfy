/** Which flags carry which tags: after any requests a flag carries a tag value if and only if
    the last accepted tag request about the two created it. */
module Tagging {
  import opened Entities
  import opened Tables
  import opened Database
  import opened Handlers
  import opened Text
  import opened Integrity
  import opened Frames
  import opened EvalCacheIndexes
  import opened Serving

  // ----- the relation -----

  /** Some tag row with the value is associated with the flag, which need not exist yet. */
  ghost predicate Tagged(db: DB, flagID: nat, value: string) {
    exists t :: Associated(db, flagID, t, value)
  }

  predicate Associated(db: DB, flagID: nat, tagID: nat, value: string) {
    (flagID, tagID) in db.flagTags && Exists(db.tags, tagID) && db.tags[tagID - 1] == value
  }

  /** The unique index on tag values. */
  ghost predicate TagsDistinct(db: DB) {
    forall i, j :: 0 <= i < j < |db.tags| ==> db.tags[i] != db.tags[j]
  }

  lemma {:induction false} TagsOfElements(tags: seq<string>, pairs: set<(nat, nat)>, flagID: nat, value: string)
    ensures HasValue(TagsOf(tags, pairs, flagID), value)
            <==> exists t :: 1 <= t <= |tags| && (flagID, t) in pairs && tags[t - 1] == value
  {
    if tags != [] {
      var init, after := tags[..|tags| - 1], TagsOf(tags, pairs, flagID);
      var before := TagsOf(init, pairs, flagID);
      TagsOfElements(init, pairs, flagID, value);
      if (flagID, |tags|) in pairs {
        assert after == before + [Tag(|tags|, tags[|tags| - 1])];
        HasValueInit(after, value);
        assert after[..|after| - 1] == before;
      } else {
        assert after == before;
      }
      if t :| 1 <= t <= |init| && (flagID, t) in pairs && init[t - 1] == value {
        assert tags[t - 1] == value;
      }
      if t :| 1 <= t <= |tags| && (flagID, t) in pairs && tags[t - 1] == value {
        assert t < |tags| ==> init[t - 1] == value;
      }
    }
  }

  /** A loaded flag carries exactly the values it is tagged with. */
  lemma LoadedCarries(db: DB, flagID: nat, value: string)
    requires Exists(db.flags, flagID)
    ensures Carries(Load(db, flagID), value) <==> Tagged(db, flagID, value)
  {
    TagsOfElements(db.tags, db.flagTags, flagID, value);
    if t :| 1 <= t <= |db.tags| && (flagID, t) in db.flagTags && db.tags[t - 1] == value {
      assert Associated(db, flagID, t, value);
    }
  }

  // ----- one request -----

  predicate KeepsTags(req: Request) {
    !req.CreateTag? && !req.DeleteTag?
  }

  lemma OthersKeepTags(lib: Library, db: DB, req: Request)
    requires KeepsTags(req) || EditOf(lib, db, req).Refused?
    ensures Step(lib, db, req).tags == db.tags && Step(lib, db, req).flagTags == db.flagTags
  {
    FinishKeepsTables(EditOf(lib, db, req), FlagOf(db, req), SubjectOf(req));
  }

  lemma SameTagsSameRelation(db: DB, db': DB, flagID: nat, value: string)
    requires db'.tags == db.tags && db'.flagTags == db.flagTags
    ensures Tagged(db', flagID, value) <==> Tagged(db, flagID, value)
  {
    forall t
      ensures Associated(db', flagID, t, value) <==> Associated(db, flagID, t, value)
    {
    }
  }

  lemma CreateTagTables(lib: Library, db: DB, req: Request)
    requires req.CreateTag? && IsSafeValue(req.tagValue)
    ensures var db', id := Step(lib, db, req), TagIDFor(db.tags, req.tagValue);
            && db.tags <= db'.tags && |db'.tags| <= |db.tags| + 1
            && (|db'.tags| > |db.tags| ==> id == |db'.tags|)
            && Exists(db'.tags, id) && db'.tags[id - 1] == req.tagValue
            && db'.flagTags == db.flagTags + {(req.flagID, id)}
  {
    FinishKeepsTables(EditOf(lib, db, req), req.flagID, req.subject);
    TagIDInRange(db.tags, req.tagValue);
    if req.tagValue !in db.tags {
      NewTagID(db.tags, req.tagValue);
    }
  }

  lemma {:induction false} NewTagID(tags: seq<string>, value: string)
    requires value !in tags
    ensures TagIDFor(tags, value) == |tags| + 1
  {
    if tags != [] {
      NewTagID(tags[1..], value);
    }
  }

  /** Creating a tag tags the flag with the value, and changes nothing else about who carries what. */
  lemma CreateTagTags(lib: Library, db: DB, req: Request, flagID: nat, value: string)
    requires req.CreateTag? && IsSafeValue(req.tagValue) && TagsBounded(db)
    ensures Tagged(Step(lib, db, req), flagID, value)
            <==> Tagged(db, flagID, value) || (flagID == req.flagID && value == req.tagValue)
  {
    var db', id := Step(lib, db, req), TagIDFor(db.tags, req.tagValue);
    CreateTagTables(lib, db, req);
    forall t
      ensures Associated(db', flagID, t, value)
              <==> Associated(db, flagID, t, value) || (flagID == req.flagID && t == id && value == req.tagValue)
    {
    }
    assert Associated(db', req.flagID, id, req.tagValue);
  }

  /** Deleting a tag takes its value from the flag, and changes nothing else about who carries what. */
  lemma DeleteTagUntags(lib: Library, db: DB, req: Request, flagID: nat, value: string)
    requires req.DeleteTag? && TagsDistinct(db)
    ensures Tagged(Step(lib, db, req), flagID, value)
            <==> Tagged(db, flagID, value) && !(flagID == req.flagID && NamesTag(db, req.tagID, value))
  {
    var db' := Step(lib, db, req);
    FinishKeepsTables(EditOf(lib, db, req), req.flagID, req.subject);
    forall t
      ensures Associated(db', flagID, t, value)
              <==> Associated(db, flagID, t, value) && !(flagID == req.flagID && t == req.tagID)
    {
    }
    if t :| Associated(db, flagID, t, value) && NamesTag(db, req.tagID, value) {
      assert t == req.tagID;
    }
  }

  predicate NamesTag(db: DB, tagID: nat, value: string) {
    Exists(db.tags, tagID) && db.tags[tagID - 1] == value
  }

  // ----- whole runs -----

  lemma StepKeepsTagsDistinct(lib: Library, db: DB, req: Request)
    requires TagsDistinct(db)
    ensures TagsDistinct(Step(lib, db, req))
  {
    FinishKeepsTables(EditOf(lib, db, req), FlagOf(db, req), SubjectOf(req));
  }

  lemma {:induction false} ExecuteKeepsTags(lib: Library, reqs: seq<Request>)
    ensures TagsDistinct(Execute(lib, reqs)) && TagsBounded(Execute(lib, reqs))
  {
    if reqs != [] {
      ExecuteKeepsTags(lib, reqs[..|reqs| - 1]);
      StepKeepsTagsDistinct(lib, Execute(lib, reqs[..|reqs| - 1]), reqs[|reqs| - 1]);
      StepKeepsTagsBounded(lib, Execute(lib, reqs[..|reqs| - 1]), reqs[|reqs| - 1]);
    }
  }

  /** A request to tag the flag with the value, which is accepted if the value is well-formed. */
  predicate Tags(req: Request, flagID: nat, value: string) {
    req.CreateTag? && req.flagID == flagID && req.tagValue == value && IsSafeValue(value)
  }

  /** A request to take the tag with the value from the flag. */
  predicate Untags(db: DB, req: Request, flagID: nat, value: string) {
    req.DeleteTag? && req.flagID == flagID && NamesTag(db, req.tagID, value)
  }

  /** The last of the requests that tag the flag with the value or take it away tags it. */
  predicate LastTags(lib: Library, reqs: seq<Request>, flagID: nat, value: string) {
    if reqs == [] then false
    else
      var init, last := reqs[..|reqs| - 1], reqs[|reqs| - 1];
      var db := Execute(lib, init);
      if Tags(last, flagID, value) then true
      else if Untags(db, last, flagID, value) then false
      else LastTags(lib, init, flagID, value)
  }

  lemma StepTags(lib: Library, db: DB, req: Request, flagID: nat, value: string)
    requires TagsDistinct(db) && TagsBounded(db)
    ensures Tagged(Step(lib, db, req), flagID, value)
            <==> Tags(req, flagID, value) || (Tagged(db, flagID, value) && !Untags(db, req, flagID, value))
  {
    if req.CreateTag? && IsSafeValue(req.tagValue) {
      CreateTagTags(lib, db, req, flagID, value);
    } else if req.DeleteTag? {
      DeleteTagUntags(lib, db, req, flagID, value);
    } else {
      OthersKeepTags(lib, db, req);
      SameTagsSameRelation(db, Step(lib, db, req), flagID, value);
    }
  }

  /** After any requests a flag is tagged with a value exactly when the last request about it said so. */
  lemma {:induction false} TaggedByTheLastRequest(lib: Library, reqs: seq<Request>, flagID: nat, value: string)
    ensures Tagged(Execute(lib, reqs), flagID, value) <==> LastTags(lib, reqs, flagID, value)
  {
    if reqs != [] {
      var init := reqs[..|reqs| - 1];
      TaggedByTheLastRequest(lib, init, flagID, value);
      ExecuteKeepsTags(lib, init);
      StepTags(lib, Execute(lib, init), reqs[|reqs| - 1], flagID, value);
    }
  }

  /** Whole-run tags: what a flag carries when it is loaded. */
  lemma CarriedTags(lib: Library, reqs: seq<Request>, flagID: nat, value: string)
    requires Exists(Execute(lib, reqs).flags, flagID)
    ensures Carries(Load(Execute(lib, reqs), flagID), value) <==> LastTags(lib, reqs, flagID, value)
  {
    LoadedCarries(Execute(lib, reqs), flagID, value);
    TaggedByTheLastRequest(lib, reqs, flagID, value);
  }

  // ----- tag queries -----

  /** The requests tagged the flag as the query asks: with one of the tags, or with all of them. */
  predicate TaggedAsAsked(lib: Library, reqs: seq<Request>, flagID: nat, tags: seq<string>, operator: Option<string>) {
    if operator == None || operator == Some(ANY) then
      exists j :: 0 <= j < |tags| && LastTags(lib, reqs, flagID, tags[j])
    else if operator == Some(ALL) then
      tags != [] && forall j :: 0 <= j < |tags| ==> LastTags(lib, reqs, flagID, tags[j])
    else
      false
  }

  lemma SelectedAsAsked(lib: Library, reqs: seq<Request>, flagID: nat, tags: seq<string>, operator: Option<string>)
    requires Exists(Execute(lib, reqs).flags, flagID)
    ensures Selects(Load(Execute(lib, reqs), flagID), tags, operator)
            <==> TaggedAsAsked(lib, reqs, flagID, tags, operator)
  {
    var f := Load(Execute(lib, reqs), flagID);
    forall j | 0 <= j < |tags|
      ensures Carries(f, tags[j]) <==> LastTags(lib, reqs, flagID, tags[j])
    {
      CarriedTags(lib, reqs, flagID, tags[j]);
    }
  }

  /** From the tag requests to the tag queries: after any requests and a reload, a query serves a
      live flag if and only if the last accepted request about it and the queried tag, each of
      them or one of them, created it. */
  lemma TagQueryObeysTheRequests(lib: Library, reqs: seq<Request>, ids: seq<nat>, fs: seq<Flag>,
                                 tags: seq<string>, operator: Option<string>, id: nat)
    requires IsFetch(Execute(lib, reqs), ids, fs) && Build(lib, fs).Some?
    ensures id in TagQuery(Build(lib, fs).value, tags, operator)
            <==> LiveFlag(Execute(lib, reqs), id) && TaggedAsAsked(lib, reqs, id, tags, operator)
  {
    TaggedFlagsAreServed(lib, reqs, ids, fs, tags, operator, id);
    if LiveFlag(Execute(lib, reqs), id) {
      SelectedAsAsked(lib, reqs, id, tags, operator);
    }
  }
}
