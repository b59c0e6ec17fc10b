/** The in-memory indexes that serve evaluation, and their construction from a fetched
    list of flags. */
module EvalCacheIndexes {
  import opened Entities
  import opened Preparation
  import opened Text

  datatype CacheContainer = CacheContainer(
    idCache: map<string, Flag>,
    keyCache: map<string, Flag>,
    tagCache: map<string, map<nat, Flag>>)

  const EMPTY: CacheContainer := CacheContainer(map[], map[], map[])

  // ----- what the construction computes -----

  function AddTags(tagCache: map<string, map<nat, Flag>>, f: Flag, tags: seq<Tag>): map<string, map<nat, Flag>> {
    if tags == [] then tagCache
    else
      var before := AddTags(tagCache, f, tags[..|tags| - 1]);
      var value := tags[|tags| - 1].value;
      var flags := if value in before then before[value] else map[];
      before[value := flags[f.id := f]]
  }

  function AddFlag(c: CacheContainer, f: Flag): CacheContainer {
    CacheContainer(
      if f.id != 0 then c.idCache[Decimal(f.id) := f] else c.idCache,
      if f.key != "" then c.keyCache[f.key := f] else c.keyCache,
      AddTags(c.tagCache, f, f.tags))
  }

  function IndexAll(ps: seq<Flag>): CacheContainer {
    if ps == [] then EMPTY else AddFlag(IndexAll(ps[..|ps| - 1]), ps[|ps| - 1])
  }

  function PrepareAll(lib: Library, fs: seq<Flag>): (r: Option<seq<Flag>>)
    ensures r.Some? ==> |r.value| == |fs|
  {
    if fs == [] then Some([])
    else
      match (PrepareAll(lib, fs[..|fs| - 1]), Prepare(lib, fs[|fs| - 1]))
      case (Some(ps), Some(p)) => Some(ps + [p])
      case _ => None
  }

  function Build(lib: Library, fs: seq<Flag>): Option<CacheContainer> {
    match PrepareAll(lib, fs)
    case None => None
    case Some(ps) => Some(IndexAll(ps))
  }

  // ----- the simple thing: a scan of the list -----

  ghost predicate DistinctIDs(fs: seq<Flag>) {
    forall i, j :: 0 <= i < j < |fs| ==> fs[i].id != fs[j].id
  }

  ghost predicate DistinctKeys(fs: seq<Flag>) {
    forall i, j :: 0 <= i < j < |fs| && fs[i].key != "" ==> fs[i].key != fs[j].key
  }

  predicate HasValue(tags: seq<Tag>, value: string) {
    exists i :: 0 <= i < |tags| && tags[i].value == value
  }

  predicate Carries(f: Flag, tag: string) {
    HasValue(f.tags, tag)
  }

  /** The container agrees with the list of prepared flags, in both directions. */
  ghost predicate Indexes(c: CacheContainer, ps: seq<Flag>) {
    IDsIndexed(c.idCache, ps) && KeysIndexed(c.keyCache, ps) && TagsIndexed(c.tagCache, ps)
  }

  ghost predicate IDsIndexed(idCache: map<string, Flag>, ps: seq<Flag>) {
    && (forall f :: f in ps && f.id != 0 ==> Decimal(f.id) in idCache && idCache[Decimal(f.id)] == f)
    && (forall s :: s in idCache ==> idCache[s] in ps && idCache[s].id != 0 && s == Decimal(idCache[s].id))
  }

  ghost predicate KeysIndexed(keyCache: map<string, Flag>, ps: seq<Flag>) {
    && (forall f :: f in ps && f.key != "" ==> f.key in keyCache && keyCache[f.key] == f)
    && (forall s :: s in keyCache ==> s != "" && keyCache[s] in ps && s == keyCache[s].key)
  }

  /** The flags filed under a tag. */
  function Under(tagCache: map<string, map<nat, Flag>>, tag: string): map<nat, Flag> {
    if tag in tagCache then tagCache[tag] else map[]
  }

  ghost predicate TagsIndexed(tagCache: map<string, map<nat, Flag>>, ps: seq<Flag>) {
    && (forall v :: v in tagCache ==> tagCache[v] != map[])
    && (forall v :: TagIndexed(Under(tagCache, v), v, ps))
  }

  ghost predicate TagIndexed(m: map<nat, Flag>, v: string, ps: seq<Flag>) {
    && (forall f :: f in ps && Carries(f, v) ==> f.id in m && m[f.id] == f)
    && (forall id :: id in m ==> m[id] in ps && m[id].id == id && Carries(m[id], v))
  }

  lemma {:induction false} AddTagsAdds(tagCache: map<string, map<nat, Flag>>, f: Flag, tags: seq<Tag>, v: string)
    ensures v in AddTags(tagCache, f, tags) <==> HasValue(tags, v) || v in tagCache
    ensures Under(AddTags(tagCache, f, tags), v)
            == if HasValue(tags, v) then Under(tagCache, v)[f.id := f] else Under(tagCache, v)
  {
    if tags != [] {
      var init, last := tags[..|tags| - 1], tags[|tags| - 1];
      AddTagsAdds(tagCache, f, init, v);
      HasValueInit(tags, v);
      assert Under(tagCache, v)[f.id := f][f.id := f] == Under(tagCache, v)[f.id := f];
    }
  }

  lemma HasValueInit(tags: seq<Tag>, v: string)
    requires tags != []
    ensures HasValue(tags, v) <==> HasValue(tags[..|tags| - 1], v) || tags[|tags| - 1].value == v
  {
    if HasValue(tags[..|tags| - 1], v) {
      var i :| 0 <= i < |tags| - 1 && tags[..|tags| - 1][i].value == v;
      assert tags[i].value == v;
    }
    if HasValue(tags, v) && tags[|tags| - 1].value != v {
      var i :| 0 <= i < |tags| && tags[i].value == v;
      assert tags[..|tags| - 1][i].value == v;
    }
  }

  lemma InInit(ps: seq<Flag>, f: Flag)
    requires ps != []
    ensures f in ps <==> f in ps[..|ps| - 1] || f == ps[|ps| - 1]
  {
  }

  lemma AddFlagUnderTag(m: map<nat, Flag>, v: string, ps: seq<Flag>)
    requires ps != [] && DistinctIDs(ps) && TagIndexed(m, v, ps[..|ps| - 1])
    ensures var p := ps[|ps| - 1]; TagIndexed(if Carries(p, v) then m[p.id := p] else m, v, ps)
  {
    var p := ps[|ps| - 1];
    var after := if Carries(p, v) then m[p.id := p] else m;
    forall f | f in ps && Carries(f, v)
      ensures f.id in after && after[f.id] == f
    {
      InInit(ps, f);
    }
  }

  lemma AddFlagIndexesTags(tagCache: map<string, map<nat, Flag>>, ps: seq<Flag>)
    requires ps != [] && DistinctIDs(ps)
    requires TagsIndexed(tagCache, ps[..|ps| - 1])
    ensures TagsIndexed(AddTags(tagCache, ps[|ps| - 1], ps[|ps| - 1].tags), ps)
  {
    var p := ps[|ps| - 1];
    var after := AddTags(tagCache, p, p.tags);
    forall v
      ensures TagIndexed(Under(after, v), v, ps)
      ensures v in after ==> after[v] != map[]
    {
      AddTagsAdds(tagCache, p, p.tags, v);
      AddFlagUnderTag(Under(tagCache, v), v, ps);
    }
  }

  lemma AddFlagIndexesID(idCache: map<string, Flag>, ps: seq<Flag>)
    requires ps != [] && DistinctIDs(ps) && IDsIndexed(idCache, ps[..|ps| - 1])
    ensures var p := ps[|ps| - 1]; IDsIndexed(if p.id != 0 then idCache[Decimal(p.id) := p] else idCache, ps)
  {
    var p := ps[|ps| - 1];
    var after := if p.id != 0 then idCache[Decimal(p.id) := p] else idCache;
    forall f | f in ps && f.id != 0
      ensures Decimal(f.id) in after && after[Decimal(f.id)] == f
    {
      InInit(ps, f);
      if f != p && Decimal(p.id) == Decimal(f.id) {
        DecimalInjective(p.id, f.id);
      }
    }
  }

  lemma AddFlagIndexesKey(keyCache: map<string, Flag>, ps: seq<Flag>)
    requires ps != [] && DistinctKeys(ps) && KeysIndexed(keyCache, ps[..|ps| - 1])
    ensures var p := ps[|ps| - 1]; KeysIndexed(if p.key != "" then keyCache[p.key := p] else keyCache, ps)
  {
    var p := ps[|ps| - 1];
    var after := if p.key != "" then keyCache[p.key := p] else keyCache;
    forall f | f in ps && f.key != ""
      ensures f.key in after && after[f.key] == f
    {
      InInit(ps, f);
    }
  }

  /** The construction produces indexes that agree with the list. */
  lemma {:induction false} IndexAllIndexes(ps: seq<Flag>)
    requires DistinctIDs(ps) && DistinctKeys(ps)
    ensures Indexes(IndexAll(ps), ps)
  {
    if ps == [] {
      assert forall v :: Under(EMPTY.tagCache, v) == map[];
    } else {
      var before := IndexAll(ps[..|ps| - 1]);
      IndexAllIndexes(ps[..|ps| - 1]);
      AddFlagIndexesID(before.idCache, ps);
      AddFlagIndexesKey(before.keyCache, ps);
      AddFlagIndexesTags(before.tagCache, ps);
    }
  }

  ghost predicate SameElements(fs: seq<Flag>, fs': seq<Flag>) {
    forall f :: f in fs <==> f in fs'
  }

  /** Containers that agree with the same flags are equal, so the order of the list
      does not matter. */
  lemma IndexesUnique(c: CacheContainer, c': CacheContainer, ps: seq<Flag>, ps': seq<Flag>)
    requires Indexes(c, ps) && Indexes(c', ps') && SameElements(ps, ps')
    ensures c == c'
  {
    IDsUnique(c.idCache, c'.idCache, ps, ps');
    KeysUnique(c.keyCache, c'.keyCache, ps, ps');
    TagsUnique(c.tagCache, c'.tagCache, ps, ps');
  }

  lemma IDsUnique(m: map<string, Flag>, m': map<string, Flag>, ps: seq<Flag>, ps': seq<Flag>)
    requires IDsIndexed(m, ps) && IDsIndexed(m', ps') && SameElements(ps, ps')
    ensures m == m'
  {
    assert forall s :: s in m ==> s in m' && m'[s] == m[s];
    assert forall s :: s in m' ==> s in m;
  }

  lemma KeysUnique(m: map<string, Flag>, m': map<string, Flag>, ps: seq<Flag>, ps': seq<Flag>)
    requires KeysIndexed(m, ps) && KeysIndexed(m', ps') && SameElements(ps, ps')
    ensures m == m'
  {
    assert forall s :: s in m ==> s in m' && m'[s] == m[s];
    assert forall s :: s in m' ==> s in m;
  }

  lemma TagsUnique(t: map<string, map<nat, Flag>>, t': map<string, map<nat, Flag>>, ps: seq<Flag>, ps': seq<Flag>)
    requires TagsIndexed(t, ps) && TagsIndexed(t', ps') && SameElements(ps, ps')
    ensures t == t'
  {
    forall v: string
      ensures v in t <==> v in t'
      ensures v in t ==> t[v] == t'[v]
    {
      TagUniqueAt(t, t', v, ps, ps');
    }
  }

  lemma TagUniqueAt(t: map<string, map<nat, Flag>>, t': map<string, map<nat, Flag>>, v: string,
                    ps: seq<Flag>, ps': seq<Flag>)
    requires TagsIndexed(t, ps) && TagsIndexed(t', ps') && SameElements(ps, ps')
    ensures v in t <==> v in t'
    ensures v in t ==> t[v] == t'[v]
  {
    assert TagIndexed(Under(t, v), v, ps) && TagIndexed(Under(t', v), v, ps');
    TagUnique(Under(t, v), Under(t', v), v, ps, ps');
  }

  lemma TagUnique(m: map<nat, Flag>, m': map<nat, Flag>, v: string, ps: seq<Flag>, ps': seq<Flag>)
    requires TagIndexed(m, v, ps) && TagIndexed(m', v, ps') && SameElements(ps, ps')
    ensures m == m'
  {
    assert forall id :: id in m ==> id in m' && m'[id] == m[id];
    assert forall id :: id in m' ==> id in m;
  }

  lemma {:induction false} PrepareAllElements(lib: Library, fs: seq<Flag>)
    requires PrepareAll(lib, fs).Some?
    ensures forall i :: 0 <= i < |fs| ==> Prepare(lib, fs[i]) == Some(PrepareAll(lib, fs).value[i])
  {
    if fs != [] {
      PrepareAllElements(lib, fs[..|fs| - 1]);
    }
  }

  lemma {:induction false} PrepareAllOf(lib: Library, fs: seq<Flag>, ps: seq<Flag>)
    requires |ps| == |fs| && forall i :: 0 <= i < |fs| ==> Prepare(lib, fs[i]) == Some(ps[i])
    ensures PrepareAll(lib, fs) == Some(ps)
  {
    if fs != [] {
      PrepareAllOf(lib, fs[..|fs| - 1], ps[..|ps| - 1]);
      assert ps == ps[..|ps| - 1] + [ps[|ps| - 1]];
    }
  }

  lemma PreparedKeepsIdentity(lib: Library, fs: seq<Flag>)
    requires PrepareAll(lib, fs).Some?
    ensures DistinctIDs(fs) ==> DistinctIDs(PrepareAll(lib, fs).value)
    ensures DistinctKeys(fs) ==> DistinctKeys(PrepareAll(lib, fs).value)
  {
    PrepareAllElements(lib, fs);
  }

  // ----- permutations -----

  lemma PreparedSameElements(lib: Library, fs: seq<Flag>, fs': seq<Flag>)
    requires PrepareAll(lib, fs).Some? && PrepareAll(lib, fs').Some? && SameElements(fs, fs')
    ensures SameElements(PrepareAll(lib, fs).value, PrepareAll(lib, fs').value)
  {
    PrepareAllElements(lib, fs);
    PrepareAllElements(lib, fs');
    var ps, ps' := PrepareAll(lib, fs).value, PrepareAll(lib, fs').value;
    forall p | p in ps
      ensures p in ps'
    {
      var i :| 0 <= i < |ps| && ps[i] == p;
      assert fs[i] in fs';
      var j :| 0 <= j < |fs'| && fs'[j] == fs[i];
      assert ps'[j] == p;
    }
    forall p | p in ps'
      ensures p in ps
    {
      var i :| 0 <= i < |ps'| && ps'[i] == p;
      assert fs'[i] in fs;
      var j :| 0 <= j < |fs| && fs[j] == fs'[i];
      assert ps[j] == p;
    }
  }

  lemma {:induction false} FailsWith(lib: Library, fs: seq<Flag>)
    ensures PrepareAll(lib, fs) == None <==> exists f :: f in fs && Prepare(lib, f) == None
  {
    if fs != [] {
      FailsWith(lib, fs[..|fs| - 1]);
      forall f
        ensures f in fs <==> f in fs[..|fs| - 1] || f == fs[|fs| - 1]
      {
        InInit(fs, f);
      }
      assert fs[|fs| - 1] in fs;
    }
  }

  /** The fetched order does not matter: lists of the same flags with distinct IDs and
      keys build equal indexes, or fail alike. */
  lemma BuildIgnoresOrder(lib: Library, fs: seq<Flag>, fs': seq<Flag>)
    requires SameElements(fs, fs')
    requires DistinctIDs(fs) && DistinctKeys(fs) && DistinctIDs(fs') && DistinctKeys(fs')
    ensures Build(lib, fs) == Build(lib, fs')
  {
    FailsWith(lib, fs);
    FailsWith(lib, fs');
    if PrepareAll(lib, fs).Some? {
      assert PrepareAll(lib, fs').Some?;
      var ps, ps' := PrepareAll(lib, fs).value, PrepareAll(lib, fs').value;
      PreparedKeepsIdentity(lib, fs);
      PreparedKeepsIdentity(lib, fs');
      PreparedSameElements(lib, fs, fs');
      IndexAllIndexes(ps);
      IndexAllIndexes(ps');
      IndexesUnique(IndexAll(ps), IndexAll(ps'), ps, ps');
    }
  }

  // ----- queries -----

  function GetByFlagKeyOrID(c: CacheContainer, s: string): Option<Flag> {
    if s in c.idCache then Some(c.idCache[s])
    else if s in c.keyCache then Some(c.keyCache[s])
    else None
  }

  function TagsAny(c: CacheContainer, tags: seq<string>): map<nat, Flag> {
    if tags == [] then map[]
    else
      var last := tags[|tags| - 1];
      TagsAny(c, tags[..|tags| - 1]) + Under(c.tagCache, last)
  }

  predicate KnowsAll(c: CacheContainer, tags: seq<string>) {
    forall j :: 0 <= j < |tags| ==> tags[j] in c.tagCache
  }

  predicate UnderAll(c: CacheContainer, tags: seq<string>, id: nat)
    requires KnowsAll(c, tags)
  {
    forall j :: 0 <= j < |tags| ==> id in c.tagCache[tags[j]]
  }

  function TagsAll(c: CacheContainer, tags: seq<string>): map<nat, Flag> {
    if tags == [] || !KnowsAll(c, tags) then map[]
    else map id | id in c.tagCache[tags[0]] && UnderAll(c, tags, id) :: c.tagCache[tags[0]][id]
  }

  const ANY: string := "ANY"
  const ALL: string := "ALL"

  function TagQuery(c: CacheContainer, tags: seq<string>, operator: Option<string>): map<nat, Flag> {
    if operator == None || operator == Some(ANY) then TagsAny(c, tags)
    else if operator == Some(ALL) then TagsAll(c, tags)
    else map[]
  }

  /** The flags the scan of the list selects. */
  predicate Selects(f: Flag, tags: seq<string>, operator: Option<string>) {
    if operator == None || operator == Some(ANY) then exists j :: 0 <= j < |tags| && Carries(f, tags[j])
    else if operator == Some(ALL) then tags != [] && forall j :: 0 <= j < |tags| ==> Carries(f, tags[j])
    else false
  }

  /** The result is exactly the selected flags of the list, under their IDs. */
  ghost predicate IsScan(m: map<nat, Flag>, ps: seq<Flag>, tags: seq<string>, operator: Option<string>) {
    && (forall f :: f in ps && Selects(f, tags, operator) ==> f.id in m && m[f.id] == f)
    && (forall id :: id in m ==> m[id] in ps && m[id].id == id && Selects(m[id], tags, operator))
  }

  lemma AnyInit(f: Flag, tags: seq<string>)
    requires tags != []
    ensures Selects(f, tags, Some(ANY)) <==> Selects(f, tags[..|tags| - 1], Some(ANY)) || Carries(f, tags[|tags| - 1])
  {
    var init := tags[..|tags| - 1];
    if Selects(f, init, Some(ANY)) {
      var j :| 0 <= j < |init| && Carries(f, init[j]);
      assert Carries(f, tags[j]);
    }
    if Selects(f, tags, Some(ANY)) && !Carries(f, tags[|tags| - 1]) {
      var j :| 0 <= j < |tags| && Carries(f, tags[j]);
      assert Carries(f, init[j]);
    }
  }

  lemma SameIDSameFlag(ps: seq<Flag>, f: Flag, g: Flag)
    requires DistinctIDs(ps) && f in ps && g in ps && f.id == g.id
    ensures f == g
  {
  }

  lemma {:induction false} TagsAnyScans(c: CacheContainer, ps: seq<Flag>, tags: seq<string>)
    requires TagsIndexed(c.tagCache, ps) && DistinctIDs(ps)
    ensures IsScan(TagsAny(c, tags), ps, tags, Some(ANY))
  {
    if tags != [] {
      var m0, m1 := TagsAny(c, tags[..|tags| - 1]), Under(c.tagCache, tags[|tags| - 1]);
      TagsAnyScans(c, ps, tags[..|tags| - 1]);
      assert TagIndexed(m1, tags[|tags| - 1], ps);
      var m := m0 + m1;
      forall f | f in ps && Selects(f, tags, Some(ANY))
        ensures f.id in m && m[f.id] == f
      {
        AnyInit(f, tags);
        if f.id in m1 {
          SameIDSameFlag(ps, f, m1[f.id]);
        }
      }
      forall id | id in m
        ensures m[id] in ps && m[id].id == id && Selects(m[id], tags, Some(ANY))
      {
        AnyInit(m[id], tags);
      }
    }
  }

  lemma TagsAllScans(c: CacheContainer, ps: seq<Flag>, tags: seq<string>)
    requires TagsIndexed(c.tagCache, ps) && DistinctIDs(ps)
    ensures IsScan(TagsAll(c, tags), ps, tags, Some(ALL))
  {
    var m := TagsAll(c, tags);
    forall f | f in ps && Selects(f, tags, Some(ALL))
      ensures f.id in m && m[f.id] == f
    {
      forall j | 0 <= j < |tags|
        ensures tags[j] in c.tagCache && f.id in c.tagCache[tags[j]] && c.tagCache[tags[j]][f.id] == f
      {
        assert Carries(f, tags[j]);
        assert TagIndexed(Under(c.tagCache, tags[j]), tags[j], ps);
      }
    }
    forall id | id in m
      ensures m[id] in ps && m[id].id == id && Selects(m[id], tags, Some(ALL))
    {
      assert TagIndexed(Under(c.tagCache, tags[0]), tags[0], ps);
      forall j | 0 <= j < |tags|
        ensures Carries(m[id], tags[j])
      {
        assert TagIndexed(Under(c.tagCache, tags[j]), tags[j], ps);
        SameIDSameFlag(ps, m[id], c.tagCache[tags[j]][id]);
      }
    }
  }

  /** A tag query on the built indexes agrees with a scan of the list: ANY selects the flags
      that carry at least one of the tags, ALL those that carry every one of them, and none
      for an empty list of tags. */
  lemma TagQueryScans(ps: seq<Flag>, tags: seq<string>, operator: Option<string>)
    requires DistinctIDs(ps) && DistinctKeys(ps)
    ensures IsScan(TagQuery(IndexAll(ps), tags, operator), ps, tags, operator)
  {
    IndexAllIndexes(ps);
    TagsAnyScans(IndexAll(ps), ps, tags);
    TagsAllScans(IndexAll(ps), ps, tags);
  }

  // ----- lookup by ID, then by key -----

  /** Looks the ID up, rendered as a string, and falls back to the key. */
  function LookupFlag(c: CacheContainer, id: nat, key: string): Option<Flag> {
    var f := GetByFlagKeyOrID(c, Decimal(id));
    if f == None then GetByFlagKeyOrID(c, key) else f
  }

  /** The flag with the ID if there is one, else the flag with the key, else nothing. */
  ghost predicate IsLookup(r: Option<Flag>, ps: seq<Flag>, id: nat, key: string) {
    if id != 0 && exists f :: f in ps && f.id == id then r.Some? && r.value in ps && r.value.id == id
    else if key != "" && exists f :: f in ps && f.key == key then r.Some? && r.value in ps && r.value.key == key
    else r == None
  }

  /** No flag is keyed by the digits of the requested ID, unless that is the requested key,
      and the requested key does not spell the ID of a flag keyed otherwise. */
  ghost predicate Unconfused(ps: seq<Flag>, id: nat, key: string) {
    && (forall f :: f in ps && f.key == Decimal(id) ==> key == Decimal(id))
    && (forall f :: f in ps && f.id != 0 && Decimal(f.id) == key ==> f.key == key)
  }

  lemma GetFinds(c: CacheContainer, ps: seq<Flag>, s: string)
    requires Indexes(c, ps)
    ensures var r := GetByFlagKeyOrID(c, s);
            && (r.Some? ==> r.value in ps && ((r.value.id != 0 && Decimal(r.value.id) == s) || r.value.key == s))
            && (r == None ==> forall f :: f in ps ==> !(f.id != 0 && Decimal(f.id) == s) && (f.key == s ==> s == ""))
            && (forall f :: f in ps && f.id != 0 && Decimal(f.id) == s ==> r == Some(f))
  {
  }

  /** When the two-level lookup is the simple one: exactly when a flag has the requested ID,
      or the ID and the key cannot be taken for one another. */
  lemma LookupExactly(ps: seq<Flag>, id: nat, key: string)
    requires DistinctIDs(ps) && DistinctKeys(ps)
    ensures IsLookup(LookupFlag(IndexAll(ps), id, key), ps, id, key)
            <==> (id != 0 && (exists f :: f in ps && f.id == id)) || Unconfused(ps, id, key)
  {
    var c := IndexAll(ps);
    IndexAllIndexes(ps);
    forall m, n | Decimal(m) == Decimal(n)
      ensures m == n
    {
      DecimalInjective(m, n);
    }
    GetFinds(c, ps, Decimal(id));
    GetFinds(c, ps, key);
    var byID := GetByFlagKeyOrID(c, Decimal(id));
    var r := LookupFlag(c, id, key);
    if id != 0 && exists f :: f in ps && f.id == id {
      var f :| f in ps && f.id == id;
      assert byID == Some(f);
    } else if byID.Some? {
      LookupThroughTheID(c, ps, id, key);
    } else {
      LookupThroughTheKey(c, ps, id, key);
    }
  }

  lemma LookupThroughTheID(c: CacheContainer, ps: seq<Flag>, id: nat, key: string)
    requires DistinctIDs(ps) && DistinctKeys(ps) && Indexes(c, ps)
    requires forall m, n :: Decimal(m) == Decimal(n) ==> m == n
    requires !(id != 0 && exists f :: f in ps && f.id == id)
    requires GetByFlagKeyOrID(c, Decimal(id)).Some?
    ensures IsLookup(LookupFlag(c, id, key), ps, id, key) <==> Unconfused(ps, id, key)
  {
    GetFinds(c, ps, Decimal(id));
    var r := LookupFlag(c, id, key).value;
    assert r in ps && r.key == Decimal(id);
    if key != Decimal(id) {
      assert !Unconfused(ps, id, key);
    }
  }

  lemma LookupThroughTheKey(c: CacheContainer, ps: seq<Flag>, id: nat, key: string)
    requires DistinctIDs(ps) && DistinctKeys(ps) && Indexes(c, ps)
    requires !(id != 0 && exists f :: f in ps && f.id == id)
    requires GetByFlagKeyOrID(c, Decimal(id)) == None
    ensures IsLookup(LookupFlag(c, id, key), ps, id, key) <==> Unconfused(ps, id, key)
  {
    GetFinds(c, ps, Decimal(id));
    GetFinds(c, ps, key);
    var r := LookupFlag(c, id, key);
    assert forall f :: f in ps ==> f.key != Decimal(id);
    if g :| g in ps && g.id != 0 && Decimal(g.id) == key {
      assert r == Some(g);
      if g.key == key {
        forall f | f in ps && f.id != 0 && Decimal(f.id) == key
          ensures f.key == key
        {
          assert r == Some(f);
        }
      }
    }
  }

  /** Keys that are not all digits are never taken for IDs. */
  lemma DigitFreeLookup(ps: seq<Flag>, id: nat, key: string)
    requires DistinctIDs(ps) && DistinctKeys(ps)
    requires !AllDigits(key) && forall f :: f in ps ==> !AllDigits(f.key)
    ensures IsLookup(LookupFlag(IndexAll(ps), id, key), ps, id, key)
  {
    forall n: nat
      ensures AllDigits(Decimal(n))
    {
      ParseDecimal(n);
    }
    LookupExactly(ps, id, key);
  }

  /** With digits alone as the requested key the fallback is not the simple one: asking for
      the key "7" where no flag has it answers with the flag whose ID is 7. */
  lemma DigitKeyFindsAnID(f: Flag)
    requires f.id == 7 && f.key == "checkout"
    ensures LookupFlag(IndexAll([f]), 0, "7") == Some(f)
    ensures !IsLookup(LookupFlag(IndexAll([f]), 0, "7"), [f], 0, "7")
  {
    IndexAllIndexes([f]);
    var c := IndexAll([f]);
    assert f in [f];
    assert Decimal(7) == "7" && Decimal(0) == "0";
    GetFinds(c, [f], "7");
    GetFinds(c, [f], "0");
  }

  // ----- export and import -----

  /** `r` lists the values of the map, each key once, in some order. */
  ghost predicate ListsValues<K(!new)>(r: seq<Flag>, m: map<K, Flag>) {
    exists keys: seq<K> :: IsOrder(keys, r, m)
  }

  ghost predicate IsOrder<K(!new)>(keys: seq<K>, r: seq<Flag>, m: map<K, Flag>) {
    && |r| == |keys|
    && (forall i, j :: 0 <= i < j < |keys| ==> keys[i] != keys[j])
    && (forall k :: k in keys <==> k in m)
    && (forall i :: 0 <= i < |keys| ==> keys[i] in m && r[i] == m[keys[i]])
  }

  function SerializeAll(fs: seq<Flag>): seq<Flag> {
    seq(|fs|, i requires 0 <= i < |fs| => Serialize(fs[i]))
  }

  lemma ListedIDCache(ps: seq<Flag>, c: CacheContainer, exported: seq<Flag>)
    requires Indexes(c, ps) && DistinctIDs(ps) && DistinctKeys(ps)
    requires forall f :: f in ps ==> f.id != 0
    requires ListsValues(exported, c.idCache)
    ensures SameElements(exported, ps) && DistinctIDs(exported) && DistinctKeys(exported)
  {
    var keys: seq<string> :| IsOrder(keys, exported, c.idCache);
    forall f | f in ps
      ensures f in exported
    {
      assert Decimal(f.id) in keys;
      var i :| 0 <= i < |keys| && keys[i] == Decimal(f.id);
      assert exported[i] == f;
    }
    forall i | 0 <= i < |exported|
      ensures exported[i] in ps && keys[i] == Decimal(exported[i].id)
    {
      assert keys[i] in keys;
    }
    forall i, j | 0 <= i < j < |exported|
      ensures exported[i] != exported[j]
    {
      assert keys[i] != keys[j];
    }
    DistinctFlags(ps, exported);
  }

  lemma DistinctFlags(ps: seq<Flag>, fs: seq<Flag>)
    requires DistinctIDs(ps) && DistinctKeys(ps) && forall i :: 0 <= i < |fs| ==> fs[i] in ps
    requires forall i, j :: 0 <= i < j < |fs| ==> fs[i] != fs[j]
    ensures DistinctIDs(fs) && DistinctKeys(fs)
  {
    forall i, j | 0 <= i < j < |fs|
      ensures fs[i].id != fs[j].id && (fs[i].key != "" ==> fs[i].key != fs[j].key)
    {
      if fs[i].id == fs[j].id {
        SameIDSameFlag(ps, fs[i], fs[j]);
      }
      if fs[i].key != "" && fs[i].key == fs[j].key {
        SameKeySameFlag(ps, fs[i], fs[j]);
      }
    }
  }

  lemma SameKeySameFlag(ps: seq<Flag>, f: Flag, g: Flag)
    requires DistinctKeys(ps) && f in ps && g in ps && f.key == g.key && f.key != ""
    ensures f == g
  {
  }

  /** Export, then import: whatever order the export lists the flags in, rebuilding the
      indexes from its JSON form gives back the same ID, key and tag indexes. */
  lemma ExportImportRoundTrip(lib: Library, fs: seq<Flag>, exported: seq<Flag>)
    requires DistinctIDs(fs) && DistinctKeys(fs) && forall i :: 0 <= i < |fs| ==> fs[i].id != 0
    requires Build(lib, fs).Some? && ListsValues(exported, Build(lib, fs).value.idCache)
    ensures Build(lib, SerializeAll(exported)) == Build(lib, fs)
  {
    var ps := PrepareAll(lib, fs).value;
    PrepareAllElements(lib, fs);
    PreparedKeepsIdentity(lib, fs);
    IndexAllIndexes(ps);
    ListedIDCache(ps, IndexAll(ps), exported);
    forall i | 0 <= i < |exported|
      ensures Prepare(lib, SerializeAll(exported)[i]) == Some(exported[i])
    {
      var p := exported[i];
      assert p in ps;
      var j :| 0 <= j < |ps| && ps[j] == p;
      PrepareAfterSerialize(lib, fs[j]);
      assert Serialize(p) == Serialize(fs[j]);
    }
    PrepareAllOf(lib, SerializeAll(exported), exported);
    IndexAllIndexes(exported);
    IndexesUnique(IndexAll(exported), IndexAll(ps), exported, ps);
  }
}
