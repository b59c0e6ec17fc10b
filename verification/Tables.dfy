/** Tables of soft-deleted rows. Row `i` has the auto-incremented ID `i + 1`; rows are never
    removed, only marked as no longer live. */
module Tables {

  /** A row with the ID of the row it belongs to. */
  datatype Row<+T> = Row(owner: nat, live: bool, data: T)

  predicate Exists<T>(t: seq<T>, id: nat) {
    1 <= id <= |t|
  }

  predicate Live<T>(t: seq<Row<T>>, id: nat) {
    Exists(t, id) && t[id - 1].live
  }

  predicate Owned<T>(t: seq<Row<T>>, id: nat, owner: nat) {
    Exists(t, id) && t[id - 1].owner == owner
  }

  predicate Visible<T>(r: Row<T>, owner: nat) {
    r.live && r.owner == owner
  }

  /** The live rows of an owner, as entities, in the order of their IDs. */
  function Children<T, E>(t: seq<Row<T>>, owner: nat, make: (nat, Row<T>) -> E): seq<E> {
    if t == [] then []
    else
      Children(t[..|t| - 1], owner, make)
      + if Visible(t[|t| - 1], owner) then [make(|t|, t[|t| - 1])] else []
  }

  /** Soft deletion of the rows with the given IDs. */
  function Kill<T>(t: seq<Row<T>>, ids: set<nat>): (t': seq<Row<T>>)
    ensures |t'| == |t|
    ensures forall i :: 0 <= i < |t| ==> t'[i] == if i + 1 in ids then t[i].(live := false) else t[i]
  {
    seq(|t|, i requires 0 <= i < |t| => if i + 1 in ids then t[i].(live := false) else t[i])
  }

  /** Both tables show the owner the same rows. */
  ghost predicate SameFor<T>(t: seq<Row<T>>, t': seq<Row<T>>, owner: nat) {
    && |t| <= |t'|
    && (forall i :: 0 <= i < |t| ==> t[i] == t'[i] || (!Visible(t[i], owner) && !Visible(t'[i], owner)))
    && (forall i :: |t| <= i < |t'| ==> !Visible(t'[i], owner))
  }

  lemma {:induction false} ChildrenSame<T, E>(t: seq<Row<T>>, t': seq<Row<T>>, owner: nat, make: (nat, Row<T>) -> E)
    requires SameFor(t, t', owner)
    ensures Children(t, owner, make) == Children(t', owner, make)
  {
    if |t| < |t'| {
      assert !Visible(t'[|t'| - 1], owner);
      ChildrenSame(t, t'[..|t'| - 1], owner, make);
    } else if t != [] {
      ChildrenSame(t[..|t| - 1], t'[..|t'| - 1], owner, make);
    }
  }

  lemma ChildrenAppend<T, E>(t: seq<Row<T>>, r: Row<T>, owner: nat, make: (nat, Row<T>) -> E)
    ensures Children(t + [r], owner, make)
            == Children(t, owner, make) + if Visible(r, owner) then [make(|t| + 1, r)] else []
  {
    assert (t + [r])[..|t|] == t;
  }

  /** Every child stems from a live row of the owner. */
  lemma {:induction false} ChildRow<T, E>(t: seq<Row<T>>, owner: nat, make: (nat, Row<T>) -> E, e: E) returns (id: nat)
    requires e in Children(t, owner, make)
    ensures Live(t, id) && Owned(t, id, owner) && e == make(id, t[id - 1])
  {
    var last := t[|t| - 1];
    if Visible(last, owner) && e == make(|t|, last) {
      id := |t|;
    } else {
      id := ChildRow(t[..|t| - 1], owner, make, e);
    }
  }

  /** Every live row of the owner is a child. */
  lemma {:induction false} RowChild<T, E>(t: seq<Row<T>>, owner: nat, make: (nat, Row<T>) -> E, id: nat)
    requires Live(t, id) && Owned(t, id, owner)
    ensures make(id, t[id - 1]) in Children(t, owner, make)
  {
    if id < |t| {
      RowChild(t[..|t| - 1], owner, make, id);
    }
  }

  /** The IDs of the children ascend. */
  ghost predicate Ascending<E>(xs: seq<E>, idOf: E -> nat) {
    forall i, j :: 0 <= i < j < |xs| ==> idOf(xs[i]) < idOf(xs[j])
  }

  lemma {:induction false} ChildrenAscend<T, E>(t: seq<Row<T>>, owner: nat, make: (nat, Row<T>) -> E, idOf: E -> nat)
    requires forall id: nat, r: Row<T> :: idOf(make(id, r)) == id
    ensures Ascending(Children(t, owner, make), idOf)
    ensures forall e :: e in Children(t, owner, make) ==> 1 <= idOf(e) <= |t|
  {
    if t != [] {
      ChildrenAscend(t[..|t| - 1], owner, make, idOf);
    }
  }

  // ----- stable sorting -----

  /** Inserts after every element whose key is not greater. */
  function Insert<E>(xs: seq<E>, x: E, key: E -> nat): (r: seq<E>)
    ensures |r| == |xs| + 1
  {
    if xs == [] || key(xs[|xs| - 1]) <= key(x) then xs + [x]
    else Insert(xs[..|xs| - 1], x, key) + [xs[|xs| - 1]]
  }

  /** The order of the database: by key, and among equal keys in the given order. */
  function SortBy<E>(xs: seq<E>, key: E -> nat): (r: seq<E>)
    ensures |r| == |xs|
  {
    if xs == [] then [] else Insert(SortBy(xs[..|xs| - 1], key), xs[|xs| - 1], key)
  }

  ghost predicate Sorted<E>(xs: seq<E>, key: E -> nat) {
    forall i, j :: 0 <= i < j < |xs| ==> key(xs[i]) <= key(xs[j])
  }

  lemma {:induction false} InsertElements<E>(xs: seq<E>, x: E, key: E -> nat)
    ensures multiset(Insert(xs, x, key)) == multiset(xs) + multiset{x}
  {
    if xs != [] && key(xs[|xs| - 1]) > key(x) {
      InsertElements(xs[..|xs| - 1], x, key);
      assert xs == xs[..|xs| - 1] + [xs[|xs| - 1]];
    }
  }

  lemma InsertedElement<E>(xs: seq<E>, x: E, key: E -> nat, e: E)
    ensures e in Insert(xs, x, key) <==> e in xs || e == x
  {
    InsertElements(xs, x, key);
    assert e in multiset(Insert(xs, x, key)) <==> e in multiset(xs) + multiset{x};
  }

  lemma {:induction false} InsertSorted<E>(xs: seq<E>, x: E, key: E -> nat)
    requires Sorted(xs, key)
    ensures Sorted(Insert(xs, x, key), key)
  {
    if xs != [] && key(xs[|xs| - 1]) > key(x) {
      var init := xs[..|xs| - 1];
      var r := Insert(init, x, key);
      InsertSorted(init, x, key);
      forall i | 0 <= i < |r|
        ensures key(r[i]) <= key(xs[|xs| - 1])
      {
        InsertedElement(init, x, key, r[i]);
      }
    }
  }

  lemma {:induction false} SortByKeeps<E>(xs: seq<E>, key: E -> nat)
    ensures multiset(SortBy(xs, key)) == multiset(xs)
    ensures Sorted(SortBy(xs, key), key)
  {
    if xs != [] {
      SortByKeeps(xs[..|xs| - 1], key);
      InsertElements(SortBy(xs[..|xs| - 1], key), xs[|xs| - 1], key);
      InsertSorted(SortBy(xs[..|xs| - 1], key), xs[|xs| - 1], key);
      assert xs == xs[..|xs| - 1] + [xs[|xs| - 1]];
    }
  }

  lemma SortByElements<E>(xs: seq<E>, key: E -> nat, e: E)
    ensures e in SortBy(xs, key) <==> e in xs
  {
    SortByKeeps(xs, key);
    assert e in multiset(SortBy(xs, key)) <==> e in multiset(xs);
  }

  /** Before in the order: by key, then by ID. */
  predicate Precedes<E>(x: E, y: E, key: E -> nat, idOf: E -> nat) {
    key(x) < key(y) || (key(x) == key(y) && idOf(x) < idOf(y))
  }

  ghost predicate Ordered<E>(xs: seq<E>, key: E -> nat, idOf: E -> nat) {
    forall i, j :: 0 <= i < j < |xs| ==> Precedes(xs[i], xs[j], key, idOf)
  }

  lemma {:induction false} InsertOrdered<E>(xs: seq<E>, x: E, key: E -> nat, idOf: E -> nat)
    requires Ordered(xs, key, idOf)
    requires forall i :: 0 <= i < |xs| ==> idOf(xs[i]) < idOf(x)
    ensures Ordered(Insert(xs, x, key), key, idOf)
  {
    if xs == [] || key(xs[|xs| - 1]) <= key(x) {
    } else {
      var init, last := xs[..|xs| - 1], xs[|xs| - 1];
      InsertOrdered(init, x, key, idOf);
      var r := Insert(init, x, key);
      forall i | 0 <= i < |r|
        ensures Precedes(r[i], last, key, idOf)
      {
        InsertedElement(init, x, key, r[i]);
      }
    }
  }

  /** The sort is stable: rows listed by ID come out by key, then by ID. */
  lemma {:induction false} SortByOrdered<E>(xs: seq<E>, key: E -> nat, idOf: E -> nat)
    requires Ascending(xs, idOf)
    ensures Ordered(SortBy(xs, key), key, idOf)
  {
    if xs != [] {
      var init := xs[..|xs| - 1];
      SortByOrdered(init, key, idOf);
      forall i | 0 <= i < |SortBy(init, key)|
        ensures idOf(SortBy(init, key)[i]) < idOf(xs[|xs| - 1])
      {
        SortByElements(init, key, SortBy(init, key)[i]);
      }
      InsertOrdered(SortBy(init, key), xs[|xs| - 1], key, idOf);
    }
  }

  // ----- filters -----

  function Keep<E>(xs: seq<E>, keep: E -> bool): seq<E> {
    if xs == [] then []
    else if keep(xs[|xs| - 1]) then Keep(xs[..|xs| - 1], keep) + [xs[|xs| - 1]]
    else Keep(xs[..|xs| - 1], keep)
  }

  lemma {:induction false} KeepElements<E>(xs: seq<E>, keep: E -> bool, e: E)
    ensures e in Keep(xs, keep) <==> e in xs && keep(e)
  {
    if xs != [] {
      KeepElements(xs[..|xs| - 1], keep, e);
      assert xs == xs[..|xs| - 1] + [xs[|xs| - 1]];
    }
  }

  lemma InsertBefore<E>(xs: seq<E>, y: E, x: E, key: E -> nat)
    requires key(y) > key(x)
    ensures Insert(xs + [y], x, key) == Insert(xs, x, key) + [y]
  {
    assert (xs + [y])[..|xs|] == xs;
  }

  lemma SortByAppend<E>(xs: seq<E>, x: E, key: E -> nat)
    ensures SortBy(xs + [x], key) == Insert(SortBy(xs, key), x, key)
  {
    assert (xs + [x])[..|xs|] == xs;
  }

  lemma {:induction false} KeepInsert<E>(xs: seq<E>, x: E, key: E -> nat, keep: E -> bool)
    requires Sorted(xs, key)
    ensures Keep(Insert(xs, x, key), keep)
            == if keep(x) then Insert(Keep(xs, keep), x, key) else Keep(xs, keep)
  {
    if xs == [] || key(xs[|xs| - 1]) <= key(x) {
      assert (xs + [x])[..|xs|] == xs;
      var kept := Keep(xs, keep);
      if kept != [] {
        KeepElements(xs, keep, kept[|kept| - 1]);
      }
    } else {
      var init, last := xs[..|xs| - 1], xs[|xs| - 1];
      var r := Insert(init, x, key);
      assert (r + [last])[..|r|] == r;
      KeepInsert(init, x, key, keep);
      InsertBefore(Keep(init, keep), last, x, key);
    }
  }

  /** Filtering and stable sorting commute. */
  lemma {:induction false} KeepSortBy<E>(xs: seq<E>, key: E -> nat, keep: E -> bool)
    ensures Keep(SortBy(xs, key), keep) == SortBy(Keep(xs, keep), key)
  {
    if xs != [] {
      var init, last := xs[..|xs| - 1], xs[|xs| - 1];
      KeepSortBy(init, key, keep);
      SortByKeeps(init, key);
      KeepInsert(SortBy(init, key), last, key, keep);
      SortByAppend(Keep(init, keep), last, key);
    }
  }

  lemma InsertLast<E>(xs: seq<E>, x: E, key: E -> nat)
    requires forall i :: 0 <= i < |xs| ==> key(xs[i]) <= key(x)
    ensures Insert(xs, x, key) == xs + [x]
  {
  }
}
