/** The open-addressing dictionary of src/Common/helpers/sopc_dict.c. Keys and values are words; the keys are
    compared with `==`, which stands for the equality function of the dictionary. Two keys are reserved: one
    marks an empty bucket and one, when removal is used, a bucket whose item was removed.
 */
module Dictionary {
  import opened Basics
  import opened Probing

  datatype Keys = Keys(empty: nat, tombstone: nat, hash: nat -> nat)

  datatype Bucket = Bucket(key: nat, value: nat)

  predicate Reserved(c: Keys, key: nat) {
    key == c.empty || key == c.tombstone
  }

  predicate Live(c: Keys, b: Bucket) {
    !Reserved(c, b.key)
  }

  function At(c: Keys, size: nat, key: nat, i: nat): (s: nat)
    requires size > 0
    ensures s < size
  {
    Slot(c.hash(key), i, size)
  }

  // ----- Searching -----

  /** The bucket that `get_internal` finds from attempt i on. */
  function Find(c: Keys, t: seq<Bucket>, key: nat, i: nat): (r: Option<nat>)
    requires |t| > 0
    ensures r.Some? ==> r.value < |t| && t[r.value].key == key
    decreases |t| - i
  {
    if i >= |t| then None
    else
      var s := At(c, |t|, key, i);
      if t[s].key == c.empty then None
      else if t[s].key == key then Some(s)
      else Find(c, t, key, i + 1)
  }

  function Lookup(c: Keys, t: seq<Bucket>, key: nat): Option<nat>
    requires |t| > 0
  {
    if Reserved(c, key) then None
    else match Find(c, t, key, 0) case None => None case Some(s) => Some(t[s].value)
  }

  /** The dictionary holds the pair, wherever it is. */
  ghost predicate Holds(c: Keys, t: seq<Bucket>, key: nat, value: nat) {
    !Reserved(c, key) && Bucket(key, value) in t
  }

  ghost predicate Unique(c: Keys, t: seq<Bucket>) {
    forall r, s :: 0 <= r < s < |t| && Live(c, t[r]) ==> t[r].key != t[s].key
  }

  /** Attempt i of the key in bucket s looks at s, and no attempt before it finds an empty bucket. */
  ghost predicate ReachedAt(c: Keys, t: seq<Bucket>, s: nat, i: nat)
    requires s < |t|
  {
    && i < |t| && At(c, |t|, t[s].key, i) == s
    && forall j: nat :: j < i ==> t[At(c, |t|, t[s].key, j)].key != c.empty
  }

  ghost predicate AllReached(c: Keys, t: seq<Bucket>) {
    forall s: nat :: s < |t| && Live(c, t[s]) ==> exists i: nat :: ReachedAt(c, t, s, i)
  }

  lemma {:induction false} FindReached(c: Keys, t: seq<Bucket>, s: nat, i: nat, j: nat)
    requires s < |t| && Live(c, t[s]) && ReachedAt(c, t, s, i) && j <= i
    ensures Find(c, t, t[s].key, j).Some?
    decreases i - j
  {
    if j < i {
      FindReached(c, t, s, i, j + 1);
    }
  }

  /** In a dictionary without duplicates, the search is exact. */
  lemma LookupExact(c: Keys, t: seq<Bucket>, key: nat, value: nat)
    requires |t| > 0 && Unique(c, t) && AllReached(c, t)
    ensures Lookup(c, t, key) == Some(value) <==> Holds(c, t, key, value)
  {
    if Holds(c, t, key, value) {
      var s: nat :| s < |t| && t[s] == Bucket(key, value);
      var i: nat :| ReachedAt(c, t, s, i);
      FindReached(c, t, s, i, 0);
    }
  }

  // ----- Inserting -----

  /** The bucket that `insert_item` takes from attempt i on. */
  function Place(c: Keys, t: seq<Bucket>, key: nat, overwrite: bool, i: nat): (r: Option<nat>)
    requires |t| > 0
    ensures r.Some? ==> r.value < |t| && (Live(c, t[r.value]) ==> overwrite && t[r.value].key == key)
    decreases |t| - i
  {
    if i >= |t| then None
    else
      var s := At(c, |t|, key, i);
      if !Live(c, t[s]) then Some(s)
      else if overwrite && t[s].key == key then Some(s)
      else Place(c, t, key, overwrite, i + 1)
  }

  ghost function LiveSlots(c: Keys, t: seq<Bucket>): set<nat> {
    set s: nat | s < |t| && Live(c, t[s])
  }

  /** The attempts before the bucket taken all find other items. */
  lemma {:induction false} PlaceAttempt(c: Keys, t: seq<Bucket>, key: nat, overwrite: bool, j: nat) returns (i: nat)
    requires |t| > 0 && Place(c, t, key, overwrite, j).Some?
    ensures j <= i < |t| && At(c, |t|, key, i) == Place(c, t, key, overwrite, j).value
    ensures forall l: nat :: j <= l < i ==>
      var b := t[At(c, |t|, key, l)]; Live(c, b) && (overwrite ==> b.key != key)
    decreases |t| - j
  {
    var b := t[At(c, |t|, key, j)];
    if !Live(c, b) || (overwrite && b.key == key) {
      i := j;
    } else {
      i := PlaceAttempt(c, t, key, overwrite, j + 1);
    }
  }

  lemma {:induction false} PlaceBefore(c: Keys, t: seq<Bucket>, key: nat, overwrite: bool, i: nat, j: nat)
    requires j <= i < |t| && !Live(c, t[At(c, |t|, key, i)])
    ensures Place(c, t, key, overwrite, j).Some?
    decreases i - j
  {
    if j < i {
      PlaceBefore(c, t, key, overwrite, i, j + 1);
    }
  }

  /** With fewer items than half of the buckets, there is a bucket to take. */
  lemma PlaceExists(c: Keys, t: seq<Bucket>, key: nat, overwrite: bool, log: nat)
    requires |t| == Pow2(log) && 2 * |LiveSlots(c, t)| < |t|
    ensures Place(c, t, key, overwrite, 0).Some?
  {
    var i := FreeAttempt(c.hash(key), log, LiveSlots(c, t), |LiveSlots(c, t)| + 1);
    assert At(c, |t|, key, i) !in LiveSlots(c, t);
    PlaceBefore(c, t, key, overwrite, i, 0);
  }

  lemma PlaceReached(c: Keys, t: seq<Bucket>, key: nat, value: nat, overwrite: bool)
    requires |t| > 0 && AllReached(c, t) && !Reserved(c, key) && Place(c, t, key, overwrite, 0).Some?
    ensures AllReached(c, t[Place(c, t, key, overwrite, 0).value := Bucket(key, value)])
  {
    var p := Place(c, t, key, overwrite, 0).value;
    var t' := t[p := Bucket(key, value)];
    forall s: nat | s < |t'| && Live(c, t'[s])
      ensures exists i: nat :: ReachedAt(c, t', s, i)
    {
      if s == p {
        var i := PlaceAttempt(c, t, key, overwrite, 0);
        assert ReachedAt(c, t', s, i);
      } else {
        var i: nat :| ReachedAt(c, t, s, i);
        assert ReachedAt(c, t', s, i);
      }
    }
  }

  /** Attempt j is the first to find the key, no attempt before it finds an empty bucket, and attempt i before it
      finds a removed item. */
  ghost predicate ShadowedAt(c: Keys, t: seq<Bucket>, key: nat, i: nat, j: nat) {
    && i < j < |t|
    && t[At(c, |t|, key, j)].key == key && t[At(c, |t|, key, i)].key == c.tombstone
    && forall l: nat :: l < j ==> t[At(c, |t|, key, l)].key != c.empty && t[At(c, |t|, key, l)].key != key
  }

  /** The key has an item, but a removed one comes before it among the attempts of the key. */
  ghost predicate Shadowed(c: Keys, t: seq<Bucket>, key: nat) {
    exists i: nat, j: nat :: ShadowedAt(c, t, key, i, j)
  }

  lemma {:induction false} FindAttempt(c: Keys, t: seq<Bucket>, key: nat, from: nat) returns (j: nat)
    requires |t| > 0 && Find(c, t, key, from).Some?
    ensures from <= j < |t| && t[At(c, |t|, key, j)].key == key
    ensures forall l: nat :: from <= l < j ==> t[At(c, |t|, key, l)].key != c.empty && t[At(c, |t|, key, l)].key != key
    decreases |t| - from
  {
    if t[At(c, |t|, key, from)].key == key {
      j := from;
    } else {
      j := FindAttempt(c, t, key, from + 1);
    }
  }

  /** A shadowed key is one that is found and whose insertion takes another bucket. */
  lemma ShadowedIff(c: Keys, t: seq<Bucket>, key: nat)
    requires |t| > 0 && !Reserved(c, key)
    ensures Shadowed(c, t, key) <==>
      && Find(c, t, key, 0).Some?
      && Place(c, t, key, true, 0).Some? && !Live(c, t[Place(c, t, key, true, 0).value])
  {
    hide Find, Place, At;
    if Shadowed(c, t, key) {
      var i: nat, j: nat :| ShadowedAt(c, t, key, i, j);
      FindAt(c, t, key, j, 0);
      PlaceBefore(c, t, key, true, i, 0);
      var m := PlaceAttempt(c, t, key, true, 0);
      PlaceFree(c, t, key, i, j, m);
    } else if Find(c, t, key, 0).Some? && Place(c, t, key, true, 0).Some? {
      var j := FindAttempt(c, t, key, 0);
      var m := PlaceAttempt(c, t, key, true, 0);
      assert !ShadowedAt(c, t, key, m, j);
    }
  }

  /** The attempt m of the insertion is not after attempt i, so that it does not get to the key. */
  lemma PlaceFree(c: Keys, t: seq<Bucket>, key: nat, i: nat, j: nat, m: nat)
    requires ShadowedAt(c, t, key, i, j) && !Reserved(c, key) && m < |t|
    requires Live(c, t[At(c, |t|, key, m)]) ==> t[At(c, |t|, key, m)].key == key
    requires forall l: nat :: l < m ==> Live(c, t[At(c, |t|, key, l)])
    ensures !Live(c, t[At(c, |t|, key, m)])
  {
    hide At;
    assert !Live(c, t[At(c, |t|, key, i)]);
  }

  /** Insertion keeps the dictionary free of duplicates if and only if the key is not shadowed. */
  lemma PlaceUnique(c: Keys, t: seq<Bucket>, key: nat, value: nat)
    requires |t| > 0 && Unique(c, t) && AllReached(c, t) && !Reserved(c, key) && Place(c, t, key, true, 0).Some?
    ensures Unique(c, t[Place(c, t, key, true, 0).value := Bucket(key, value)]) <==> !Shadowed(c, t, key)
  {
    ShadowedIff(c, t, key);
    var p := Place(c, t, key, true, 0).value;
    var t' := t[p := Bucket(key, value)];
    if Shadowed(c, t, key) {
      var s := Find(c, t, key, 0).value;
      assert t'[s].key == t'[p].key && s != p;
    } else if !Live(c, t[p]) {
      AbsentNotThere(c, t, key);
    }
  }

  lemma AbsentNotThere(c: Keys, t: seq<Bucket>, key: nat)
    requires |t| > 0 && AllReached(c, t) && !Reserved(c, key) && Find(c, t, key, 0).None?
    ensures forall s :: 0 <= s < |t| ==> t[s].key != key
  {
    forall s: nat | s < |t|
      ensures t[s].key != key
    {
      if t[s].key == key {
        var i: nat :| ReachedAt(c, t, s, i);
        FindReached(c, t, s, i, 0);
        assert false;
      }
    }
  }

  lemma PlaceCounted(c: Keys, t: seq<Bucket>, p: nat, b: Bucket)
    requires p < |t| && Live(c, b)
    ensures |LiveSlots(c, t[p := b])| == |LiveSlots(c, t)| + (if Live(c, t[p]) then 0 else 1)
  {
    assert LiveSlots(c, t[p := b]) == LiveSlots(c, t) + {p};
  }

  /** A key that was just inserted is found, duplicates or not. */
  lemma InsertedFound(c: Keys, t: seq<Bucket>, key: nat, value: nat)
    requires |t| > 0 && !Reserved(c, key) && Place(c, t, key, true, 0).Some?
    ensures Find(c, t[Place(c, t, key, true, 0).value := Bucket(key, value)], key, 0) == Place(c, t, key, true, 0)
    ensures Lookup(c, t[Place(c, t, key, true, 0).value := Bucket(key, value)], key) == Some(value)
  {
    var p := Place(c, t, key, true, 0).value;
    var i := PlaceAttempt(c, t, key, true, 0);
    FindAt(c, t[p := Bucket(key, value)], key, i, 0);
  }

  lemma {:induction false} FindAt(c: Keys, t: seq<Bucket>, key: nat, i: nat, j: nat)
    requires j <= i < |t| && t[At(c, |t|, key, i)].key == key && !Reserved(c, key)
    requires forall l: nat :: j <= l < i ==>
      var s := At(c, |t|, key, l); t[s].key != c.empty && (t[s].key == key ==> s == At(c, |t|, key, i))
    ensures Find(c, t, key, j) == Some(At(c, |t|, key, i))
    decreases i - j
  {
    if j < i {
      FindAt(c, t, key, i, j + 1);
    }
  }

  /** Insertion of a key that is not shadowed is the update of a map. */
  lemma InsertedHolds(c: Keys, t: seq<Bucket>, key: nat, value: nat, k: nat, v: nat)
    requires |t| > 0 && Unique(c, t) && AllReached(c, t) && !Reserved(c, key) && Place(c, t, key, true, 0).Some?
    requires !Shadowed(c, t, key)
    ensures Holds(c, t[Place(c, t, key, true, 0).value := Bucket(key, value)], k, v)
      <==> if k == key then v == value else Holds(c, t, k, v)
  {
    var p := Place(c, t, key, true, 0).value;
    var t' := t[p := Bucket(key, value)];
    PlaceUnique(c, t, key, value);
    assert t'[p] == Bucket(key, value);
    if k != key && Holds(c, t, k, v) {
      var s :| 0 <= s < |t| && t[s] == Bucket(k, v);
      assert t'[s] == t[s];
    }
  }

  // ----- Removing -----

  function Removed(c: Keys, t: seq<Bucket>, s: nat): seq<Bucket>
    requires s < |t|
  {
    t[s := Bucket(c.tombstone, 0)]
  }

  function RemovedKey(c: Keys, t: seq<Bucket>, key: nat): seq<Bucket>
    requires |t| > 0
  {
    if Reserved(c, key) then t
    else match Find(c, t, key, 0) case None => t case Some(s) => Removed(c, t, s)
  }

  lemma RemovedReached(c: Keys, t: seq<Bucket>, p: nat)
    requires p < |t| && AllReached(c, t) && c.empty != c.tombstone
    ensures AllReached(c, Removed(c, t, p))
  {
    var t' := Removed(c, t, p);
    forall s: nat | s < |t'| && Live(c, t'[s])
      ensures exists i: nat :: ReachedAt(c, t', s, i)
    {
      var i: nat :| ReachedAt(c, t, s, i);
      assert ReachedAt(c, t', s, i);
    }
  }

  lemma RemovedCounted(c: Keys, t: seq<Bucket>, p: nat)
    requires p < |t| && Live(c, t[p])
    ensures |LiveSlots(c, Removed(c, t, p))| == |LiveSlots(c, t)| - 1
  {
    assert LiveSlots(c, Removed(c, t, p)) == LiveSlots(c, t) - {p};
  }

  /** Removal from a dictionary without duplicates is the removal from a map. */
  lemma RemovedHolds(c: Keys, t: seq<Bucket>, p: nat, k: nat, v: nat)
    requires p < |t| && Unique(c, t) && Live(c, t[p])
    ensures Unique(c, Removed(c, t, p))
    ensures Holds(c, Removed(c, t, p), k, v) <==> k != t[p].key && Holds(c, t, k, v)
  {
    var t' := Removed(c, t, p);
    if Holds(c, t, k, v) && k != t[p].key {
      var s :| 0 <= s < |t| && t[s] == Bucket(k, v);
      assert t'[s] == t[s];
    }
  }

  /** A shadowed key gets a second item. Removing the key then uncovers the value that it had before. */
  lemma OldValueReturns(c: Keys, t: seq<Bucket>, key: nat, value: nat)
    requires |t| > 0 && Unique(c, t) && AllReached(c, t) && !Reserved(c, key) && c.empty != c.tombstone
    requires Shadowed(c, t, key)
    ensures Place(c, t, key, true, 0).Some?
    ensures
      var t' := t[Place(c, t, key, true, 0).value := Bucket(key, value)];
      && Lookup(c, t', key) == Some(value)
      && Find(c, t', key, 0) == Place(c, t, key, true, 0)
      && Lookup(c, Removed(c, t', Place(c, t, key, true, 0).value), key) == Lookup(c, t, key)
  {
    hide Shadowed, AllReached, Place;
    ShadowedIff(c, t, key);
    var p := Place(c, t, key, true, 0).value;
    var t' := t[p := Bucket(key, value)];
    InsertedFound(c, t, key, value);
    PlaceReached(c, t, key, value, true);
    RemovedReached(c, t', p);
    var s := Find(c, t, key, 0).value;
    var t'' := Removed(c, t', p);
    assert s != p && t''[s] == t[s] == Bucket(key, t[s].value);
    RemovedUnique(c, t, p, Bucket(key, value));
    LookupExact(c, t'', key, t[s].value);
  }

  lemma RemovedUnique(c: Keys, t: seq<Bucket>, p: nat, b: Bucket)
    requires p < |t| && Unique(c, t)
    ensures Unique(c, Removed(c, t[p := b], p))
  {
  }

  /** After the insertion of a shadowed key, a replacement of the table finds the old value, without any removal, if
      and only if the old item is in a lower bucket than the new one. */
  lemma ResizeFindsOldIff(c: Keys, t: seq<Bucket>, key: nat, value: nat, after: seq<Bucket>)
    requires |t| > 0 && Unique(c, t) && AllReached(c, t) && !Reserved(c, key) && Shadowed(c, t, key)
    requires Place(c, t, key, true, 0).Some? && |after| > 0
    requires FindsFirst(c, t[Place(c, t, key, true, 0).value := Bucket(key, value)], after)
    requires Lookup(c, t, key) != Some(value)
    ensures Find(c, t, key, 0).Some?
    ensures Lookup(c, after, key) == Lookup(c, t, key) <==> Find(c, t, key, 0).value < Place(c, t, key, true, 0).value
  {
    hide Shadowed, AllReached, Place;
    ShadowedIff(c, t, key);
    var p, s := Place(c, t, key, true, 0).value, Find(c, t, key, 0).value;
    var t' := t[p := Bucket(key, value)];
    assert forall r :: 0 <= r < |t'| && t'[r].key == key ==> r == p || r == s;
    if s < p {
      FirstInIs(t', key, s);
    } else {
      FirstInIs(t', key, p);
    }
  }

  lemma {:induction false} FirstInIs(t: seq<Bucket>, key: nat, s: nat)
    requires s < |t| && t[s].key == key && forall r :: 0 <= r < s ==> t[r].key != key
    ensures FirstIn(t, key) == Some(t[s].value)
  {
    var front := t[..|t| - 1];
    if s < |t| - 1 {
      FirstInIs(front, key, s);
    } else {
      FirstInNone(front, key);
    }
  }

  lemma {:induction false} FirstInNone(t: seq<Bucket>, key: nat)
    requires forall r :: 0 <= r < |t| ==> t[r].key != key
    ensures FirstIn(t, key) == None
  {
    if t != [] {
      FirstInNone(t[..|t| - 1], key);
    }
  }

  /** Hash 15 in 16 buckets: the old item is in bucket 2 and the new one in bucket 15. */
  lemma ResizeExample(c: Keys, t: seq<Bucket>, key: nat)
    requires |t| == 16 && c.hash(key) == 15 && c.empty != c.tombstone && !Reserved(c, key)
    requires t[15].key == c.tombstone && t[2].key == key
    ensures Shadowed(c, t, key) && Find(c, t, key, 0) == Some(2) && Place(c, t, key, true, 0) == Some(15)
  {
    hide At;
    FirstSlots(c, key);
    BehindTombstone(c, t, key);
    assert Find(c, t, key, 2) == Some(2);
    assert Find(c, t, key, 1) == Some(2);
  }

  lemma FirstSlots(c: Keys, key: nat)
    requires c.hash(key) == 15
    ensures At(c, 16, key, 0) == 15 && At(c, 16, key, 1) == 15 && At(c, 16, key, 2) == 2
  {
    assert Offset(2) == 3;
  }

  /** Two keys with the same hash are enough: insert one, insert the other, remove the first. */
  lemma ShadowedAfterRemoval(c: Keys, t: seq<Bucket>, a: nat, b: nat, u: nat, v: nat)
    requires |t| >= 16 && c.empty != c.tombstone && forall s :: 0 <= s < |t| ==> t[s].key == c.empty
    requires !Reserved(c, a) && !Reserved(c, b) && a != b && c.hash(a) == c.hash(b)
    ensures Place(c, t, a, true, 0).Some?
    ensures
      var t1 := t[Place(c, t, a, true, 0).value := Bucket(a, u)];
      && Place(c, t1, b, true, 0).Some?
      && var t2 := t1[Place(c, t1, b, true, 0).value := Bucket(b, v)];
      && Find(c, t2, a, 0).Some?
      && Shadowed(c, Removed(c, t2, Find(c, t2, a, 0).value), b)
  {
    var n, h := |t|, c.hash(a);
    var s0, s2 := Slot(h, 0, n), Slot(h, 2, n);
    NearSlots(h, n);
    var t1 := t[s0 := Bucket(a, u)];
    assert Place(c, t1, b, true, 2) == Some(s2);
    assert Place(c, t1, b, true, 1) == Some(s2);
    var t2 := t1[s2 := Bucket(b, v)];
    assert Find(c, t2, a, 0) == Some(s0);
    BehindTombstone(c, Removed(c, t2, s0), b);
  }

  /** A removed item at the first attempts and the key at the third. */
  lemma BehindTombstone(c: Keys, t: seq<Bucket>, key: nat)
    requires |t| >= 16 && !Reserved(c, key) && c.empty != c.tombstone
    requires t[At(c, |t|, key, 0)].key == c.tombstone && t[At(c, |t|, key, 2)].key == key
    ensures Shadowed(c, t, key)
  {
    hide Slot;
    NearSlots(c.hash(key), |t|);
    assert ShadowedAt(c, t, key, 0, 2);
  }

  lemma NearSlots(h: nat, n: nat)
    requires n >= 16
    ensures Slot(h, 0, n) == Slot(h, 1, n) != Slot(h, 2, n)
  {
    NearSlotsDiffer(h, n);
  }

  lemma NearSlotsDiffer(h: nat, n: nat)
    requires n >= 16
    ensures Slot(h, 0, n) != Slot(h, 2, n)
  {
    assert Offset(2) == 3;
    if h % n == (h + 3) % n {
      SameRemainder(h + 3, h, n);
      SmallNotMultiple(3, n);
      assert false;
    }
  }

  // ----- Resizing -----

  /** Table `t` holds what the first i buckets of `from` hold. */
  ghost predicate Moved(c: Keys, from: seq<Bucket>, i: nat, t: seq<Bucket>) {
    && i <= |from| && |t| > 0
    && AllReached(c, t)
    && (forall k, v :: Holds(c, t, k, v) <==> Holds(c, from[..i], k, v))
    && |LiveSlots(c, t)| == |LiveSlots(c, from[..i])|
    && (Unique(c, from) ==> Unique(c, t))
    && NoTombstone(c, t)
    && FindsFirst(c, from[..i], t)
  }

  /** The value of the key in the lowest bucket that has it. */
  function FirstIn(t: seq<Bucket>, key: nat): Option<nat> {
    if t == [] then None
    else
      var front, last := t[..|t| - 1], t[|t| - 1];
      if FirstIn(front, key).Some? then FirstIn(front, key)
      else if last.key == key then Some(last.value) else None
  }

  /** For each key, `t` finds the value in the lowest bucket of `from`. */
  ghost predicate FindsFirst(c: Keys, from: seq<Bucket>, t: seq<Bucket>)
    requires |t| > 0
  {
    forall k :: !Reserved(c, k) ==> Lookup(c, t, k) == FirstIn(from, k)
  }

  ghost predicate NoTombstone(c: Keys, t: seq<Bucket>) {
    forall s :: 0 <= s < |t| && !Live(c, t[s]) ==> t[s].key == c.empty
  }

  /** Without removed items no key is shadowed. */
  lemma NeverShadowed(c: Keys, t: seq<Bucket>, key: nat)
    requires |t| > 0 && NoTombstone(c, t) && !Reserved(c, key)
    ensures !Shadowed(c, t, key)
  {
    hide At;
  }

  lemma MovedNothing(c: Keys, from: seq<Bucket>, t: seq<Bucket>)
    requires |t| > 0 && forall s :: 0 <= s < |t| ==> t[s].key == c.empty
    ensures Moved(c, from, 0, t)
  {
    assert LiveSlots(c, t) == {};
    assert from[..0] == [];
  }

  /** Filling an empty bucket does not change what is found. */
  lemma {:induction false} FindKept(c: Keys, t: seq<Bucket>, p: nat, b: Bucket, k: nat, i: nat)
    requires p < |t| && t[p].key == c.empty && Find(c, t, k, i).Some?
    ensures Find(c, t[p := b], k, i) == Find(c, t, k, i)
    decreases |t| - i
  {
    hide At;
    var s := At(c, |t|, k, i);
    if t[s].key != k {
      FindKept(c, t, p, b, k, i + 1);
    }
  }

  /** An item that is moved is found if no other item of its key is there yet. */
  lemma MovedFinds(c: Keys, t: seq<Bucket>, p: nat, b: Bucket, k: nat)
    requires |t| > 0 && AllReached(c, t) && NoTombstone(c, t) && Live(c, b) && !Reserved(c, k)
    requires Place(c, t, b.key, false, 0) == Some(p)
    ensures Lookup(c, t[p := b], k) ==
      if Lookup(c, t, k).Some? then Lookup(c, t, k) else if k == b.key then Some(b.value) else None
  {
    hide AllReached, At, Place;
    var t' := t[p := b];
    if Find(c, t, k, 0).Some? {
      FindKept(c, t, p, b, k, 0);
    } else {
      AbsentNotThere(c, t, k);
      if k == b.key {
        var i := PlaceAttempt(c, t, k, false, 0);
        FindAt(c, t', k, i, 0);
      }
    }
  }

  lemma LiveSlotsMore(c: Keys, from: seq<Bucket>, i: nat)
    requires i < |from|
    ensures |LiveSlots(c, from[..i + 1])| == |LiveSlots(c, from[..i])| + (if Live(c, from[i]) then 1 else 0)
    ensures |LiveSlots(c, from[..i])| <= |LiveSlots(c, from)|
    ensures Live(c, from[i]) ==> |LiveSlots(c, from[..i])| < |LiveSlots(c, from)|
  {
    var before := LiveSlots(c, from[..i]);
    assert LiveSlots(c, from[..i + 1]) == if Live(c, from[i]) then before + {i} else before;
    SubsetSize(before, LiveSlots(c, from));
    SubsetSize(LiveSlots(c, from[..i + 1]), LiveSlots(c, from));
  }

  lemma HoldsMore(c: Keys, from: seq<Bucket>, i: nat, k: nat, v: nat)
    requires i < |from|
    ensures Holds(c, from[..i + 1], k, v) <==>
      Holds(c, from[..i], k, v) || (Live(c, from[i]) && from[i] == Bucket(k, v))
  {
    assert from[..i + 1] == from[..i] + [from[i]];
  }

  lemma MovedSkip(c: Keys, from: seq<Bucket>, i: nat, t: seq<Bucket>)
    requires i < |from| && Moved(c, from, i, t) && !Live(c, from[i])
    ensures Moved(c, from, i + 1, t)
  {
    LiveSlotsMore(c, from, i);
    forall k, v
      ensures Holds(c, t, k, v) <==> Holds(c, from[..i + 1], k, v)
    {
      HoldsMore(c, from, i, k, v);
    }
    assert from[..i + 1][..i] == from[..i];
  }

  lemma MovedMore(c: Keys, from: seq<Bucket>, i: nat, t: seq<Bucket>, p: nat)
    requires i < |from| && Moved(c, from, i, t) && Live(c, from[i])
    requires Place(c, t, from[i].key, false, 0) == Some(p)
    ensures Moved(c, from, i + 1, t[p := from[i]])
  {
    var b := from[i];
    var t' := t[p := b];
    assert b == Bucket(b.key, b.value);
    PlaceReached(c, t, b.key, b.value, false);
    PlaceCounted(c, t, p, b);
    LiveSlotsMore(c, from, i);
    forall k, v
      ensures Holds(c, t', k, v) <==> Holds(c, from[..i + 1], k, v)
    {
      HoldsMore(c, from, i, k, v);
      FilledHolds(c, t, p, b, k, v);
    }
    if Unique(c, from) {
      MovedUnique(c, from, i, t, p);
    }
    MovedFindsFirst(c, from, i, t, p);
  }

  lemma MovedFindsFirst(c: Keys, from: seq<Bucket>, i: nat, t: seq<Bucket>, p: nat)
    requires i < |from| && |t| > 0 && AllReached(c, t) && NoTombstone(c, t) && Live(c, from[i])
    requires FindsFirst(c, from[..i], t) && Place(c, t, from[i].key, false, 0) == Some(p)
    ensures FindsFirst(c, from[..i + 1], t[p := from[i]])
  {
    hide AllReached, Place, Lookup;
    assert from[..i + 1][..i] == from[..i];
    forall k | !Reserved(c, k)
      ensures Lookup(c, t[p := from[i]], k) == FirstIn(from[..i + 1], k)
    {
      MovedFinds(c, t, p, from[i], k);
    }
  }

  lemma FilledHolds(c: Keys, t: seq<Bucket>, p: nat, b: Bucket, k: nat, v: nat)
    requires p < |t| && !Live(c, t[p]) && Live(c, b)
    ensures Holds(c, t[p := b], k, v) <==> Holds(c, t, k, v) || b == Bucket(k, v)
  {
    var t' := t[p := b];
    assert t'[p] == b;
    if Holds(c, t, k, v) {
      var s :| 0 <= s < |t| && t[s] == Bucket(k, v);
      assert t'[s] == t[s];
    }
  }

  lemma MovedUnique(c: Keys, from: seq<Bucket>, i: nat, t: seq<Bucket>, p: nat)
    requires i < |from| && Moved(c, from, i, t) && Live(c, from[i]) && Unique(c, from)
    requires p < |t| && !Live(c, t[p])
    ensures Unique(c, t[p := from[i]])
  {
    forall s | 0 <= s < |t| && Live(c, t[s])
      ensures t[s].key != from[i].key
    {
      assert Holds(c, t, t[s].key, t[s].value) by {
        assert t[s] == Bucket(t[s].key, t[s].value);
      }
      var r :| 0 <= r < i && from[..i][r] == Bucket(t[s].key, t[s].value);
      assert from[r].key != from[i].key;
    }
  }

  /** The size is the least power of two, from the initial 16 on, with at most half of the buckets in use. */
  predicate Fits(size: nat, items: nat) {
    2 * items <= size && (size == 16 || size < 4 * items)
  }

  lemma LeastFits(size: nat, log: nat, items: nat, least: nat, leastLog: nat)
    requires size == Pow2(log) && size >= 16 && least == Pow2(leastLog) && least >= 16 && least >= 2 * items
    requires forall a: nat :: Pow2(a) >= 16 && Pow2(a) >= 2 * items ==> Pow2(a) >= least
    ensures least == size <==> Fits(size, items)
  {
    if least < size {
      Pow2Gap(log, leastLog);
    } else if least > size {
      assert Pow2(log) < 2 * items;
    } else if size > 16 {
      assert Pow2(4) == 16;
      assert log > 0 && Pow2(log - 1) < size;
      Pow2Gap(log, 4);
      assert Pow2(log - 1) >= 16;
    }
  }

  class Dict {
    const keys: Keys
    var buckets: array<Bucket>
    var nItems: nat
    var nBusy: nat
    ghost var log: nat

    /** At most half of the buckets have an item, each item is reached, and the items are counted. */
    ghost predicate Valid()
      reads this, buckets
    {
      && buckets.Length == Pow2(log) && buckets.Length >= 16
      && AllReached(keys, buckets[..])
      && |LiveSlots(keys, buckets[..])| == nItems && 2 * nItems <= buckets.Length && nItems <= nBusy
    }

    constructor (keys: Keys)
      ensures Valid() && fresh(buckets) && this.keys == keys
      ensures buckets.Length == 16 && nBusy == 0 && forall s :: 0 <= s < 16 ==> buckets[s].key == keys.empty
      ensures Unique(keys, buckets[..]) && forall k, v :: !Holds(keys, buckets[..], k, v)
    {
      this.keys := keys;
      var none := new Bucket[16](_ => Bucket(keys.empty, 0));
      buckets, nItems, nBusy, log := none, 0, 0, 4;
      assert Pow2(4) == 16;
      MovedNothing(keys, [], none[..]);
    }

    /** `SOPC_Dict_Get` */
    method Get(key: nat) returns (value: Option<nat>)
      requires Valid()
      ensures value == Lookup(keys, buckets[..], key)
      ensures Unique(keys, buckets[..]) ==> forall v: nat :: value == Some(v) <==> Holds(keys, buckets[..], key, v)
    {
      var s := GetInternal(key);
      value := if s.None? then None else Some(buckets[s.value].value);
      if Unique(keys, buckets[..]) {
        forall v: nat
          ensures value == Some(v) <==> Holds(keys, buckets[..], key, v)
        {
          LookupExact(keys, buckets[..], key, v);
        }
      }
    }

    method GetInternal(key: nat) returns (r: Option<nat>)
      requires Valid()
      ensures r == if Reserved(keys, key) then None else Find(keys, buckets[..], key, 0)
    {
      if Reserved(keys, key) {
        return None;
      }
      var i := 0;
      while i < buckets.Length
        invariant i <= buckets.Length && Find(keys, buckets[..], key, i) == Find(keys, buckets[..], key, 0)
      {
        var s := At(keys, buckets.Length, key, i);
        if buckets[s].key == keys.empty {
          return None;
        } else if buckets[s].key != keys.tombstone && buckets[s].key == key {
          return Some(s);
        }
        i := i + 1;
      }
      return None;
    }

    /** `insert_item`, on the buckets of the table or of its replacement. */
    method InsertItem(t: array<Bucket>, key: nat, value: nat, overwrite: bool) returns (ok: bool, grown: bool)
      requires t.Length > 0
      modifies t
      ensures ok <==> Place(keys, old(t[..]), key, overwrite, 0).Some?
      ensures ok ==> var p := Place(keys, old(t[..]), key, overwrite, 0).value;
        t[..] == old(t[..])[p := Bucket(key, value)] && (grown <==> !Live(keys, old(t[..])[p]))
    {
      var i := 0;
      while i < t.Length
        invariant i <= t.Length && t[..] == old(t[..])
        invariant Place(keys, t[..], key, overwrite, i) == Place(keys, t[..], key, overwrite, 0)
      {
        var s := At(keys, t.Length, key, i);
        if t[s].key == keys.empty || t[s].key == keys.tombstone {
          t[s] := Bucket(key, value);
          return true, true;
        }
        if overwrite && key == t[s].key {
          t[s] := Bucket(key, value);
          return true, false;
        }
        i := i + 1;
      }
      return false, false;
    }

    /** `dict_resize`: the same items in a new table, unless there is no memory for it. */
    method Resize(size: nat, memory: bool, ghost newLog: nat) returns (ok: bool)
      requires Valid() && size == Pow2(newLog) && size >= 16 && 2 * nItems <= size
      modifies this`buckets, this`nItems, this`nBusy, this`log
      ensures Valid() && nItems == old(nItems) && ok == memory
      ensures !ok ==> buckets == old(buckets) && nBusy == old(nBusy) && log == old(log)
      ensures ok ==> fresh(buckets) && buckets.Length == size
      ensures ok ==> Moved(keys, old(buckets[..]), old(buckets.Length), buckets[..])
      ensures ok ==> FindsFirst(keys, old(buckets[..]), buckets[..])
    {
      hide AllReached, Unique, Moved, Holds, LiveSlots, Place, FindsFirst;
      if !memory {
        return false;
      }
      var from := buckets;
      var t := new Bucket[size](_ => Bucket(keys.empty, 0));
      ok := true;
      var items := 0;
      var i := 0;
      MovedNothing(keys, from[..], t[..]);
      MovedCount(keys, from[..], 0, t[..]);
      while i < from.Length && ok
        invariant ok && i <= from.Length && t.Length == size && fresh(t) && from == buckets
        invariant from[..] == old(from[..])
        invariant Moved(keys, from[..], i, t[..]) && items == |LiveSlots(keys, t[..])|
      {
        if from[i].key != keys.empty && from[i].key != keys.tombstone {
          RoomForNext(keys, from[..], i, t[..], newLog);
          ghost var before := t[..];
          var grown;
          ok, grown := InsertItem(t, from[i].key, from[i].value, false);
          if grown {
            items := items + 1;
          }
          MoveDone(keys, from[..], i, before, t[..]);
        } else {
          MovedSkip(keys, from[..], i, t[..]);
        }
        i := i + 1;
      }
      MovedCount(keys, from[..], i, t[..]);
      MovedFound(keys, from[..], i, t[..]);
      assert from[..][..i] == from[..];
      nItems, nBusy, buckets, log := items, items, t, newLog;
    }

    /** `SOPC_Dict_Reserve` */
    method Reserve(items: nat, memory: bool) returns (ok: bool)
      requires Valid()
      modifies this`buckets, this`nItems, this`nBusy, this`log
      ensures Valid() && ok == memory && nItems == old(nItems)
      ensures ok ==> 2 * items <= buckets.Length && Moved(keys, old(buckets[..]), old(buckets.Length), buckets[..])
      ensures !ok ==> buckets == old(buckets)
    {
      var size, newLog := MinimumSize(buckets.Length, items, log);
      ok := Resize(size, memory, newLog);
    }

    /** Whether `maybe_resize` changes the size. */
    predicate Due(adding: bool)
      reads this
    {
      var items := nItems + (if adding then 1 else 0);
      (if adding then nBusy + 1 > buckets.Length / 2 else nItems < 2 * buckets.Length / 5) && !Fits(buckets.Length, items)
    }

    /** `maybe_resize` */
    method MaybeResize(adding: bool, memory: bool) returns (ok: bool)
      requires Valid()
      modifies this`buckets, this`nItems, this`nBusy, this`log
      ensures Valid() && nItems == old(nItems) && (ok <==> old(Due(adding)) ==> memory)
      ensures ok && adding ==> 2 * (nItems + 1) <= buckets.Length
      ensures !ok || !old(Due(adding)) ==> buckets == old(buckets) && nBusy == old(nBusy) && log == old(log)
      ensures adding && buckets != old(buckets) ==> old(nBusy) + 1 > old(buckets.Length) / 2
      ensures !adding && buckets != old(buckets) ==> nItems < 2 * old(buckets.Length) / 5
      ensures ok && adding ==> nBusy + 1 <= buckets.Length / 2 || buckets.Length == 16 || buckets.Length < 4 * (nItems + 1)
      ensures ok && !adding ==> nItems >= 2 * buckets.Length / 5 || buckets.Length == 16 || buckets.Length < 4 * nItems
      ensures ok && old(Due(adding)) ==>
        fresh(buckets) && Moved(keys, old(buckets[..]), old(buckets.Length), buckets[..])
    {
      hide AllReached, LiveSlots, Moved;
      var delta := if adding then 1 else 0;
      if (adding && nBusy + 1 > buckets.Length / 2) || (!adding && nItems < 2 * buckets.Length / 5) {
        assert Pow2(4) == 16;
        var target, targetLog := MinimumSize(16, nItems + delta, 4);
        LeastFits(buckets.Length, log, nItems + delta, target, targetLog);
        if target != buckets.Length {
          ok := Resize(target, memory, targetLog);
          return;
        }
      }
      return true;
    }

    /** `SOPC_Dict_Insert`. A bucket is always found. Without duplicates it is the update of a map, and there
        still are no duplicates, unless the key is shadowed and the table keeps its size. */
    method Insert(key: nat, value: nat, memory: bool) returns (ok: bool)
      requires Valid()
      modifies this, buckets
      ensures Valid() && (buckets == old(buckets) || fresh(buckets))
      ensures ok <==> !Reserved(keys, key) && (old(Due(true)) ==> memory)
      ensures !ok ==> buckets == old(buckets) && buckets[..] == old(buckets[..])
      ensures ok ==> Lookup(keys, buckets[..], key) == Some(value)
      ensures ok && !old(Due(true)) ==>
        && buckets == old(buckets) && nBusy <= old(nBusy) + 1
        && Place(keys, old(buckets[..]), key, true, 0).Some?
        && buckets[..] == old(buckets[..])[Place(keys, old(buckets[..]), key, true, 0).value := Bucket(key, value)]
      ensures ok && old(Unique(keys, buckets[..])) ==>
        (Unique(keys, buckets[..]) <==> old(Due(true)) || !Shadowed(keys, old(buckets[..]), key))
      ensures ok && old(Unique(keys, buckets[..])) && Unique(keys, buckets[..]) ==> forall k, v ::
        Holds(keys, buckets[..], k, v) <==> if k == key then v == value else Holds(keys, old(buckets[..]), k, v)
    {
      hide AllReached, Unique, Moved, Holds, LiveSlots, Place, Find, Lookup, Shadowed;
      if Reserved(keys, key) {
        return false;
      }
      var resized := MaybeResize(true, memory);
      if !resized {
        return false;
      }
      ghost var mid := buckets[..];
      PlaceExists(keys, mid, key, true, log);
      var grown;
      ok, grown := InsertItem(buckets, key, value, true);
      if grown {
        nItems, nBusy := nItems + 1, nBusy + 1;
      }
      Inserted(keys, mid, key, value);
      if old(Due(true)) {
        MovedWhole(keys, old(buckets[..]), mid, key);
      }
      if Unique(keys, mid) && !Shadowed(keys, mid, key) {
        forall k, v
          ensures Holds(keys, buckets[..], k, v) <==> if k == key then v == value else Holds(keys, mid, k, v)
        {
          InsertedHolds(keys, mid, key, value, k, v);
        }
      }
    }

    /** `SOPC_Dict_Remove`. Without duplicates it is the removal from a map. */
    method Remove(key: nat, memory: bool)
      requires Valid() && keys.empty != keys.tombstone
      modifies this, buckets
      ensures Valid() && (buckets == old(buckets) || fresh(buckets))
      ensures old(buckets.Length) == 16 ==>
        && buckets == old(buckets) && nBusy == old(nBusy)
        && buckets[..] == RemovedKey(keys, old(buckets[..]), key)
      ensures old(Unique(keys, buckets[..])) ==> Unique(keys, buckets[..]) && forall k, v ::
        Holds(keys, buckets[..], k, v) <==> k != key && Holds(keys, old(buckets[..]), k, v)
    {
      hide AllReached, Unique, Moved, Holds, LiveSlots, Find;
      ghost var was := buckets[..];
      var s := GetInternal(key);
      if s.None? {
        NothingToRemove(keys, was, key);
        return;
      }
      buckets[s.value] := Bucket(keys.tombstone, 0);
      ghost var mid := buckets[..];
      assert mid == Removed(keys, was, s.value);
      RemovedReached(keys, was, s.value);
      RemovedCounted(keys, was, s.value);
      nItems := nItems - 1;
      if Unique(keys, was) {
        forall k, v
          ensures Unique(keys, mid) && (Holds(keys, mid, k, v) <==> k != key && Holds(keys, was, k, v))
        {
          RemovedHolds(keys, was, s.value, k, v);
        }
        RemovedHolds(keys, was, s.value, key, 0);
      }
      ghost var due := Due(false);
      var resized := MaybeResize(false, memory);
      if due && resized {
        MovedWhole(keys, mid, buckets[..], key);
      }
    }
  }

  lemma MovedCount(c: Keys, from: seq<Bucket>, i: nat, t: seq<Bucket>)
    requires Moved(c, from, i, t)
    ensures AllReached(c, t) && |LiveSlots(c, t)| == |LiveSlots(c, from[..i])|
    ensures i == 0 ==> |LiveSlots(c, t)| == 0
  {
    if i == 0 {
      assert LiveSlots(c, from[..i]) == {};
    }
  }

  lemma MovedFound(c: Keys, from: seq<Bucket>, i: nat, t: seq<Bucket>)
    requires Moved(c, from, i, t)
    ensures FindsFirst(c, from[..i], t)
  {
  }

  lemma RoomForNext(c: Keys, from: seq<Bucket>, i: nat, t: seq<Bucket>, log: nat)
    requires i < |from| && Moved(c, from, i, t) && Live(c, from[i])
    requires |t| == Pow2(log) && 2 * |LiveSlots(c, from)| <= |t|
    ensures Place(c, t, from[i].key, false, 0).Some?
  {
    LiveSlotsMore(c, from, i);
    PlaceExists(c, t, from[i].key, false, log);
  }

  lemma MoveDone(c: Keys, from: seq<Bucket>, i: nat, t: seq<Bucket>, t': seq<Bucket>)
    requires i < |from| && Moved(c, from, i, t) && Live(c, from[i]) && Place(c, t, from[i].key, false, 0).Some?
    requires t' == t[Place(c, t, from[i].key, false, 0).value := Bucket(from[i].key, from[i].value)]
    ensures Moved(c, from, i + 1, t') && |LiveSlots(c, t')| == |LiveSlots(c, t)| + 1
    ensures !Live(c, t[Place(c, t, from[i].key, false, 0).value])
  {
    var p := Place(c, t, from[i].key, false, 0).value;
    assert from[i] == Bucket(from[i].key, from[i].value);
    MovedMore(c, from, i, t, p);
    PlaceCounted(c, t, p, from[i]);
  }

  lemma NothingToRemove(c: Keys, t: seq<Bucket>, key: nat)
    requires |t| > 0 && AllReached(c, t) && (Reserved(c, key) || Find(c, t, key, 0).None?)
    ensures forall v :: !Holds(c, t, key, v)
  {
    if !Reserved(c, key) {
      AbsentNotThere(c, t, key);
    }
  }

  /** What an insertion does to a table with room. */
  lemma Inserted(c: Keys, t: seq<Bucket>, key: nat, value: nat)
    requires |t| > 0 && AllReached(c, t) && !Reserved(c, key) && Place(c, t, key, true, 0).Some?
    ensures var p := Place(c, t, key, true, 0).value; var t' := t[p := Bucket(key, value)];
      && AllReached(c, t') && Lookup(c, t', key) == Some(value)
      && |LiveSlots(c, t')| == |LiveSlots(c, t)| + (if Live(c, t[p]) then 0 else 1)
      && (Unique(c, t) ==> (Unique(c, t') <==> !Shadowed(c, t, key)))
  {
    hide AllReached, Unique, LiveSlots, Find, Lookup, Shadowed;
    var p := Place(c, t, key, true, 0).value;
    PlaceReached(c, t, key, value, true);
    InsertedFound(c, t, key, value);
    PlaceCounted(c, t, p, Bucket(key, value));
    if Unique(c, t) {
      PlaceUnique(c, t, key, value);
    }
  }

  /** A replaced table holds the same items, and no removed ones. */
  lemma MovedWhole(c: Keys, from: seq<Bucket>, t: seq<Bucket>, key: nat)
    requires Moved(c, from, |from|, t)
    ensures forall k, v :: Holds(c, t, k, v) <==> Holds(c, from, k, v)
    ensures Unique(c, from) ==> Unique(c, t)
    ensures |t| > 0 && (!Reserved(c, key) ==> !Shadowed(c, t, key))
  {
    assert from[..|from|] == from;
    if !Reserved(c, key) {
      NeverShadowed(c, t, key);
    }
  }

  /** A use of the dictionary that gets there: the value of b is replaced, b is removed, and the first value of b is
      found. */
  method OldValueRun(keys: Keys, a: nat, b: nat, v: nat, w: nat) returns (replaced: Option<nat>, removed: Option<nat>)
    requires keys.empty != keys.tombstone && !Reserved(keys, a) && !Reserved(keys, b)
    requires a != b && keys.hash(a) == keys.hash(b)
    ensures replaced == Some(w) && removed == Some(v)
  {
    hide AllReached, Unique, Moved, Holds, LiveSlots, Place, Find, Lookup, Shadowed, Removed, NoTombstone;
    var d := new Dict(keys);
    ghost var t0 := d.buckets[..];
    ShadowedAfterRemoval(keys, t0, a, b, 0, v);
    FirstItems(keys, t0, a, b, 0);
    var _ := d.Insert(a, 0, true);
    var _ := d.Insert(b, v, true);
    d.Remove(a, true);
    ghost var t3 := d.buckets[..];
    assert Shadowed(keys, t3, b);
    assert Holds(keys, t3, b, v);
    LookupExact(keys, t3, b, v);
    OldValueReturns(keys, t3, b, w);
    var _ := d.Insert(b, w, true);
    replaced := d.Get(b);
    d.Remove(b, true);
    removed := d.Get(b);
  }

  /** The first two insertions find no removed item. */
  lemma FirstItems(c: Keys, t: seq<Bucket>, a: nat, b: nat, u: nat)
    requires |t| >= 16 && !Reserved(c, a) && !Reserved(c, b) && forall s :: 0 <= s < |t| ==> t[s].key == c.empty
    ensures !Shadowed(c, t, a)
    ensures Place(c, t, a, true, 0).Some? ==> !Shadowed(c, t[Place(c, t, a, true, 0).value := Bucket(a, u)], b)
  {
    hide Place, Shadowed;
    NeverShadowed(c, t, a);
    if Place(c, t, a, true, 0).Some? {
      NeverShadowed(c, t[Place(c, t, a, true, 0).value := Bucket(a, u)], b);
    }
  }
}
