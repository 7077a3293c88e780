/** The bucket indices that the open-addressing dictionary tries for a key, and the simulation of
    its insertions in bench_nodeid_dict.c.

    Attempt i of a key looks at bucket (hash + i / 2 + i * i / 2) & (size - 1), where size is a power
    of two; masking with size - 1 is the remainder modulo size.
 */
module Probing {

  function Pow2(k: nat): (p: nat)
    ensures p >= 1
  {
    if k == 0 then 1 else 2 * Pow2(k - 1)
  }

  /** `SOPC_DICT_HASH(0, i)` */
  function Offset(i: nat): nat {
    i / 2 + i * i / 2
  }

  function Slot(hash: nat, i: nat, size: nat): (s: nat)
    requires size > 0
    ensures s < size
  {
    (hash + Offset(i)) % size
  }

  // ----- Which buckets are tried -----

  /** The offsets do not visit every bucket once: the first two attempts look at the same bucket. */
  lemma FirstOffsetsCoincide(hash: nat, size: nat)
    requires size > 0
    ensures Slot(hash, 0, size) == Slot(hash, 1, size)
  {
  }

  /** In a table of 16 buckets five of them, for instance bucket 2 for hash 0, are never tried. */
  lemma SomeBucketNeverTried(i: nat)
    requires i < 16
    ensures Slot(0, i, 16) !in {2, 6, 8, 13, 15}
  {
    if i == 0 {} else if i == 1 {} else if i == 2 {} else if i == 3 {} else if i == 4 {}
    else if i == 5 {} else if i == 6 {} else if i == 7 {} else if i == 8 {} else if i == 9 {}
    else if i == 10 {} else if i == 11 {} else if i == 12 {} else if i == 13 {} else if i == 14 {}
    else {}
  }

  lemma EvenOffset(j: nat)
    ensures Offset(2 * j) == j * (2 * j + 1)
  {
    assert 2 * j * (2 * j) == 2 * (2 * j * j);
    assert 2 * j * (2 * j) / 2 == 2 * j * j;
  }

  /** An odd factor does not help a power of two to divide a product. */
  lemma {:induction false} OddFactor(k: nat, d: int, m: int)
    requires m % 2 == 1 && d * m % Pow2(k) == 0
    ensures d % Pow2(k) == 0
  {
    if k > 0 {
      var p := Pow2(k - 1);
      var q := d * m / (2 * p);
      assert d * m == 2 * p * q;
      assert 2 * p * q == 2 * (p * q);
      if d % 2 == 1 {
        ProductOfOdds(d, m);
        assert false;
      }
      var h := d / 2;
      assert h * m == p * q by {
        assert d == 2 * h;
        assert 2 * h * m == 2 * (h * m);
      }
      MultipleModulo(p, q);
      OddFactor(k - 1, h, m);
      DoubleModulo(h, p);
    }
  }

  lemma ProductOfOdds(a: int, b: int)
    requires a % 2 == 1 && b % 2 == 1
    ensures a * b % 2 == 1
  {
    var x, y := a / 2, b / 2;
    assert a == 2 * x + 1 && b == 2 * y + 1;
    assert a * b == 2 * (2 * x * y + x + y) + 1;
  }

  lemma MultipleModulo(p: nat, q: int)
    requires p > 0
    ensures p * q % p == 0
  {
    RemainderUnique(p * q, p, q, 0);
  }

  lemma RemainderUnique(a: int, p: nat, q: int, r: int)
    requires p > 0 && a == p * q + r && 0 <= r < p
    ensures a / p == q && a % p == r
  {
    var q', r' := a / p, a % p;
    assert a == p * q' + r' && 0 <= r' < p;
    assert p * (q' + 1) == p * q' + p && p * (q + 1) == p * q + p;
    if q > q' {
      MultiplyMonotone(p, q' + 1, q);
    } else if q < q' {
      MultiplyMonotone(p, q + 1, q');
    }
  }

  lemma MultiplyMonotone(p: nat, x: int, y: int)
    requires x <= y
    ensures p * x <= p * y
  {
    assert p * (y - x) >= 0;
    assert p * (y - x) == p * y - p * x;
  }

  lemma DoubleModulo(h: int, p: nat)
    requires p > 0 && h % p == 0
    ensures 2 * h % (2 * p) == 0
  {
    var q := h / p;
    assert h == p * q;
    RemainderUnique(2 * h, 2 * p, q, 0);
  }

  /** Numbers with the same remainder differ by a multiple. */
  lemma SameRemainder(a: int, b: int, p: nat)
    requires p > 0 && a % p == b % p
    ensures (a - b) % p == 0
  {
    var x, y := a / p, b / p;
    assert a - b == p * (x - y) by {
      assert a == p * x + a % p && b == p * y + b % p;
    }
    MultipleModulo(p, x - y);
  }

  /** Attempts with different even numbers below the size look at different buckets. */
  lemma EvenAttemptsDiffer(hash: nat, k: nat, j: nat, l: nat)
    requires j < l < Pow2(k)
    ensures Slot(hash, 2 * j, Pow2(k)) != Slot(hash, 2 * l, Pow2(k))
  {
    hide Offset, Pow2;
    var size := Pow2(k);
    var a, b := Offset(2 * l), Offset(2 * j);
    OffsetDifference(j, l);
    if (hash + b) % size == (hash + a) % size {
      SameRemainder(hash + a, hash + b, size);
      OddFactor(k, l - j, 2 * (l + j) + 1);
      SmallNotMultiple(l - j, size);
      assert false;
    }
  }

  lemma OffsetDifference(j: nat, l: nat)
    ensures Offset(2 * l) - Offset(2 * j) == (l - j) * (2 * (l + j) + 1)
  {
    EvenOffset(j);
    EvenOffset(l);
    assert l * (2 * l + 1) == 2 * l * l + l;
    assert j * (2 * j + 1) == 2 * j * j + j;
    assert (l - j) * (2 * (l + j) + 1) == 2 * l * l - 2 * j * j + l - j;
  }

  lemma SmallNotMultiple(d: nat, p: nat)
    requires 0 < d < p
    ensures d % p != 0
  {
    RemainderUnique(d, p, 0, d);
  }

  /** The buckets looked at by the first `n` even attempts. */
  ghost function EvenSlots(hash: nat, size: nat, n: nat): set<nat>
    requires size > 0
  {
    set j: nat | j < n :: Slot(hash, 2 * j, size)
  }

  lemma {:induction false} EvenSlotsCount(hash: nat, k: nat, n: nat)
    requires n <= Pow2(k)
    ensures |EvenSlots(hash, Pow2(k), n)| == n
  {
    var size := Pow2(k);
    if n > 0 {
      EvenSlotsCount(hash, k, n - 1);
      var s := Slot(hash, 2 * (n - 1), size);
      forall j: nat | j < n - 1
        ensures Slot(hash, 2 * j, size) != s
      {
        EvenAttemptsDiffer(hash, k, j, n - 1);
      }
      assert EvenSlots(hash, size, n) == EvenSlots(hash, size, n - 1) + {s};
    }
  }

  /** Fewer than n buckets in use, for n up to half of the size, always leave an attempt among the
      first 2 * n - 1 that finds a bucket not in use. */
  lemma FreeAttempt(hash: nat, k: nat, used: set<nat>, n: nat) returns (i: nat)
    requires |used| < n <= Pow2(k)
    ensures i <= 2 * |used| && i < 2 * n && Slot(hash, i, Pow2(k)) !in used
  {
    var size := Pow2(k);
    var m := |used| + 1;
    EvenSlotsCount(hash, k, m);
    var slots := EvenSlots(hash, size, m);
    if slots <= used {
      SubsetSize(slots, used);
      assert false;
    }
    var s :| s in slots && s !in used;
    var j: nat :| j < m && s == Slot(hash, 2 * j, size);
    i := 2 * j;
  }

  lemma {:induction false} SubsetSize<T>(a: set<T>, b: set<T>)
    requires a <= b
    ensures |a| <= |b|
  {
    if a != {} {
      var x :| x in a;
      SubsetSize(a - {x}, b - {x});
    }
  }

  // ----- Machine arithmetic -----

  lemma {:induction false} Pow2Sum(a: nat, b: nat)
    ensures Pow2(a + b) == Pow2(a) * Pow2(b)
  {
    if b > 0 {
      Pow2Sum(a, b - 1);
      DoubleProduct(Pow2(a), Pow2(b - 1));
    }
  }

  lemma DoubleProduct(x: nat, y: nat)
    ensures x * (2 * y) == 2 * (x * y)
  {
  }

  /** The sum of hash and offset wraps around modulo 2^64, which no table of up to 2^64 buckets notices. */
  lemma WrapAroundHarmless(x: nat, log: nat)
    requires log <= 64
    ensures x % Pow2(64) % Pow2(log) == x % Pow2(log)
  {
    hide Pow2;
    var p, q := Pow2(log), Pow2(64 - log);
    Pow2Sum(log, 64 - log);
    var r := x % Pow2(64);
    var n := x / Pow2(64);
    assert x == n * (p * q) + r;
    assert n * (p * q) == p * (n * q);
    var m := r / p;
    assert r == p * m + r % p;
    assert p * (n * q) + p * m == p * (n * q + m);
    RemainderUnique(x, p, n * q + m, r % p);
  }

  // ----- The size of the table -----

  lemma {:induction false} Pow2Gap(a: nat, b: nat)
    requires Pow2(a) > Pow2(b)
    ensures Pow2(a) >= 2 * Pow2(b)
  {
    if b > 0 {
      Pow2Gap(a - 1, b - 1);
    }
  }

  /** `minimum_dict_size`: the least power of two that is at least `start` and 2 * `items`. */
  method MinimumSize(start: nat, items: nat, ghost startLog: nat) returns (size: nat, ghost log: nat)
    requires start == Pow2(startLog)
    ensures size == Pow2(log) && size >= start && size >= 2 * items
    ensures forall a: nat :: Pow2(a) >= start && Pow2(a) >= 2 * items ==> Pow2(a) >= size
  {
    size, log := start, startLog;
    while size < 2 * items
      invariant size == Pow2(log) && size >= start
      invariant forall a: nat :: Pow2(a) >= start && Pow2(a) >= 2 * items ==> Pow2(a) >= size
    {
      forall a: nat | Pow2(a) >= start && Pow2(a) >= 2 * items
        ensures Pow2(a) >= 2 * size
      {
        Pow2Gap(a, log);
      }
      size, log := size * 2, log + 1;
    }
  }

  // ----- The simulation -----

  ghost function Used(occupied: seq<bool>): set<nat> {
    set s: nat | s < |occupied| && occupied[s]
  }

  /** The number of attempts of key `hash`: the first attempt that finds a free bucket, counted from 1. */
  ghost predicate IsProbeCount(occupied: seq<bool>, hash: nat, probes: nat) {
    && |occupied| > 0 && 1 <= probes <= |occupied|
    && !occupied[Slot(hash, probes - 1, |occupied|)]
    && forall i: nat :: i < probes - 1 ==> occupied[Slot(hash, i, |occupied|)]
  }

  /** Key number k, with k buckets in use before it, needs at most 2 * k + 1 attempts and takes a free bucket. */
  ghost predicate KeyInserted(before: seq<bool>, hash: nat, probes: nat, after: seq<bool>, k: nat) {
    && IsProbeCount(before, hash, probes) && probes <= 2 * k + 1
    && after == before[Slot(hash, probes - 1, |before|) := true]
  }

  /** `stages[k]` is the table when key k comes, `probes[k]` the number of attempts it needs. */
  ghost predicate Simulation(size: nat, hashes: seq<nat>, probes: seq<nat>, stages: seq<seq<bool>>) {
    && |probes| == |hashes| && |stages| == |hashes| + 1
    && Used(stages[0]) == {}
    && (forall k :: 0 <= k < |stages| ==> |stages[k]| == size && |Used(stages[k])| == k)
    && (forall k :: 0 <= k < |hashes| ==> KeyInserted(stages[k], hashes[k], probes[k], stages[k + 1], k))
  }

  lemma SimulationMore(size: nat, hashes: seq<nat>, probes: seq<nat>, stages: seq<seq<bool>>,
                       hash: nat, p: nat, after: seq<bool>)
    requires Simulation(size, hashes, probes, stages)
    requires KeyInserted(stages[|hashes|], hash, p, after, |hashes|)
    ensures Simulation(size, hashes + [hash], probes + [p], stages + [after])
  {
    hide KeyInserted;
    KeyTakesBucket(stages[|hashes|], hash, p, after, |hashes|);
    var hs, ps, ss := hashes + [hash], probes + [p], stages + [after];
    forall k | 0 <= k < |hs|
      ensures KeyInserted(ss[k], hs[k], ps[k], ss[k + 1], k)
    {
      if k < |hashes| {
        assert KeyInserted(stages[k], hashes[k], probes[k], stages[k + 1], k);
      }
    }
  }

  lemma KeyTakesBucket(before: seq<bool>, hash: nat, p: nat, after: seq<bool>, k: nat)
    requires KeyInserted(before, hash, p, after, k)
    ensures |after| == |before| && |Used(after)| == |Used(before)| + 1
  {
    var s := Slot(hash, p - 1, |before|);
    assert Used(after) == Used(before) + {s};
  }

  /** `compute_probe_stats`: the simulation never fails to insert a key. */
  method ComputeProbeStats(hashes: seq<nat>)
    returns (ok: bool, maxProbe: nat, probeSum: nat, ghost size: nat, ghost probes: seq<nat>, ghost stages: seq<seq<bool>>)
    ensures ok
    ensures size >= 16 && size >= 2 * |hashes| && Simulation(size, hashes, probes, stages)
    ensures forall k :: 0 <= k < |hashes| ==> probes[k] <= maxProbe
    ensures hashes != [] ==> maxProbe in probes && maxProbe <= 2 * |hashes| - 1
    ensures probeSum == Sum(probes)
  {
    hide Slot, Simulation, KeyInserted, Used;
    assert Pow2(4) == 16;
    var tableSize, log := MinimumSize(16, |hashes|, 4);
    size := tableSize;
    var occupied := new bool[tableSize](_ => false);
    ok, maxProbe, probeSum, probes := true, 0, 0, [];
    stages := [occupied[..]];
    SimulationStart(occupied[..]);
    for k := 0 to |hashes|
      invariant ok && occupied.Length == size
      invariant |probes| == k && |stages| == k + 1 && stages[k] == occupied[..]
      invariant Simulation(size, hashes[..k], probes, stages)
      invariant forall j :: 0 <= j < k ==> probes[j] <= maxProbe
      invariant k == 0 ==> maxProbe == 0
      invariant k > 0 ==> maxProbe in probes && maxProbe <= 2 * k - 1
      invariant probeSum == Sum(probes)
    {
      ghost var before := occupied[..];
      UsedSoFar(size, hashes[..k], probes, stages);
      var inserted, i := InsertKey(occupied, hashes[k], log, k);
      if !inserted {
        ok := false;
        break;
      }
      probeSum := probeSum + (i + 1);
      if i + 1 > maxProbe {
        maxProbe := i + 1;
      }
      assert (probes + [i + 1])[k] == i + 1;
      SumMore(probes, i + 1);
      SimulationMore(size, hashes[..k], probes, stages, hashes[k], i + 1, occupied[..]);
      assert hashes[..k] + [hashes[k]] == hashes[..k + 1];
      probes, stages := probes + [i + 1], stages + [occupied[..]];
    }
    assert hashes[..|hashes|] == hashes;
  }

  lemma SimulationStart(occupied: seq<bool>)
    requires forall s :: 0 <= s < |occupied| ==> !occupied[s]
    ensures Simulation(|occupied|, [], [], [occupied])
  {
  }

  lemma UsedSoFar(size: nat, hashes: seq<nat>, probes: seq<nat>, stages: seq<seq<bool>>)
    requires Simulation(size, hashes, probes, stages)
    ensures |Used(stages[|hashes|])| == |hashes|
  {
  }

  /** One key: the first free bucket among its attempts is taken. */
  method InsertKey(occupied: array<bool>, hash: nat, ghost log: nat, ghost k: nat) returns (inserted: bool, i: nat)
    requires occupied.Length == Pow2(log) && |Used(occupied[..])| == k && 2 * k < occupied.Length
    modifies occupied
    ensures inserted && i <= 2 * k && KeyInserted(old(occupied[..]), hash, i + 1, occupied[..], k)
  {
    inserted, i := FirstFree(occupied, hash, log);
    if inserted {
      occupied[Slot(hash, i, occupied.Length)] := true;
    }
  }

  /** The inner loop: the first attempt that finds a free bucket. */
  method FirstFree(occupied: array<bool>, hash: nat, ghost log: nat) returns (inserted: bool, i: nat)
    requires occupied.Length == Pow2(log)
    ensures inserted ==> IsProbeCount(occupied[..], hash, i + 1)
    ensures 2 * |Used(occupied[..])| < occupied.Length ==> inserted && i <= 2 * |Used(occupied[..])|
  {
    inserted, i := false, 0;
    while i < occupied.Length
      invariant i <= occupied.Length
      invariant forall j: nat :: j < i ==> occupied[Slot(hash, j, occupied.Length)]
    {
      if !occupied[Slot(hash, i, occupied.Length)] {
        inserted := true;
        break;
      }
      i := i + 1;
    }
    if 2 * |Used(occupied[..])| < occupied.Length {
      ghost var f := FreeAttempt(hash, log, Used(occupied[..]), |Used(occupied[..])| + 1);
      assert Slot(hash, f, occupied.Length) !in Used(occupied[..]);
      assert !occupied[..][Slot(hash, f, occupied.Length)];
    }
  }

  ghost function Sum(xs: seq<nat>): nat {
    if xs == [] then 0 else Sum(xs[..|xs| - 1]) + xs[|xs| - 1]
  }

  lemma SumMore(xs: seq<nat>, x: nat)
    ensures Sum(xs + [x]) == Sum(xs) + x
  {
    assert (xs + [x])[..|xs|] == xs;
  }
}
