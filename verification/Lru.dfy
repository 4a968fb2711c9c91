/** The weighted least-recently-used map (`LRUMap.h`). */
module Lru {
  import opened Wrappers

  datatype Entry<K, V> = Entry(key: K, value: V, weight: nat)

  // ----- The map as a list, most recently used first -----

  function Weight<K, V>(es: seq<Entry<K, V>>): nat {
    if es == [] then 0 else Weight(es[..|es| - 1]) + es[|es| - 1].weight
  }

  function Keys<K, V>(es: seq<Entry<K, V>>): (ks: seq<K>)
    ensures |ks| == |es| && forall i | 0 <= i < |es| :: ks[i] == es[i].key
  {
    seq(|es|, i requires 0 <= i < |es| => es[i].key)
  }

  /** Where the key is, or the length of the list. */
  function IndexOf<K(==), V>(es: seq<Entry<K, V>>, k: K): (i: nat)
    ensures i <= |es| && (i < |es| ==> es[i].key == k)
    ensures forall j | 0 <= j < i :: es[j].key != k
  {
    if es == [] || es[0].key == k then 0 else 1 + IndexOf(es[1..], k)
  }

  function ToFront<T>(s: seq<T>, i: nat): seq<T>
    requires i < |s|
  {
    [s[i]] + s[..i] + s[i + 1..]
  }

  /** Dropping entries from the back until the rest weighs at most `limit`. */
  function Fit<K, V>(es: seq<Entry<K, V>>, limit: nat): (r: seq<Entry<K, V>>)
    ensures |r| <= |es| && r == es[..|r|]
  {
    if es == [] || Weight(es) <= limit then es else Fit(es[..|es| - 1], limit)
  }

  datatype Outcome<K, V> = Outcome(es: seq<Entry<K, V>>, hit: bool)

  /** `add`: a key already there keeps its value and counts as used; one too
      heavy for the map is refused. `hit` is false when it throws. */
  function Add<K(==), V>(es: seq<Entry<K, V>>, max: nat, k: K, v: V, w: nat): Outcome<K, V> {
    var i := IndexOf(es, k);
    if i < |es| then Outcome(ToFront(es, i), true)
    else if max < w then Outcome(es, false)
    else Outcome([Entry(k, v, w)] + Fit(es, max - w), true)
  }

  /** `find`: a key found counts as used. */
  function Find<K(==), V>(es: seq<Entry<K, V>>, k: K): Outcome<K, V> {
    var i := IndexOf(es, k);
    if i < |es| then Outcome(ToFront(es, i), true) else Outcome(es, false)
  }

  /** The list with the entry of `k` moved to the front. */
  ghost predicate Moved<K, V>(es: seq<Entry<K, V>>, k: K, r: seq<Entry<K, V>>) {
    exists i :: 0 <= i < |es| && es[i].key == k && r == [es[i]] + es[..i] + es[i + 1..]
  }

  /** The list with a new entry in front and just as much dropped from the back
      as must be, for everything to weigh at most `max`. */
  ghost predicate Admitted<K, V>(es: seq<Entry<K, V>>, max: nat, e: Entry<K, V>, r: seq<Entry<K, V>>) {
    exists m: nat :: m <= |es| && r == [e] + es[..m] && e.weight + Weight(es[..m]) <= max
                     && (m < |es| ==> max < e.weight + Weight(es[..m]) + es[m].weight)
  }

  /** An add is refused only if the key is new and its weight exceeds the
      capacity; otherwise the key is in front, a new one with its own value and weight. */
  lemma AddExactly<K, V>(es: seq<Entry<K, V>>, max: nat, k: K, v: V, w: nat)
    ensures var r := Add(es, max, k, v, w);
            && (r.hit <==> k in Keys(es) || w <= max)
            && (k in Keys(es) ==> Moved(es, k, r.es))
            && (k !in Keys(es) && w <= max ==> Admitted(es, max, Entry(k, v, w), r.es))
            && (!r.hit ==> r.es == es)
  {
    hide Weight;
    IndexFinds(es, k);
    if IndexOf(es, k) == |es| && w <= max {
      FitStops(es, max - w);
      var m := |Fit(es, max - w)|;
      assert Add(es, max, k, v, w).es == [Entry(k, v, w)] + es[..m];
    }
  }

  /** A find succeeds exactly if the key is there, and puts it in front. */
  lemma FindExactly<K, V>(es: seq<Entry<K, V>>, k: K)
    ensures var r := Find(es, k);
            (r.hit <==> k in Keys(es)) && if r.hit then Moved(es, k, r.es) else r.es == es
  {
    IndexFinds(es, k);
  }

  lemma {:induction false} IndexFinds<K, V>(es: seq<Entry<K, V>>, k: K)
    ensures IndexOf(es, k) < |es| <==> k in Keys(es)
  {
    var i := IndexOf(es, k);
    if i < |es| {
      assert Keys(es)[i] == k;
    }
    if k in Keys(es) {
      var j: nat :| j < |es| && Keys(es)[j] == k;
      assert es[j].key == k;
    }
  }

  // ----- Histories -----

  datatype Op<K, V> = OpAdd(key: K, value: V, weight: nat) | OpFind(key: K)

  function Apply<K(==), V>(es: seq<Entry<K, V>>, max: nat, op: Op<K, V>): Outcome<K, V> {
    match op
    case OpAdd(k, v, w) => Add(es, max, k, v, w)
    case OpFind(k) => Find(es, k)
  }

  /** The map after a history, oldest operation first. */
  function After<K(==), V>(max: nat, ops: seq<Op<K, V>>): seq<Entry<K, V>> {
    if ops == [] then [] else Apply(After(max, ops[..|ops| - 1]), max, ops[|ops| - 1]).es
  }

  function Touch<K(==)>(ks: seq<K>, k: K): seq<K> {
    [k] + Without(ks, k)
  }

  function Without<K(==)>(ks: seq<K>, k: K): (r: seq<K>)
    ensures |r| <= |ks|
    ensures (forall x | x in r :: x in ks && x != k) && (forall x | x in ks && x != k :: x in r)
  {
    if ks == [] then [] else (if ks[0] == k then [] else [ks[0]]) + Without(ks[1..], k)
  }

  // ----- What the map holds -----

  /** The keys successfully accessed, most recent first, each once. An access
      succeeds if its key is among the most recent that fit together, or it adds
      a key that fits alone. */
  ghost function Recency<K, V>(max: nat, ops: seq<Op<K, V>>, wt: K -> nat): seq<K> {
    if ops == [] then []
    else
      var op, before := ops[|ops| - 1], Recency(max, ops[..|ops| - 1], wt);
      if op.key in before[..LongestFit(before, wt, max)] || (op.OpAdd? && wt(op.key) <= max) then Touch(before, op.key) else before
  }

  ghost predicate Distinct<T>(s: seq<T>) {
    forall i, j | 0 <= i < j < |s| :: s[i] != s[j]
  }

  ghost function KeyWeight<K>(ks: seq<K>, wt: K -> nat): nat {
    if ks == [] then 0 else KeyWeight(ks[..|ks| - 1], wt) + wt(ks[|ks| - 1])
  }

  /** The length of the longest prefix of `ks` that weighs at most `max`. */
  ghost function LongestFit<K>(ks: seq<K>, wt: K -> nat, max: nat): (n: nat)
    ensures n <= |ks| && KeyWeight(ks[..n], wt) <= max
    ensures forall m | n < m <= |ks| :: KeyWeight(ks[..m], wt) > max
  {
    if KeyWeight(ks, wt) <= max then
      assert ks[..|ks|] == ks;
      |ks|
    else
      var before := ks[..|ks| - 1];
      var n := LongestFit(before, wt, max);
      assert forall m | 0 <= m < |ks| :: before[..m] == ks[..m];
      assert ks[..|ks|] == ks;
      n
  }

  /** The list holds a prefix of the recency order that fits, and not one key more would. */
  ghost predicate Held<K, V>(es: seq<Entry<K, V>>, recent: seq<K>, wt: K -> nat, max: nat) {
    && |es| <= |recent| && Keys(es) == recent[..|es|] && Distinct(recent)
    && (forall e | e in es :: e.weight == wt(e.key)) && Weight(es) <= max
    && (|es| < |recent| ==> max < Weight(es) + wt(recent[|es|]))
  }

  lemma {:induction false} WeightOfKeys<K, V>(es: seq<Entry<K, V>>, wt: K -> nat)
    requires forall e | e in es :: e.weight == wt(e.key)
    ensures Weight(es) == KeyWeight(Keys(es), wt)
    decreases |es|
  {
    if es != [] {
      assert Keys(es)[..|es| - 1] == Keys(es[..|es| - 1]);
      WeightOfKeys(es[..|es| - 1], wt);
    }
  }

  lemma {:induction false} KeyWeightGrows<K>(ks: seq<K>, wt: K -> nat, n: nat)
    requires n <= |ks|
    ensures KeyWeight(ks[..n], wt) <= KeyWeight(ks, wt)
    decreases |ks|
  {
    if n < |ks| {
      assert ks[..|ks| - 1][..n] == ks[..n];
      KeyWeightGrows(ks[..|ks| - 1], wt, n);
    } else {
      assert ks[..n] == ks;
    }
  }

  /** What is held is the longest prefix of the recency order that fits. */
  lemma HeldIsLongest<K, V>(es: seq<Entry<K, V>>, recent: seq<K>, wt: K -> nat, max: nat)
    requires Held(es, recent, wt, max)
    ensures Keys(es) == recent[..LongestFit(recent, wt, max)]
  {
    WeightOfKeys(es, wt);
    var n, m := LongestFit(recent, wt, max), |es|;
    if m < |recent| {
      var more := recent[..m + 1];
      assert more[..m] == recent[..m];
      assert max < KeyWeight(more, wt);
      if m < n {
        assert recent[..n][..m + 1] == more;
        KeyWeightGrows(recent[..n], wt, m + 1);
      }
    }
  }

  lemma {:induction false} WithoutAt<K>(ks: seq<K>, k: K, i: nat)
    requires Distinct(ks) && i < |ks| && ks[i] == k
    ensures Without(ks, k) == ks[..i] + ks[i + 1..]
    decreases |ks|
  {
    if i == 0 {
      WithoutNone(ks[1..], k);
    } else {
      WithoutAt(ks[1..], k, i - 1);
      assert ks[1..][..i - 1] == ks[1..i] && ks[1..][i..] == ks[i + 1..];
    }
  }

  lemma {:induction false} WithoutNone<K>(ks: seq<K>, k: K)
    requires k !in ks
    ensures Without(ks, k) == ks
    decreases |ks|
  {
    if ks != [] {
      WithoutNone(ks[1..], k);
    }
  }

  lemma TouchDistinct<K>(ks: seq<K>, k: K)
    requires Distinct(ks)
    ensures Distinct(Touch(ks, k))
  {
    if k in ks {
      var i :| 0 <= i < |ks| && ks[i] == k;
      WithoutAt(ks, k, i);
    } else {
      WithoutNone(ks, k);
    }
  }

  lemma KeysToFront<K, V>(es: seq<Entry<K, V>>, recent: seq<K>, i: nat)
    requires |es| <= |recent| && Keys(es) == recent[..|es|] && Distinct(recent) && i < |es|
    ensures var touched := Touch(recent, es[i].key);
            |touched| == |recent| && Keys(ToFront(es, i)) == touched[..|es|] && touched[|es|..] == recent[|es|..]
  {
    hide Distinct;
    var k := es[i].key;
    assert recent[i] == Keys(es)[i] == k;
    WithoutAt(recent, k, i);
    assert Touch(recent, k) == [k] + recent[..i] + recent[i + 1..];
    forall j | 0 <= j < |es|
      ensures Keys(ToFront(es, i))[j] == Touch(recent, k)[j]
    {
      assert recent[j] == Keys(es)[j];
      if 0 < j {
        assert recent[j - 1] == Keys(es)[j - 1];
      }
    }
  }

  /** Using a key that is held. */
  lemma HeldHit<K, V>(es: seq<Entry<K, V>>, recent: seq<K>, wt: K -> nat, max: nat, i: nat)
    requires Held(es, recent, wt, max) && i < |es|
    ensures Held(ToFront(es, i), Touch(recent, es[i].key), wt, max)
  {
    hide Touch, Keys, Distinct;
    KeysToFront(es, recent, i);
    TouchDistinct(recent, es[i].key);
    WeightToFront(es, i);
    hide Weight;
    var touched := Touch(recent, es[i].key);
    if |es| < |recent| {
      assert touched[|es|..][0] == touched[|es|] && recent[|es|..][0] == recent[|es|];
    }
  }

  lemma WeightToFront<K, V>(es: seq<Entry<K, V>>, i: nat)
    requires i < |es|
    ensures Weight(ToFront(es, i)) == Weight(es)
  {
    hide Weight;
    assert es == es[..i] + [es[i]] + es[i + 1..];
    WeightAppend(es[..i] + [es[i]], es[i + 1..]);
    WeightAppend(es[..i], [es[i]]);
    WeightAppend([es[i]] + es[..i], es[i + 1..]);
    WeightAppend([es[i]], es[..i]);
  }

  lemma {:induction false} WeightAppend<K, V>(a: seq<Entry<K, V>>, b: seq<Entry<K, V>>)
    ensures Weight(a + b) == Weight(a) + Weight(b)
    decreases |b|
  {
    if b == [] {
      assert a + b == a;
    } else {
      assert (a + b)[..|a + b| - 1] == a + b[..|b| - 1];
      WeightAppend(a, b[..|b| - 1]);
    }
  }

  /** What `Fit` leaves, and why it stopped there. */
  lemma {:induction false} FitStops<K, V>(es: seq<Entry<K, V>>, limit: nat)
    ensures var m := |Fit(es, limit)|;
            Weight(es[..m]) <= limit && (m < |es| ==> limit < Weight(es[..m]) + es[m].weight)
    decreases |es|
  {
    assert es[..|es|] == es;
    if es != [] && limit < Weight(es) {
      var before := es[..|es| - 1];
      FitStops(before, limit);
      var m := |Fit(before, limit)|;
      assert before[..m] == es[..m];
    }
  }

  /** Adding a key that is not held, and is not too heavy. */
  lemma HeldAdd<K, V>(es: seq<Entry<K, V>>, recent: seq<K>, wt: K -> nat, max: nat, k: K, v: V)
    requires Held(es, recent, wt, max) && IndexOf(es, k) == |es| && wt(k) <= max
    ensures Held([Entry(k, v, wt(k))] + Fit(es, max - wt(k)), Touch(recent, k), wt, max)
  {
    hide Weight, Without, IndexOf, Fit, Distinct;
    var w, kept := wt(k), Fit(es, max - wt(k));
    var m := |kept|;
    TouchDistinct(recent, k);
    FitStops(es, max - w);
    WeightAppend([Entry(k, v, w)], kept);
    assert Weight([Entry(k, v, w)]) == w by {
      OneWeight(Entry(k, v, w));
    }
    NotYetHeld(es, recent, k);
    var rest := Without(recent, k);
    assert forall e | e in kept :: e in es;
    NewKeys(es, kept, rest, k, v, w);
    if m < |rest| {
      if m < |es| {
        assert es[m] in es && es[m].key == Keys(es)[m] == rest[..|es|][m];
      } else {
        assert es[..m] == es;
      }
    }
  }

  lemma OneWeight<K, V>(e: Entry<K, V>)
    ensures Weight([e]) == e.weight
  {
    assert [e][..0] == [];
  }

  lemma NewKeys<K, V>(es: seq<Entry<K, V>>, kept: seq<Entry<K, V>>, rest: seq<K>, k: K, v: V, w: nat)
    requires |kept| <= |es| <= |rest| && kept == es[..|kept|] && Keys(es) == rest[..|es|]
    ensures Keys([Entry(k, v, w)] + kept) == ([k] + rest)[..|kept| + 1]
  {
    assert forall j | 0 <= j < |kept| :: kept[j].key == Keys(es)[j] == rest[j];
  }

  /** Removing a key that is not held leaves the held prefix alone, and the key
      after it too, unless that is the one removed. */
  lemma NotYetHeld<K, V>(es: seq<Entry<K, V>>, recent: seq<K>, k: K)
    requires |es| <= |recent| && Keys(es) == recent[..|es|] && Distinct(recent) && IndexOf(es, k) == |es|
    ensures var rest := Without(recent, k);
            && |es| <= |rest| && rest[..|es|] == recent[..|es|]
            && (|es| < |recent| && recent[|es|] != k ==> |es| < |rest| && rest[|es|] == recent[|es|])
            && (|es| == |recent| ==> |rest| == |es|)
  {
    hide Without, IndexOf;
    forall j | 0 <= j < |es|
      ensures recent[j] != k
    {
      assert recent[..|es|][j] == Keys(es)[j] == es[j].key;
    }
    if k in recent {
      var i :| 0 <= i < |recent| && recent[i] == k;
      WithoutAt(recent, k, i);
    } else {
      WithoutNone(recent, k);
    }
  }

  /** Every weight used for a key is the one `wt` gives it. */
  ghost predicate FixedWeights<K(!new), V(!new)>(ops: seq<Op<K, V>>, wt: K -> nat) {
    forall op | op in ops :: op.OpAdd? ==> op.weight == wt(op.key)
  }

  lemma {:induction false} HistoryHeld<K(!new), V(!new)>(max: nat, ops: seq<Op<K, V>>, wt: K -> nat)
    requires FixedWeights(ops, wt)
    ensures Held(After(max, ops), Recency(max, ops, wt), wt, max)
    decreases |ops|
  {
    if ops != [] {
      var before, op := ops[..|ops| - 1], ops[|ops| - 1];
      assert forall o | o in before :: o in ops;
      HistoryHeld(max, before, wt);
      var es, recent := After(max, before), Recency(max, before, wt);
      var i := IndexOf(es, op.key);
      HeldIsLongest(es, recent, wt, max);
      IndexFinds(es, op.key);
      assert op in ops;
      if i < |es| {
        HeldHit(es, recent, wt, max, i);
      } else if op.OpAdd? && op.weight <= max {
        HeldAdd(es, recent, wt, max, op.key, op.value);
      }
    }
  }

  /** Over any history, the map holds exactly the longest prefix of the
      recency order of successful accesses that fits its capacity. */
  lemma Characterised<K(!new), V(!new)>(max: nat, ops: seq<Op<K, V>>, wt: K -> nat)
    requires FixedWeights(ops, wt)
    ensures Keys(After(max, ops)) == Recency(max, ops, wt)[..LongestFit(Recency(max, ops, wt), wt, max)]
    ensures Distinct(Keys(After(max, ops))) && Weight(After(max, ops)) <= max
  {
    HistoryHeld(max, ops, wt);
    HeldIsLongest(After(max, ops), Recency(max, ops, wt), wt, max);
  }

  // ----- The map itself -----

  /** An element of the list. Its address stands for a list iterator, which
      stays valid while the element moves. */
  class Node<K, V> {
    const entry: Entry<K, V>

    constructor (entry: Entry<K, V>)
      ensures this.entry == entry
    {
      this.entry := entry;
    }
  }

  ghost function EntriesOf<K, V>(list: seq<Node<K, V>>): (es: seq<Entry<K, V>>)
    ensures |es| == |list| && forall i | 0 <= i < |es| :: es[i] == list[i].entry
  {
    seq(|list|, i requires 0 <= i < |list| => list[i].entry)
  }

  /** List and map agree: the map has the list's keys, and leads to the element
      of each. No element, and so no key, appears twice. */
  ghost predicate Agree<K, V>(list: seq<Node<K, V>>, m: map<K, Node<K, V>>) {
    && (forall i | 0 <= i < |list| :: list[i].entry.key in m && m[list[i].entry.key] == list[i])
    && (forall k | k in m :: m[k] in list && m[k].entry.key == k)
    && Distinct(list)
  }

  lemma FrontAt<T>(s: seq<T>, i: nat, j: nat)
    requires i < |s| && j < |s|
    ensures ToFront(s, i)[j] == if j == 0 then s[i] else if j <= i then s[j - 1] else s[j]
  {
  }

  lemma FrontDistinct<T>(s: seq<T>, i: nat)
    requires i < |s| && Distinct(s)
    ensures Distinct(ToFront(s, i)) && |ToFront(s, i)| == |s|
  {
    hide ToFront;
    var t := ToFront(s, i);
    assert |t| == |s| by {
      FrontLength(s, i);
    }
    forall j, k | 0 <= j < k < |t|
      ensures t[j] != t[k]
    {
      FrontAt(s, i, j);
      FrontAt(s, i, k);
    }
  }

  lemma FrontLength<T>(s: seq<T>, i: nat)
    requires i < |s|
    ensures |ToFront(s, i)| == |s|
  {
  }

  lemma AgreeToFront<K, V>(list: seq<Node<K, V>>, m: map<K, Node<K, V>>, i: nat)
    requires Agree(list, m) && i < |list|
    ensures Agree(ToFront(list, i), m) && EntriesOf(ToFront(list, i)) == ToFront(EntriesOf(list), i)
  {
    hide ToFront;
    var moved := ToFront(list, i);
    FrontDistinct(list, i);
    FrontLength(EntriesOf(list), i);
    forall j | 0 <= j < |list|
      ensures moved[j] in list && EntriesOf(moved)[j] == ToFront(EntriesOf(list), i)[j]
    {
      FrontAt(list, i, j);
      FrontAt(EntriesOf(list), i, j);
    }
    forall k | k in m
      ensures m[k] in moved
    {
      var j :| 0 <= j < |list| && list[j] == m[k];
      var j' := if j == i then 0 else if j < i then j + 1 else j;
      FrontAt(list, i, j');
      assert moved[j'] == m[k];
    }
  }

  lemma AgreePop<K, V>(list: seq<Node<K, V>>, m: map<K, Node<K, V>>)
    requires Agree(list, m) && list != []
    ensures var n := |list| - 1;
            Agree(list[..n], map k | k in m && k != list[n].entry.key :: m[k]) && EntriesOf(list[..n]) == EntriesOf(list)[..n]
  {
    var n := |list| - 1;
    forall k | k in m && k != list[n].entry.key
      ensures m[k] in list[..n]
    {
      var i :| 0 <= i < |list| && list[i] == m[k];
      assert i < n;
      assert list[..n][i] == m[k];
    }
  }

  lemma AgreePush<K, V>(list: seq<Node<K, V>>, m: map<K, Node<K, V>>, node: Node<K, V>)
    requires Agree(list, m) && node.entry.key !in m
    ensures Agree([node] + list, m[node.entry.key := node]) && EntriesOf([node] + list) == [node.entry] + EntriesOf(list)
  {
    hide EntriesOf;
    assert node !in list;
    PushDistinct(list, node);
    PushEntries(list, node);
  }

  lemma PushDistinct<T>(s: seq<T>, x: T)
    requires Distinct(s) && x !in s
    ensures Distinct([x] + s)
  {
  }

  lemma PushEntries<K, V>(list: seq<Node<K, V>>, node: Node<K, V>)
    ensures EntriesOf([node] + list) == [node.entry] + EntriesOf(list)
  {
  }

  /** The map finds what the list holds, where the list holds it. */
  lemma KeyPosition<K, V>(list: seq<Node<K, V>>, m: map<K, Node<K, V>>, k: K)
    requires Agree(list, m)
    ensures var i := IndexOf(EntriesOf(list), k);
            (k in m <==> i < |list|) && (k in m ==> list[i] == m[k])
  {
    if k in m {
      var j :| 0 <= j < |list| && list[j] == m[k];
      assert EntriesOf(list)[j].key == k;
    }
  }

  class LRUMap<K(==), V> {
    var mLRU: seq<Node<K, V>> // in recency order
    var mMap: map<K, Node<K, V>>
    var mWeight: nat
    var mMaxWeight: nat

    ghost function Contents(): seq<Entry<K, V>>
      reads this
    {
      EntriesOf(mLRU)
    }

    ghost predicate Valid()
      reads this
    {
      Agree(mLRU, mMap) && mWeight == Weight(Contents())
    }

    constructor (maxWeight: nat)
      ensures Valid() && Contents() == [] && mMaxWeight == maxWeight
    {
      mLRU, mMap, mWeight, mMaxWeight := [], map[], 0, maxWeight;
    }

    method MakeRoom(newWeight: nat)
      requires Valid()
      modifies this
      ensures Valid() && Contents() == Fit(old(Contents()), newWeight) && mMaxWeight == old(mMaxWeight)
    {
      hide Agree;
      while mLRU != [] && mWeight > newWeight
        invariant Valid() && mMaxWeight == old(mMaxWeight)
        invariant Fit(Contents(), newWeight) == Fit(old(Contents()), newWeight)
        decreases |mLRU|
      {
        AgreePop(mLRU, mMap);
        var e := mLRU[|mLRU| - 1];
        mMap := map k | k in mMap && k != e.entry.key :: mMap[k]; // erase
        mWeight := mWeight - e.entry.weight;
        mLRU := mLRU[..|mLRU| - 1]; // pop_back
      }
    }

    /** Moves an element to the front of the list. */
    method MarkNew(node: Node<K, V>, ghost i: nat)
      requires Valid() && i < |mLRU| && mLRU[i] == node
      modifies this`mLRU
      ensures Valid() && Contents() == ToFront(old(Contents()), i)
    {
      hide Weight, Agree, EntriesOf, Position;
      WeightToFront(Contents(), i);
      AgreeDistinct(mLRU, mMap);
      AgreeToFront(mLRU, mMap, i);
      PositionIs(mLRU, i);
      var at := Position(mLRU, node);
      mLRU := [node] + mLRU[..at] + mLRU[at + 1..]; // splice
    }

    /** `maxWeight(w)`. */
    method SetMaxWeight(w: nat)
      requires Valid()
      modifies this
      ensures Valid() && mMaxWeight == w && Contents() == Fit(old(Contents()), w)
    {
      MakeRoom(w);
      mMaxWeight := w;
    }

    /** `add`. `ok` is false when the element is too large (`OverWeight`). */
    method Insert(k: K, v: V, w: nat) returns (ok: bool)
      requires Valid()
      modifies this
      ensures Valid() && mMaxWeight == old(mMaxWeight)
      ensures Outcome(Contents(), ok) == Add(old(Contents()), mMaxWeight, k, v, w)
    {
      hide Agree, Weight, Fit;
      KeyPosition(mLRU, mMap, k);
      if k in mMap { // the value held stays
        MarkNew(mMap[k], IndexOf(Contents(), k));
        return true;
      }
      if w > mMaxWeight {
        return false;
      }
      ghost var was := mMap;
      MakeRoom(mMaxWeight - w);
      KeyPosition(mLRU, mMap, k);
      ghost var es := Contents();
      assert IndexOf(es, k) == |es|;
      var node := new Node(Entry(k, v, w));
      AgreePush(mLRU, mMap, node);
      mWeight := mWeight + w;
      mLRU := [node] + mLRU; // push_front
      mMap := mMap[k := node];
      WeightAppend([Entry(k, v, w)], es);
      OneWeight(Entry(k, v, w));
      ok := true;
    }

    /** `find`. */
    method Lookup(k: K) returns (r: Option<V>)
      requires Valid()
      modifies this
      ensures Valid() && mMaxWeight == old(mMaxWeight)
      ensures Outcome(Contents(), r.Some?) == Find(old(Contents()), k)
      ensures r.Some? ==> Contents() != [] && Contents()[0].key == k && Contents()[0].value == r.value
    {
      hide Agree, Weight;
      KeyPosition(mLRU, mMap, k);
      if k !in mMap {
        return None;
      }
      var node := mMap[k];
      MarkNew(node, IndexOf(Contents(), k));
      r := Some(node.entry.value);
    }
  }

  function Position<T(==)>(s: seq<T>, x: T): (i: nat)
    requires x in s
    ensures i < |s| && s[i] == x && forall j | 0 <= j < i :: s[j] != x
  {
    if s[0] == x then 0 else 1 + Position(s[1..], x)
  }

  lemma PositionIs<T>(s: seq<T>, i: nat)
    requires Distinct(s) && i < |s|
    ensures Position(s, s[i]) == i
  {
  }

  lemma AgreeDistinct<K, V>(list: seq<Node<K, V>>, m: map<K, Node<K, V>>)
    requires Agree(list, m)
    ensures Distinct(list)
  {
  }
}
