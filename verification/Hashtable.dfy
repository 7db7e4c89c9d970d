/** The intrusive hash table of libjansson/hashtable.c. All pairs hang on one circular doubly linked
    list; a bucket is a pair of pointers into it, delimiting the contiguous run of the pairs that hash
    to that bucket. */
module Hashtables {
  import opened Options

  /** Bucket counts, indexed by `numBuckets`. */
  const PRIMES: seq<nat> := [
    5, 13, 23, 53, 97, 193, 389, 769, 1543, 3079, 6151, 12289, 24593,
    49157, 98317, 196613, 393241, 786433, 1572869, 3145739, 6291469,
    12582917, 25165843, 50331653, 100663319, 201326611, 402653189,
    805306457, 1610612741
  ]

  /** `num_buckets`: the number of buckets at `index`. */
  function NumBuckets(index: nat): (n: nat)
    requires index < |PRIMES|
    ensures n > 0
  {
    PRIMES[index]
  }

  lemma PrimesGrow(index: nat)
    requires index < |PRIMES| && NumBuckets(index) < NumBuckets(|PRIMES| - 1)
    ensures index + 1 < |PRIMES| && NumBuckets(index) < NumBuckets(index + 1)
  {}

  datatype Bucket<K, V> = Bucket(first: Link<K, V>, last: Link<K, V>)

  /** A run `[lo..hi)` of positions of the list. */
  datatype Run = Run(lo: nat, hi: nat)

  /** A key-value pair; the key and its hash never change, the value is overwritten in place. */
  class Pair<K, V> {
    const key: K
    const hash: nat
    var value: V

    constructor (key: K, hash: nat, value: V)
      ensures this.key == key && this.hash == hash && this.value == value
    {
      this.key, this.hash, this.value := key, hash, value;
    }
  }

  /** The list node embedded in a pair, or the sentinel, which has no pair around it. */
  class Link<K, V> {
    var prev: Link<K, V>
    var next: Link<K, V>
    const pair: Option<Pair<K, V>>

    constructor (pair: Option<Pair<K, V>>)
      ensures prev == this && next == this && this.pair == pair
    {
      this.pair := pair;
      prev := this;
      next := this;
    }
  }

  // ---------------------------------------------------------------- lists

  ghost function LinkSet<K, V>(order: seq<Link<K, V>>): set<Link<K, V>> {
    set l | l in order
  }

  lemma LinkSetFacts<K, V>(order: seq<Link<K, V>>)
    ensures forall l :: l in LinkSet(order) <==> l in order
  {}

  ghost predicate Distinct<T>(s: seq<T>) {
    forall i, j :: 0 <= i < j < |s| ==> s[i] != s[j]
  }

  /** The node at position `i` of the circular list, the sentinel `head` standing at both ends. */
  ghost function At<K, V>(head: Link<K, V>, order: seq<Link<K, V>>, i: int): Link<K, V> {
    if 0 <= i < |order| then order[i] else head
  }

  /** The first `k` links of a list without repetition. */
  lemma PrefixSetStep<K, V>(chain: seq<Link<K, V>>, k: nat)
    requires Distinct(chain) && k < |chain|
    ensures LinkSet(chain[..k]) <= LinkSet(chain)
    ensures LinkSet(chain[..k + 1]) == LinkSet(chain[..k]) + {chain[k]}
    ensures forall i :: k <= i < |chain| ==> chain[i] in LinkSet(chain) && chain[i] !in LinkSet(chain[..k])
  {}

  lemma InsertedLinkSet<K, V>(s: seq<Link<K, V>>, p: nat, x: Link<K, V>, t: seq<Link<K, V>>)
    requires Inserted(s, p, x, t)
    ensures LinkSet(t) == LinkSet(s) + {x} && |t| == |s| + 1
  {
    InsertedMembers(s, p, x, t);
  }

  ghost predicate Chained<K, V>(s: seq<Link<K, V>>)
    reads s
  {
    forall i, j :: 0 <= i && j == i + 1 && j < |s| ==> s[i].next == s[j] && s[j].prev == s[i]
  }

  /** `order` is the circular list that starts and ends at `head`. */
  ghost predicate Ring<K, V>(head: Link<K, V>, order: seq<Link<K, V>>)
    reads head, order
  {
    && head !in order
    && Distinct(order)
    && head.next == At(head, order, 0)
    && head.prev == At(head, order, |order| - 1)
    && (order != [] ==> order[0].prev == head && order[|order| - 1].next == head)
    && Chained(order)
  }

  /** `t` is `s` with `x` inserted at position `p`. */
  ghost predicate Inserted<T>(s: seq<T>, p: nat, x: T, t: seq<T>) {
    && |t| == |s| + 1
    && p <= |s|
    && t[p] == x
    && (forall i :: 0 <= i < p ==> t[i] == s[i])
    && (forall i :: p < i < |t| ==> t[i] == s[i - 1])
  }

  /** Inserting is reversible: this reads the same as "`s` is `t` with position `p` taken out". */
  function Insert<T>(s: seq<T>, p: nat, x: T): (t: seq<T>)
    requires p <= |s|
    ensures Inserted(s, p, x, t)
  {
    s[..p] + [x] + s[p..]
  }

  function Remove<T>(t: seq<T>, p: nat): (s: seq<T>)
    requires p < |t|
    ensures Inserted(s, p, t[p], t)
  {
    t[..p] + t[p + 1..]
  }

  lemma InsertedMembers<T>(s: seq<T>, p: nat, x: T, t: seq<T>)
    requires Inserted(s, p, x, t)
    ensures |t| == |s| + 1 && forall y :: y in t <==> y in s || y == x
  {
    assert t == s[..p] + [x] + s[p..];
  }

  lemma InsertedDistinct<T>(s: seq<T>, p: nat, x: T, t: seq<T>)
    requires Inserted(s, p, x, t)
    ensures Distinct(t) <==> Distinct(s) && x !in s
  {
    if Distinct(s) && x !in s {
    } else if x in s {
      var i :| 0 <= i < |s| && s[i] == x;
      assert t[if i < p then i else i + 1] == t[p];
    } else {
      var i, j :| 0 <= i < j < |s| && s[i] == s[j];
      assert t[if i < p then i else i + 1] == t[if j < p then j else j + 1];
    }
  }

  lemma RingFacts<K, V>(head: Link<K, V>, order: seq<Link<K, V>>)
    requires Ring(head, order)
    ensures head !in order && Distinct(order)
  {}

  lemma RingStep<K, V>(head: Link<K, V>, order: seq<Link<K, V>>, i: nat)
    requires Ring(head, order) && i < |order|
    ensures i + 1 < |order| ==> order[i].next == order[i + 1]
    ensures i + 1 == |order| ==> order[i].next == head
    ensures forall j :: 0 <= j < |order| && order[j] == order[i] ==> j == i
  {}

  lemma RingStepBack<K, V>(head: Link<K, V>, order: seq<Link<K, V>>, i: nat)
    requires Ring(head, order) && i < |order|
    ensures order[i].prev == At(head, order, i - 1) && order[i].next == At(head, order, i + 1)
  {}

  /** `list_insert`: links `node` before `list`. */
  method ListInsert<K, V>(list: Link<K, V>, node: Link<K, V>,
                          ghost head: Link<K, V>, ghost order: seq<Link<K, V>>, ghost p: nat, ghost order': seq<Link<K, V>>)
    requires Ring(head, order) && node != head && node !in order
    requires Inserted(order, p, node, order') && list == At(head, order, p)
    modifies head, node, order
    ensures Ring(head, order')
  {
    ghost var before := At(head, order, p - 1);
    assert list.prev == before;
    node.next := list;
    node.prev := list.prev;
    list.prev.next := node;
    list.prev := node;
    forall i, j | 0 <= i && j == i + 1 && j < |order'|
      ensures order'[i].next == order'[j] && order'[j].prev == order'[i]
    {
      assert i < p ==> order'[i] == order[i] && (i == p - 1 <==> order[i] == before);
      assert i > p ==> order'[i] == order[i - 1] && order[i - 1] != before;
      assert j < p ==> order'[j] == order[j] && order[j] != list;
      assert j > p ==> order'[j] == order[j - 1] && (j - 1 == p <==> order[j - 1] == list);
    }
    InsertedMembers(order, p, node, order');
    InsertedDistinct(order, p, node, order');
  }

  /** `list_remove`: unlinks `list`, which stands at position `p`. */
  method ListRemove<K, V>(list: Link<K, V>,
                          ghost head: Link<K, V>, ghost order: seq<Link<K, V>>, ghost p: nat, ghost order': seq<Link<K, V>>)
    requires Ring(head, order)
    requires Inserted(order', p, list, order)
    modifies head, order
    ensures Ring(head, order')
  {
    InsertedMembers(order', p, list, order);
    InsertedDistinct(order', p, list, order);
    assert list == order[p];
    assert list.prev == At(head, order, p - 1) && list.next == At(head, order, p + 1);
    list.prev.next := list.next;
    list.next.prev := list.prev;
    forall i, j | 0 <= i && j == i + 1 && j < |order'|
      ensures order'[i].next == order'[j] && order'[j].prev == order'[i]
    {
      assert i < p ==> order'[i] == order[i] && (i == p - 1 <==> order[i] == At(head, order, p - 1));
      assert i >= p ==> order'[i] == order[i + 1] && order[i + 1] != At(head, order, p - 1);
      assert j < p ==> order'[j] == order[j] && order[j] != At(head, order, p + 1);
      assert j >= p ==> order'[j] == order[j + 1] && (j == p <==> order[j + 1] == At(head, order, p + 1));
    }
  }

  // ---------------------------------------------------------------- runs

  /** `runs` cuts the list into one contiguous run per bucket; `slots[i]` is the bucket of position `i`. */
  ghost predicate Segmented(slots: seq<nat>, runs: seq<Run>) {
    && (forall b :: 0 <= b < |runs| ==> runs[b].lo <= runs[b].hi <= |slots|)
    && (forall i :: 0 <= i < |slots| ==> slots[i] < |runs| && runs[slots[i]].lo <= i < runs[slots[i]].hi)
    && (forall b, i :: 0 <= b < |runs| && runs[b].lo <= i < runs[b].hi ==> slots[i] == b)
  }

  /** Where a pair of bucket `b` goes: before the first of its run, or at the end of the list. */
  ghost function InsertionPoint(slots: seq<nat>, runs: seq<Run>, b: nat): (p: nat)
    requires Segmented(slots, runs) && b < |runs|
    ensures p <= |slots|
  {
    if runs[b].lo == runs[b].hi then |slots| else runs[b].lo
  }

  ghost function GrownRun(runs: seq<Run>, b: nat, p: nat, c: nat): Run
    requires b < |runs| && c < |runs|
  {
    if c == b then Run(p, p + 1 + (runs[b].hi - if runs[b].lo < runs[b].hi then runs[b].lo else runs[b].hi))
    else if runs[c].lo >= p then Run(runs[c].lo + 1, runs[c].hi + 1)
    else runs[c]
  }

  ghost function Grown(runs: seq<Run>, b: nat, p: nat): (r: seq<Run>)
    requires b < |runs|
    ensures |r| == |runs| && forall c :: 0 <= c < |r| ==> r[c] == GrownRun(runs, b, p, c)
  {
    seq(|runs|, c requires 0 <= c < |runs| => GrownRun(runs, b, p, c))
  }

  lemma InsertKeepsRuns(slots: seq<nat>, runs: seq<Run>, b: nat, slots': seq<nat>)
    requires Segmented(slots, runs) && b < |runs|
    requires Inserted(slots, InsertionPoint(slots, runs, b), b, slots')
    ensures Segmented(slots', Grown(runs, b, InsertionPoint(slots, runs, b)))
  {
    var p := InsertionPoint(slots, runs, b);
    var runs' := Grown(runs, b, p);
    forall i | 0 <= i < |slots'| ensures slots'[i] < |runs'| && runs'[slots'[i]].lo <= i < runs'[slots'[i]].hi {
      if i < p {
        assert slots'[i] == slots[i];
      } else if i > p {
        assert slots'[i] == slots[i - 1] && slots[p] == b;
      }
    }
    forall c, i | 0 <= c < |runs'| && runs'[c].lo <= i < runs'[c].hi ensures slots'[i] == c {
      if i < p {
        assert slots'[i] == slots[i];
      } else if i > p {
        assert slots'[i] == slots[i - 1];
      }
    }
  }

  ghost function ShrunkRun(runs: seq<Run>, b: nat, p: nat, c: nat): Run
    requires b < |runs| && c < |runs| && forall d :: 0 <= d < |runs| ==> runs[d].lo <= runs[d].hi
    requires runs[b].lo <= p < runs[b].hi
  {
    if c == b then Run(runs[b].lo, runs[b].hi - 1)
    else if runs[c].lo > p then Run(runs[c].lo - 1, runs[c].hi - 1)
    else if runs[c].lo == runs[c].hi then Run(0, 0)
    else runs[c]
  }

  ghost function Shrunk(runs: seq<Run>, b: nat, p: nat): (r: seq<Run>)
    requires b < |runs| && forall d :: 0 <= d < |runs| ==> runs[d].lo <= runs[d].hi
    requires runs[b].lo <= p < runs[b].hi
    ensures |r| == |runs| && forall c :: 0 <= c < |r| ==> r[c] == ShrunkRun(runs, b, p, c)
  {
    seq(|runs|, c requires 0 <= c < |runs| => ShrunkRun(runs, b, p, c))
  }

  lemma RemoveKeepsRuns(slots: seq<nat>, runs: seq<Run>, b: nat, p: nat, slots': seq<nat>)
    requires Segmented(slots, runs) && b < |runs| && p < |slots| && slots[p] == b
    requires Inserted(slots', p, b, slots)
    ensures Segmented(slots', Shrunk(runs, b, p))
  {
    var runs' := Shrunk(runs, b, p);
    forall i | 0 <= i < |slots'| ensures slots'[i] < |runs'| && runs'[slots'[i]].lo <= i < runs'[slots'[i]].hi {
      assert slots'[i] == if i < p then slots[i] else slots[i + 1];
      assert slots[p] == b;
    }
    forall c, i | 0 <= c < |runs'| && runs'[c].lo <= i < runs'[c].hi ensures slots'[i] == c {
      assert slots'[i] == if i < p then slots[i] else slots[i + 1];
      assert slots[p] == b;
    }
    forall c | 0 <= c < |runs'| ensures runs'[c].lo <= runs'[c].hi <= |slots'| {
      assert slots[p] == b;
    }
  }

  /** Links `node` in front of its bucket's run, or at the end of the list if the run is empty. */
  method InsertToBucket<K, V>(buckets: array<Bucket<K, V>>, index: nat, node: Link<K, V>,
                              head: Link<K, V>, ghost order: seq<Link<K, V>>, ghost p: nat, ghost order': seq<Link<K, V>>)
    requires Ring(head, order) && node != head && node !in order
    requires Inserted(order, p, node, order')
    requires index < buckets.Length
    requires At(head, order, p) == if buckets[index] == Bucket(head, head) then head else buckets[index].first
    modifies head, node, LinkSet(order), buckets
    ensures Ring(head, order')
    ensures buckets[..] == old(buckets[..])[index := Bucket(node, if old(buckets[index]) == Bucket(head, head) then node else old(buckets[index]).last)]
  {
    hide Ring, Inserted;
    if buckets[index] == Bucket(head, head) {
      ListInsert(head, node, head, order, p, order');
      buckets[index] := Bucket(node, node);
    } else {
      ListInsert(buckets[index].first, node, head, order, p, order');
      buckets[index] := buckets[index].(first := node);
    }
  }

  // ---------------------------------------------------------------- buckets

  function Slot(hash: nat, n: nat): (b: nat)
    requires n > 0
    ensures b < n
  {
    hash % n
  }

  ghost predicate Paired<K, V>(order: seq<Link<K, V>>) {
    forall i :: 0 <= i < |order| ==> order[i].pair.Some?
  }

  ghost function SlotsOf<K, V>(order: seq<Link<K, V>>, n: nat): (slots: seq<nat>)
    requires n > 0 && Paired(order)
    ensures |slots| == |order|
    ensures forall i :: 0 <= i < |order| ==> slots[i] == Slot(order[i].pair.value.hash, n)
  {
    seq<nat>(|order|, i requires 0 <= i < |order| => Slot(order[i].pair.value.hash, n))
  }

  // ---------------------------------------------------------------- where pairs end up

  /** The first position of a pair of bucket `b`, or the end. */
  function First(slots: seq<nat>, b: nat): (p: nat)
    ensures p <= |slots| && (p < |slots| ==> slots[p] == b) && forall i :: 0 <= i < p ==> slots[i] != b
  {
    if slots == [] || slots[0] == b then 0 else 1 + First(slots[1..], b)
  }

  lemma InsertionPointIsFirst(slots: seq<nat>, runs: seq<Run>, b: nat)
    requires Segmented(slots, runs) && b < |runs|
    ensures InsertionPoint(slots, runs, b) == First(slots, b)
  {
    var p := First(slots, b);
    assert p < |slots| ==> runs[b].lo <= p < runs[b].hi;
    assert runs[b].lo < runs[b].hi ==> slots[runs[b].lo] == b;
  }

  /** The order in which relinking the first `k` pairs of `chain` into `n` buckets leaves them: one by one, each before the
      first of its bucket, or at the end. It depends on nothing but the hash values. */
  ghost function Laid<K, V>(chain: seq<Link<K, V>>, k: nat, n: nat): (r: seq<Link<K, V>>)
    requires n > 0 && k <= |chain| && Paired(chain)
    ensures |r| == k && Paired(r)
  {
    if k == 0 then []
    else
      var s, x := Laid(chain, k - 1, n), chain[k - 1];
      Insert(s, First(SlotsOf(s, n), Slot(x.pair.value.hash, n)), x)
  }

  lemma NoneLaid<K, V>(chain: seq<Link<K, V>>, n: nat)
    requires Paired(chain)
    ensures n > 0 ==> Laid(chain, 0, n) == []
  {}

  lemma LaidNext<K, V>(chain: seq<Link<K, V>>, k: nat, n: nat, t: seq<Link<K, V>>)
    requires n > 0 && Paired(chain) && k < |chain|
    requires Inserted(Laid(chain, k, n), First(SlotsOf(Laid(chain, k, n), n), Slot(chain[k].pair.value.hash, n)), chain[k], t)
    ensures t == Laid(chain, k + 1, n)
  {
    hide First, Inserted;
    InsertedIsInsert(Laid(chain, k, n), First(SlotsOf(Laid(chain, k, n), n), Slot(chain[k].pair.value.hash, n)), chain[k], t);
  }

  lemma InsertedIsInsert<T>(s: seq<T>, p: nat, x: T, t: seq<T>)
    requires Inserted(s, p, x, t)
    ensures t == Insert(s, p, x)
  {}

  /** No two of the first `k` pairs of `chain` fall into one of `n` buckets. */
  ghost predicate Spread<K, V>(chain: seq<Link<K, V>>, k: nat, n: nat)
    requires n > 0 && k <= |chain| && Paired(chain)
  {
    forall i, j :: 0 <= i < j < k ==> Slot(chain[i].pair.value.hash, n) != Slot(chain[j].pair.value.hash, n)
  }

  /** Relinking keeps the order exactly if no two pairs come to share a bucket: a later one overtakes an earlier one. */
  lemma {:induction false} LaidInPlaceIff<K, V>(chain: seq<Link<K, V>>, k: nat, n: nat)
    requires n > 0 && k <= |chain| && Paired(chain) && Distinct(chain)
    ensures Laid(chain, k, n) == chain[..k] <==> Spread(chain, k, n)
    ensures LaidFrom(chain, k, n)
  {
    hide Laid, First, Spread, LaidFrom, Slot, SlotsOf, Distinct, LinkSet;
    if k == 0 {
      LaidNone(chain, n);
    } else {
      LaidInPlaceIff(chain, k - 1, n);
      LaidMembers(chain, k, n);
      if First(SlotsOf(Laid(chain, k - 1, n), n), Slot(chain[k - 1].pair.value.hash, n)) < k - 1 {
        Overtakes(chain, k, n);
      } else {
        Appends(chain, k, n);
      }
    }
  }

  lemma LaidNone<K, V>(chain: seq<Link<K, V>>, n: nat)
    requires n > 0 && Paired(chain)
    ensures Laid(chain, 0, n) == chain[..0] && Spread(chain, 0, n) && LaidFrom(chain, 0, n)
  {}

  /** Relinking lists the pairs it was given. */
  ghost predicate LaidFrom<K, V>(chain: seq<Link<K, V>>, k: nat, n: nat)
    requires n > 0 && k <= |chain| && Paired(chain)
  {
    LinkSet(Laid(chain, k, n)) == LinkSet(chain[..k])
  }

  lemma LaidMembers<K, V>(chain: seq<Link<K, V>>, k: nat, n: nat)
    requires n > 0 && 0 < k <= |chain| && Paired(chain) && Distinct(chain) && LaidFrom(chain, k - 1, n)
    ensures LaidFrom(chain, k, n)
  {
    hide First, LinkSet, Inserted, Insert, Distinct;
    var s, x := Laid(chain, k - 1, n), chain[k - 1];
    InsertedLinkSet(s, First(SlotsOf(s, n), Slot(x.pair.value.hash, n)), x, Laid(chain, k, n));
    PrefixSetStep(chain, k - 1);
  }

  lemma Overtakes<K, V>(chain: seq<Link<K, V>>, k: nat, n: nat)
    requires n > 0 && 0 < k <= |chain| && Paired(chain) && Distinct(chain) && LaidFrom(chain, k - 1, n)
    requires First(SlotsOf(Laid(chain, k - 1, n), n), Slot(chain[k - 1].pair.value.hash, n)) < k - 1
    ensures Laid(chain, k, n) != chain[..k] && !Spread(chain, k, n)
  {
    hide First;
    var s, x := Laid(chain, k - 1, n), chain[k - 1];
    var p := First(SlotsOf(s, n), Slot(x.pair.value.hash, n));
    assert Laid(chain, k, n)[p] == x && chain[..k][p] == chain[p] != x;
    FirstHits(SlotsOf(s, n), Slot(x.pair.value.hash, n));
    LinkSetFacts(s);
    LinkSetFacts(chain[..k - 1]);
    assert s[p] in chain[..k - 1];
    var i :| 0 <= i < k - 1 && chain[i] == s[p];
    assert Slot(chain[i].pair.value.hash, n) == Slot(chain[k - 1].pair.value.hash, n);
  }

  lemma FirstHits(slots: seq<nat>, b: nat)
    ensures First(slots, b) < |slots| ==> slots[First(slots, b)] == b
    ensures First(slots, b) >= |slots| ==> b !in slots
  {}

  lemma AppendCancels<T>(s: seq<T>, t: seq<T>, x: T)
    requires |s| == |t|
    ensures s + [x] == t + [x] <==> s == t
  {
    assert (s + [x])[..|s|] == s && (t + [x])[..|s|] == t;
  }

  lemma LaidAtEnd<K, V>(chain: seq<Link<K, V>>, k: nat, n: nat)
    requires n > 0 && 0 < k <= |chain| && Paired(chain)
    requires First(SlotsOf(Laid(chain, k - 1, n), n), Slot(chain[k - 1].pair.value.hash, n)) >= k - 1
    ensures Laid(chain, k, n) == Laid(chain, k - 1, n) + [chain[k - 1]]
  {
    hide First;
  }

  lemma Appends<K, V>(chain: seq<Link<K, V>>, k: nat, n: nat)
    requires n > 0 && 0 < k <= |chain| && Paired(chain) && LaidFrom(chain, k - 1, n)
    requires First(SlotsOf(Laid(chain, k - 1, n), n), Slot(chain[k - 1].pair.value.hash, n)) >= k - 1
    requires Laid(chain, k - 1, n) == chain[..k - 1] <==> Spread(chain, k - 1, n)
    ensures Laid(chain, k, n) == chain[..k] <==> Spread(chain, k, n)
  {
    hide First, Laid;
    var s, x := Laid(chain, k - 1, n), chain[k - 1];
    FirstHits(SlotsOf(s, n), Slot(x.pair.value.hash, n));
    LinkSetFacts(s);
    LinkSetFacts(chain[..k - 1]);
    LaidAtEnd(chain, k, n);
    AppendCancels(s, chain[..k - 1], x);
    assert chain[..k] == chain[..k - 1] + [x];
    forall i | 0 <= i < k - 1 ensures Slot(chain[i].pair.value.hash, n) != Slot(x.pair.value.hash, n) {
      assert chain[i] in chain[..k - 1];
      var j :| 0 <= j < |s| && s[j] == chain[i];
      assert SlotsOf(s, n)[j] != Slot(x.pair.value.hash, n);
    }
  }

  /** The same on hash values. */
  function LaidHashes(hashes: seq<nat>, k: nat, n: nat): (r: seq<nat>)
    requires n > 0 && k <= |hashes|
    ensures |r| == k
  {
    if k == 0 then []
    else
      var s := LaidHashes(hashes, k - 1, n);
      Insert(s, First(Remainders(s, n), Slot(hashes[k - 1], n)), hashes[k - 1])
  }

  function Remainders(hashes: seq<nat>, n: nat): (r: seq<nat>)
    requires n > 0
    ensures |r| == |hashes| && forall i :: 0 <= i < |r| ==> r[i] == Slot(hashes[i], n)
  {
    seq<nat>(|hashes|, i requires 0 <= i < |hashes| => Slot(hashes[i], n))
  }

  ghost function HashesOf<K, V>(order: seq<Link<K, V>>): (hs: seq<nat>)
    requires Paired(order)
    ensures |hs| == |order| && forall i :: 0 <= i < |order| ==> hs[i] == order[i].pair.value.hash
  {
    seq<nat>(|order|, i requires 0 <= i < |order| => order[i].pair.value.hash)
  }

  lemma {:induction false} LaidByHashes<K, V>(chain: seq<Link<K, V>>, k: nat, n: nat)
    requires n > 0 && k <= |chain| && Paired(chain)
    ensures HashesOf(Laid(chain, k, n)) == LaidHashes(HashesOf(chain), k, n)
  {
    if k > 0 {
      LaidByHashes(chain, k - 1, n);
      var s, x := Laid(chain, k - 1, n), chain[k - 1];
      SlotsByHashes(s, n);
      InsertByHashes(s, First(SlotsOf(s, n), Slot(x.pair.value.hash, n)), x);
    }
  }

  lemma SlotsByHashes<K, V>(s: seq<Link<K, V>>, n: nat)
    requires n > 0 && Paired(s)
    ensures SlotsOf(s, n) == Remainders(HashesOf(s), n)
  {}

  lemma InsertByHashes<K, V>(s: seq<Link<K, V>>, p: nat, x: Link<K, V>)
    requires Paired(s) && p <= |s| && x.pair.Some?
    ensures Paired(Insert(s, p, x)) && HashesOf(Insert(s, p, x)) == Insert(HashesOf(s), p, x.pair.value.hash)
  {}

  lemma LaidHashesNext(hashes: seq<nat>, k: nat, n: nat, s: seq<nat>, p: nat)
    requires n > 0 && k < |hashes| && LaidHashes(hashes, k, n) == s && p <= k
    requires forall i :: 0 <= i < p ==> Slot(s[i], n) != Slot(hashes[k], n)
    requires p < k ==> Slot(s[p], n) == Slot(hashes[k], n)
    ensures LaidHashes(hashes, k + 1, n) == Insert(s, p, hashes[k])
  {}

  /** Five pairs in five buckets: relinking them into thirteen puts the second before the first. */
  lemma RelinkingReorders()
    ensures LaidHashes([0, 13, 1, 2, 4], 5, 13) == [13, 0, 1, 2, 4]
  {
    hide LaidHashes, First;
    var hashes := [0, 13, 1, 2, 4];
    LaidHashesNone(hashes, 13);
    LaidHashesNext(hashes, 0, 13, [], 0);
    LaidHashesNext(hashes, 1, 13, [0], 0);
    LaidHashesNext(hashes, 2, 13, [13, 0], 2);
    LaidHashesNext(hashes, 3, 13, [13, 0, 1], 3);
    LaidHashesNext(hashes, 4, 13, [13, 0, 1, 2], 4);
  }

  lemma LaidHashesNone(hashes: seq<nat>, n: nat)
    requires n > 0
    ensures LaidHashes(hashes, 0, n) == []
  {}

  /** Each bucket points at the two ends of its run, or twice at the sentinel when the run is empty. */
  ghost predicate BucketsOk<K, V>(buckets: seq<Bucket<K, V>>, head: Link<K, V>, order: seq<Link<K, V>>, runs: seq<Run>) {
    && |buckets| == |runs|
    && forall b :: 0 <= b < |runs| ==>
      && runs[b].hi <= |order|
      && buckets[b] == if runs[b].lo < runs[b].hi then Bucket(order[runs[b].lo], order[runs[b].hi - 1]) else Bucket(head, head)
  }

  /** The buckets cut the list `order` into runs of the pairs that hash to them. */
  ghost predicate Bucketed<K, V>(buckets: seq<Bucket<K, V>>, head: Link<K, V>, order: seq<Link<K, V>>, runs: seq<Run>) {
    && |buckets| > 0
    && Paired(order)
    && Segmented(SlotsOf(order, |buckets|), runs)
    && BucketsOk(buckets, head, order, runs)
  }

  /** `bucket_is_empty` is right, and a new pair goes where `InsertionPoint` says. */
  lemma BucketFacts<K, V>(buckets: seq<Bucket<K, V>>, head: Link<K, V>, order: seq<Link<K, V>>, runs: seq<Run>, b: nat)
    requires Bucketed(buckets, head, order, runs) && b < |buckets| && head !in order
    ensures |runs| == |buckets| && runs[b].lo <= runs[b].hi <= |order|
    ensures buckets[b] == Bucket(head, head) <==> runs[b].lo == runs[b].hi
    ensures At(head, order, InsertionPoint(SlotsOf(order, |buckets|), runs, b)) ==
            if buckets[b] == Bucket(head, head) then head else buckets[b].first
  {}

  /** Bucket `b` delimits all the pairs that hash to it. */
  lemma RunFacts<K, V>(buckets: seq<Bucket<K, V>>, head: Link<K, V>, order: seq<Link<K, V>>, runs: seq<Run>, b: nat)
    returns (lo: nat, hi: nat)
    requires Bucketed(buckets, head, order, runs) && b < |buckets| && head !in order
    ensures lo <= hi <= |order|
    ensures forall i :: 0 <= i < |order| ==> order[i].pair.Some?
    ensures forall i :: 0 <= i < |order| && Slot(order[i].pair.value.hash, |buckets|) == b ==> lo <= i < hi
    ensures lo == hi ==> buckets[b] == Bucket(head, head)
    ensures lo < hi ==> buckets[b] == Bucket(order[lo], order[hi - 1]) && buckets[b] != Bucket(head, head)
  {
    hide Slot;
    lo, hi := runs[b].lo, runs[b].hi;
    var slots := SlotsOf(order, |buckets|);
    assert forall i :: 0 <= i < |order| ==> slots[i] == Slot(order[i].pair.value.hash, |buckets|);
  }

  lemma InsertMovesBuckets<K, V>(buckets: seq<Bucket<K, V>>, head: Link<K, V>, order: seq<Link<K, V>>, runs: seq<Run>,
                                 slots: seq<nat>, b: nat, node: Link<K, V>, order': seq<Link<K, V>>)
    requires BucketsOk(buckets, head, order, runs) && Segmented(slots, runs) && b < |runs| && |slots| == |order|
    requires Inserted(order, InsertionPoint(slots, runs, b), node, order')
    ensures BucketsOk(buckets[b := Bucket(node, if runs[b].lo == runs[b].hi then node else buckets[b].last)],
                      head, order', Grown(runs, b, InsertionPoint(slots, runs, b)))
  {
    var p := InsertionPoint(slots, runs, b);
    forall c | 0 <= c < |runs| && c != b && runs[c].lo < runs[c].hi
      ensures runs[c].lo > p || runs[c].hi <= p
    {
      if p < |slots| {
        assert slots[p] == b;
      }
    }
  }

  lemma InsertKeepsBuckets<K, V>(buckets: seq<Bucket<K, V>>, head: Link<K, V>, order: seq<Link<K, V>>, runs: seq<Run>,
                                 b: nat, node: Link<K, V>, order': seq<Link<K, V>>)
    requires Bucketed(buckets, head, order, runs) && head !in order && node.pair.Some?
    requires b == Slot(node.pair.value.hash, |buckets|)
    requires Inserted(order, InsertionPoint(SlotsOf(order, |buckets|), runs, b), node, order')
    ensures Bucketed(buckets[b := Bucket(node, if buckets[b] == Bucket(head, head) then node else buckets[b].last)],
                     head, order', Grown(runs, b, InsertionPoint(SlotsOf(order, |buckets|), runs, b)))
  {
    var slots := SlotsOf(order, |buckets|);
    var p := InsertionPoint(slots, runs, b);
    BucketFacts(buckets, head, order, runs, b);
    InsertMovesBuckets(buckets, head, order, runs, slots, b, node, order');
    hide BucketsOk, Segmented, InsertionPoint, Slot;
    forall i | 0 <= i < |order'| ensures order'[i].pair.Some? {
      assert order'[i] == if i < p then order[i] else if i == p then node else order[i - 1];
    }
    InsertKeepsRuns(slots, runs, b, SlotsOf(order', |buckets|));
  }

  /** The bucket after its node at position `p` of the list is unlinked. */
  ghost function ShrunkBucket<K, V>(bucket: Bucket<K, V>, head: Link<K, V>, order: seq<Link<K, V>>, p: nat): Bucket<K, V>
    requires p < |order|
  {
    if bucket == Bucket(order[p], order[p]) then Bucket(head, head)
    else if bucket.first == order[p] then bucket.(first := At(head, order, p + 1))
    else if bucket.last == order[p] then bucket.(last := At(head, order, p - 1))
    else bucket
  }

  lemma RemoveMovesBuckets<K, V>(buckets: seq<Bucket<K, V>>, head: Link<K, V>, order: seq<Link<K, V>>, runs: seq<Run>,
                                 slots: seq<nat>, b: nat, p: nat, order': seq<Link<K, V>>)
    requires BucketsOk(buckets, head, order, runs) && Segmented(slots, runs) && b < |runs| && |slots| == |order|
    requires head !in order && Distinct(order) && p < |order| && slots[p] == b
    requires Inserted(order', p, order[p], order)
    ensures BucketsOk(buckets[b := ShrunkBucket(buckets[b], head, order, p)], head, order', Shrunk(runs, b, p))
  {
    assert forall c :: 0 <= c < |runs| && runs[c].lo <= p < runs[c].hi ==> slots[p] == c;
    forall c | 0 <= c < |runs| && c != b && runs[c].lo < runs[c].hi
      ensures runs[c].lo > p || runs[c].hi <= p
    {
    }
  }

  lemma RemoveKeepsBuckets<K, V>(buckets: seq<Bucket<K, V>>, head: Link<K, V>, order: seq<Link<K, V>>, runs: seq<Run>,
                                 b: nat, p: nat, order': seq<Link<K, V>>) returns (runs': seq<Run>)
    requires Bucketed(buckets, head, order, runs) && head !in order && Distinct(order)
    requires p < |order| && b == Slot(order[p].pair.value.hash, |buckets|)
    requires Inserted(order', p, order[p], order)
    ensures Bucketed(buckets[b := ShrunkBucket(buckets[b], head, order, p)], head, order', runs')
  {
    var slots := SlotsOf(order, |buckets|);
    assert slots[p] == b;
    RemoveMovesBuckets(buckets, head, order, runs, slots, b, p, order');
    assert Segmented(slots, runs) && runs[b].lo <= p < runs[b].hi;
    forall i | 0 <= i < |order'| ensures order'[i].pair.Some? {
      assert order'[i] == if i < p then order[i] else order[i + 1];
    }
    RemoveKeepsRuns(slots, runs, b, p, SlotsOf(order', |buckets|));
    runs' := Shrunk(runs, b, p);
  }

  // ---------------------------------------------------------------- the table

  ghost predicate UniqueKeys<K, P, V>(order: seq<Link<K, V>>, ident: K -> P)
    requires Paired(order)
  {
    forall i, j :: 0 <= i < j < |order| ==> ident(order[i].pair.value.key) != ident(order[j].pair.value.key)
  }

  ghost predicate Hashed<K, P, V>(order: seq<Link<K, V>>, ident: K -> P, hashKey: P -> nat)
    requires Paired(order)
  {
    forall i :: 0 <= i < |order| ==> order[i].pair.value.hash == hashKey(ident(order[i].pair.value.key))
  }

  lemma InsertKeepsHashed<K, P, V>(order: seq<Link<K, V>>, p: nat, node: Link<K, V>, order': seq<Link<K, V>>, ident: K -> P, hashKey: P -> nat)
    requires Paired(order) && Hashed(order, ident, hashKey) && Inserted(order, p, node, order')
    requires node.pair.Some? && node.pair.value.hash == hashKey(ident(node.pair.value.key))
    ensures Paired(order') && Hashed(order', ident, hashKey)
  {
    assert forall i :: 0 <= i < |order'| ==> order'[i] == if i < p then order[i] else if i == p then node else order[i - 1];
  }

  lemma RemoveKeepsHashed<K, P, V>(order: seq<Link<K, V>>, p: nat, order': seq<Link<K, V>>, ident: K -> P, hashKey: P -> nat)
    requires p < |order| && Paired(order) && Hashed(order, ident, hashKey) && Inserted(order', p, order[p], order)
    ensures Paired(order') && Hashed(order', ident, hashKey)
  {
    assert forall i :: 0 <= i < |order'| ==> order'[i] == order[if i < p then i else i + 1];
  }

  lemma PairedFacts<K, V>(order: seq<Link<K, V>>)
    requires Paired(order)
    ensures forall i :: 0 <= i < |order| ==> order[i].pair.Some?
  {}

  lemma HashedFacts<K, P, V>(order: seq<Link<K, V>>, ident: K -> P, hashKey: P -> nat)
    requires Paired(order) && Hashed(order, ident, hashKey)
    ensures forall i :: 0 <= i < |order| ==> order[i].pair.value.hash == hashKey(ident(order[i].pair.value.key))
  {}

  ghost function PairsOf<K, V>(order: seq<Link<K, V>>): set<Pair<K, V>> {
    set l | l in order && l.pair.Some? :: l.pair.value
  }

  lemma PairsOfFacts<K, V>(order: seq<Link<K, V>>, i: nat)
    requires i < |order| && order[i].pair.Some?
    ensures order[i].pair.value in PairsOf(order)
  {}

  lemma PairsOfRemoved<K, V>(order: seq<Link<K, V>>, p: nat, node: Link<K, V>, order': seq<Link<K, V>>)
    requires Inserted(order', p, node, order)
    ensures PairsOf(order') <= PairsOf(order) && LinkSet(order') <= LinkSet(order)
  {
    InsertedMembers(order', p, node, order);
  }

  lemma PairsOfInserted<K, V>(order: seq<Link<K, V>>, p: nat, node: Link<K, V>, order': seq<Link<K, V>>)
    requires Inserted(order, p, node, order') && node.pair.Some?
    ensures PairsOf(order') == PairsOf(order) + {node.pair.value}
  {
    InsertedMembers(order, p, node, order');
  }

  ghost function ItemsOf<K, V>(order: seq<Link<K, V>>): (items: seq<(K, V)>)
    requires Paired(order)
    reads PairsOf(order)
    ensures |items| == |order|
    ensures forall i :: 0 <= i < |order| ==> items[i] == (order[i].pair.value.key, order[i].pair.value.value)
  {
    if order == [] then [] else
      ItemsOf(order[..|order| - 1]) + [(order[|order| - 1].pair.value.key, order[|order| - 1].pair.value.value)]
  }

  // ---------------------------------------------------------------- contents

  /** The map a list of pairs stands for; `ident` is the part of a key that `cmp_keys` looks at. */
  ghost function ToMap<K, P, V>(items: seq<(K, V)>, ident: K -> P): (m: map<P, (K, V)>) {
    if items == [] then map[] else ToMap(items[..|items| - 1], ident)[ident(items[|items| - 1].0) := items[|items| - 1]]
  }

  ghost predicate Unique<K, P, V>(items: seq<(K, V)>, ident: K -> P) {
    forall i, j :: 0 <= i < j < |items| ==> ident(items[i].0) != ident(items[j].0)
  }

  /** A pair is in the map exactly when it is in the list. */
  lemma {:induction false} ToMapItems<K, P, V>(items: seq<(K, V)>, ident: K -> P)
    requires Unique(items, ident)
    ensures forall x :: x in items ==> ident(x.0) in ToMap(items, ident) && ToMap(items, ident)[ident(x.0)] == x
    ensures forall q :: q in ToMap(items, ident) ==> ToMap(items, ident)[q] in items && ident(ToMap(items, ident)[q].0) == q
    ensures |ToMap(items, ident)| == |items|
  {
    if items != [] {
      var front, last := items[..|items| - 1], items[|items| - 1];
      ToMapItems(front, ident);
      assert items == front + [last];
      assert ident(last.0) !in ToMap(front, ident);
    }
  }

  lemma ToMapUnique<K, P, V>(items: seq<(K, V)>, ident: K -> P, m: map<P, (K, V)>)
    requires Unique(items, ident)
    requires forall x :: x in items ==> ident(x.0) in m && m[ident(x.0)] == x
    requires forall q :: q in m ==> m[q] in items && ident(m[q].0) == q
    ensures m == ToMap(items, ident)
  {
    ToMapItems(items, ident);
  }

  lemma InsertedNewKey<K, P, V>(s: seq<(K, V)>, p: nat, x: (K, V), t: seq<(K, V)>, ident: K -> P)
    requires Inserted(s, p, x, t) && Unique(t, ident)
    ensures forall q :: q in s ==> ident(q.0) != ident(x.0)
  {
    forall q | q in s ensures ident(q.0) != ident(x.0) {
      var i :| 0 <= i < |s| && s[i] == q;
      assert t[if i < p then i else i + 1] == q && t[p] == x;
    }
  }

  lemma InsertedMap<K, P, V>(s: seq<(K, V)>, p: nat, x: (K, V), t: seq<(K, V)>, ident: K -> P)
    requires Inserted(s, p, x, t) && Unique(s, ident) && Unique(t, ident)
    ensures ToMap(t, ident) == ToMap(s, ident)[ident(x.0) := x]
    ensures ident(x.0) !in ToMap(s, ident)
  {
    hide ToMap, Inserted, Unique;
    ToMapItems(s, ident);
    InsertedMembers(s, p, x, t);
    InsertedNewKey(s, p, x, t, ident);
    ToMapUnique(t, ident, ToMap(s, ident)[ident(x.0) := x]);
  }

  lemma RemovedMap<K, P, V>(s: seq<(K, V)>, p: nat, x: (K, V), t: seq<(K, V)>, ident: K -> P)
    requires Inserted(s, p, x, t) && Unique(s, ident) && Unique(t, ident)
    ensures ToMap(s, ident) == ToMap(t, ident) - {ident(x.0)}
  {
    InsertedMap(s, p, x, t, ident);
  }

  lemma UpdatedMap<K, P, V>(s: seq<(K, V)>, i: nat, value: V, ident: K -> P)
    requires Unique(s, ident) && i < |s|
    ensures Unique(s[i := (s[i].0, value)], ident)
    ensures ToMap(s[i := (s[i].0, value)], ident) == ToMap(s, ident)[ident(s[i].0) := (s[i].0, value)]
  {
    hide ToMap;
    var t := s[i := (s[i].0, value)];
    ToMapItems(s, ident);
    var m := ToMap(s, ident)[ident(s[i].0) := (s[i].0, value)];
    forall x | x in t ensures ident(x.0) in m && m[ident(x.0)] == x {
      var j :| 0 <= j < |t| && t[j] == x;
      assert j != i ==> s[j] == x && x in s;
    }
    forall q | q in m ensures m[q] in t && ident(m[q].0) == q {
      if q == ident(s[i].0) {
        assert t[i] in t;
      } else {
        var j :| 0 <= j < |s| && s[j] == m[q];
        assert t[j] == m[q];
      }
    }
    ToMapUnique(t, ident, m);
  }

  lemma SameItemsSameMap<K, P, V>(s: seq<(K, V)>, t: seq<(K, V)>, ident: K -> P)
    requires (forall x :: x in s <==> x in t) && Unique(s, ident) && Unique(t, ident)
    ensures ToMap(s, ident) == ToMap(t, ident)
  {
    ToMapItems(s, ident);
    ToMapItems(t, ident);
  }

  // ---------------------------------------------------------------- pairs and their contents

  lemma UniqueItems<K, P, V>(order: seq<Link<K, V>>, ident: K -> P)
    requires Paired(order) && UniqueKeys(order, ident)
    ensures Unique(ItemsOf(order), ident)
  {}

  lemma ItemsInserted<K, V>(order: seq<Link<K, V>>, p: nat, node: Link<K, V>, order': seq<Link<K, V>>)
    requires Paired(order) && Paired(order') && Inserted(order, p, node, order') && node.pair.Some?
    ensures Inserted(ItemsOf(order), p, (node.pair.value.key, node.pair.value.value), ItemsOf(order'))
  {}

  lemma SameLinksSameItems<K, V>(order: seq<Link<K, V>>, order': seq<Link<K, V>>)
    requires Paired(order) && Paired(order') && forall l :: l in order <==> l in order'
    ensures forall x :: x in ItemsOf(order) <==> x in ItemsOf(order')
  {
    forall x | x in ItemsOf(order) ensures x in ItemsOf(order') {
      var i :| 0 <= i < |order| && ItemsOf(order)[i] == x;
      assert order[i] in order';
      var j :| 0 <= j < |order'| && order'[j] == order[i];
      assert ItemsOf(order')[j] == x;
    }
    forall x | x in ItemsOf(order') ensures x in ItemsOf(order) {
      var i :| 0 <= i < |order'| && ItemsOf(order')[i] == x;
      assert order'[i] in order;
      var j :| 0 <= j < |order| && order[j] == order'[i];
      assert ItemsOf(order)[j] == x;
    }
  }

  lemma InsertKeepsUnique<K, P, V>(order: seq<Link<K, V>>, p: nat, node: Link<K, V>, order': seq<Link<K, V>>, ident: K -> P)
    requires Paired(order) && UniqueKeys(order, ident) && node.pair.Some? && Inserted(order, p, node, order')
    requires forall i :: 0 <= i < |order| ==> ident(order[i].pair.value.key) != ident(node.pair.value.key)
    ensures Paired(order') && UniqueKeys(order', ident)
  {
    assert forall i :: 0 <= i < |order'| ==> order'[i] == if i < p then order[i] else if i == p then node else order[i - 1];
  }

  lemma RemoveKeepsUnique<K, P, V>(order: seq<Link<K, V>>, p: nat, node: Link<K, V>, order': seq<Link<K, V>>, ident: K -> P)
    requires Paired(order') && UniqueKeys(order', ident) && Inserted(order, p, node, order')
    ensures Paired(order) && UniqueKeys(order, ident)
  {
    assert forall i :: 0 <= i < |order| ==> order[i] == order'[if i < p then i else i + 1];
  }

  lemma PermutationKeepsUnique<K, P, V>(order: seq<Link<K, V>>, order': seq<Link<K, V>>, ident: K -> P)
    requires Paired(order) && UniqueKeys(order, ident) && Distinct(order') && forall l :: l in order' ==> l in order
    ensures Paired(order') && UniqueKeys(order', ident)
  {
    forall i | 0 <= i < |order'| ensures order'[i].pair.Some? {
      assert order'[i] in order;
    }
    forall i, j | 0 <= i < j < |order'| ensures ident(order'[i].pair.value.key) != ident(order'[j].pair.value.key) {
      assert order'[i] in order && order'[j] in order;
      var k :| 0 <= k < |order| && order[k] == order'[i];
      var l :| 0 <= l < |order| && order[l] == order'[j];
    }
  }

  /** `pair->value = value` for the pair at position `i`. */
  method SetValue<K, P, V>(pair: Pair<K, V>, value: V, ghost order: seq<Link<K, V>>, ghost i: nat, ghost ident: K -> P)
    requires Paired(order) && UniqueKeys(order, ident) && i < |order| && order[i].pair == Some(pair)
    modifies pair
    ensures ItemsOf(order) == old(ItemsOf(order))[i := (pair.key, value)] && old(pair.value) == old(ItemsOf(order))[i].1
  {
    pair.value := value;
  }

  class Hashtable<K, P(==), V> {
    const ident: K -> P
    const hashKey: P -> nat
    const head: Link<K, V>
    var size: nat
    var buckets: array<Bucket<K, V>>
    var numBuckets: nat

    ghost var order: seq<Link<K, V>>
    ghost var runs: seq<Run>

    ghost function Repr(): set<object>
      reads this
    {
      {this, buckets, head} + LinkSet(order) + PairsOf(order)
    }

    /** The list, the buckets and the pairs agree. */
    ghost predicate Shape()
      reads this, head, buckets, order
    {
      && Ring(head, order)
      && Bucketed(buckets[..], head, order, runs)
      && Hashed(order, ident, hashKey)
    }

    ghost predicate Valid()
      reads this, head, buckets, order
    {
      && Shape()
      && UniqueKeys(order, ident)
      && numBuckets < |PRIMES| && buckets.Length == NumBuckets(numBuckets)
      && size == |order| <= buckets.Length
    }

    constructor (ident: K -> P, hashKey: P -> nat)
      ensures Valid() && fresh(Repr()) && order == []
      ensures this.ident == ident && this.hashKey == hashKey
    {
      hide Valid, Shape, Ring, Bucketed, Hashed, UniqueKeys, NumBuckets;
      this.ident, this.hashKey := ident, hashKey;
      size := 0;
      numBuckets := 0;
      var list := new Link<K, V>(None);
      head := list;
      buckets := new Bucket<K, V>[NumBuckets(0)](_ => Bucket(list, list));
      order, runs := [], seq(NumBuckets(0), _ => Run(0, 0));
      new;
      EmptyValid();
    }

    /** Puts a new pair in its bucket. */
    method AddPair(index: nat, node: Link<K, V>) returns (ghost p: nat)
      requires Shape() && index < buckets.Length
      requires node != head && node !in LinkSet(order) && node.pair.Some?
      requires node.pair.value.hash == hashKey(ident(node.pair.value.key))
      requires Slot(node.pair.value.hash, buckets.Length) == index
      modifies this`order, this`runs, buckets, head, node, LinkSet(order)
      ensures Shape()
      ensures Inserted(old(order), p, node, order) && LinkSet(order) == old(LinkSet(order)) + {node} && |order| == |old(order)| + 1
      ensures p == First(SlotsOf(old(order), buckets.Length), index)
    {
      hide *;
      LinkSetFacts(order);
      ghost var order', runs';
      p, order', runs' := InsertKeepsShape(index, node);
      InsertToBucket(buckets, index, node, head, order, p, order');
      InsertedLinkSet(order, p, node, order');
      order, runs := order', runs';
      ShapeIntro();
    }

    lemma ShapeFacts()
      requires Shape()
      ensures Ring(head, order) && Bucketed(buckets[..], head, order, runs) && Paired(order) && Hashed(order, ident, hashKey)
      ensures buckets.Length > 0
    {}

    lemma ShapeIntro()
      requires Ring(head, order) && Bucketed(buckets[..], head, order, runs) && Hashed(order, ident, hashKey)
      ensures Shape()
    {}

    lemma InsertKeepsShape(index: nat, node: Link<K, V>) returns (p: nat, order': seq<Link<K, V>>, runs': seq<Run>)
      requires Shape() && index < buckets.Length
      requires node != head && node !in LinkSet(order) && node.pair.Some?
      requires node.pair.value.hash == hashKey(ident(node.pair.value.key))
      requires Slot(node.pair.value.hash, buckets.Length) == index
      ensures Inserted(order, p, node, order') && p == First(SlotsOf(order, buckets.Length), index)
      ensures Ring(head, order) && Paired(order') && Hashed(order', ident, hashKey)
      ensures At(head, order, p) == if buckets[index] == Bucket(head, head) then head else buckets[index].first
      ensures Bucketed(buckets[..][index := Bucket(node, if buckets[index] == Bucket(head, head) then node else buckets[index].last)],
                       head, order', runs')
    {
      hide Ring, BucketsOk, Segmented, Hashed, Inserted, Slot, At, InsertionPoint, Paired, SlotsOf, Grown;
      assert |buckets[..]| == buckets.Length;
      RingFacts(head, order);
      BucketFacts(buckets[..], head, order, runs, index);
      p := InsertionPoint(SlotsOf(order, buckets.Length), runs, index);
      InsertionPointIsFirst(SlotsOf(order, buckets.Length), runs, index);
      order' := Insert(order, p, node);
      runs' := Grown(runs, index, p);
      InsertKeepsBuckets(buckets[..], head, order, runs, index, node, order');
      InsertKeepsHashed(order, p, node, order', ident, hashKey);
    }

    /** `hashtable_find_pair`: walks the run of the bucket. */
    method FindPair(index: nat, p: P, hash: nat) returns (list: Link?<K, V>, ghost at: nat)
      requires Shape() && hash == hashKey(p) && index < buckets.Length && index == Slot(hash, buckets.Length)
      ensures Paired(order)
      ensures list != null ==> at < |order| && order[at] == list && ident(list.pair.value.key) == p
      ensures list == null ==> forall i :: 0 <= i < |order| ==> ident(order[i].pair.value.key) != p
    {
      hide *;
      ShapeFacts();
      RingFacts(head, order);
      ghost var lo, hi := RunFacts(buckets[..], head, order, runs, index);
      HashedFacts(order, ident, hashKey);
      if buckets[index] == Bucket(head, head) {
        return null, 0;
      }
      list, at := buckets[index].first, lo;
      while true
        invariant lo <= at < hi && order[at] == list
        invariant forall i :: lo <= i < at ==> ident(order[i].pair.value.key) != p
        decreases hi - at
      {
        var pair := list.pair.value;
        if pair.hash == hash && ident(pair.key) == p {
          return list, at;
        }
        RingStep(head, order, at);
        if list == buckets[index].last {
          break;
        }
        list, at := list.next, at + 1;
      }
      return null, 0;
    }

    lemma EmptyShape()
      requires Ring(head, []) && order == [] && buckets.Length > 0 && |runs| == buckets.Length
      requires forall b :: 0 <= b < |runs| ==> runs[b] == Run(0, 0) && buckets[b] == Bucket(head, head)
      ensures Shape()
    {}

    /** `hashtable_do_rehash`: the next prime number of buckets, every pair relinked in place. */
    method Rehash()
      requires Shape() && numBuckets + 1 < |PRIMES|
      modifies this`numBuckets, this`buckets, this`order, this`runs, head, LinkSet(order)
      ensures Shape() && fresh(buckets)
      ensures numBuckets == old(numBuckets) + 1 && buckets.Length == NumBuckets(numBuckets)
      ensures |order| == |old(order)| && LinkSet(order) == old(LinkSet(order))
      ensures order == Laid(old(order), |old(order)|, buckets.Length)
    {
      hide Segmented, BucketsOk, Hashed, NumBuckets, Laid;
      ShapeFacts();
      ghost var chain := order;
      numBuckets := numBuckets + 1;
      var newSize := NumBuckets(numBuckets);
      buckets := new Bucket<K, V>[newSize](_ => Bucket(head, head));
      var list := head.next;
      head.next := head;
      head.prev := head;
      order, runs := [], seq(newSize, _ => Run(0, 0));
      EmptyShape();
      RelinkChain(list, chain);
    }

    /** Walks what is left of the old chain, moving each pair into the new list. */
    method RelinkChain(first: Link<K, V>, ghost chain: seq<Link<K, V>>)
      requires Shape() && order == [] && first == At(head, chain, 0)
      requires head !in LinkSet(chain) && Distinct(chain)
      requires forall i, j :: 0 <= i && j == i + 1 && j < |chain| ==> chain[i].next == chain[j]
      requires chain != [] ==> chain[|chain| - 1].next == head
      requires Paired(chain) && Hashed(chain, ident, hashKey)
      modifies this`order, this`runs, buckets, head, LinkSet(chain)
      ensures Shape()
      ensures |order| == |chain| && LinkSet(order) == LinkSet(chain)
      ensures order == Laid(chain, |chain|, buckets.Length)
    {
      hide Shape, Ring, Bucketed, Paired, Hashed, Slot, Inserted, First, Laid;
      PairedFacts(chain);
      NoneLaid(chain, buckets.Length);
      HashedFacts(chain, ident, hashKey);
      ShapeFacts();
      var list := first;
      ghost var k := 0;
      while list != head
        invariant k <= |chain| && list == At(head, chain, k)
        invariant forall i, j :: k <= i && j == i + 1 && j < |chain| ==> chain[i].next == chain[j]
        invariant k < |chain| ==> chain[|chain| - 1].next == head
        invariant Shape()
        invariant |order| == k && LinkSet(order) == LinkSet(chain[..k])
        invariant buckets.Length > 0 && order == Laid(chain, k, buckets.Length)
        decreases |chain| - k
      {
        ShapeFacts();
        PrefixSetStep(chain, k);
        var next := list.next;
        ghost var p := AddPair(Slot(list.pair.value.hash, buckets.Length), list);
        LaidNext(chain, k, buckets.Length, order);
        list := next;
        k := k + 1;
      }
    }

    // ------------------------------------------------ interface

    /** The pairs in iteration order. */
    ghost function Items(): (items: seq<(K, V)>)
      reads this, PairsOf(order)
      requires Paired(order)
    {
      ItemsOf(order)
    }

    /** The finite map the table implements: each key with the key object and the value stored for it. */
    ghost function Map(): map<P, (K, V)>
      reads this, PairsOf(order)
      requires Paired(order)
    {
      ToMap(ItemsOf(order), ident)
    }

    lemma ValidFacts()
      requires Valid()
      ensures Shape() && Paired(order) && UniqueKeys(order, ident) && buckets.Length > 0
      ensures numBuckets < |PRIMES| && buckets.Length == NumBuckets(numBuckets) && size == |order| <= buckets.Length
      ensures head !in LinkSet(order)
    {}

    lemma ValidIntro()
      requires Shape() && Paired(order) && UniqueKeys(order, ident)
      requires numBuckets < |PRIMES| && buckets.Length == NumBuckets(numBuckets) && size == |order| <= buckets.Length
      ensures Valid()
    {}

    lemma MapDef()
      requires Paired(order)
      ensures Items() == ItemsOf(order) && Map() == ToMap(ItemsOf(order), ident)
    {}

    lemma MapAt(i: nat)
      requires Paired(order) && UniqueKeys(order, ident) && i < |order|
      ensures ident(order[i].pair.value.key) in Map()
      ensures Map()[ident(order[i].pair.value.key)] == (order[i].pair.value.key, order[i].pair.value.value)
    {
      UniqueItems(order, ident);
      ToMapItems(ItemsOf(order), ident);
      assert ItemsOf(order)[i] in ItemsOf(order);
    }

    lemma MapMisses(p: P)
      requires Paired(order) && UniqueKeys(order, ident)
      requires forall i :: 0 <= i < |order| ==> ident(order[i].pair.value.key) != p
      ensures p !in Map()
    {
      UniqueItems(order, ident);
      ToMapItems(ItemsOf(order), ident);
    }

    /** `hashtable_get`. */
    method Get(p: P) returns (value: Option<V>)
      requires Valid()
      ensures Paired(order)
      ensures value == if p in Map() then Some(Map()[p].1) else None
    {
      hide *;
      ValidFacts();
      var hash := hashKey(p);
      var list, at := FindPair(Slot(hash, buckets.Length), p, hash);
      if list == null {
        MapMisses(p);
        return None;
      }
      MapAt(at);
      return Some(list.pair.value.value);
    }

    /** The order once there is room for one more pair: the present one, or that of all pairs relinked. */
    ghost function Roomy(): (r: seq<Link<K, V>>)
      reads this, head, buckets, order
      requires Valid() && size < NumBuckets(|PRIMES| - 1)
      ensures |r| == |order| && Paired(r)
    {
      if size < buckets.Length then order
      else
        PrimesGrow(numBuckets);
        Laid(order, |order|, NumBuckets(numBuckets + 1))
    }

    /** Making room, and so setting a known key again, keeps the order exactly if the table is not full or its hash values
        are different modulo the next prime. */
    lemma OrderKeptIff()
      requires Valid() && size < NumBuckets(|PRIMES| - 1)
      ensures Roomy() == order <==> size < buckets.Length || Scattered()
    {
      hide Ring, Bucketed, Hashed, UniqueKeys, NumBuckets, Laid, Spread;
      ValidFacts();
      ShapeFacts();
      RingFacts(head, order);
      if size >= buckets.Length {
        PrimesGrow(numBuckets);
        LaidInPlaceIff(order, |order|, NumBuckets(numBuckets + 1));
        assert order[..|order|] == order;
      }
    }

    ghost predicate Scattered()
      reads this, head, buckets, order
      requires Valid() && buckets.Length <= size < NumBuckets(|PRIMES| - 1)
    {
      PrimesGrow(numBuckets);
      Spread(order, |order|, NumBuckets(numBuckets + 1))
    }

    /** Setting a key again in this full table moves the pair of hash value 13 in front of the one of hash value 0. */
    lemma FullTableReorders()
      requires Valid() && numBuckets == 0 && HashesOf(order) == [0, 13, 1, 2, 4]
      ensures size < NumBuckets(|PRIMES| - 1) && HashesOf(Roomy()) == [13, 0, 1, 2, 4]
    {
      hide Ring, Bucketed, Hashed, UniqueKeys, Laid, LaidHashes;
      PrimesGrow(0);
      ValidFacts();
      LaidByHashes(order, |order|, NumBuckets(1));
      RelinkingReorders();
    }

    /** `hashtable_set`, first half: rehash if the load ratio would exceed 1. */
    method EnsureRoom()
      requires Valid() && size < NumBuckets(|PRIMES| - 1)
      modifies this`numBuckets, this`buckets, this`order, this`runs, head, LinkSet(order)
      ensures Valid() && size < buckets.Length && (buckets == old(buckets) || fresh(buckets))
      ensures LinkSet(order) == old(LinkSet(order)) && PairsOf(order) == old(PairsOf(order))
      ensures Map() == old(Map())
      ensures order == old(Roomy())
      ensures old(size) < old(buckets.Length) ==> buckets == old(buckets) && Items() == old(Items())
    {
      hide Ring, Bucketed, Hashed, UniqueKeys, NumBuckets, ToMap, ItemsOf, PairsOf, LinkSet, Paired;
      ShapeFacts();
      if size >= NumBuckets(numBuckets) {
        PrimesGrow(numBuckets);
        ghost var chain := order;
        ghost var items := ItemsOf(chain);
        Rehash();
        assert ItemsOf(chain) == items;
        RehashKeepsMap(chain);
      }
    }

    lemma RehashKeepsMap(chain: seq<Link<K, V>>)
      requires Shape() && Paired(chain) && UniqueKeys(chain, ident) && LinkSet(order) == LinkSet(chain)
      ensures Paired(order) && UniqueKeys(order, ident) && PairsOf(order) == PairsOf(chain)
      ensures Map() == ToMap(ItemsOf(chain), ident)
    {
      hide Shape, Ring, Bucketed, Hashed;
      ShapeFacts();
      RingFacts(head, order);
      LinkSetFacts(order);
      LinkSetFacts(chain);
      PermutationKeepsUnique(chain, order, ident);
      SameLinksSameItems(chain, order);
      UniqueItems(chain, ident);
      UniqueItems(order, ident);
      SameItemsSameMap(ItemsOf(chain), ItemsOf(order), ident);
    }

    /** `hashtable_set`, second half when the key is there: the pair keeps its key and gets the value. */
    method Overwrite(list: Link<K, V>, value: V, ghost at: nat) returns (displaced: V)
      requires Valid() && at < |order| && order[at] == list && list.pair.Some?
      modifies PairsOf(order)
      ensures Valid()
      ensures ident(list.pair.value.key) in old(Map()) && displaced == old(Map())[ident(list.pair.value.key)].1
      ensures displaced == old(Items())[at].1 && Items() == old(Items())[at := (list.pair.value.key, value)]
      ensures Map() == old(Map())[ident(list.pair.value.key) := (old(Map())[ident(list.pair.value.key)].0, value)]
    {
      hide *;
      ValidFacts();
      MapAt(at);
      UniqueItems(order, ident);
      UpdatedMap(ItemsOf(order), at, value, ident);
      PairsOfFacts(order, at);
      MapDef();
      displaced := list.pair.value.value;
      SetValue(list.pair.value, value, order, at, ident);
      MapDef();
    }

    /** A new pair stands before the first of its bucket in `base`, or at the end if its bucket was empty. */
    ghost predicate Arrived(base: seq<Link<K, V>>, hash: nat)
      reads this
      requires Paired(base) && buckets.Length > 0
    {
      var p := First(SlotsOf(base, buckets.Length), Slot(hash, buckets.Length));
      && p < |order| && Inserted(base, p, order[p], order)
      && order[p].pair.Some? && order[p].pair.value.hash == hash
    }

    lemma ArrivedIntro(base: seq<Link<K, V>>, p: nat, node: Link<K, V>, hash: nat)
      requires Paired(base) && buckets.Length > 0 && Inserted(base, p, node, order)
      requires p == First(SlotsOf(base, buckets.Length), Slot(hash, buckets.Length))
      requires node.pair.Some? && node.pair.value.hash == hash
      ensures Arrived(base, hash)
    {}

    /** `hashtable_set`, second half when the key is new. */
    method Append(key: K, value: V, hash: nat) returns (ghost p: nat, ghost node: Link<K, V>)
      requires Valid() && size < buckets.Length && hash == hashKey(ident(key))
      requires forall i :: 0 <= i < |order| ==> ident(order[i].pair.value.key) != ident(key)
      modifies this`order, this`runs, this`size, buckets, head, LinkSet(order)
      ensures Valid()
      ensures Inserted(old(order), p, node, order) && Inserted(old(Items()), p, (key, value), Items())
      ensures LinkSet(order) == old(LinkSet(order)) + {node} && PairsOf(order) == old(PairsOf(order)) + {node.pair.value}
      ensures Arrived(old(order), hash)
      ensures fresh(node) && fresh(node.pair.value)
      ensures Map() == old(Map())[ident(key) := (key, value)] && ident(key) !in old(Map())
    {
      hide Valid, Shape, Ring, Bucketed, Paired, Hashed, UniqueKeys, ToMap, ItemsOf, Map, Items, NumBuckets, Inserted, Slot, SlotsOf, Arrived,
        First, Unique, Distinct, At, Chained, Laid;
      ValidFacts();
      MapDef();
      ghost var chain := order;
      ghost var items := ItemsOf(order);
      LinkSetFacts(order);
      var pair := new Pair<K, V>(key, hash, value);
      var list := new Link<K, V>(Some(pair));
      assert list !in LinkSet(order);
      p := AddPair(Slot(hash, buckets.Length), list);
      ShapeFacts();
      size := size + 1;
      ShapeIntro();
      node := list;
      InsertKeepsUnique(chain, p, node, order, ident);
      assert ItemsOf(chain) == items;
      ItemsInserted(chain, p, node, order);
      UniqueItems(chain, ident);
      UniqueItems(order, ident);
      InsertedMap(items, p, (key, value), ItemsOf(order), ident);
      PairsOfInserted(chain, p, node, order);
      ArrivedIntro(chain, p, node, hash);
      MapDef();
      ValidIntro();
    }

    /** `hashtable_set`, second half. */
    method Put(key: K, value: V) returns (displaced: Option<V>)
      requires Valid() && size < buckets.Length
      modifies this`order, this`runs, this`size, buckets, head, LinkSet(order), PairsOf(order)
      ensures Valid()
      ensures fresh(LinkSet(order) - old(LinkSet(order))) && fresh(PairsOf(order) - old(PairsOf(order)))
      ensures ident(key) in old(Map()) ==>
        && displaced == Some(old(Map())[ident(key)].1)
        && Map() == old(Map())[ident(key) := (old(Map())[ident(key)].0, value)]
        && order == old(order)
      ensures ident(key) !in old(Map()) ==>
        && displaced == None
        && Map() == old(Map())[ident(key) := (key, value)]
        && exists p :: Inserted(old(Items()), p, (key, value), Items())
      ensures ident(key) !in old(Map()) ==> Arrived(old(order), hashKey(ident(key)))
    {
      hide Valid, Shape, Ring, Bucketed, Paired, Hashed, UniqueKeys, ToMap, ItemsOf, NumBuckets, Inserted, Slot, Arrived, First;
      ValidFacts();
      var hash := hashKey(ident(key));
      var list, at := FindPair(Slot(hash, buckets.Length), ident(key), hash);
      if list != null {
        var old_value := Overwrite(list, value, at);
        displaced := Some(old_value);
      } else {
        MapMisses(ident(key));
        ghost var p, node := Append(key, value, hash);
        displaced := None;
      }
    }

    /** `hashtable_set`. The displaced value is the one handed to `free_value`. */
    method Set(key: K, value: V) returns (displaced: Option<V>)
      requires Valid() && size < NumBuckets(|PRIMES| - 1)
      modifies Repr()
      ensures Valid() && fresh(Repr() - old(Repr()))
      ensures ident(key) in old(Map()) ==>
        && displaced == Some(old(Map())[ident(key)].1)
        && Map() == old(Map())[ident(key) := (old(Map())[ident(key)].0, value)]
      ensures ident(key) !in old(Map()) ==> displaced == None && Map() == old(Map())[ident(key) := (key, value)]
      ensures ident(key) in old(Map()) ==>
        (order == old(order) <==> old(size) < old(buckets.Length) || old(Scattered()))
      ensures if ident(key) in old(Map()) then order == old(Roomy()) else Arrived(old(Roomy()), hashKey(ident(key)))
      ensures old(size) < old(buckets.Length) && ident(key) !in old(Map()) ==>
        exists p :: Inserted(old(Items()), p, (key, value), Items())
    {
      hide Valid, Shape, Ring, Bucketed, Paired, Hashed, UniqueKeys, ToMap, ItemsOf, NumBuckets, Inserted, Slot, Items, Map, Arrived, Roomy, First, Laid, Scattered;
      ValidFacts();
      OrderKeptIff();
      EnsureRoom();
      ValidFacts();
      displaced := Put(key, value);
      ValidFacts();
    }

    lemma RemoveKeepsShape(index: nat, at: nat) returns (order': seq<Link<K, V>>, runs': seq<Run>)
      requires Shape() && index < buckets.Length && at < |order| && order[at].pair.Some?
      requires Slot(order[at].pair.value.hash, buckets.Length) == index
      ensures Inserted(order', at, order[at], order)
      ensures Ring(head, order) && Paired(order') && Hashed(order', ident, hashKey)
      ensures Bucketed(buckets[..][index := ShrunkBucket(buckets[index], head, order, at)], head, order', runs')
    {
      hide Ring, BucketsOk, Segmented, Inserted, Slot, At, Paired, SlotsOf, Shrunk;
      assert |buckets[..]| == buckets.Length;
      RingFacts(head, order);
      order' := Remove(order, at);
      runs' := RemoveKeepsBuckets(buckets[..], head, order, runs, index, at, order');
      RemoveKeepsHashed(order, at, order', ident, hashKey);
    }

    /** `hashtable_do_del`, once the pair is found. */
    method Unlink(index: nat, list: Link<K, V>, ghost at: nat)
      requires Shape() && at < |order| && order[at] == list && list.pair.Some?
      requires index < buckets.Length && Slot(list.pair.value.hash, buckets.Length) == index
      modifies this`order, this`runs, buckets, head, LinkSet(order)
      ensures Shape()
      ensures Inserted(order, at, list, old(order))
    {
      hide Shape, Ring, Bucketed, Paired, Hashed, Slot, Inserted;
      ShapeFacts();
      ghost var order', runs' := RemoveKeepsShape(index, at);
      ghost var chain, bucket := order, buckets[index];
      RingStep(head, order, at);
      RingStepBack(head, order, at);
      if buckets[index].first == list && buckets[index].last == list {
        buckets[index] := Bucket(head, head);
      } else if buckets[index].first == list {
        buckets[index] := buckets[index].(first := list.next);
      } else if buckets[index].last == list {
        buckets[index] := buckets[index].(last := list.prev);
      }
      assert buckets[..] == old(buckets[..])[index := ShrunkBucket(bucket, head, chain, at)];
      ListRemove(list, head, chain, at, order');
      order, runs := order', runs';
      ShapeIntro();
    }

    /** `hashtable_del`: the key and the value that were freed, or nothing if the key is not there. */
    method Del(p: P) returns (freed: Option<(K, V)>)
      requires Valid()
      modifies this`order, this`runs, this`size, buckets, head, LinkSet(order)
      ensures Valid() && PairsOf(order) <= old(PairsOf(order)) && LinkSet(order) <= old(LinkSet(order))
      ensures p in old(Map()) ==>
        && freed == Some(old(Map())[p])
        && Map() == old(Map()) - {p}
        && exists i :: Inserted(Items(), i, freed.value, old(Items()))
      ensures p !in old(Map()) ==> freed == None && order == old(order) && Items() == old(Items())
    {
      hide Valid, Shape, Ring, Bucketed, Paired, Hashed, UniqueKeys, ToMap, ItemsOf, NumBuckets, Inserted, Slot;
      ValidFacts();
      ghost var items := Items();
      var hash := hashKey(p);
      var list, at := FindPair(Slot(hash, buckets.Length), p, hash);
      if list == null {
        MapMisses(p);
        return None;
      }
      MapAt(at);
      ghost var chain := order;
      assert ItemsOf(chain) == items;
      PairedAt(at);
      Unlink(Slot(hash, buckets.Length), list, at);
      ShapeFacts();
      size := size - 1;
      ShapeIntro();
      RemoveKeepsUnique(order, at, list, chain, ident);
      assert ItemsOf(chain) == items;
      ItemsInserted(order, at, list, chain);
      assert Inserted(Items(), at, (list.pair.value.key, list.pair.value.value), items);
      PairsOfRemoved(chain, at, list, order);
      UniqueItems(chain, ident);
      UniqueItems(order, ident);
      RemovedMap(ItemsOf(order), at, (list.pair.value.key, list.pair.value.value), items, ident);
      ValidIntro();
      freed := Some((list.pair.value.key, list.pair.value.value));
    }

    lemma PairedAt(i: nat)
      requires Valid() && i < |order|
      ensures order[i].pair.Some? && order[i].pair.value.hash == hashKey(ident(order[i].pair.value.key))
    {}

    /** `hashtable_iter_next`; `hashtable_iter` is the call with the sentinel. */
    method IterNext(list: Link<K, V>, ghost i: int) returns (next: Link?<K, V>)
      requires Valid() && -1 <= i < |order| && list == At(head, order, i)
      ensures next == if i + 1 < |order| then order[i + 1] else null
    {
      hide Bucketed, Hashed, UniqueKeys, NumBuckets;
      if i >= 0 {
        RingStep(head, order, i);
      }
      if list.next == head {
        return null;
      }
      return list.next;
    }

    /** `hashtable_iter_set`: overwrites the value under the iterator. */
    method IterSet(iter: Link<K, V>, value: V, ghost i: nat) returns (displaced: V)
      requires Valid() && i < |order| && order[i] == iter && iter.pair.Some?
      modifies PairsOf(order)
      ensures Valid()
      ensures displaced == old(Items())[i].1 && Items() == old(Items())[i := (iter.pair.value.key, value)]
    {
      hide *;
      displaced := Overwrite(iter, value, i);
    }

    /** `hashtable_do_clear`: visits every pair once, in list order. */
    method FreeAll() returns (freed: seq<(K, V)>)
      requires Valid()
      ensures Paired(order) && freed == Items()
    {
      hide Valid, Shape, Ring, Bucketed, Hashed, UniqueKeys, NumBuckets;
      ValidFacts();
      ShapeFacts();
      freed := [];
      var list := FirstLink();
      ghost var k := 0;
      while list != null
        invariant k <= |order| && list == if k < |order| then order[k] else null
        invariant freed == Items()[..k]
        decreases |order| - k
      {
        var next := IterNext(list, k);
        freed := freed + [(list.pair.value.key, list.pair.value.value)];
        list := next;
        k := k + 1;
      }
    }

    method FirstLink() returns (first: Link?<K, V>)
      requires Valid()
      ensures first == if order == [] then null else order[0]
    {
      first := IterNext(head, -1);
    }

    /** `hashtable_clear`: frees every pair exactly once and keeps the bucket array. */
    method Clear() returns (freed: seq<(K, V)>)
      requires Valid()
      modifies this`order, this`runs, this`size, buckets, head
      ensures Valid() && order == [] && freed == old(Items())
    {
      hide Valid, Shape, Ring, Bucketed, Paired, Hashed, UniqueKeys, NumBuckets, ItemsOf;
      ValidFacts();
      freed := FreeAll();
      assert freed == old(Items());
      for i := 0 to buckets.Length
        invariant forall b :: 0 <= b < i ==> buckets[b] == Bucket(head, head)
      {
        buckets[i] := Bucket(head, head);
      }
      head.next := head;
      head.prev := head;
      size := 0;
      order, runs := [], seq(buckets.Length, _ => Run(0, 0));
      EmptyValid();
    }

    lemma EmptyValid()
      requires order == [] && head.next == head && head.prev == head && |runs| == buckets.Length
      requires forall b :: 0 <= b < |runs| ==> runs[b] == Run(0, 0) && buckets[b] == Bucket(head, head)
      requires numBuckets < |PRIMES| && buckets.Length == NumBuckets(numBuckets) && size == 0
      ensures Valid()
    {}
  }
}
