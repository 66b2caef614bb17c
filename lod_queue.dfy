/**
 * The download queue of the paged-LOD root: one request per siblinghood
 * whose children should be fetched, and the order launchDownloads serves
 * them in.  The queue holds references to PagedLOD objects; this module
 * only needs to compare requests, so the node type is a parameter.
 */
module LodQueue {

  /** One entry of Ac3dROOT.downloadQueue. */
  datatype Request<N> = Request(node: N, distance: real, level: int, idSibling: int)

  /**
   * The comparator launchDownloads gives to Array.prototype.sort: a larger
   * distance from the optimum screen size sorts first, and on equal
   * distances the lower level does.
   */
  function Compare<N>(a: Request<N>, b: Request<N>): int
  {
    if a.distance < b.distance then 1
    else if a.distance > b.distance then -1
    else if a.level > b.level then 1
    else if a.level < b.level then -1
    else 0
  }

  /** `a` may be served before `b`. */
  predicate Precedes<N>(a: Request<N>, b: Request<N>)
  {
    Compare(a, b) <= 0
  }

  /** The comparator is the lexicographic order (distance descending, level ascending). */
  lemma PrecedesMeaning<N>(a: Request<N>, b: Request<N>)
    ensures Precedes(a, b) <==> a.distance > b.distance || (a.distance == b.distance && a.level <= b.level)
    ensures Compare(a, b) == -Compare(b, a)
  {
  }

  /** The comparator is consistent: any two requests compare one way or the other, and it is transitive. */
  lemma PrecedesTotalOrder<N>(a: Request<N>, b: Request<N>, c: Request<N>)
    ensures Precedes(a, b) || Precedes(b, a)
    ensures Precedes(a, b) && Precedes(b, c) ==> Precedes(a, c)
  {
  }

  /** Every earlier request may be served before every later one. */
  predicate Sorted<N>(q: seq<Request<N>>)
  {
    forall i, j :: 0 <= i < j < |q| ==> Precedes(q[i], q[j])
  }

  /**
   * Insertion of `x` into a sorted queue, after every entry that compares
   * equal to it, so entries that compare equal keep their arrival order.
   */
  function Insert<N>(x: Request<N>, q: seq<Request<N>>): (r: seq<Request<N>>)
    requires Sorted(q)
    ensures Sorted(r)
    ensures multiset(r) == multiset(q) + multiset{x}
    ensures |r| == |q| + 1
    ensures r[0] == x || (q != [] && r[0] == q[0])
  {
    if |q| == 0 then [x]
    else if Compare(x, q[0]) < 0 then
      SortedCons(x, q);
      [x] + q
    else
      var rest := Insert(x, q[1..]);
      assert q == [q[0]] + q[1..];
      SortedCons(q[0], rest);
      [q[0]] + rest
  }

  /** Putting in front a request that precedes the head keeps a queue sorted. */
  lemma SortedCons<N>(x: Request<N>, q: seq<Request<N>>)
    requires Sorted(q)
    requires q == [] || Precedes(x, q[0])
    ensures Sorted([x] + q)
  {
    var r := [x] + q;
    forall i, j | 0 <= i < j < |r| ensures Precedes(r[i], r[j]) {
      if i == 0 && j > 1 {
        PrecedesTotalOrder(x, q[0], q[j - 1]);
      }
    }
  }

  /**
   * The order launchDownloads serves the queue in: the queue sorted with
   * Compare by a stable sort (ECMAScript requires Array.prototype.sort to be
   * stable).
   */
  function PriorityOrder<N>(q: seq<Request<N>>): (r: seq<Request<N>>)
    ensures Sorted(r)
    ensures multiset(r) == multiset(q)
    ensures |r| == |q|
  {
    if |q| == 0 then []
    else
      assert q == q[..|q| - 1] + [q[|q| - 1]];
      Insert(q[|q| - 1], PriorityOrder(q[..|q| - 1]))
  }

  /** The served order holds exactly the queued requests. */
  lemma PriorityOrderMembers<N>(q: seq<Request<N>>)
    ensures forall r :: r in PriorityOrder(q) <==> r in q
    ensures forall i :: 0 <= i < |q| ==> q[i] in PriorityOrder(q)
    ensures forall i :: 0 <= i < |q| ==> PriorityOrder(q)[i] in q
  {
    var p := PriorityOrder(q);
    forall r ensures r in p <==> r in q {
      assert r in p <==> r in multiset(p);
      assert r in q <==> r in multiset(q);
    }
    forall i | 0 <= i < |q| ensures q[i] in p {
      assert q[i] in multiset(q);
    }
    forall i | 0 <= i < |q| ensures p[i] in q {
      assert p[i] in multiset(p);
    }
  }

  /**
   * In the served order, distances never increase, and among requests at the
   * same distance levels never decrease.
   */
  lemma ServedLargestDistanceFirst<N>(q: seq<Request<N>>, i: nat, j: nat)
    requires i < j < |q|
    ensures PriorityOrder(q)[i].distance >= PriorityOrder(q)[j].distance
    ensures PriorityOrder(q)[i].distance == PriorityOrder(q)[j].distance ==>
              PriorityOrder(q)[i].level <= PriorityOrder(q)[j].level
  {
    var r := PriorityOrder(q);
    assert Precedes(r[i], r[j]);
    PrecedesMeaning(r[i], r[j]);
  }

  /** Three requests at one level with distances 5, 1 and 3 are served as 5, 3, 1. */
  lemma ServedOrderExample<N>(n: N)
    ensures var q := [Request(n, 5.0, 1, 0), Request(n, 1.0, 1, 1), Request(n, 3.0, 1, 2)];
            PriorityOrder(q) == [q[0], q[2], q[1]]
  {
    var a, b, c := Request(n, 5.0, 1, 0), Request(n, 1.0, 1, 1), Request(n, 3.0, 1, 2);
    assert [a][..0] == [];
    assert PriorityOrder([a]) == [a];
    assert [a, b][..1] == [a];
    assert Insert(b, [a]) == [a, b] by { assert [a][1..] == []; }
    assert PriorityOrder([a, b]) == [a, b];
    assert Insert(c, [a, b]) == [a, c, b] by {
      assert [a, b][1..] == [b];
      assert Insert(c, [b]) == [c, b];
    }
    assert [a, b, c][..2] == [a, b];
  }

  /** Sorted queues with the same entries agree on every distance and level, position by position. */
  lemma SortedKeysUnique<N>(a: seq<Request<N>>, b: seq<Request<N>>, i: nat)
    requires Sorted(a) && Sorted(b) && multiset(a) == multiset(b)
    requires i < |a|
    ensures |b| == |a|
    ensures a[i].distance == b[i].distance && a[i].level == b[i].level
    decreases i
  {
    assert |b| == |multiset(b)| == |multiset(a)| == |a|;
    var k :| 0 <= k < |b| && b[k] == a[i] by {
      assert a[i] in multiset(a);
    }
    var m :| 0 <= m < |a| && a[m] == b[i] by {
      assert b[i] in multiset(b);
    }
    KeysUpTo(a, b, i);
  }

  /** Helper of SortedKeysUnique: position i carries the same key in both queues. */
  lemma {:induction false} KeysUpTo<N>(a: seq<Request<N>>, b: seq<Request<N>>, i: nat)
    requires Sorted(a) && Sorted(b) && multiset(a) == multiset(b)
    requires |a| == |b| && i < |a|
    ensures a[i].distance == b[i].distance && a[i].level == b[i].level
    decreases |a|
  {
    if i == 0 {
      FirstKeyEqual(a, b);
    } else {
      var k :| 0 <= k < |b| && b[k] == a[0] by { assert a[0] in multiset(a); }
      var b' := DropFront(a, b, k);
      KeysUpTo(a[1..], b', i - 1);
      if i - 1 < k {
        assert b'[i - 1] == b[i - 1];
        PrecedesMeaning(a[0], a[i]);
        PrecedesMeaning(b[i - 1], b[k]);
        KeyBetween(b, i - 1, k, i);
      } else {
        assert b'[i - 1] == b[i];
      }
    }
  }

  /** Removing from `b` the entry that heads `a` leaves a sorted permutation of `a`'s tail. */
  lemma DropFront<N>(a: seq<Request<N>>, b: seq<Request<N>>, k: nat) returns (b': seq<Request<N>>)
    requires Sorted(a) && Sorted(b) && multiset(a) == multiset(b)
    requires |a| == |b| && k < |b| && b[k] == a[0]
    ensures b' == b[..k] + b[k + 1..]
    ensures Sorted(a[1..]) && Sorted(b') && multiset(a[1..]) == multiset(b') && |b'| == |a| - 1
  {
    b' := b[..k] + b[k + 1..];
    MultisetDrop(a, b, k);
    SortedDropAt(b, k);
    SortedTail(a);
  }

  /** The tail of a sorted queue is sorted. */
  lemma SortedTail<N>(q: seq<Request<N>>)
    requires Sorted(q) && |q| > 0
    ensures Sorted(q[1..])
  {
    var r := q[1..];
    forall i, j | 0 <= i < j < |r| ensures Precedes(r[i], r[j]) {
      assert r[i] == q[i + 1] && r[j] == q[j + 1];
    }
  }

  /** The multiset half of DropFront. */
  lemma MultisetDrop<N>(a: seq<Request<N>>, b: seq<Request<N>>, k: nat)
    requires multiset(a) == multiset(b) && |a| > 0 && k < |b| && b[k] == a[0]
    ensures multiset(a[1..]) == multiset(b[..k] + b[k + 1..])
  {
    assert b == b[..k] + [b[k]] + b[k + 1..];
    assert multiset(b) == multiset(b[..k]) + multiset{b[k]} + multiset(b[k + 1..]);
    assert a == [a[0]] + a[1..];
    assert multiset(a) == multiset{a[0]} + multiset(a[1..]);
    var ma := multiset(a[1..]);
    var mb := multiset(b[..k] + b[k + 1..]);
    assert mb == multiset(b[..k]) + multiset(b[k + 1..]);
    calc {
      ma + multiset{a[0]};
      multiset(a);
      multiset(b);
      multiset(b[..k]) + multiset{b[k]} + multiset(b[k + 1..]);
      mb + multiset{a[0]};
    }
    assert ma == (ma + multiset{a[0]}) - multiset{a[0]};
    assert mb == (mb + multiset{a[0]}) - multiset{a[0]};
  }

  /** The first entries of two sorted permutations carry the same key. */
  lemma FirstKeyEqual<N>(a: seq<Request<N>>, b: seq<Request<N>>)
    requires Sorted(a) && Sorted(b) && multiset(a) == multiset(b)
    requires |a| == |b| && |a| > 0
    ensures a[0].distance == b[0].distance && a[0].level == b[0].level
  {
    var k :| 0 <= k < |b| && b[k] == a[0] by { assert a[0] in multiset(a); }
    var m :| 0 <= m < |a| && a[m] == b[0] by { assert b[0] in multiset(b); }
    if m > 0 { assert Precedes(a[0], a[m]); }
    if k > 0 { assert Precedes(b[0], b[k]); }
    PrecedesMeaning(a[0], b[0]);
    PrecedesMeaning(b[0], a[0]);
  }

  /** Removing one entry keeps a queue sorted. */
  lemma SortedDropAt<N>(q: seq<Request<N>>, k: nat)
    requires Sorted(q) && k < |q|
    ensures Sorted(q[..k] + q[k + 1..])
  {
    var r := q[..k] + q[k + 1..];
    forall i, j | 0 <= i < j < |r| ensures Precedes(r[i], r[j]) {
      var i' := if i < k then i else i + 1;
      var j' := if j < k then j else j + 1;
      assert r[i] == q[i'] && r[j] == q[j'];
    }
  }

  /** In a sorted queue, an entry that matches the key at two positions matches it everywhere between. */
  lemma KeyBetween<N>(q: seq<Request<N>>, lo: nat, hi: nat, mid: nat)
    requires Sorted(q) && lo <= mid <= hi < |q|
    requires q[lo].distance == q[hi].distance && q[lo].level == q[hi].level
    ensures q[mid].distance == q[lo].distance && q[mid].level == q[lo].level
  {
    if lo < mid { PrecedesMeaning(q[lo], q[mid]); }
    if mid < hi { PrecedesMeaning(q[mid], q[hi]); }
  }
}
