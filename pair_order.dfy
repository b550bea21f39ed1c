/** The order in which both CollisionHandler variants visit pairs of list
    positions: an outer index i from 0 while i < Count - 1, and an inner index
    j from i + 1 while j < Count. */
module PairOrder {

  type Pair = (nat, nat)

  /** The pairs (i, j), (i, j + 1), ..., (i, n - 1) of one run of the inner loop. */
  function Row(i: nat, j: nat, n: nat): (r: seq<Pair>)
    ensures |r| == if j < n then n - j else 0
    decreases n - j
  {
    if j >= n then [] else [(i, j)] + Row(i, j + 1, n)
  }

  /** The pairs the nested loops still visit when the outer loop is at i. */
  function PairsFrom(i: nat, n: nat): seq<Pair>
    decreases n - i
  {
    if i + 1 >= n then [] else Row(i, i + 1, n) + PairsFrom(i + 1, n)
  }

  /** Every pair the nested loops visit, in visiting order. */
  function AllPairs(n: nat): seq<Pair> {
    PairsFrom(0, n)
  }

  /** Lexicographic order on pairs: the order of the nested loops. */
  predicate Before(p: Pair, q: Pair) {
    p.0 < q.0 || (p.0 == q.0 && p.1 < q.1)
  }

  predicate StrictlyOrdered(ps: seq<Pair>) {
    forall a, b :: 0 <= a < b < |ps| ==> Before(ps[a], ps[b])
  }

  lemma {:induction false} RowContents(i: nat, j: nat, n: nat)
    ensures forall p :: p in Row(i, j, n) <==> p.0 == i && j <= p.1 < n
    ensures forall a :: 0 <= a < |Row(i, j, n)| ==> Row(i, j, n)[a] == (i, j + a)
    decreases n - j
  {
    if j < n {
      RowContents(i, j + 1, n);
    }
  }

  lemma {:induction false} PairsFromContents(i: nat, n: nat)
    ensures forall p :: p in PairsFrom(i, n) <==> i <= p.0 < p.1 < n
    ensures StrictlyOrdered(PairsFrom(i, n))
    decreases n - i
  {
    if i + 1 < n {
      PairsFromContents(i + 1, n);
      RowContents(i, i + 1, n);
      var row, rest := Row(i, i + 1, n), PairsFrom(i + 1, n);
      assert PairsFrom(i, n) == row + rest;
      forall a, b | 0 <= a < b < |row + rest|
        ensures Before((row + rest)[a], (row + rest)[b])
      {
        if b < |row| {
          assert (row + rest)[a] == row[a];
          assert (row + rest)[b] == row[b];
        } else if a < |row| {
          assert (row + rest)[a] == row[a];
          assert (row + rest)[b] == rest[b - |row|];
          assert rest[b - |row|] in rest;
        } else {
          assert (row + rest)[a] == rest[a - |row|];
          assert (row + rest)[b] == rest[b - |row|];
        }
      }
    }
  }

  /** CollisionHandler visits exactly the pairs i < j < n, each once, lower
      index first; the two properties together exclude a pair visited twice
      or a position paired with itself. */
  lemma AllPairsExactlyOnce(n: nat)
    ensures forall p :: p in AllPairs(n) <==> p.0 < p.1 < n
    ensures StrictlyOrdered(AllPairs(n))
    ensures forall a, b :: 0 <= a < |AllPairs(n)| && 0 <= b < |AllPairs(n)| && a != b ==>
              AllPairs(n)[a] != AllPairs(n)[b]
  {
    PairsFromContents(0, n);
    var ps := AllPairs(n);
    forall a, b | 0 <= a < |ps| && 0 <= b < |ps| && a != b
      ensures ps[a] != ps[b]
    {
      if a < b {
        assert Before(ps[a], ps[b]);
      } else {
        assert Before(ps[b], ps[a]);
      }
    }
  }

  /** The remaining work of the inner loop at j, followed by the later rows,
      is pair (i, j) followed by the remaining work at j + 1. */
  lemma RowUnfold(i: nat, j: nat, n: nat, rest: seq<Pair>)
    requires j < n
    ensures Row(i, j, n) + rest == [(i, j)] + (Row(i, j + 1, n) + rest)
  {
  }
}
