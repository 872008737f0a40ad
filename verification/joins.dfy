/** Concatenating a run of pieces, one piece per index, in index order: the
    shape of a writer that appends what it writes for each input line. */
module Joins {

  /** `f(0) + f(1) + ... + f(n - 1)`. */
  function Join<T>(f: nat -> seq<T>, n: nat): seq<T>
    decreases n
  {
    if n == 0 then [] else Join(f, n - 1) + f(n - 1)
  }

  /** What is joined for the first `m` indices is never rewritten by later
      pieces: it stays a prefix. */
  lemma {:induction false} JoinGrows<T>(f: nat -> seq<T>, m: nat, n: nat)
    requires m <= n
    ensures |Join(f, m)| <= |Join(f, n)|
    ensures Join(f, n)[..|Join(f, m)|] == Join(f, m)
    decreases n - m
  {
    if m < n {
      JoinGrows(f, m, n - 1);
      var e := Join(f, n - 1);
      assert Join(f, n)[..|e|] == e;
      assert Join(f, n)[..|Join(f, m)|] == e[..|Join(f, m)|];
    }
  }

  /** Piece `k` sits, unchanged, right after the pieces before it. */
  lemma JoinPiece<T>(f: nat -> seq<T>, n: nat, k: nat)
    requires k < n
    ensures |Join(f, k)| + |f(k)| == |Join(f, k + 1)| <= |Join(f, n)|
    ensures Join(f, n)[|Join(f, k)|..|Join(f, k + 1)|] == f(k)
  {
    JoinGrows(f, k + 1, n);
    var e := Join(f, k + 1);
    assert e[|Join(f, k)|..] == f(k);
    assert Join(f, n)[|Join(f, k)|..|e|] == e[|Join(f, k)|..];
  }

  /** Piece `k` ends at position `q` of the join: its last element is there,
      and its element before last, if any, just before. */
  lemma JoinTail<T>(f: nat -> seq<T>, n: nat, k: nat, q: nat)
    requires k < n && |f(k)| > 0 && q + 1 == |Join(f, k + 1)|
    ensures q < |Join(f, n)| && Join(f, n)[q] == f(k)[|f(k)| - 1]
    ensures |f(k)| >= 2 ==> Join(f, n)[q - 1] == f(k)[|f(k)| - 2]
  {
    JoinPiece(f, n, k);
    var lo := |Join(f, k)|;
    assert Join(f, n)[q] == Join(f, n)[lo..q + 1][|f(k)| - 1];
    if |f(k)| >= 2 {
      assert Join(f, n)[q - 1] == Join(f, n)[lo..q + 1][|f(k)| - 2];
    }
  }

  /** Every position of the join lies in the piece of some index. */
  lemma {:induction false} JoinCovers<T>(f: nat -> seq<T>, n: nat, p: nat)
    requires p < |Join(f, n)|
    ensures exists k :: 0 <= k < n && |Join(f, k)| <= p < |Join(f, k + 1)|
    decreases n
  {
    if p < |Join(f, n - 1)| {
      JoinCovers(f, n - 1, p);
    } else {
      assert |Join(f, n - 1)| <= p < |Join(f, n)|;
    }
  }

  /** Number of the first `n` pieces that hold two elements. */
  function Pairs<T>(f: nat -> seq<T>, n: nat): nat
    decreases n
  {
    if n == 0 then 0 else Pairs(f, n - 1) + (if |f(n - 1)| == 2 then 1 else 0)
  }

  /** When each of the first `n` pieces holds one or two elements, the join
      holds one element per piece and one more per pair. */
  lemma {:induction false} JoinLength<T>(f: nat -> seq<T>, n: nat)
    requires forall k :: 0 <= k < n ==> 1 <= |f(k)| <= 2
    ensures |Join(f, n)| == n + Pairs(f, n)
    decreases n
  {
    if n > 0 {
      JoinLength(f, n - 1);
    }
  }

  /** Two runs of pieces that agree on the first `n` indices join alike. */
  lemma {:induction false} JoinAgree<T>(f: nat -> seq<T>, g: nat -> seq<T>, n: nat)
    requires forall k :: 0 <= k < n ==> f(k) == g(k)
    ensures Join(f, n) == Join(g, n)
    decreases n
  {
    if n > 0 {
      JoinAgree(f, g, n - 1);
    }
  }

  /** Piece `d + k` of `f` is piece `k` of `g`. */
  ghost predicate ShiftedAt<T>(f: nat -> seq<T>, g: nat -> seq<T>, d: nat, k: nat) {
    f(d + k) == g(k)
  }

  /** The pieces of `f` from index `d` on are the first `m` pieces of `g`. */
  ghost predicate ShiftedFrom<T>(f: nat -> seq<T>, g: nat -> seq<T>, d: nat, m: nat) {
    forall k :: 0 <= k < m ==> ShiftedAt(f, g, d, k)
  }

  /** Under `ShiftedFrom(f, g, d, m)`, joining `f` up to `n = d + m` appends the
      join of the first `m` pieces of `g`. */
  lemma {:induction false} JoinShift<T>(f: nat -> seq<T>, g: nat -> seq<T>, d: nat, m: nat, n: nat)
    requires n == d + m && ShiftedFrom(f, g, d, m)
    ensures Join(f, n) == Join(f, d) + Join(g, m)
    decreases m
  {
    if m > 0 {
      assert ShiftedFrom(f, g, d, m - 1);
      JoinShift(f, g, d, m - 1, n - 1);
      assert ShiftedAt(f, g, d, m - 1);
    }
  }
}
