/** Blocks of the scanner are independent of one another, and the scanner's
    output is a fixed point of the scanner. */
module BlockLaws {
  import opened Wrappers
  import opened SpeedField
  import opened Joins
  import opened Scanner
  import opened ScannerLaws

  /** `a` ends at a block boundary: it is empty or its last line closes a block. */
  predicate EndsBlock(a: seq<string>) {
    a == [] || IsClose(a[|a| - 1])
  }

  /** `x` is a single block: no line but possibly its last closes a block. */
  predicate OneBlock(x: seq<string>) {
    forall j :: 0 <= j < |x| - 1 ==> !IsClose(x[j])
  }

  /** The lines `x[lo..hi]` are the lines `y[loy..hiy]`. */
  ghost predicate SameWindow(x: seq<string>, lo: nat, hi: nat, y: seq<string>, loy: nat, hiy: nat) {
    lo <= hi <= |x| && loy <= hiy <= |y| && x[lo..hi] == y[loy..hiy]
  }

  // ---------------------------------------------------------------------------
  // The block functions only look at the lines of their window
  // ---------------------------------------------------------------------------

  /** Dropping the last line of two equal windows leaves equal windows. */
  lemma WindowShrink(x: seq<string>, lo: nat, hi: nat, y: seq<string>, loy: nat, hiy: nat)
    requires SameWindow(x, lo, hi, y, loy, hiy) && lo < hi
    ensures loy < hiy && y[hiy - 1] == x[hi - 1]
    ensures SameWindow(x, lo, hi - 1, y, loy, hiy - 1)
  {
    assert x[hi - 1] == x[lo..hi][hi - 1 - lo];
    assert y[hiy - 1] == y[loy..hiy][hiy - 1 - loy];
    assert x[lo..hi - 1] == x[lo..hi][..hi - 1 - lo];
    assert y[loy..hiy - 1] == y[loy..hiy][..hiy - 1 - loy];
  }

  lemma {:induction false} LastSpeedWindow(x: seq<string>, lo: nat, hi: nat, y: seq<string>, loy: nat, hiy: nat)
    requires SameWindow(x, lo, hi, y, loy, hiy)
    ensures LastSpeed(x, lo, hi).None? <==> LastSpeed(y, loy, hiy).None?
    ensures LastSpeed(x, lo, hi).Some? ==> y[LastSpeed(y, loy, hiy).value] == x[LastSpeed(x, lo, hi).value]
    decreases hi - lo
  {
    if lo < hi {
      WindowShrink(x, lo, hi, y, loy, hiy);
      LastSpeedWindow(x, lo, hi - 1, y, loy, hiy - 1);
    }
  }

  lemma CadenceInWindow(x: seq<string>, lo: nat, hi: nat, y: seq<string>, loy: nat, hiy: nat)
    requires SameWindow(x, lo, hi, y, loy, hiy)
    ensures CadenceIn(x, lo, hi) ==> CadenceIn(y, loy, hiy)
  {
    if CadenceIn(x, lo, hi) {
      var j :| lo <= j < hi && HasCadence(x[j]);
      assert x[j] == x[lo..hi][j - lo] == y[loy + (j - lo)];
    }
  }

  lemma BlockStateWindow(x: seq<string>, lo: nat, hi: nat, y: seq<string>, loy: nat, hiy: nat, cadenceOf: string -> int)
    requires SameWindow(x, lo, hi, y, loy, hiy)
    ensures CadenceFrom(y, cadenceOf, loy, hiy) == CadenceFrom(x, cadenceOf, lo, hi)
    ensures CadenceIn(y, loy, hiy) == CadenceIn(x, lo, hi)
  {
    LastSpeedWindow(x, lo, hi, y, loy, hiy);
    CadenceInWindow(x, lo, hi, y, loy, hiy);
    CadenceInWindow(y, loy, hiy, x, lo, hi);
  }

  lemma {:induction false} BlockStartPrefix(a: seq<string>, b: seq<string>, k: nat)
    requires k <= |a|
    ensures BlockStart(a + b, k) == BlockStart(a, k)
    decreases k
  {
    if k > 0 {
      assert (a + b)[k - 1] == a[k - 1];
      BlockStartPrefix(a, b, k - 1);
    }
  }

  lemma {:induction false} BlockStartShift(a: seq<string>, b: seq<string>, k: nat)
    requires EndsBlock(a) && k <= |b|
    ensures BlockStart(a + b, |a| + k) == |a| + BlockStart(b, k)
    decreases k
  {
    if k == 0 {
      if |a| > 0 {
        assert (a + b)[|a| - 1] == a[|a| - 1];
      }
    } else {
      assert (a + b)[|a| + k - 1] == b[k - 1];
      BlockStartShift(a, b, k - 1);
    }
  }

  /** Line `ky` of `y` and line `k` of `x` are the same line, and their
      blocks, from `yb` and `xb`, agree on the two pieces of block state. */
  ghost predicate SameBlockState(x: seq<string>, xb: nat, k: nat, y: seq<string>, yb: nat, ky: nat,
                                 cadenceOf: string -> int)
    requires xb <= k < |x| && yb <= ky < |y|
  {
    && y[ky] == x[k]
    && CadenceIn(y, yb, ky + 1) == CadenceIn(x, xb, k + 1)
    && CadenceFrom(y, cadenceOf, yb, ky + 1) == CadenceFrom(x, cadenceOf, xb, k + 1)
  }

  /** Equal blocks have equal block state. */
  lemma BlockWindow(x: seq<string>, xb: nat, k: nat, y: seq<string>, yb: nat, ky: nat, cadenceOf: string -> int)
    requires xb <= k < |x| && yb <= ky < |y|
    requires SameWindow(x, xb, k + 1, y, yb, ky + 1)
    ensures SameBlockState(x, xb, k, y, yb, ky, cadenceOf)
  {
    BlockStateWindow(x, xb, k + 1, y, yb, ky + 1, cadenceOf);
    WindowShrink(x, xb, k + 1, y, yb, ky + 1);
  }

  /** An injection is decided inside its block: two inputs whose blocks agree
      agree on the injection and on what is written for the line. */
  lemma InjectionWindow(x: seq<string>, k: nat, y: seq<string>, ky: nat, cadenceOf: string -> int)
    requires k < |x| && ky < |y|
    requires SameBlockState(x, BlockStart(x, k), k, y, BlockStart(y, ky), ky, cadenceOf)
    ensures Injection(y, cadenceOf, ky) == Injection(x, cadenceOf, k)
    ensures Chunk(y, cadenceOf, ky) == Chunk(x, cadenceOf, k)
  {
  }

  /** A window of `a` is a window of `a + b`. */
  lemma PrefixSlices(a: seq<string>, b: seq<string>, lo: nat, hi: nat)
    requires lo <= hi <= |a|
    ensures SameWindow(a, lo, hi, a + b, lo, hi)
  {
    assert (a + b)[lo..hi] == a[lo..hi];
  }

  /** A window of `b` is a window of `a + b`, `|a|` lines on. */
  lemma SuffixSlices(a: seq<string>, b: seq<string>, lo: nat, hi: nat, loy: nat, hiy: nat)
    requires lo <= hi <= |b| && loy == |a| + lo && hiy == |a| + hi
    ensures SameWindow(b, lo, hi, a + b, loy, hiy)
  {
    assert (a + b)[loy..hiy] == b[lo..hi];
  }

  /** Line `k` of `a` has the same block state in `a + b`. */
  lemma PrefixWindow(a: seq<string>, b: seq<string>, k: nat, cadenceOf: string -> int)
    requires k < |a|
    ensures SameBlockState(a, BlockStart(a, k), k, a + b, BlockStart(a + b, k), k, cadenceOf)
  {
    BlockStartPrefix(a, b, k);
    var s := BlockStart(a, k);
    PrefixSlices(a, b, s, k + 1);
    BlockWindow(a, s, k, a + b, s, k, cadenceOf);
  }

  /** Line `k` of `b`, line `ky = |a| + k` of `a + b`, has the same block
      state there when `a` ends a block. */
  lemma ShiftWindow(a: seq<string>, b: seq<string>, k: nat, ky: nat, cadenceOf: string -> int)
    requires EndsBlock(a) && k < |b| && ky == |a| + k
    ensures SameBlockState(b, BlockStart(b, k), k, a + b, BlockStart(a + b, ky), ky, cadenceOf)
  {
    BlockStartShift(a, b, k);
    var s := BlockStart(b, k);
    var y := a + b;
    var ys := BlockStart(y, ky);
    SuffixSlices(a, b, s, k + 1, ys, ky + 1);
    BlockWindow(b, s, k, y, ys, ky, cadenceOf);
  }

  /** Line `k` of `a` is written the same way in `a + b`. */
  lemma WritesPrefix(a: seq<string>, b: seq<string>, cadenceOf: string -> int, k: nat)
    requires k < |a|
    ensures Writes(a + b, cadenceOf)(k) == Writes(a, cadenceOf)(k)
  {
    PrefixWindow(a, b, k, cadenceOf);
    InjectionWindow(a, k, a + b, k, cadenceOf);
  }

  /** Line `k` of `b`, line `ky = |a| + k` of `a + b`, is written the same
      way in both when `a` ends a block. */
  lemma ChunkShift(a: seq<string>, b: seq<string>, cadenceOf: string -> int, k: nat, ky: nat)
    requires EndsBlock(a) && k < |b| && ky == |a| + k
    ensures ky < |a + b| && Chunk(a + b, cadenceOf, ky) == Chunk(b, cadenceOf, k)
  {
    ShiftWindow(a, b, k, ky, cadenceOf);
    InjectionWindow(b, k, a + b, ky, cadenceOf);
  }

  /** Equal chunks at `d + k` and `k` are equal pieces at those indices. */
  lemma ShiftedChunk(y: seq<string>, b: seq<string>, cadenceOf: string -> int, d: nat, k: nat, ky: nat)
    requires ky == d + k && ky < |y| && k < |b|
    requires Chunk(y, cadenceOf, ky) == Chunk(b, cadenceOf, k)
    ensures ShiftedAt(Writes(y, cadenceOf), Writes(b, cadenceOf), d, k)
  {
    WritesAt(y, cadenceOf, ky);
    WritesAt(b, cadenceOf, k);
  }

  /** The same, for the pieces `Join` concatenates. */
  lemma WritesShift(a: seq<string>, b: seq<string>, cadenceOf: string -> int, k: nat)
    requires EndsBlock(a) && k < |b|
    ensures ShiftedAt(Writes(a + b, cadenceOf), Writes(b, cadenceOf), |a|, k)
  {
    var ky := |a| + k;
    ChunkShift(a, b, cadenceOf, k, ky);
    ShiftedChunk(a + b, b, cadenceOf, |a|, k, ky);
  }

  /** Appending lines does not change what is written for the earlier ones. */
  lemma ExpectedPrefix(a: seq<string>, b: seq<string>, cadenceOf: string -> int, n: nat)
    requires n <= |a|
    ensures Expected(a + b, cadenceOf, n) == Expected(a, cadenceOf, n)
  {
    forall k | 0 <= k < n ensures Writes(a + b, cadenceOf)(k) == Writes(a, cadenceOf)(k) {
      WritesPrefix(a, b, cadenceOf, k);
    }
    JoinAgree(Writes(a + b, cadenceOf), Writes(a, cadenceOf), n);
  }

  /** From line `|a|` on, `a + b` is written line by line as `b` is. */
  lemma ShiftedWrites(a: seq<string>, b: seq<string>, cadenceOf: string -> int)
    requires EndsBlock(a)
    ensures ShiftedFrom(Writes(a + b, cadenceOf), Writes(b, cadenceOf), |a|, |b|)
  {
    forall k | 0 <= k < |b| ensures ShiftedAt(Writes(a + b, cadenceOf), Writes(b, cadenceOf), |a|, k) {
      WritesShift(a, b, cadenceOf, k);
    }
  }

  /** The lines of `b` are written after those of `a` as if `b` stood alone. */
  lemma ExpectedSuffix(a: seq<string>, b: seq<string>, cadenceOf: string -> int)
    requires EndsBlock(a)
    ensures Join(Writes(a + b, cadenceOf), |a + b|)
         == Join(Writes(a + b, cadenceOf), |a|) + Join(Writes(b, cadenceOf), |b|)
  {
    ShiftedWrites(a, b, cadenceOf);
    JoinShift(Writes(a + b, cadenceOf), Writes(b, cadenceOf), |a|, |b|, |a + b|);
  }

  /** No leakage between blocks: cut the input just after a close line, and
      the output is the output of the first part followed by the output of
      the second, each converted as if it were the whole file. */
  lemma BlocksIndependent(a: seq<string>, b: seq<string>, cadenceOf: string -> int)
    requires EndsBlock(a)
    ensures Expected(a + b, cadenceOf, |a + b|) == Expected(a, cadenceOf, |a|) + Expected(b, cadenceOf, |b|)
  {
    ExpectedSuffix(a, b, cadenceOf);
    ExpectedPrefix(a, b, cadenceOf, |a|);
  }

  // ---------------------------------------------------------------------------
  // Converting twice is converting once
  // ---------------------------------------------------------------------------

  /** Lines with no injection are written unchanged. */
  lemma {:induction false} NoInjectionIdentity(x: seq<string>, cadenceOf: string -> int, n: nat)
    requires n <= |x| && forall j :: 0 <= j < n ==> Injection(x, cadenceOf, j).None?
    ensures Expected(x, cadenceOf, n) == x[..n]
    decreases n
  {
    if n > 0 {
      NoInjectionIdentity(x, cadenceOf, n - 1);
      assert Writes(x, cadenceOf)(n - 1) == [x[n - 1]];
      assert x[..n] == x[..n - 1] + [x[n - 1]];
    }
  }

  /** The output of an input that ends at a block boundary ends there too. */
  lemma OutputEndsBlock(a: seq<string>, cadenceOf: string -> int)
    requires EndsBlock(a)
    ensures EndsBlock(Expected(a, cadenceOf, |a|))
  {
    if |a| > 0 {
      OutputLength(a, cadenceOf, |a|);
      OutputPlacement(a, cadenceOf, |a|, |a| - 1);
    }
  }

  /** A single block after one injection holds a `Cadence` line before its
      close line, so converting it again injects nothing. */
  lemma InjectedBlockIsFixed(x: seq<string>, cadenceOf: string -> int, v: int)
    requires |x| > 0 && OneBlock(x)
    ensures var out := x[..|x| - 1] + [CadenceLine(v), x[|x| - 1]];
      Expected(out, cadenceOf, |out|) == out
  {
    var m := |x|;
    var out := x[..m - 1] + [CadenceLine(v), x[m - 1]];
    CadenceLineMarkers(v);
    forall j | 0 <= j < m + 1 ensures Injection(out, cadenceOf, j).None? {
      if j < m - 1 {
        assert out[j] == x[j];
      } else if j == m {
        var b := BlockStart(out, m);
        assert out[m - 1] == CadenceLine(v);
        assert b <= m - 1 < m + 1;
        assert CadenceIn(out, b, m + 1);
      }
    }
    NoInjectionIdentity(out, cadenceOf, m + 1);
  }

  /** Converting a single block twice is converting it once. */
  lemma OneBlockIdempotent(x: seq<string>, cadenceOf: string -> int)
    requires OneBlock(x)
    ensures var out := Expected(x, cadenceOf, |x|); Expected(out, cadenceOf, |out|) == out
  {
    var m := |x|;
    if m > 0 {
      forall j | 0 <= j < m - 1 ensures Injection(x, cadenceOf, j).None? {
      }
      NoInjectionIdentity(x, cadenceOf, m - 1);
      var out := Expected(x, cadenceOf, m);
      assert Writes(x, cadenceOf)(m - 1) == Chunk(x, cadenceOf, m - 1);
      assert out == x[..m - 1] + Chunk(x, cadenceOf, m - 1);
      match Injection(x, cadenceOf, m - 1)
      case None =>
        assert out == x;
      case Some(v) =>
        InjectedBlockIsFixed(x, cadenceOf, v);
    }
  }

  /** Converting the converter's output changes nothing: every block that
      received a record now has a `Cadence` line, and every other block is
      as it was. */
  lemma {:induction false} Idempotent(lines: seq<string>, cadenceOf: string -> int)
    ensures var out := Expected(lines, cadenceOf, |lines|); Expected(out, cadenceOf, |out|) == out
    decreases |lines|
  {
    var m := |lines|;
    if m > 0 {
      var b := if IsClose(lines[m - 1]) then BlockStart(lines, m - 1) else BlockStart(lines, m);
      var a, x := lines[..b], lines[b..];
      assert lines == a + x;
      assert OneBlock(x) by {
        forall j | 0 <= j < |x| - 1 ensures !IsClose(x[j]) {
          assert x[j] == lines[b + j];
        }
      }
      var ea, ex := Expected(a, cadenceOf, |a|), Expected(x, cadenceOf, |x|);
      BlocksIndependent(a, x, cadenceOf);
      assert Expected(lines, cadenceOf, m) == ea + ex;
      Idempotent(a, cadenceOf);
      OneBlockIdempotent(x, cadenceOf);
      OutputEndsBlock(a, cadenceOf);
      BlocksIndependent(ea, ex, cadenceOf);
    }
  }

  /** Every speed line of the output is a speed line of the input. */
  lemma OutputWellFormed(lines: seq<string>, cadenceOf: string -> int)
    requires WellFormed(lines, |lines|)
    ensures var out := Expected(lines, cadenceOf, |lines|); WellFormed(out, |out|)
  {
    var out := Expected(lines, cadenceOf, |lines|);
    forall p | 0 <= p < |out| && IsSpeed(out[p]) ensures Extract(out[p]).Some? {
      OutputOrigin(lines, cadenceOf, |lines|, p);
      var k :| 0 <= k < |lines| && OutputAt(lines, cadenceOf, |lines|, k, p);
      if Injection(lines, cadenceOf, k).Some? {
        CadenceLineMarkers(Injection(lines, cadenceOf, k).value);
      }
    }
  }

  /** Running the converter on its own output: it converts, and writes its
      input back unchanged. */
  method Rerun(lines: seq<string>, cadenceOf: string -> int) returns (first: Outcome, second: Outcome)
    ensures first.Converted? <==> WellFormed(lines, |lines|)
    ensures first.Converted? ==> second == Converted(first.output)
  {
    first := Convert(lines, cadenceOf);
    if first.Converted? {
      OutputWellFormed(lines, cadenceOf);
      Idempotent(lines, cadenceOf);
      second := Convert(first.output, cadenceOf);
    } else {
      second := first;
    }
  }
}
