/** Text helpers shared by the scanner and the path checks.

    A `string` here is the byte sequence of a UTF-8 text: each `char` stands
    for one byte, as Rust's `str::len`, `str` slicing and `str::contains`
    work on bytes. */
module Text {

  /** A string each of whose `char`s is a byte value. */
  type Bytes = s: string | forall i :: 0 <= i < |s| ==> s[i] as int < 256

  /** `p` occurs in `s` starting at byte `i`. */
  predicate OccursAt(s: string, p: string, i: nat) {
    i + |p| <= |s| && s[i..i + |p|] == p
  }

  /** Substring search, as `str::contains` with a `&str` pattern. */
  function Contains(s: string, p: string): (r: bool)
    ensures r ==> |p| <= |s|
    decreases |s|
  {
    if |s| < |p| then false
    else if s[..|p|] == p then true
    else Contains(s[1..], p)
  }

  /** Where `Contains` answers yes, the pattern occurs at some index. */
  lemma {:induction false} ContainsWitness(s: string, p: string) returns (i: nat)
    requires Contains(s, p)
    ensures OccursAt(s, p, i)
    decreases |s|
  {
    if s[..|p|] == p {
      i := 0;
    } else {
      var j := ContainsWitness(s[1..], p);
      assert s[1..][j..j + |p|] == s[j + 1..j + 1 + |p|];
      i := j + 1;
    }
  }

  /** An occurrence is found. */
  lemma {:induction false} OccursAtContains(s: string, p: string, i: nat)
    requires OccursAt(s, p, i)
    ensures Contains(s, p)
    decreases i
  {
    if i > 0 && s[..|p|] != p {
      assert s[1..][i - 1..i - 1 + |p|] == s[i..i + |p|];
      OccursAtContains(s[1..], p, i - 1);
    }
  }

  /** `Contains` finds exactly the occurrences: it holds iff `p` occurs at some index of `s`. */
  lemma ContainsIff(s: string, p: string)
    ensures Contains(s, p) <==> exists i: nat :: OccursAt(s, p, i)
  {
    if Contains(s, p) {
      var i := ContainsWitness(s, p);
    }
    if exists i: nat :: OccursAt(s, p, i) {
      var i: nat :| OccursAt(s, p, i);
      OccursAtContains(s, p, i);
    }
  }

  /** Every byte of a pattern that occurs in `s` is a byte of `s`; so a
      pattern holding a byte that `s` lacks does not occur in `s`. */
  lemma ContainedBytes(s: string, p: string, m: nat)
    requires m < |p|
    ensures Contains(s, p) ==> p[m] in s
  {
    if Contains(s, p) {
      var i := ContainsWitness(s, p);
      assert s[i..i + |p|][m] == s[i + m];
    }
  }
}
