/** The speed-field extractor: the leftmost match of the regular expression
    `([0-9]*[.])[0-9]+` in a line, as `Regex::find` returns it.

    The pattern is a run of digits, one decimal point and a non-empty run of
    digits. Since a digit is never a point, the leading run of a match is the
    whole run of digits at its start, and the greedy trailing run is the whole
    run of digits after the point: at each start there is at most one match
    worth taking, and it is the longest decimal starting there. */
module SpeedField {
  import opened Wrappers

  predicate IsDigit(c: char) {
    '0' <= c <= '9'
  }

  predicate AllDigits(t: string) {
    forall j :: 0 <= j < |t| ==> IsDigit(t[j])
  }

  /** `t` is in the language of `([0-9]*[.])[0-9]+`. */
  ghost predicate IsDecimal(t: string) {
    exists k :: 0 <= k < |t| - 1 && t[k] == '.' && AllDigits(t[..k]) && AllDigits(t[k + 1..])
  }

  /** End of the run of digits that starts at byte `i`. */
  function DigitsEnd(s: string, i: nat): (e: nat)
    requires i <= |s|
    ensures i <= e <= |s|
    ensures forall j :: i <= j < e ==> IsDigit(s[j])
    ensures e == |s| || !IsDigit(s[e])
    decreases |s| - i
  {
    if i < |s| && IsDigit(s[i]) then DigitsEnd(s, i + 1) else i
  }

  /** End of the match that starts at byte `i`, if one does: the digits at
      `i`, a point, and at least one digit, each run taken whole. */
  function MatchAt(s: string, i: nat): (r: Option<nat>)
    requires i <= |s|
    ensures r.Some? ==> i < r.value <= |s|
    ensures r.Some? ==> r.value == |s| || !IsDigit(s[r.value])
  {
    var d := DigitsEnd(s, i);
    if d + 1 < |s| && s[d] == '.' && IsDigit(s[d + 1]) then Some(DigitsEnd(s, d + 1)) else None
  }

  /** The first start at or after `i` where a match begins, with its end. */
  function FindFrom(s: string, i: nat): (r: Option<(nat, nat)>)
    requires i <= |s|
    ensures r.Some? ==> i <= r.value.0 <= |s| && MatchAt(s, r.value.0) == Some(r.value.1)
    ensures r.Some? ==> forall j :: i <= j < r.value.0 ==> MatchAt(s, j).None?
    ensures r.None? ==> forall j :: i <= j <= |s| ==> MatchAt(s, j).None?
    decreases |s| - i
  {
    match MatchAt(s, i)
    case Some(e) => Some((i, e))
    case None => if i == |s| then None else FindFrom(s, i + 1)
  }

  /** `Regex::find`: start and end of the leftmost match. */
  function Find(s: string): (r: Option<(nat, nat)>)
    ensures r.Some? ==> r.value.0 < r.value.1 <= |s| && MatchAt(s, r.value.0) == Some(r.value.1)
    ensures r.Some? ==> forall j :: 0 <= j < r.value.0 ==> MatchAt(s, j).None?
    ensures r.None? ==> forall j :: 0 <= j <= |s| ==> MatchAt(s, j).None?
  {
    FindFrom(s, 0)
  }

  /** The matched text, as `Match::as_str`; `None` where the source's `unwrap` panics. */
  function Extract(s: string): (r: Option<string>)
    ensures r.Some? ==> Find(s).Some? && r.value == s[Find(s).value.0..Find(s).value.1]
    ensures r.None? <==> Find(s).None?
  {
    match Find(s)
    case Some(m) => Some(s[m.0..m.1])
    case None => None
  }

  /** Digits of a slice are digits of the whole. */
  lemma SliceDigits(s: string, lo: nat, hi: nat)
    requires lo <= hi <= |s| && AllDigits(s[lo..hi])
    ensures forall j :: lo <= j < hi ==> IsDigit(s[j])
  {
    forall j | lo <= j < hi ensures IsDigit(s[j]) {
      assert s[lo..hi][j - lo] == s[j];
    }
  }

  /** A point preceded by digits back to `i` sits where the digit run at `i` ends. */
  lemma PointPosition(s: string, i: nat, k: nat)
    requires i + k < |s| && s[i + k] == '.' && AllDigits(s[i..i + k])
    ensures i + k == DigitsEnd(s, i)
  {
    SliceDigits(s, i, i + k);
  }

  /** What `MatchAt` returns is a decimal. */
  lemma MatchAtSound(s: string, i: nat)
    requires i <= |s| && MatchAt(s, i).Some?
    ensures IsDecimal(s[i..MatchAt(s, i).value])
  {
    var d := DigitsEnd(s, i);
    var e := MatchAt(s, i).value;
    var t := s[i..e];
    assert t[..d - i] == s[i..d];
    assert t[d - i + 1..] == s[d + 1..e];
    assert t[d - i] == '.';
  }

  /** A decimal that starts at `i` has its point where the digit run at `i`
      ends, and digits after it. */
  lemma DecimalAt(s: string, i: nat, e: nat) returns (d: nat)
    requires i <= e <= |s| && IsDecimal(s[i..e])
    ensures d == DigitsEnd(s, i) && d + 1 < e && s[d] == '.' && AllDigits(s[d + 1..e])
  {
    var t := s[i..e];
    var k :| 0 <= k < |t| - 1 && t[k] == '.' && AllDigits(t[..k]) && AllDigits(t[k + 1..]);
    d := i + k;
    assert t[..k] == s[i..d];
    assert t[k + 1..] == s[d + 1..e];
    assert s[d] == '.' by { assert t[k] == s[d]; }
    PointPosition(s, i, k);
  }

  /** Every decimal that starts at `i` ends no later than the match `MatchAt`
      finds there; in particular `MatchAt` finds one whenever one exists. */
  lemma MatchAtLongest(s: string, i: nat, e: nat)
    requires i <= e <= |s|
    ensures IsDecimal(s[i..e]) ==> MatchAt(s, i).Some? && e <= MatchAt(s, i).value
  {
    if IsDecimal(s[i..e]) {
      var d := DecimalAt(s, i, e);
      SliceDigits(s, d + 1, e);
    }
  }

  /** `Find` is the leftmost match, extended as far as it goes; no match
      means no decimal anywhere in the line. */
  lemma FindIsLeftmostLongest(s: string)
    ensures Find(s).Some? ==>
      var (i, e) := Find(s).value;
      i < e <= |s| && IsDecimal(s[i..e]) &&
      (forall e' :: e < e' <= |s| ==> !IsDecimal(s[i..e'])) &&
      (forall i', e' :: 0 <= i' < i && i' <= e' <= |s| ==> !IsDecimal(s[i'..e']))
    ensures Find(s).None? ==> forall i, e :: 0 <= i <= e <= |s| ==> !IsDecimal(s[i..e])
  {
    match Find(s)
    case Some((i, e)) =>
      MatchAtSound(s, i);
      forall e' | e < e' <= |s| ensures !IsDecimal(s[i..e']) {
        MatchAtLongest(s, i, e');
      }
      forall i', e' | 0 <= i' < i && i' <= e' <= |s| ensures !IsDecimal(s[i'..e']) {
        MatchAtLongest(s, i', e');
      }
    case None =>
      forall i, e | 0 <= i <= e <= |s| ensures !IsDecimal(s[i..e]) {
        MatchAtLongest(s, i, e);
      }
  }
}
