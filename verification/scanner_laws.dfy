/** Laws of the Trackpoint block scanner, stated about the block semantics
    that `Scanner.Convert` is proved to implement. */
module ScannerLaws {
  import opened Wrappers
  import opened Text
  import opened SpeedField
  import opened Numerals
  import opened Joins
  import opened Scanner

  // ---------------------------------------------------------------------------
  // Line count, pass-through and placement
  // ---------------------------------------------------------------------------

  /** What is written for line `k`: the line, after one injected record when
      there is an injection. */
  lemma ChunkSize(lines: seq<string>, cadenceOf: string -> int, k: nat)
    requires k < |lines|
    ensures |Writes(lines, cadenceOf)(k)| == 1 + (if Injection(lines, cadenceOf, k).Some? then 1 else 0)
  {
    assert Writes(lines, cadenceOf)(k) == Chunk(lines, cadenceOf, k);
  }

  /** The output has one line per input line plus one per injected record. */
  lemma OutputLength(lines: seq<string>, cadenceOf: string -> int, n: nat)
    requires n <= |lines|
    ensures |Expected(lines, cadenceOf, n)| == n + Injections(lines, cadenceOf, n)
  {
    forall k | 0 <= k < n ensures 1 <= |Writes(lines, cadenceOf)(k)| <= 2 {
      ChunkSize(lines, cadenceOf, k);
    }
    JoinLength(Writes(lines, cadenceOf), n);
  }

  /** What is written for line `k` ends with the line, and holds the
      injected record just before it when there is one. */
  lemma ChunkShape(lines: seq<string>, cadenceOf: string -> int, k: nat)
    requires k < |lines|
    ensures var c := Writes(lines, cadenceOf)(k);
      && |c| > 0 && c[|c| - 1] == lines[k]
      && (Injection(lines, cadenceOf, k).Some? ==>
            |c| >= 2 && c[|c| - 2] == CadenceLine(Injection(lines, cadenceOf, k).value))
  {
    assert Writes(lines, cadenceOf)(k) == Chunk(lines, cadenceOf, k);
  }

  /** What is written through line `k` ends at position `k + Injections(k + 1)`. */
  lemma PieceEnd(lines: seq<string>, cadenceOf: string -> int, k: nat)
    requires k < |lines|
    ensures k + Injections(lines, cadenceOf, k + 1) + 1 == |Join(Writes(lines, cadenceOf), k + 1)|
  {
    OutputLength(lines, cadenceOf, k + 1);
  }

  /** Input line `k` is written unchanged at output position
      `k + Injections(k + 1)`, so the input lines appear in order. */
  lemma LinePlacement(lines: seq<string>, cadenceOf: string -> int, n: nat, k: nat)
    requires k < n <= |lines|
    ensures var p := k + Injections(lines, cadenceOf, k + 1);
      p < |Expected(lines, cadenceOf, n)| && Expected(lines, cadenceOf, n)[p] == lines[k]
  {
    PieceEnd(lines, cadenceOf, k);
    ChunkShape(lines, cadenceOf, k);
    JoinTail(Writes(lines, cadenceOf), n, k, k + Injections(lines, cadenceOf, k + 1));
  }

  /** An injected record sits immediately before the close line that
      triggered it. */
  lemma RecordPlacement(lines: seq<string>, cadenceOf: string -> int, n: nat, k: nat)
    requires k < n <= |lines| && Injection(lines, cadenceOf, k).Some?
    ensures var p := k + Injections(lines, cadenceOf, k + 1);
      0 < p <= |Expected(lines, cadenceOf, n)| &&
      Expected(lines, cadenceOf, n)[p - 1] == CadenceLine(Injection(lines, cadenceOf, k).value)
  {
    PieceEnd(lines, cadenceOf, k);
    ChunkShape(lines, cadenceOf, k);
    JoinTail(Writes(lines, cadenceOf), n, k, k + Injections(lines, cadenceOf, k + 1));
  }

  /** Input line `k` is written unchanged at output position
      `k + Injections(k + 1)`, so the input lines appear in order; an injected
      record sits immediately before the close line that triggered it, and
      nowhere else. */
  lemma OutputPlacement(lines: seq<string>, cadenceOf: string -> int, n: nat, k: nat)
    requires k < n <= |lines|
    ensures var out := Expected(lines, cadenceOf, n);
            var p := k + Injections(lines, cadenceOf, k + 1);
            && p < |out| && out[p] == lines[k]
            && (Injection(lines, cadenceOf, k).Some? ==>
                  out[p - 1] == CadenceLine(Injection(lines, cadenceOf, k).value))
  {
    LinePlacement(lines, cadenceOf, n, k);
    if Injection(lines, cadenceOf, k).Some? {
      RecordPlacement(lines, cadenceOf, n, k);
    }
  }

  /** One more line adds one more injection exactly when it injects. */
  lemma InjectionsStep(lines: seq<string>, cadenceOf: string -> int, k: nat)
    requires k < |lines|
    ensures Injection(lines, cadenceOf, k).None? ==> Injections(lines, cadenceOf, k + 1) == Injections(lines, cadenceOf, k)
    ensures Injection(lines, cadenceOf, k).Some? ==> Injections(lines, cadenceOf, k + 1) == Injections(lines, cadenceOf, k) + 1
  {
    ChunkSize(lines, cadenceOf, k);
  }

  /** Output position `k + Injections(k + 1)` holds line `k`. */
  lemma OriginLine(lines: seq<string>, cadenceOf: string -> int, n: nat, k: nat, p: nat)
    requires k < n <= |lines| && p == k + Injections(lines, cadenceOf, k + 1)
    ensures p < |Expected(lines, cadenceOf, n)| && OutputAt(lines, cadenceOf, n, k, p)
  {
    LinePlacement(lines, cadenceOf, n, k);
  }

  /** The output position just before holds the record injected for line `k`. */
  lemma OriginRecord(lines: seq<string>, cadenceOf: string -> int, n: nat, k: nat, p: nat)
    requires k < n <= |lines| && Injection(lines, cadenceOf, k).Some?
    requires p + 1 == k + Injections(lines, cadenceOf, k + 1)
    ensures p < |Expected(lines, cadenceOf, n)| && OutputAt(lines, cadenceOf, n, k, p)
  {
    RecordPlacement(lines, cadenceOf, n, k);
  }

  /** An output position between the pieces written before line `k` and
      through line `k` holds line `k` or its injected record. */
  lemma OriginAt(lines: seq<string>, cadenceOf: string -> int, n: nat, k: nat, p: nat)
    requires k < n <= |lines|
    requires k + Injections(lines, cadenceOf, k) <= p < k + 1 + Injections(lines, cadenceOf, k + 1)
    ensures p < |Expected(lines, cadenceOf, n)| && OutputAt(lines, cadenceOf, n, k, p)
  {
    InjectionsStep(lines, cadenceOf, k);
    if p == k + Injections(lines, cadenceOf, k + 1) {
      OriginLine(lines, cadenceOf, n, k, p);
    } else {
      OriginRecord(lines, cadenceOf, n, k, p);
    }
  }

  /** Every output line is an input line at its place or an injected record
      just before its close line. */
  lemma OutputOrigin(lines: seq<string>, cadenceOf: string -> int, n: nat, p: nat)
    requires n <= |lines| && p < |Expected(lines, cadenceOf, n)|
    ensures exists k :: 0 <= k < n && OutputAt(lines, cadenceOf, n, k, p)
  {
    var k := OriginPiece(lines, cadenceOf, n, p);
    OriginAt(lines, cadenceOf, n, k, p);
  }

  /** Output position `p` lies in what was written for some line `k`. */
  lemma OriginPiece(lines: seq<string>, cadenceOf: string -> int, n: nat, p: nat) returns (k: nat)
    requires n <= |lines| && p < |Expected(lines, cadenceOf, n)|
    ensures k < n && k + Injections(lines, cadenceOf, k) <= p < k + 1 + Injections(lines, cadenceOf, k + 1)
  {
    var f := Writes(lines, cadenceOf);
    JoinCovers(f, n, p);
    k :| 0 <= k < n && |Join(f, k)| <= p < |Join(f, k + 1)|;
    OutputLength(lines, cadenceOf, k);
    OutputLength(lines, cadenceOf, k + 1);
  }

  /** Output position `p` holds input line `k`, or the record injected for it. */
  ghost predicate OutputAt(lines: seq<string>, cadenceOf: string -> int, n: nat, k: nat, p: nat)
    requires k < n <= |lines| && p < |Expected(lines, cadenceOf, n)|
  {
    var q := k + Injections(lines, cadenceOf, k + 1);
    (p == q && Expected(lines, cadenceOf, n)[p] == lines[k]) ||
    (p == q - 1 && Injection(lines, cadenceOf, k).Some? &&
     Expected(lines, cadenceOf, n)[p] == CadenceLine(Injection(lines, cadenceOf, k).value))
  }

  // ---------------------------------------------------------------------------
  // The injection decision
  // ---------------------------------------------------------------------------

  /** A close line injects iff, since the previous close line (or the start of
      the file), some line contained `:Speed` and none contained `Cadence`;
      the value comes from the last such speed line of the block. */
  lemma InjectionIff(lines: seq<string>, cadenceOf: string -> int, k: nat)
    requires k < |lines| && WellFormed(lines, k + 1)
    ensures var b := BlockStart(lines, k);
      Injection(lines, cadenceOf, k).Some? <==>
        IsClose(lines[k]) &&
        (exists j :: b <= j <= k && IsSpeed(lines[j])) &&
        (forall j :: b <= j <= k ==> !HasCadence(lines[j]))
    ensures var b := BlockStart(lines, k);
      Injection(lines, cadenceOf, k).Some? ==>
        exists j :: b <= j <= k && IsSpeed(lines[j]) &&
          (forall j' :: j < j' <= k ==> !IsSpeed(lines[j'])) &&
          Injection(lines, cadenceOf, k).value == cadenceOf(Extract(lines[j]).value)
  {
    var b := BlockStart(lines, k);
    match LastSpeed(lines, b, k + 1)
    case None =>
    case Some(j) =>
      assert b <= j <= k && IsSpeed(lines[j]);
  }

  /** After any line containing `</Trackpoint>`, both pieces of block state are
      clear, whichever branch of the close check ran. */
  lemma ResetAfterClose(lines: seq<string>, cadenceOf: string -> int, i: nat)
    requires i < |lines| && IsClose(lines[i])
    ensures PendingBefore(lines, cadenceOf, i + 1) == None
    ensures !CadenceSeenBefore(lines, i + 1)
  {
    Step(lines, cadenceOf, i);
  }

  /** A speed seen in one block never causes an injection in a later block: a
      close line after the block's close line, with no speed line in between,
      injects nothing. */
  lemma NoLeakAcrossBlocks(lines: seq<string>, cadenceOf: string -> int, c: nat, k: nat)
    requires c < k < |lines| && IsClose(lines[c])
    requires forall j :: c < j <= k ==> !IsSpeed(lines[j])
    ensures Injection(lines, cadenceOf, k) == None
  {
    var b := BlockStart(lines, k);
    assert c < b;
  }

  /** At most one injection per block: a line that injects closes its block,
      so every later line lies in a later block. */
  lemma InjectionEndsBlock(lines: seq<string>, cadenceOf: string -> int, j: nat, k: nat)
    requires j < k < |lines| && Injection(lines, cadenceOf, j).Some?
    ensures BlockStart(lines, j) <= j < BlockStart(lines, k)
  {
    assert IsClose(lines[j]);
  }

  /** A line holding both `:Speed` and `</Trackpoint>` injects the cadence of
      that same line, unless its block has a `Cadence` line. */
  lemma SpeedOnCloseLine(lines: seq<string>, cadenceOf: string -> int, k: nat)
    requires k < |lines| && IsSpeed(lines[k]) && IsClose(lines[k]) && Extract(lines[k]).Some?
    requires forall j :: BlockStart(lines, k) <= j <= k ==> !HasCadence(lines[j])
    ensures Injection(lines, cadenceOf, k) == Some(cadenceOf(Extract(lines[k]).value))
  {
  }

  /** A line holding both `Cadence` and `</Trackpoint>` injects nothing. */
  lemma CadenceOnCloseLine(lines: seq<string>, cadenceOf: string -> int, k: nat)
    requires k < |lines| && HasCadence(lines[k])
    ensures Injection(lines, cadenceOf, k) == None
  {
    assert BlockStart(lines, k) <= k < k + 1;
  }

  // ---------------------------------------------------------------------------
  // The injected record
  // ---------------------------------------------------------------------------

  /** The injected record starts with exactly twelve spaces and carries the
      cadence it was made from: reading it back gives `n`. */
  lemma CadenceLineFormat(n: int)
    ensures var l := CadenceLine(n);
      |l| > 12 && (forall j :: 0 <= j < 12 ==> l[j] == ' ') && l[12] == '<' &&
      CadenceValue(l) == Some(n)
  {
    var l := CadenceLine(n);
    var digits := IntToString(n);
    assert l == (Indent + "<Cadence>") + digits + "</Cadence>";
    assert l[..21] == Indent + "<Cadence>";
    assert l[|l| - 10..] == "</Cadence>";
    assert l[21..|l| - 10] == digits;
    IntRoundTrip(n);
  }

  /** The bytes `:` and `T` never appear in an injected record. */
  lemma CadenceLineBytes(n: int)
    ensures ':' !in CadenceLine(n) && 'T' !in CadenceLine(n)
  {
    var digits := IntToString(n);
    forall j | 0 <= j < |digits| ensures digits[j] != ':' && digits[j] != 'T' {
      IntToStringBytes(n, j);
    }
    var head := Indent + "<Cadence>";
    assert ':' !in head && 'T' !in head;
    assert ':' !in "</Cadence>" && 'T' !in "</Cadence>";
    assert CadenceLine(n) == head + digits + "</Cadence>";
  }

  /** An injected record holds the `Cadence` marker, inside its opening tag. */
  lemma CadenceLineHasMarker(n: int)
    ensures HasCadence(CadenceLine(n))
  {
    var head := Indent + "<Cadence>";
    var l := CadenceLine(n);
    assert l == head + (IntToString(n) + "</Cadence>");
    assert head[13..20] == CadenceMarker;
    assert l[13..20] == head[13..20];
    OccursAtContains(l, CadenceMarker, 13);
  }

  /** An injected record holds no speed marker: it has no `:`. */
  lemma CadenceLineNotSpeed(n: int)
    ensures !IsSpeed(CadenceLine(n))
  {
    CadenceLineBytes(n);
    ContainedBytes(CadenceLine(n), SpeedMarker, 0);
  }

  /** An injected record holds no close marker: it has no `T`. */
  lemma CadenceLineNotClose(n: int)
    ensures !IsClose(CadenceLine(n))
  {
    CadenceLineBytes(n);
    ContainedBytes(CadenceLine(n), CloseMarker, 2);
  }

  /** Seen again by the scanner, an injected record is a `Cadence` line, and
      neither a speed line nor a close line. */
  lemma CadenceLineMarkers(n: int)
    ensures HasCadence(CadenceLine(n))
    ensures !IsSpeed(CadenceLine(n))
    ensures !IsClose(CadenceLine(n))
  {
    CadenceLineHasMarker(n);
    CadenceLineNotSpeed(n);
    CadenceLineNotClose(n);
  }
}
