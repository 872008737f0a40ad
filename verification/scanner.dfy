/** The Trackpoint block scanner: the line loop of `main`.

    The input is the sequence of lines of a TCX file, as `BufRead::lines`
    yields them. A block is the run of lines after one line containing
    `</Trackpoint>` (or after the start of the file) up to and including the
    next one. Three independent substring checks run on each line, in this
    order: a line containing `:Speed` sets the block's pending cadence from the
    decimal it carries; a line containing `Cadence` marks the block as already
    having a cadence record; a line containing `</Trackpoint>` injects
    `            <Cadence>N</Cadence>` just before itself when the block has a
    pending cadence and no cadence record, then clears both. Every input line
    is copied through unchanged.

    The float computation that turns the matched decimal into the integer
    cadence (`str::parse::<f64>`, `Transmission::get_cadence_m_s`, `trunc` and
    the saturating cast to `i32`) is the parameter `cadenceOf`.

    The block semantics is stated declaratively first (`BlockStart`,
    `LastSpeed`, `Injection`, `Expected`); `Convert` is the imperative loop,
    proved to produce exactly `Expected`. */
module Scanner {
  import opened Wrappers
  import opened Text
  import opened SpeedField
  import opened Numerals
  import opened Joins

  const SpeedMarker: string := ":Speed"
  const CadenceMarker: string := "Cadence"
  const CloseMarker: string := "</Trackpoint>"
  /** Twelve spaces: the indentation of a Trackpoint's children in Garmin files. */
  const Indent: string := "            "

  predicate IsSpeed(line: string) {
    Contains(line, SpeedMarker)
  }

  predicate HasCadence(line: string) {
    Contains(line, CadenceMarker)
  }

  predicate IsClose(line: string) {
    Contains(line, CloseMarker)
  }

  /** The injected record. */
  function CadenceLine(n: int): (l: string)
  {
    Indent + "<Cadence>" + IntToString(n) + "</Cadence>"
  }

  /** Reads the cadence back out of a record shaped like `CadenceLine`. */
  function CadenceValue(line: string): Option<int> {
    var open := Indent + "<Cadence>";
    var close := "</Cadence>";
    if |line| >= |open| + |close| && line[..|open|] == open && line[|line| - |close|..] == close then
      ParseInt(line[|open|..|line| - |close|])
    else None
  }

  /** The cadence a speed line yields, or `None` where the source panics
      because the line carries no decimal. */
  function SpeedCadence(line: string, cadenceOf: string -> int): Option<int> {
    match Extract(line)
    case None => None
    case Some(text) => Some(cadenceOf(text))
  }

  /** Every speed line among the first `n` carries a decimal. */
  predicate WellFormed(lines: seq<string>, n: nat)
    requires n <= |lines|
  {
    forall j :: 0 <= j < n && IsSpeed(lines[j]) ==> Extract(lines[j]).Some?
  }

  /** The block open when line `k` is read starts just after the last close
      line before `k`, or at the start of the file. */
  function BlockStart(lines: seq<string>, k: nat): (b: nat)
    requires k <= |lines|
    ensures b <= k
    ensures forall j :: b <= j < k ==> !IsClose(lines[j])
    ensures b > 0 ==> IsClose(lines[b - 1])
    decreases k
  {
    if k == 0 then 0
    else if IsClose(lines[k - 1]) then k
    else BlockStart(lines, k - 1)
  }

  /** Index of the last speed line in `lines[lo..hi]`. */
  function LastSpeed(lines: seq<string>, lo: nat, hi: nat): (r: Option<nat>)
    requires lo <= hi <= |lines|
    ensures r.Some? ==> lo <= r.value < hi && IsSpeed(lines[r.value])
    ensures r.Some? ==> forall j :: r.value < j < hi ==> !IsSpeed(lines[j])
    ensures r.None? ==> forall j :: lo <= j < hi ==> !IsSpeed(lines[j])
    decreases hi - lo
  {
    if lo == hi then None
    else if IsSpeed(lines[hi - 1]) then Some(hi - 1)
    else LastSpeed(lines, lo, hi - 1)
  }

  /** Some line of `lines[lo..hi]` contains `Cadence`. */
  predicate CadenceIn(lines: seq<string>, lo: nat, hi: nat)
    requires lo <= hi <= |lines|
  {
    exists j :: lo <= j < hi && HasCadence(lines[j])
  }

  /** The cadence computed from the last speed line of `lines[lo..hi]`. */
  function CadenceFrom(lines: seq<string>, cadenceOf: string -> int, lo: nat, hi: nat): Option<int>
    requires lo <= hi <= |lines|
  {
    match LastSpeed(lines, lo, hi)
    case None => None
    case Some(j) => SpeedCadence(lines[j], cadenceOf)
  }

  /** `trackpoint_cadence` when line `i` is about to be read. */
  function PendingBefore(lines: seq<string>, cadenceOf: string -> int, i: nat): Option<int>
    requires i <= |lines|
  {
    CadenceFrom(lines, cadenceOf, BlockStart(lines, i), i)
  }

  /** `cadence_already_set_in_trackpoint` when line `i` is about to be read. */
  predicate CadenceSeenBefore(lines: seq<string>, i: nat)
    requires i <= |lines|
  {
    CadenceIn(lines, BlockStart(lines, i), i)
  }

  /** The cadence injected just before line `k`, if any: `k` closes a block
      that has no `Cadence` line, and the block's last speed line gives the
      value. Line `k` itself belongs to its block, since the speed and cadence
      checks run on it before the close check. */
  function Injection(lines: seq<string>, cadenceOf: string -> int, k: nat): (r: Option<int>)
    requires k < |lines|
    ensures r.Some? ==> IsClose(lines[k]) && !HasCadence(lines[k])
  {
    var b := BlockStart(lines, k);
    if IsClose(lines[k]) && !CadenceIn(lines, b, k + 1) then CadenceFrom(lines, cadenceOf, b, k + 1)
    else None
  }

  /** What the scanner writes for line `k`: at most one injected record, then
      the line itself. */
  function Chunk(lines: seq<string>, cadenceOf: string -> int, k: nat): (c: seq<string>)
    requires k < |lines|
    ensures 1 <= |c| <= 2 && c[|c| - 1] == lines[k]
    ensures |c| == 2 <==> Injection(lines, cadenceOf, k).Some?
    ensures |c| == 2 ==> c[0] == CadenceLine(Injection(lines, cadenceOf, k).value)
  {
    match Injection(lines, cadenceOf, k)
    case None => [lines[k]]
    case Some(n) => [CadenceLine(n), lines[k]]
  }

  /** What is written for each line, as one function of the line index
      (nothing past the last line). */
  function Writes(lines: seq<string>, cadenceOf: string -> int): nat -> seq<string> {
    (k: nat) => if k < |lines| then Chunk(lines, cadenceOf, k) else []
  }

  /** Inside the input, `Writes` is `Chunk`. */
  lemma WritesAt(lines: seq<string>, cadenceOf: string -> int, k: nat)
    requires k < |lines|
    ensures Writes(lines, cadenceOf)(k) == Chunk(lines, cadenceOf, k)
  {
  }

  /** The output written for the first `n` lines: one line per input line and
      one per injection. */
  function Expected(lines: seq<string>, cadenceOf: string -> int, n: nat): (out: seq<string>)
    requires n <= |lines|
    ensures |out| == n + Injections(lines, cadenceOf, n)
  {
    WritesSizes(lines, cadenceOf, n);
    JoinLength(Writes(lines, cadenceOf), n);
    Join(Writes(lines, cadenceOf), n)
  }

  /** One or two lines are written for each input line. */
  lemma WritesSizes(lines: seq<string>, cadenceOf: string -> int, n: nat)
    requires n <= |lines|
    ensures forall k :: 0 <= k < n ==> 1 <= |Writes(lines, cadenceOf)(k)| <= 2
  {
    forall k | 0 <= k < n ensures 1 <= |Writes(lines, cadenceOf)(k)| <= 2 {
      WritesAt(lines, cadenceOf, k);
    }
  }

  /** Number of records injected for the first `n` lines: the lines written
      with a record before them. */
  function Injections(lines: seq<string>, cadenceOf: string -> int, n: nat): nat
    requires n <= |lines|
  {
    Pairs(Writes(lines, cadenceOf), n)
  }

  /** Reading line `i` moves the scanner state as the three checks do: the
      speed check overwrites the pending cadence, the cadence check sets the
      flag, and the close check decides the injection from the updated
      values and then clears both. */
  lemma {:induction false} Step(lines: seq<string>, cadenceOf: string -> int, i: nat)
    requires i < |lines|
    ensures var pending := if IsSpeed(lines[i]) then SpeedCadence(lines[i], cadenceOf)
                           else PendingBefore(lines, cadenceOf, i);
            var seen := CadenceSeenBefore(lines, i) || HasCadence(lines[i]);
            && Injection(lines, cadenceOf, i) == (if IsClose(lines[i]) && !seen then pending else None)
            && PendingBefore(lines, cadenceOf, i + 1) == (if IsClose(lines[i]) then None else pending)
            && CadenceSeenBefore(lines, i + 1) == (!IsClose(lines[i]) && seen)
  {
    var b := BlockStart(lines, i);
    if HasCadence(lines[i]) {
      assert b <= i < i + 1;
    }
    assert CadenceIn(lines, b, i + 1) == (CadenceIn(lines, b, i) || HasCadence(lines[i]));
    if IsClose(lines[i]) {
      assert BlockStart(lines, i + 1) == i + 1;
    } else {
      assert BlockStart(lines, i + 1) == b;
    }
  }

  /** What the close check and the final `writeln!` write for `line`, from
      the state left by the speed and cadence checks. */
  function ChunkOf(line: string, pending: Option<int>, seen: bool): seq<string> {
    if IsClose(line) && !seen && pending.Some? then [CadenceLine(pending.value), line] else [line]
  }

  /** `Chunk` and `Expected` follow the state machine one line at a time. */
  lemma ChunkStep(lines: seq<string>, cadenceOf: string -> int, i: nat)
    requires i < |lines|
    ensures var pending := if IsSpeed(lines[i]) then SpeedCadence(lines[i], cadenceOf)
                           else PendingBefore(lines, cadenceOf, i);
            var seen := CadenceSeenBefore(lines, i) || HasCadence(lines[i]);
            Expected(lines, cadenceOf, i + 1) == Expected(lines, cadenceOf, i) + ChunkOf(lines[i], pending, seen)
  {
    Step(lines, cadenceOf, i);
    assert Writes(lines, cadenceOf)(i) == Chunk(lines, cadenceOf, i);
  }

  /** The two variables of the line loop: `trackpoint_cadence` and
      `cadence_already_set_in_trackpoint`. */
  datatype State = State(pending: Option<int>, cadenceSeen: bool)

  /** Where the loop stands after some lines: running, with its variables and
      what it has written, or stopped by the panic at speed line `at`. */
  datatype Progress = Running(state: State, output: seq<string>) | Stopped(at: nat, written: seq<string>)

  /** One iteration of the loop on line `i`, as a function of the variables. */
  function Feed(st: State, output: seq<string>, line: string, i: nat, cadenceOf: string -> int): (r: Progress)
  {
    if IsSpeed(line) && Extract(line).None? then Stopped(i, output)
    else
      var pending := if IsSpeed(line) then SpeedCadence(line, cadenceOf) else st.pending;
      var seen := st.cadenceSeen || HasCadence(line);
      if IsClose(line) then Running(State(None, false), output + ChunkOf(line, pending, seen))
      else Running(State(pending, seen), output + [line])
  }

  /** The loop run over the first `n` lines, from empty variables. */
  function Scan(lines: seq<string>, cadenceOf: string -> int, n: nat): (r: Progress)
    requires n <= |lines|
    decreases n
  {
    if n == 0 then Running(State(None, false), [])
    else match Scan(lines, cadenceOf, n - 1)
      case Stopped(at, written) => Stopped(at, written)
      case Running(st, output) => Feed(st, output, lines[n - 1], n - 1, cadenceOf)
  }

  /** One iteration stops exactly at a speed line without a decimal, keeping
      what was written; otherwise it only appends, ending with the line. */
  lemma FeedLaws(st: State, output: seq<string>, line: string, i: nat, cadenceOf: string -> int)
    ensures var r := Feed(st, output, line, i, cadenceOf);
      && (r.Stopped? <==> IsSpeed(line) && Extract(line).None?)
      && (r.Stopped? ==> r.at == i && r.written == output)
      && (r.Running? ==> |r.output| > |output| && r.output[..|output|] == output && r.output[|r.output| - 1] == line)
  {
    var r := Feed(st, output, line, i, cadenceOf);
    if r.Running? {
      assert r.output[..|output|] == output;
    }
  }

  /** A stopped scan stopped at an earlier speed line without a decimal. */
  lemma {:induction false} ScanStopped(lines: seq<string>, cadenceOf: string -> int, n: nat)
    requires n <= |lines| && Scan(lines, cadenceOf, n).Stopped?
    ensures Scan(lines, cadenceOf, n).at < n
    ensures IsSpeed(lines[Scan(lines, cadenceOf, n).at]) && Extract(lines[Scan(lines, cadenceOf, n).at]).None?
    decreases n
  {
    var m := n - 1;
    match Scan(lines, cadenceOf, m)
    case Stopped(_, _) =>
      ScanStopped(lines, cadenceOf, m);
    case Running(st, output) =>
      FeedLaws(st, output, lines[m], m, cadenceOf);
  }

  /** One iteration, started from the block semantics' state before line
      `i`, lands on the block semantics' state after it. */
  lemma FeedStep(lines: seq<string>, cadenceOf: string -> int, i: nat)
    requires i < |lines| && WellFormed(lines, i + 1)
    ensures Feed(State(PendingBefore(lines, cadenceOf, i), CadenceSeenBefore(lines, i)),
                 Expected(lines, cadenceOf, i), lines[i], i, cadenceOf) ==
            Running(State(PendingBefore(lines, cadenceOf, i + 1), CadenceSeenBefore(lines, i + 1)),
                    Expected(lines, cadenceOf, i + 1))
  {
    Step(lines, cadenceOf, i);
    ChunkStep(lines, cadenceOf, i);
  }

  /** The loop implements the block semantics: while every speed line so far
      carries a decimal, its variables hold the open block's pending cadence
      and cadence flag, and it has written `Expected`. */
  lemma {:induction false} ScanRuns(lines: seq<string>, cadenceOf: string -> int, n: nat)
    requires n <= |lines| && WellFormed(lines, n)
    ensures Scan(lines, cadenceOf, n) ==
      Running(State(PendingBefore(lines, cadenceOf, n), CadenceSeenBefore(lines, n)), Expected(lines, cadenceOf, n))
    decreases n
  {
    if n > 0 {
      var m := n - 1;
      ScanRuns(lines, cadenceOf, m);
      ScanStep(lines, cadenceOf, m);
      FeedStep(lines, cadenceOf, m);
    }
  }

  /** A running scan takes line `i` by one `Feed`. */
  lemma ScanStep(lines: seq<string>, cadenceOf: string -> int, i: nat)
    requires i < |lines| && Scan(lines, cadenceOf, i).Running?
    ensures Scan(lines, cadenceOf, i + 1) ==
      Feed(Scan(lines, cadenceOf, i).state, Scan(lines, cadenceOf, i).output, lines[i], i, cadenceOf)
  {
  }

  /** Otherwise the loop stops at the first speed line without a decimal,
      having written `Expected` for the lines before it. */
  lemma {:induction false} ScanStops(lines: seq<string>, cadenceOf: string -> int, n: nat, at: nat)
    requires at < n <= |lines| && WellFormed(lines, at) && IsSpeed(lines[at]) && Extract(lines[at]).None?
    ensures Scan(lines, cadenceOf, n) == Stopped(at, Expected(lines, cadenceOf, at))
    decreases n
  {
    if n == at + 1 {
      ScanRuns(lines, cadenceOf, at);
    } else {
      ScanStops(lines, cadenceOf, n - 1, at);
    }
  }

  /** A scan still running has met no speed line without a decimal. */
  lemma {:induction false} RunningWellFormed(lines: seq<string>, cadenceOf: string -> int, n: nat)
    requires n <= |lines| && Scan(lines, cadenceOf, n).Running?
    ensures WellFormed(lines, n)
    decreases n
  {
    if n > 0 {
      var m := n - 1;
      assert Scan(lines, cadenceOf, m).Running?;
      RunningWellFormed(lines, cadenceOf, m);
      ScanStep(lines, cadenceOf, m);
      var line := lines[m];
      assert !(IsSpeed(line) && Extract(line).None?);
      WellFormedStep(lines, m);
    }
  }

  /** A well-formed prefix grows by a line that is not a speed line without
      a decimal. */
  lemma WellFormedStep(lines: seq<string>, m: nat)
    requires m < |lines| && WellFormed(lines, m)
    requires !(IsSpeed(lines[m]) && Extract(lines[m]).None?)
    ensures WellFormed(lines, m + 1)
  {
  }

  /** Outcome of a run: the whole output, or the fatal stop at a speed line
      that carries no decimal, with what was written before it. */
  datatype Outcome = Converted(output: seq<string>) | Aborted(line: nat, written: seq<string>)

  /** The line loop of `main`. */
  method Convert(lines: seq<string>, cadenceOf: string -> int) returns (r: Outcome)
    ensures r.Converted? <==> WellFormed(lines, |lines|)
    ensures r.Converted? ==> r.output == Expected(lines, cadenceOf, |lines|)
    ensures r.Aborted? ==>
      r.line < |lines| && IsSpeed(lines[r.line]) && Extract(lines[r.line]).None? &&
      WellFormed(lines, r.line) && r.written == Expected(lines, cadenceOf, r.line)
  {
    var pending: Option<int> := None;
    var cadenceSeen := false;
    var output: seq<string> := [];
    for i := 0 to |lines|
      invariant Scan(lines, cadenceOf, i) == Running(State(pending, cadenceSeen), output)
    {
      var line := lines[i];
      if IsSpeed(line) {
        match Extract(line)
        case None =>
          RunningWellFormed(lines, cadenceOf, i);
          ScanRuns(lines, cadenceOf, i);
          return Aborted(i, output);
        case Some(text) =>
          pending := Some(cadenceOf(text));
      }
      if HasCadence(line) {
        cadenceSeen := true;
      }
      if IsClose(line) {
        if !cadenceSeen {
          match pending
          case None =>
          case Some(cadence) =>
            output := output + [CadenceLine(cadence)];
        }
        pending := None;
        cadenceSeen := false;
      }
      output := output + [line];
    }
    RunningWellFormed(lines, cadenceOf, |lines|);
    ScanRuns(lines, cadenceOf, |lines|);
    return Converted(output);
  }
}
