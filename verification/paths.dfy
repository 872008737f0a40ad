/** The file-name logic of `main`: `is_tcx_file` and the output path built
    from the input path. A path is a `string` holding the bytes of its UTF-8
    text, one `char` per byte, as Rust's `str::len` and slicing count them;
    where a byte value matters the path has the type `Bytes`. */
module Paths {
  import opened Wrappers
  import opened Text

  const Extension: string := ".tcx"
  const Suffix: string := "_with_cadence"

  /** `is_tcx_file`: at least five bytes (so the base name is not empty) and
      the last four are `.tcx`. */
  function IsTcxFile(path: string): (r: bool)
    ensures r ==> |path| >= 5 && path == path[..|path| - 4] + Extension
  {
    |path| >= 5 && path[|path| - 4..] == Extension
  }

  /** Conversely, every non-empty base name followed by `.tcx` is accepted. */
  lemma TcxPathsAccepted(base: string)
    requires |base| >= 1
    ensures IsTcxFile(base + Extension)
  {
    var path := base + Extension;
    assert path[|path| - 4..] == Extension;
  }

  /** The output file of `main`: the input path without its last four bytes,
      then `_with_cadence.tcx`; `None` where `main` panics with
      "Not a valid file". */
  function OutputPath(path: string): (r: Option<string>)
    ensures r.Some? <==> IsTcxFile(path)
    ensures r.Some? ==> |r.value| == |path| + |Suffix| && r.value[..|path| - 4] == path[..|path| - 4]
    ensures r.Some? ==> r.value[|path| - 4..] == Suffix + Extension
  {
    if IsTcxFile(path) then Some(path[..|path| - 4] + Suffix + Extension) else None
  }

  /** The checks `main`'s tests make of `is_tcx_file`. */
  lemma IsTcxFileExamples()
    ensures IsTcxFile("/file.tcx")
    ensures !IsTcxFile("/file.txc")
    ensures !IsTcxFile("a.c")
  {
    assert "/file.tcx"[5..] == ".tcx";
    assert "/file.txc"[5..] == ".txc";
  }

  /** The output path is itself a `.tcx` path, is never the input path (so
      the input is never overwritten), and tells distinct inputs apart. */
  lemma OutputPathLaws(path: string, other: string)
    requires IsTcxFile(path)
    ensures IsTcxFile(OutputPath(path).value)
    ensures OutputPath(path).value != path
    ensures OutputPath(other) == OutputPath(path) ==> other == path
  {
    var r := OutputPath(path).value;
    assert r[|r| - 4..] == Extension;
    if OutputPath(other) == OutputPath(path) {
      assert |other| == |path|;
      assert other[..|other| - 4] == r[..|path| - 4] == path[..|path| - 4];
      assert other == other[..|other| - 4] + other[|other| - 4..];
      assert path == path[..|path| - 4] + path[|path| - 4..];
    }
  }

  // ---------------------------------------------------------------------------
  // `is_tcx_file` as written slices the path at byte `len - 4`, which panics
  // when that byte is inside a multi-byte UTF-8 character.
  // ---------------------------------------------------------------------------

  /** `str::is_char_boundary`: the start, the end, or a byte that is not a
      UTF-8 continuation byte (0x80 to 0xBF). */
  predicate IsCharBoundary(s: Bytes, i: nat)
    requires i <= |s|
  {
    i == 0 || i == |s| || !(0x80 <= s[i] as int < 0xC0)
  }

  /** `is_tcx_file` as written; `None` where `&path[(len - 4)..]` panics. */
  function IsTcxFileAsWritten(path: Bytes): (r: Option<bool>)
    ensures r.None? <==> |path| >= 5 && 0x80 <= path[|path| - 4] as int < 0xC0
    ensures r == Some(true) ==> |path| >= 5 && path[|path| - 4..] == Extension
  {
    if |path| < 5 then Some(false)
    else if !IsCharBoundary(path, |path| - 4) then None
    else Some(path[|path| - 4..] == Extension)
  }

  /** The path "é123" (bytes C3 A9 31 32 33) makes `is_tcx_file` panic instead
      of answering false. */
  lemma AsWrittenPanics()
    ensures var path: Bytes := [0xC3 as char, 0xA9 as char] + "123";
      IsTcxFileAsWritten(path) == None && !IsTcxFile(path)
  {
    var path: Bytes := [0xC3 as char, 0xA9 as char] + "123";
    assert path[1] == 0xA9 as char;
  }

  /** Wherever the code as written answers, `IsTcxFile` gives the same
      answer; where it panics, the intended answer is false. */
  lemma AsWrittenAgrees(path: Bytes)
    ensures IsTcxFileAsWritten(path).Some? ==> IsTcxFileAsWritten(path).value == IsTcxFile(path)
    ensures IsTcxFileAsWritten(path).None? ==> !IsTcxFile(path)
  {
    if |path| >= 5 && path[|path| - 4..] == Extension {
      assert path[|path| - 4] == '.';
    }
  }
}
