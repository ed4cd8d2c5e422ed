/**
  The command-line rules of the driver (cmd/bmp2chr.go:14, 40-69, 84-106):
  at least one input, an output name derived from a single input when -o is
  not given, an exact, case-sensitive whitelist of input extensions, and the
  lower-cased dispatch on the extension that chooses how an input is read.
 */
module Cli {
  import opened Wrappers

  /** The accepted input extensions (cmd/bmp2chr.go:14). */
  const SupportedInputFormats: seq<string> := [".bmp", ".json"]
  /** The extension of a derived output name. */
  const ChrExtension: string := ".chr"

  datatype CliError =
    | MissingInputFiles                 // "Missing input file(s)"
    | MissingOutputFilename             // "Missing output filename"
    | UnsupportedInputFormat(file: string)

  /**
    Go's filepath.Ext with '/' as separator: the suffix of the path from the
    last '.' of its final element, or "" when that element has no '.'.
   */
  function Ext(path: string): (e: string)
    ensures |e| <= |path| && e == path[|path| - |e|..]
    ensures e != [] ==> e[0] == '.' && forall k :: 1 <= k < |e| ==> e[k] != '.' && e[k] != '/'
    ensures e == [] ==> forall k :: 0 <= k <= |path| && '/' !in path[k..] ==> '.' !in path[k..]
    decreases |path|
  {
    if |path| == 0 || path[|path| - 1] == '/' then
      assert forall k :: 0 <= k < |path| ==> path[k..][|path| - 1 - k] == path[|path| - 1];
      ""
    else if path[|path| - 1] == '.' then "."
    else
      var init, c := path[..|path| - 1], path[|path| - 1];
      var e := Ext(init);
      assert forall k :: 0 <= k <= |init| ==> path[k..] == init[k..] + [c];
      if e == "" then "" else e + [c]
  }

  /** The path without its extension. */
  function Stem(path: string): (s: string)
    ensures s + Ext(path) == path
  {
    path[..|path| - |Ext(path)|]
  }

  /** A suffix that starts with '.' and has no further '.' or '/' is the extension of anything it ends. */
  lemma {:induction false} ExtOfAppended(s: string, t: string)
    requires |t| > 0 && t[0] == '.'
    requires forall k :: 1 <= k < |t| ==> t[k] != '.' && t[k] != '/'
    ensures Ext(s + t) == t
    decreases |t|
  {
    var path := s + t;
    var last := |path| - 1;
    assert path[last] == t[|t| - 1];
    if |t| > 1 {
      var init := t[..|t| - 1];
      assert forall k :: 1 <= k < |init| ==> init[k] == t[k];
      ExtOfAppended(s, init);
      assert path[..last] == s + init;
    }
  }

  /**
    The output file name (cmd/bmp2chr.go:40-55): no inputs is an error; -o
    wins when given; otherwise a single input's name with its extension
    replaced by .chr, and more than one input is an error.
   */
  function OutputName(files: seq<string>, outputFlag: string): (r: Result<string, CliError>)
    ensures |files| == 0 ==> r == Err(MissingInputFiles)
    ensures |files| > 0 && outputFlag != "" ==> r == Ok(outputFlag)
    ensures |files| > 1 && outputFlag == "" ==> r == Err(MissingOutputFilename)
    ensures |files| == 1 && outputFlag == "" ==>
      r.Ok? && r.value == Stem(files[0]) + ChrExtension
  {
    if |files| == 0 then Err(MissingInputFiles)
    else if |outputFlag| != 0 then Ok(outputFlag)
    else if |files| == 1 then
      var ext := Ext(files[0]);
      Ok(files[0][..|files[0]| - |ext|] + ChrExtension)
    else Err(MissingOutputFilename)
  }

  /** A derived output name has extension .chr, and removing it gives back the input's stem. */
  lemma DerivedNameIsChr(file: string)
    ensures var out := OutputName([file], "").value;
      Ext(out) == ChrExtension && Stem(out) == Stem(file)
  {
    var out := OutputName([file], "").value;
    var stem := Stem(file);
    ExtOfAppended(stem, ChrExtension);
    assert out == stem + ChrExtension;
    assert |Ext(out)| == 4;
    assert out[..|out| - 4] == stem;
  }

  /** A file whose extension is exactly one of the whitelisted ones. */
  predicate Supported(file: string): (r: bool)
    ensures r <==> Ext(file) == ".bmp" || Ext(file) == ".json"
  {
    Ext(file) in SupportedInputFormats
  }

  /** The inner whitelist loop (cmd/bmp2chr.go:58-64). */
  method IsSupported(file: string) returns (found: bool)
    ensures found <==> Supported(file)
  {
    var ext := Ext(file);
    found := false;
    for k := 0 to |SupportedInputFormats|
      invariant found <==> ext in SupportedInputFormats[..k]
    {
      assert SupportedInputFormats[..k + 1] == SupportedInputFormats[..k] + [SupportedInputFormats[k]];
      if ext == SupportedInputFormats[k] {
        found := true;
      }
    }
    assert SupportedInputFormats[..|SupportedInputFormats|] == SupportedInputFormats;
  }

  /** The outer whitelist loop (cmd/bmp2chr.go:57-69): the position of the first unsupported file, if any. */
  method FirstUnsupported(files: seq<string>) returns (bad: Option<nat>)
    ensures bad.None? <==> forall i :: 0 <= i < |files| ==> Supported(files[i])
    ensures bad.Some? ==>
      && bad.value < |files|
      && !Supported(files[bad.value])
      && forall i :: 0 <= i < bad.value ==> Supported(files[i])
  {
    for i := 0 to |files|
      invariant forall j :: 0 <= j < i ==> Supported(files[j])
    {
      var found := IsSupported(files[i]);
      if !found {
        return Some(i);
      }
    }
    return None;
  }

  /**
    The checks made before any output is created, in the source's order:
    inputs present, output name, then every input's extension.
   */
  method CheckCommandLine(files: seq<string>, outputFlag: string) returns (r: Result<string, CliError>)
    ensures OutputName(files, outputFlag).Err? ==> r == OutputName(files, outputFlag)
    ensures r.Ok? <==>
      OutputName(files, outputFlag).Ok? && forall i :: 0 <= i < |files| ==> Supported(files[i])
    ensures r.Ok? ==> r == OutputName(files, outputFlag)
    ensures r.Err? && OutputName(files, outputFlag).Ok? ==>
      exists i :: 0 <= i < |files| && r == Err(UnsupportedInputFormat(files[i])) && !Supported(files[i])
        && forall j :: 0 <= j < i ==> Supported(files[j])
  {
    r := OutputName(files, outputFlag);
    if r.Err? {
      return;
    }
    var bad := FirstUnsupported(files);
    if bad.Some? {
      r := Err(UnsupportedInputFormat(files[bad.value]));
    }
  }

  /** ASCII lower-casing of one character. */
  function LowerChar(c: char): (d: char)
    ensures 'A' <= c <= 'Z' ==> d as int == c as int + 32
    ensures !('A' <= c <= 'Z') ==> d == c
  {
    if 'A' <= c <= 'Z' then (c as int + 32) as char else c
  }

  function Lower(s: string): (r: string)
    ensures |r| == |s| && forall k :: 0 <= k < |s| ==> r[k] == LowerChar(s[k])
  {
    seq(|s|, k requires 0 <= k < |s| => LowerChar(s[k]))
  }

  /** How an input is read (cmd/bmp2chr.go:84-106); the default branch panics. */
  datatype InputKind = BitmapFile | ConfigFile | UnsupportedPanic

  function Dispatch(file: string): (r: InputKind)
    ensures r == BitmapFile <==> Lower(Ext(file)) == ".bmp"
    ensures r == ConfigFile <==> Lower(Ext(file)) == ".json"
    ensures r == UnsupportedPanic <==> Lower(Ext(file)) != ".bmp" && Lower(Ext(file)) != ".json"
  {
    var ext := Lower(Ext(file));
    if ext == ".bmp" then BitmapFile
    else if ext == ".json" then ConfigFile
    else UnsupportedPanic
  }

  /** Every whitelisted file takes the .bmp or .json branch, so the panic branch is never reached. */
  lemma SupportedNeverPanics(file: string)
    requires Supported(file)
    ensures Ext(file) == ".bmp" ==> Dispatch(file) == BitmapFile
    ensures Ext(file) == ".json" ==> Dispatch(file) == ConfigFile
    ensures Dispatch(file) != UnsupportedPanic
  {
    assert Lower(".bmp") == ".bmp";
    assert Lower(".json") == ".json";
  }

  /** The whitelist is case-sensitive: "TILES.BMP" is refused although the dispatch would read it as a bitmap. */
  lemma UpperCaseRefused()
    ensures !Supported("TILES.BMP") && Dispatch("TILES.BMP") == BitmapFile
  {
    ExtOfAppended("TILES", ".BMP");
    assert "TILES" + ".BMP" == "TILES.BMP";
    assert Lower(".BMP") == ".bmp";
  }
}
