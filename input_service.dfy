/**
 The input resolver of the compose action: it reads the action's inputs
 (compose-file, services, compose-flags, up-flags, down-flags, cwd), keeps the
 compose files that exist under the working directory, warns about the ones
 that do not, and tokenizes the flag strings.

 What the host hands over is a parameter (RawInputs), and so is the
 file-system test `fileExists(cwd, file)`, which stands for
 `existsSync(join(cwd, file))`.
 */
module InputService {
  import opened Wrappers
  import opened JsBuiltins

  /** The resolved inputs: one record per run. */
  datatype Inputs = Inputs(
    composeFiles: seq<string>,
    services: seq<string>,
    composeFlags: seq<string>,
    upFlags: seq<string>,
    downFlags: seq<string>,
    cwd: string)

  /** What the host returns for each input name: `getMultilineInput` gives the
      lines of compose-file and services, `getInput` the other strings. */
  datatype RawInputs = RawInputs(
    composeFile: seq<string>,
    services: seq<string>,
    composeFlags: string,
    upFlags: string,
    downFlags: string,
    cwd: string)

  /** `existsSync(join(cwd, file))` */
  type FileExists = (string, string) -> bool

  /** The flag separator: a single space. */
  const FlagSeparator: char := ' '

  /** `parseFlags`: nothing for a null or empty string, otherwise the trimmed
      string split at every single space. */
  function ParseFlags(flags: Option<string>): (r: seq<string>)
    ensures r == [] <==> (flags == None || flags == Some(""))
    ensures forall k :: 0 <= k < |r| ==> FlagSeparator !in r[k]
  {
    if flags.None? || flags.value == "" then [] else Split(Trim(flags.value), FlagSeparator)
  }

  lemma ParseFlagsOfNonEmpty(s: string)
    requires s != ""
    ensures ParseFlags(Some(s)) == Split(Trim(s), FlagSeparator)
  {
  }

  lemma ParseFlagsOfClean(s: string)
    requires s != "" && NoSurroundingWhitespace(s)
    ensures ParseFlags(Some(s)) == Split(s, FlagSeparator)
  {
    ParseFlagsOfNonEmpty(s);
    TrimKeepsClean(s);
  }

  /** Joining the tokens of a flag string gives back the trimmed string; null
      gives the empty string. */
  lemma ParseFlagsRoundTrip(flags: Option<string>)
    ensures Join(ParseFlags(flags), FlagSeparator) == if flags.None? then "" else Trim(flags.value)
  {
    if flags.Some? && flags.value != "" {
      ParseFlagsOfNonEmpty(flags.value);
      JoinSplit(Trim(flags.value), FlagSeparator);
    }
  }

  /** Conversely, tokens without spaces whose join has no surrounding whitespace
      are exactly what parseFlags recovers from that join. */
  lemma ParseFlagsOfJoin(tokens: seq<string>)
    requires |tokens| >= 1
    requires forall k :: 0 <= k < |tokens| ==> FlagSeparator !in tokens[k]
    requires Join(tokens, FlagSeparator) != ""
    requires NoSurroundingWhitespace(Join(tokens, FlagSeparator))
    ensures ParseFlags(Some(Join(tokens, FlagSeparator))) == tokens
  {
    ParseFlagsOfClean(Join(tokens, FlagSeparator));
    SplitJoin(tokens, FlagSeparator);
  }

  /** A whitespace-only flag string yields one empty token, not an empty list. */
  lemma ParseFlagsWhitespaceOnly(s: string)
    requires s != "" && AllWhitespace(s)
    ensures ParseFlags(Some(s)) == [""]
  {
    TrimUnique(s, [], []);
    assert s + [] + [] == s;
  }

  /** Single spaces separate tokens. */
  lemma ParseFlagsSingleSpaces()
    ensures ParseFlags(Some("-d --build")) == ["-d", "--build"]
  {
    assert Join(["-d", "--build"], FlagSeparator) == "-d --build";
    ParseFlagsOfJoin(["-d", "--build"]);
  }

  /** A double space gives an empty token between its neighbours. */
  lemma ParseFlagsDoubleSpace()
    ensures ParseFlags(Some("a  b")) == ["a", "", "b"]
  {
    var tokens := ["a", "", "b"];
    assert Join(tokens[2..], FlagSeparator) == "b";
    assert Join(tokens[1..], FlagSeparator) == " b";
    assert Join(tokens, FlagSeparator) == "a  b";
    ParseFlagsOfJoin(tokens);
  }

  /** Surrounding whitespace is trimmed away before splitting: a single word
      padded with any whitespace, newlines included, is one token. */
  lemma ParseFlagsTrimsFirst(p: string, word: string, q: string)
    requires AllWhitespace(p) && AllWhitespace(q)
    requires word != "" && NoSurroundingWhitespace(word) && FlagSeparator !in word
    ensures ParseFlags(Some(p + word + q)) == [word]
  {
    var s := p + word + q;
    assert s != "" by {
      assert |s| >= |word|;
    }
    ParseFlagsOfNonEmpty(s);
    TrimUnique(p, word, q);
    SplitWithoutSeparator(word, FlagSeparator);
  }

  /** A compose-file line that is kept: non-empty and present under cwd. */
  predicate IsPresent(cwd: string, fileExists: FileExists, line: string) {
    line != "" && fileExists(cwd, line)
  }

  /** A compose-file line that draws a warning: non-empty and absent under cwd. */
  predicate IsMissing(cwd: string, fileExists: FileExists, line: string) {
    line != "" && !fileExists(cwd, line)
  }

  /** The two tests, as the callbacks handed to `filter`. */
  function Present(cwd: string, fileExists: FileExists): string -> bool {
    line => IsPresent(cwd, fileExists, line)
  }

  function Missing(cwd: string, fileExists: FileExists): string -> bool {
    line => IsMissing(cwd, fileExists, line)
  }

  /** The text of the warning logged for a missing compose file. */
  function MissingFileWarning(file: string, cwd: string): string {
    file + " does not exist in " + cwd
  }

  /** The compose files `getComposeFiles` returns. */
  function ComposeFiles(lines: seq<string>, cwd: string, fileExists: FileExists): seq<string> {
    Filter(lines, Present(cwd, fileExists))
  }

  /** The compose-file lines that draw a warning. */
  function MissingFiles(lines: seq<string>, cwd: string, fileExists: FileExists): seq<string> {
    Filter(lines, Missing(cwd, fileExists))
  }

  /** The warnings `getComposeFiles` logs, in the order it logs them. */
  function MissingWarnings(lines: seq<string>, cwd: string, fileExists: FileExists): (w: seq<string>)
    ensures |w| == |MissingFiles(lines, cwd, fileExists)|
    ensures forall k :: 0 <= k < |w| ==> w[k] == MissingFileWarning(MissingFiles(lines, cwd, fileExists)[k], cwd)
  {
    var missing := MissingFiles(lines, cwd, fileExists);
    seq(|missing|, k requires 0 <= k < |missing| => MissingFileWarning(missing[k], cwd))
  }

  lemma ComposeFilesSnoc(lines: seq<string>, line: string, cwd: string, fileExists: FileExists)
    ensures ComposeFiles(lines + [line], cwd, fileExists)
         == ComposeFiles(lines, cwd, fileExists) + (if IsPresent(cwd, fileExists, line) then [line] else [])
  {
    FilterAppend(lines, [line], Present(cwd, fileExists));
    assert [line][1..] == [];
  }

  lemma MissingWarningsSnoc(lines: seq<string>, line: string, cwd: string, fileExists: FileExists)
    ensures MissingWarnings(lines + [line], cwd, fileExists)
         == MissingWarnings(lines, cwd, fileExists) + (if IsMissing(cwd, fileExists, line) then [MissingFileWarning(line, cwd)] else [])
  {
    FilterAppend(lines, [line], Missing(cwd, fileExists));
    assert [line][1..] == [];
    var before := MissingFiles(lines, cwd, fileExists);
    var after := MissingFiles(lines + [line], cwd, fileExists);
    assert after == before + (if IsMissing(cwd, fileExists, line) then [line] else []);
  }

  /** `getComposeFiles`: walks the compose-file lines once, drops the empty ones,
      keeps those present under cwd and logs one warning for each other one. */
  method GetComposeFiles(lines: seq<string>, cwd: string, fileExists: FileExists)
    returns (files: seq<string>, warnings: seq<string>)
    ensures files == ComposeFiles(lines, cwd, fileExists)
    ensures warnings == MissingWarnings(lines, cwd, fileExists)
  {
    files, warnings := [], [];
    for i := 0 to |lines|
      invariant files == ComposeFiles(lines[..i], cwd, fileExists)
      invariant warnings == MissingWarnings(lines[..i], cwd, fileExists)
    {
      var line := lines[i];
      assert lines[..i + 1] == lines[..i] + [line];
      ComposeFilesSnoc(lines[..i], line, cwd, fileExists);
      MissingWarningsSnoc(lines[..i], line, cwd, fileExists);
      if line == "" {
      } else if !fileExists(cwd, line) {
        warnings := warnings + [MissingFileWarning(line, cwd)];
      } else {
        files := files + [line];
      }
    }
    assert lines[..|lines|] == lines;
  }

  /** The kept files are the subsequence of the lines at exactly the positions
      holding a non-empty line present under cwd. */
  lemma ComposeFilesPositions(lines: seq<string>, cwd: string, fileExists: FileExists) returns (idx: seq<nat>)
    ensures SubsequenceAt(ComposeFiles(lines, cwd, fileExists), lines, idx)
    ensures forall i :: 0 <= i < |lines| ==> (IsPresent(cwd, fileExists, lines[i]) <==> i in idx)
  {
    idx := FilterPositions(lines, Present(cwd, fileExists));
  }

  /** There is one warning per missing line, in input order, naming that line. */
  lemma MissingWarningsPositions(lines: seq<string>, cwd: string, fileExists: FileExists) returns (idx: seq<nat>)
    ensures |idx| == |MissingWarnings(lines, cwd, fileExists)|
    ensures forall k :: 0 <= k < |idx| ==>
      idx[k] < |lines| && MissingWarnings(lines, cwd, fileExists)[k] == MissingFileWarning(lines[idx[k]], cwd)
    ensures forall k, l :: 0 <= k < l < |idx| ==> idx[k] < idx[l]
    ensures forall i :: 0 <= i < |lines| ==> (IsMissing(cwd, fileExists, lines[i]) <==> i in idx)
  {
    idx := FilterPositions(lines, Missing(cwd, fileExists));
  }

  /** Every line is accounted for once: kept, warned about, or empty. */
  lemma {:induction false} EveryLineAccountedFor(lines: seq<string>, cwd: string, fileExists: FileExists)
    ensures |ComposeFiles(lines, cwd, fileExists)| + |MissingWarnings(lines, cwd, fileExists)| + multiset(lines)[""] == |lines|
    decreases |lines|
  {
    if lines != [] {
      EveryLineAccountedFor(lines[1..], cwd, fileExists);
      assert lines == [lines[0]] + lines[1..];
      assert multiset(lines) == multiset{lines[0]} + multiset(lines[1..]);
    }
  }

  /** `getInputs`: the resolved record. The compose files and their warnings come
      from `getComposeFiles`, checked against the same cwd the record carries;
      services and cwd pass through (`getServices`, `getCwd`), and each flag
      string goes through `parseFlags`. */
  method GetInputs(raw: RawInputs, fileExists: FileExists) returns (inputs: Inputs, warnings: seq<string>)
    ensures inputs.composeFiles == ComposeFiles(raw.composeFile, raw.cwd, fileExists)
    ensures warnings == MissingWarnings(raw.composeFile, raw.cwd, fileExists)
    ensures inputs.services == raw.services
    ensures inputs.composeFlags == ParseFlags(Some(raw.composeFlags))
    ensures inputs.upFlags == ParseFlags(Some(raw.upFlags))
    ensures inputs.downFlags == ParseFlags(Some(raw.downFlags))
    ensures inputs.cwd == raw.cwd
    ensures forall k :: 0 <= k < |inputs.composeFiles| ==>
      inputs.composeFiles[k] != "" && fileExists(inputs.cwd, inputs.composeFiles[k])
  {
    var files;
    files, warnings := GetComposeFiles(raw.composeFile, raw.cwd, fileExists);
    inputs := Inputs(
      files,
      raw.services,
      ParseFlags(Some(raw.composeFlags)),
      ParseFlags(Some(raw.upFlags)),
      ParseFlags(Some(raw.downFlags)),
      raw.cwd);
  }
}
