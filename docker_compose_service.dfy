/**
 The command dispatcher of the compose action. Each operation builds the
 options record the `docker-compose` library receives and names the library
 call it makes (`upMany`, `upAll`, `down`, `push`, `logs`); the call itself is
 not modelled, so each operation returns a command descriptor instead.
 */
module DockerComposeService {
  import InputService

  /** The caller's debug logger, known here only by identity. */
  datatype DebugSink = DebugSink(name: string)

  /** The per-chunk callback: every output chunk goes, as text, to this sink. */
  datatype Callback = ForwardChunksTo(sink: DebugSink)

  datatype Executable = Executable(executablePath: string, options: seq<string>)

  /** The options shared by every command (`IDockerComposeOptions` without
      `commandOptions`). */
  datatype ComposeOptions = ComposeOptions(
    config: seq<string>,
    composeOptions: seq<string>,
    cwd: string,
    callback: Callback,
    executable: Executable)

  /** What every operation receives besides its own fields. The flag lists the
      resolved inputs do not carry (docker flags, push flags) are plain token
      lists here. */
  datatype OptionsInputs = OptionsInputs(
    dockerFlags: seq<string>,
    composeFiles: seq<string>,
    composeFlags: seq<string>,
    cwd: string,
    debug: DebugSink)

  datatype UpInputs = UpInputs(upFlags: seq<string>, services: seq<string>, rest: OptionsInputs)
  datatype DownInputs = DownInputs(downFlags: seq<string>, rest: OptionsInputs)
  datatype PushInputs = PushInputs(pushFlags: seq<string>, rest: OptionsInputs)
  datatype LogsInputs = LogsInputs(services: seq<string>, rest: OptionsInputs)

  /** One call into the library, with the arguments it is given. */
  datatype Command =
    | UpManyCall(services: seq<string>, options: ComposeOptions, commandOptions: seq<string>)
    | UpAllCall(options: ComposeOptions, commandOptions: seq<string>)
    | DownCall(options: ComposeOptions, commandOptions: seq<string>)
    | PushCall(options: ComposeOptions, commandOptions: seq<string>)
    | LogsCall(services: seq<string>, options: ComposeOptions, follow: bool)

  /** The two streams the library's `logs` call resolves to. */
  datatype LibraryResult = LibraryResult(out: string, err: string)

  /** What the dispatcher's `logs` returns. */
  datatype LogsOutput = LogsOutput(error: string, output: string)

  /** The executable every command runs. */
  const DockerExecutable: string := "docker"

  /** `getCommonOptions` */
  function GetCommonOptions(i: OptionsInputs): (o: ComposeOptions)
    ensures o.executable.executablePath == DockerExecutable
  {
    ComposeOptions(
      i.composeFiles,
      i.composeFlags,
      i.cwd,
      ForwardChunksTo(i.debug),
      Executable(DockerExecutable, i.dockerFlags))
  }

  /** Reads the inputs back off an options record. */
  function OptionsInputsOf(o: ComposeOptions): OptionsInputs {
    OptionsInputs(o.executable.options, o.config, o.composeOptions, o.cwd, o.callback.sink)
  }

  /** The options record loses nothing: every input can be read back from it, and
      every record that runs `docker` is the record of the inputs read from it. */
  lemma CommonOptionsRoundTrip(i: OptionsInputs, o: ComposeOptions)
    ensures OptionsInputsOf(GetCommonOptions(i)) == i
    ensures o.executable.executablePath == DockerExecutable <==> GetCommonOptions(OptionsInputsOf(o)) == o
  {
  }

  /** `up`: the named services when there are any, all services otherwise. */
  function Up(i: UpInputs): (c: Command)
    ensures c.UpManyCall? <==> |i.services| > 0
    ensures c.UpAllCall? <==> i.services == []
    ensures c.UpManyCall? ==> c.services == i.services
    ensures (c.UpManyCall? || c.UpAllCall?) && c.options == GetCommonOptions(i.rest) && c.commandOptions == i.upFlags
  {
    var options := GetCommonOptions(i.rest);
    if |i.services| > 0 then UpManyCall(i.services, options, i.upFlags) else UpAllCall(options, i.upFlags)
  }

  /** `down` */
  function Down(i: DownInputs): (c: Command)
    ensures c.DownCall? && c.options == GetCommonOptions(i.rest) && c.commandOptions == i.downFlags
  {
    DownCall(GetCommonOptions(i.rest), i.downFlags)
  }

  /** `push` */
  function Push(i: PushInputs): (c: Command)
    ensures c.PushCall? && c.options == GetCommonOptions(i.rest) && c.commandOptions == i.pushFlags
  {
    PushCall(GetCommonOptions(i.rest), i.pushFlags)
  }

  /** `logs`: the command it issues, never following. */
  function Logs(i: LogsInputs): (c: Command)
    ensures c.LogsCall? && c.services == i.services && !c.follow && c.options == GetCommonOptions(i.rest)
  {
    LogsCall(i.services, GetCommonOptions(i.rest), false)
  }

  /** `logs`: what it returns when the library call resolves; the streams are
      handed back as data, whatever the stderr says. */
  function LogsResult(result: LibraryResult): (r: LogsOutput)
    ensures r.error == result.err && r.output == result.out
  {
    LogsOutput(result.err, result.out)
  }

  /** When the dispatcher is handed the resolver's compose files together with
      the cwd they were checked against, every file the library is told to load
      is a non-empty line of the compose-file input that exists under the
      directory the command runs in (the working directory invariant of the
      resolved inputs; every command carries these options). */
  lemma ResolvedFilesExistWhereCommandRuns(rest: OptionsInputs, lines: seq<string>, fileExists: InputService.FileExists)
    requires rest.composeFiles == InputService.ComposeFiles(lines, rest.cwd, fileExists)
    ensures var o := GetCommonOptions(rest);
      forall k :: 0 <= k < |o.config| ==> o.config[k] in lines && o.config[k] != "" && fileExists(o.cwd, o.config[k])
  {
  }
}
