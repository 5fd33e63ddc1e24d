# compose-action: input resolution and command assembly

A Dafny model of the two services of the compose GitHub action.

- **Input resolution** (`InputService`): the action reads its inputs
  (compose-file, services, compose-flags, up-flags, down-flags, cwd). It keeps the
  compose-file lines that are non-empty and exist under `cwd`, and it logs one
  warning for each non-empty line that does not exist; such a line is dropped and
  the run goes on. Each flag string is turned into tokens: a null or empty string
  gives no tokens, and any other string is trimmed and split at every single space.
- **Command assembly** (`DockerComposeService`): the service builds one options
  record shared by every command. It holds the compose files, the compose flags,
  the working directory, a callback that forwards output chunks to the debug
  logger, and the `docker` executable with its flags. Each operation adds its own
  field and names the `docker-compose` library call it makes. `up` calls "up many"
  when services are named and "up all" otherwise. `down` and `push` add their
  flags. `logs` never follows. When the library call resolves, `logs` hands back
  its stdout and stderr as data, whatever the stderr says.

The JavaScript built-ins this code relies on are written out in `JsBuiltins`:
`String.prototype.trim` (with ECMA-262's WhiteSpace and LineTerminator
characters), `split` with a one-character separator, and `Array.prototype.filter`.
`JsBuiltins.Join` (what `Array.prototype.join` computes) is not called by the
code. It is the reference definition against which the split round-trip is
stated. The host-environment reads are parameters (`RawInputs`),
and so is `existsSync(join(cwd, file))`, which becomes a function
`fileExists(cwd, file)`. Each library call becomes a returned `Command` value.

`getComposeFiles` filters with a callback that also logs. It is modelled as a
method with a loop that builds the kept files and the warnings side by side. It
is proved equal to two filter-based specification functions (`ComposeFiles`,
`MissingWarnings`), and the lemmas are about those functions.

Three behaviours of the code worth stating:

- A missing working directory is not an error. `getCwd`
  (src/services/input.service.ts:78-80) reads the input without `required`, so
  an absent cwd is the empty string.
- A non-empty flag string made only of whitespace does not give an empty list.
  It gives one empty token, `[""]` (`ParseFlagsWhitespaceOnly`). A double space
  gives an empty token between its neighbours (`ParseFlagsDoubleSpace`).
- `getInput` always returns a string, so `getInputs` always passes a string to
  `parseFlags`. `ParseFlags` still accepts an absent value (`Option<string>`) to
  cover the `string | null` type of its parameter.

## Model

| member | source | states |
|---|---|---|
| `JsBuiltins.TrimStart` | src/services/input.service.ts:75 | the result is the suffix of the input at its first non-whitespace character, and everything cut off is whitespace |
| `JsBuiltins.TrimEnd` | src/services/input.service.ts:75 | the result is the prefix of the input ending at its last non-whitespace character, and everything cut off is whitespace |
| `JsBuiltins.Trim` | src/services/input.service.ts:75 | the trimmed string is no longer than the input and neither starts nor ends with whitespace |
| `JsBuiltins.TrimIsInfix` | src/services/input.service.ts:75 | the trimmed string is a contiguous piece of the input, with only whitespace before and after it |
| `JsBuiltins.TrimUnique` | src/services/input.service.ts:75 | trimming any whitespace prefix and suffix off a string without surrounding whitespace gives back exactly that string, so trim is fully determined |
| `JsBuiltins.TrimKeepsClean` | src/services/input.service.ts:75 | trim leaves a string without surrounding whitespace unchanged, so trimming twice is trimming once |
| `JsBuiltins.Split` | src/services/input.service.ts:75 | split never returns an empty list; it returns one piece more than there are separators, and no piece contains the separator |
| `JsBuiltins.JoinSplit` | src/services/input.service.ts:75 | joining the pieces of a split with the same separator gives back the string |
| `JsBuiltins.SplitJoin` | src/services/input.service.ts:75 | splitting the join of a non-empty list of separator-free tokens gives back the tokens |
| `JsBuiltins.Filter` | src/services/input.service.ts:40-51 | the filtered list is no longer than the input, all its elements pass the test, and a value is in it exactly when it is in the input and passes |
| `JsBuiltins.FilterAppend` | src/services/input.service.ts:40-51 | filtering a concatenation is concatenating the filtered parts, so the filter is order-preserving |
| `JsBuiltins.FilterPositions` | src/services/input.service.ts:40-51 | the filtered list is the subsequence of the input at strictly increasing positions, and a position is used exactly when its element passes |
| `InputService.ParseFlags` | src/services/input.service.ts:70-76 | the result is empty exactly for a null or empty string, and no token contains a space |
| `InputService.ParseFlagsRoundTrip` | src/services/input.service.ts:75 | for every flag string, joining its tokens with a space gives back the trimmed string (the empty string for null) |
| `InputService.ParseFlagsOfJoin` | src/services/input.service.ts:75 | conversely, space-free tokens whose join is non-empty and has no surrounding whitespace are exactly what parsing that join returns |
| `InputService.ParseFlagsWhitespaceOnly` | src/services/input.service.ts:71-75 | a non-empty whitespace-only string gives one empty token, not an empty list |
| `InputService.ParseFlagsSingleSpaces` | src/services/input.service.ts:75 | `"-d --build"` gives `["-d", "--build"]` |
| `InputService.ParseFlagsDoubleSpace` | src/services/input.service.ts:75 | `"a  b"` gives `["a", "", "b"]`: consecutive spaces yield an empty token |
| `InputService.ParseFlagsTrimsFirst` | src/services/input.service.ts:75 | surrounding whitespace is removed before splitting: a space-free word padded with any whitespace, newlines included, gives exactly that one token |
| `InputService.ComposeFilesSnoc` | src/services/input.service.ts:40-51 | one more line adds itself to the kept files exactly when it is non-empty and exists under cwd |
| `InputService.MissingWarnings` | src/services/input.service.ts:41-47 | one warning per missing file, in the order of the missing files, each reading "<file> does not exist in <cwd>" |
| `InputService.MissingWarningsSnoc` | src/services/input.service.ts:41-47 | one more line adds exactly one warning, naming it and cwd, when it is non-empty and missing, and none otherwise |
| `InputService.GetComposeFiles` | src/services/input.service.ts:38-52 | the loop returns exactly the kept files and exactly the warnings of the filter specification; it never fails |
| `InputService.ComposeFilesPositions` | src/services/input.service.ts:40-51 | the kept files are the subsequence of the input lines, in input order, at exactly the positions whose line is non-empty and exists under cwd |
| `InputService.MissingWarningsPositions` | src/services/input.service.ts:41-47 | there is exactly one warning per non-empty missing line, in input order, and it reads "<file> does not exist in <cwd>"; empty lines draw none |
| `InputService.EveryLineAccountedFor` | src/services/input.service.ts:40-51 | kept files plus warnings plus empty lines number exactly the input lines |
| `InputService.GetInputs` | src/services/input.service.ts:27-80 | the record holds the filtered compose files, checked against the cwd the record carries; services and cwd are passed through; each flag list is the parse of its input; every kept file is non-empty and exists under that cwd |
| `DockerComposeService.GetCommonOptions` | src/services/docker-compose.service.ts:75-92 | the shared options always run the `docker` executable |
| `DockerComposeService.CommonOptionsRoundTrip` | src/services/docker-compose.service.ts:82-91 | the options carry the inputs field for field (compose files as config, compose flags, cwd, the debug sink, docker flags), and the inputs can be read back; an options record is one of these exactly when it runs `docker` |
| `DockerComposeService.Up` | src/services/docker-compose.service.ts:26-38 | it is an "up many" call exactly when services are named, carrying those services unchanged, and an "up all" call exactly when none are; either way its command options are the up flags and its options are the shared ones |
| `DockerComposeService.Down` | src/services/docker-compose.service.ts:40-47 | a "down" call with the shared options and the down flags as command options |
| `DockerComposeService.Push` | src/services/docker-compose.service.ts:49-56 | a "push" call with the shared options and the push flags as command options |
| `DockerComposeService.Logs` | src/services/docker-compose.service.ts:58-67 | a "logs" call for the given services with the shared options that does not follow |
| `DockerComposeService.LogsResult` | src/services/docker-compose.service.ts:67-72 | when the library call resolves, the returned `error` is its stderr and `output` its stdout, whatever the stderr says |
| `DockerComposeService.ResolvedFilesExistWhereCommandRuns` | src/services/docker-compose.service.ts:82-85 | when the dispatcher gets the resolver's compose files and the cwd they were checked against, every file the library loads is a non-empty input line that exists under the directory the command runs in |

## Left out

- `getInput` and `getMultilineInput` are host-environment reads. Their own trimming and blank-line handling belongs to the CI toolkit, so their results are given values (`RawInputs`).
- `existsSync(join(cwd, file))` is file-system I/O with path normalisation. It is the parameter `fileExists(cwd, file)`. The check happens once per line at resolution time, and later changes to the file system are not modelled.
- The `docker-compose` library calls (`upAll`, `upMany`, `down`, `push`, `logs`) and the `docker` process they start are beyond this code. Each operation returns the call it would make instead. A rejected call propagates through `await` unchanged, and the error text and stderr it carries come from the library, so failure propagation from `up`, `down`, `push` and `logs` is not modelled. In particular `LogsResult` covers only a resolved `logs` call: a rejected one makes the dispatcher's `logs` throw, and the model does not describe that path.
- The streaming callback is output plumbing. The options record only says that chunks go to the given debug sink (`ForwardChunksTo`). The chunk-to-text conversion and the stream order are not modelled.
- `async`/`await` are left out: the model is sequential.
- `LoggerService` is left out: a warning is a string in the returned warnings list.
- The Unicode whitespace set of `trim` is an explicit predicate, `JsBuiltins.IsWhitespace`. It lists ECMA-262's WhiteSpace and LineTerminator code points as of Unicode's current Zs category.
- The dispatcher's input types index `Inputs["dockerFlags"]` and `Inputs["pushFlags"]` (src/services/docker-compose.service.ts:13 and :22), but `Inputs` (src/services/input.service.ts:6-13) declares neither field, and the resolver never produces them. The model makes those two lists plain `seq<string>` fields of the dispatcher's input records. Who fills them in is not part of this model.
- Dafny's `string` is a sequence of Unicode scalar values, whereas a JavaScript string is a sequence of UTF-16 code units. Every character that trim and split look at lies in the Basic Multilingual Plane, so the results agree. But an input holding a lone surrogate cannot be represented in the model.
