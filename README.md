# Aspen toolbox `ssh` launcher: profile selection and login, modelled in Dafny

The launcher keeps a list of server profiles (title, category, host, port,
username, password, remark). Its `ssh` subcommand picks one profile, either
from a 1-based index given on the command line or from a number typed at a
prompt under a listing of all profiles. It then logs in, in one of two ways.
On macOS and Linux it runs a login script with the profile's fields as
arguments. On Windows it drives an SSH session itself and relays the remote
output to the terminal until end of stream.

This project models that core, from `src/ssh_module/command.rs`:

- `std_model.dfy` (module `StdModel`): the Rust standard-library behaviour the
  code relies on. This covers i32 wrap-around, `i32 as usize`, `str::trim`
  (the full Unicode White_Space set), `i32::from_str`, decimal `to_string`,
  and what `str::from_utf8` accepts.
- `profiles.dfy` (module `Profiles`): the `ServerConfig` record, and the
  result of loading the profile store.
- `selector.dfy` (module `Selector`): index-argument mode, the prompt loop as
  written, the prompt loop with the lower bound it evidently intends, and the
  `ssh` dispatch.
- `services_table.dfy` (module `ServicesTable`): the listing. A `Table` class
  is filled by `AddRow` inside a loop, as the source does.
- `relay.dfy` (module `Relay`): the remote-to-local read loop over a fresh
  1024-byte `array` per read, as written and with the byte-exact fix.
- `login.dfy` (module `Login`): the connect string, the login-script
  arguments, the native setup calls, the exit-status decision, and the whole
  native session.

Every explicit `process::exit` in the source passes 0, failures included.
A panic on the main thread ends the process with status 101: the prompt's
`unwrap` (command.rs:82), the `expect`s, and the JSON `unwrap` while loading
profiles. A panic in the relay thread ends only that thread: the UTF-8
`unwrap` (:336), the flush (:337) and both `close` calls (:348, :355). The
process then stays blocked joining the local-input worker. Outcomes are
therefore modelled as values (`Selection`, `SetupRun`, `StatusOutcome`,
`NativeRun`) that name the panics among them, not as exit codes. The model assumes a release build on a 64-bit target: `i32`
subtraction wraps, and `usize` has 64 bits.

## Model

| member | source | states |
|---|---|---|
| `StdModel.ParseI32Meaning` | src/ssh_module/command.rs:94 | `ParseI32`, the model of `i32::from_str`, accepts exactly an optional sign followed by at least one ASCII digit whose value fits in i32, and returns that value |
| `StdModel.TrimPadded` | src/ssh_module/command.rs:66 | `Trim`, the model of `str::trim`, returns exactly the core of a string whatever whitespace surrounds it, including the line break `read_line` keeps |
| `StdModel.ParseTypedDecimal` | src/ssh_module/command.rs:64-66 | a decimal number up to i32::MAX, typed with surrounding whitespace, reads back as that number |
| `StdModel.DecimalValue` | src/ssh_module/command.rs:151 | the decimal `to_string` of a number reads back as that number |
| `StdModel.WrapI32` | src/ssh_module/command.rs:68 | `len() as i32` and i32 subtraction wrap into i32 and leave in-range values unchanged |
| `StdModel.I32AsUsize` | src/ssh_module/command.rs:105 | `as usize` keeps non-negative values and sends every negative i32 above any possible `Vec` length |
| `Selector.LookupPosition` | src/ssh_module/command.rs:105 | `get((n - 1) as usize)` looks at position n-1 for n >= 1, at i32::MAX for i32::MIN, and past any `Vec` for other n <= 0 |
| `Selector.InvalidIndexIgnoresStore` | src/ssh_module/command.rs:93-104 | `IndexAction`, the model of `ssh_index_action`: an index argument that is not an i32 gives the invalid-integer outcome whatever the store holds, even an unloadable one: the store is loaded only after parsing |
| `Selector.IndexKeySelects` | src/ssh_module/command.rs:104-116 | `IndexAction`, the model of `ssh_index_action`: with N profiles a parsed key selects exactly when 1 <= key <= N (or the wrapped i32::MIN with more than i32::MAX profiles), and then selects profile key-1; otherwise it is out of range |
| `Selector.CheckLine` | src/ssh_module/command.rs:66-79 | a prompt line is rejected as not an integer exactly when its trimmed text does not parse as an i32; a passing line carries its parsed number, which is at most `len() as i32` (at most N for N <= i32::MAX); a rejected number is above that bound; no number is rejected as too small |
| `Selector.SelectInteractively` | src/ssh_module/command.rs:55-88 | the prompt loop method returns the lines read and the outcome given by the reference `Interactive`: no prompt for an empty store, otherwise the first passing line decides |
| `Selector.ScanFromMeaning` | src/ssh_module/command.rs:62-86 | `ScanFrom`, the reference for the loop from a given line on, stops at the first line that passes, every earlier line was rejected and skipped, and the deciding line alone fixes the outcome |
| `Selector.ScanSpinsIffNoLinePasses` | src/ssh_module/command.rs:62-79 | `ScanFrom` runs into end of input exactly when no line passes the checks |
| `Selector.EndOfInputNeverPasses` | src/ssh_module/command.rs:64-78 | at end of input `read_line` yields an empty line, which never parses, so the loop can only re-prompt |
| `Selector.PromptChoiceInRange` | src/ssh_module/command.rs:66-84 | a login from the prompt is always to profile num-1 for the number num on the deciding line, with 1 <= num <= N |
| `Selector.NonPositiveNumberPanics` | src/ssh_module/command.rs:68-82 | a number <= 0 passes the only check, and `Resolve`, the model of the lookup and `unwrap()` at :81-82, gives the panic outcome for it, so it is never a successful selection |
| `Selector.ZeroAtPromptPanics` | src/ssh_module/command.rs:68-82 | typing `0` at the prompt with at least one profile panics |
| `Selector.CheckedPromptNeverPanics` | src/ssh_module/command.rs:66-82 | with the lower bound added the prompt never panics: it logs in to profile num-1 for the typed num, or keeps asking |
| `Selector.CheckedAgreesOnPositiveInput` | src/ssh_module/command.rs:66-82 | the bounded prompt and the written one agree on every input that never types a number below 1 |
| `Selector.SshAction` | src/ssh_module/command.rs:13-19 | an index argument selects through index mode and reads no input; without one, the prompt loop runs |
| `ServicesTable.Table.SetTitles` | src/ssh_module/command.rs:146 | setting the titles leaves the rows unchanged |
| `ServicesTable.Table.AddRow` | src/ssh_module/command.rs:151 | a row is appended after the existing rows and the titles are unchanged |
| `ServicesTable.BuildServicesTable` | src/ssh_module/command.rs:129-153 | the table has the header `ID, Host, Port, Username, Title` and exactly N rows in store order, row i being that of profile i |
| `ServicesTable.ListServers` | src/ssh_module/command.rs:122-126 | the `servers` listing is that table for a loaded store, and nothing when the store cannot be loaded |
| `ServicesTable.RowShowsProfile` | src/ssh_module/command.rs:150-152 | `ProfileRow`, the model of the row added at :151: row i has five cells: ID i+1, host, port, username and title, with the ID and port cells reading back as those numbers |
| `ServicesTable.ListedIdSelectsProfile` | src/ssh_module/command.rs:150-152 | the ID listed in row i selects profile i, given as the index argument or typed at the prompt, in both the written and the bounded prompt |
| `Login.ConnectStringRoundTrip` | src/ssh_module/command.rs:166 | `ConnectString`, the model of the `format!` at :166: the connect string `host:port` splits at its last colon back into exactly the profile's host and port, even if the host has colons |
| `Login.LastIndexOf` | src/ssh_module/command.rs:166 | the position found holds the character and none follows it; no position is found only when the character is absent |
| `Login.ScriptArgsRoundTrip` | src/ssh_module/command.rs:200 | `ScriptArgs`, the model of the vector at :200: the script arguments are exactly title, host, port, username and password in that order, and their host and port are the connect string's |
| `Login.DelegatedCommand` | src/ssh_module/command.rs:185-206 | the macOS/Linux branch runs `<cwd>/sh/controller.sh` with exactly `ScriptArgs`, and runs nothing when the current directory cannot be read |
| `Login.RunCallsMeaning` | src/ssh_module/command.rs:247-315 | `RunCalls` over `SetupCalls` (together `NativeSetup`), the model of the setup at :247-315: native setup makes its calls in the fixed order with no skip and no retry; it stops at the first refusal and reports it with that call's diagnostic |
| `Login.ConnectRefusedSkipsAuth` | src/ssh_module/command.rs:255-279 | a refused TCP connect to `host:port` is a connect error, and no handshake or authentication is attempted |
| `Login.ExitStatusDecision` | src/ssh_module/command.rs:344-357 | `AfterRemoteEof`, the model of :344-357: the exit notice is printed exactly for status 0 and names the title, whether or not the close after it succeeds; close is attempted exactly when the status is 0 or cannot be read; the process exits exactly when that close succeeds, and otherwise (close panic or non-zero status) stays blocked on the input worker |
| `Login.NativeSuccessExactly` | src/ssh_module/command.rs:247-357 | `NativeLogin`, the model of the Windows branch (setup, relay, status): a native session prints the exit notice, naming the title, exactly when every setup call succeeded, the relay reached end of stream without panicking, and the status is 0; it exits cleanly exactly when, in addition, the channel closes |
| `Relay.ReadInto` | src/ssh_module/command.rs:333-334 | a read of c bytes into the fresh zeroed buffer leaves those bytes followed by zeros |
| `Relay.RelayRemoteToLocal` | src/ssh_module/command.rs:332-342 | the read loop method, proved equal to the reference `RelayFrom` (the loop from a given read on), which the next two rows characterise |
| `Relay.RelayEndsOnlyAtEof` | src/ssh_module/command.rs:332-342 | `RelayFrom` ends only at the first zero-byte read or on the UTF-8 panic; read errors never end it; it panics at the first non-empty read whose padded buffer `StdModel.ValidUtf8` (the model of what `str::from_utf8` accepts, RFC 3629) rejects, every non-empty read before the stop being valid |
| `Relay.RelayWritesPaddedBuffers` | src/ssh_module/command.rs:333-338 | `RelayFrom`, as written, prints the whole 1024-byte buffer for every non-empty read before it stopped |
| `Relay.PaddedRelayCounterexample` | src/ssh_module/command.rs:336 | one read of byte 0x61 prints it followed by 1023 NUL bytes, and U+00E9 split over two reads panics, although its bytes are valid UTF-8 |
| `Relay.RelayRemoteToLocalExact` | src/ssh_module/command.rs:332-342 | printing `buf[..c]` as raw bytes writes exactly the bytes read up to end of stream, in order, and never panics |

## Left out

- Loading the profile store (`get_config`, JSON parsing, the unset-path and missing-file checks) is an input `Store`: either the profile list or `Unavailable`. The reasons it can fail are not part of this model: most exit with status 0, and malformed JSON panics (`src/ssh_module/config.rs:51`).
- Clap wiring, the `server-path` subcommands and the platform `cfg` gating are left out. The choice between the script branch and the native branch is not modelled; each branch is modelled on its own.
- Printing is left out: coloured messages, the table's borders and padding, and the screen-clearing escapes.
- Spawning the login script, copying its stdio, and waiting for it are left out (OS calls). After it returns, the source always prints the "exited" notice and exits 0, whatever the child's status.
- The native setup calls are opaque: each gets an answer from a `respond` function. The PTY mode flags (echo off, IGNCR) and non-blocking mode cannot fail and are not modelled.
- The local-to-remote worker and both thread joins are concurrency and are left out. The remote-to-local loop is modelled as a sequential loop over the results of its reads.
- `Selector.SelectInteractively`: the source loops forever at end of input; the model stops there with `SpinsAtEof`. `EndOfInputNeverPasses` shows that no further line could pass. A `read_line` I/O error (`expect` panic) is not modelled.
- `Relay.RelayRemoteToLocal`: when the given reads run out before end of stream, the model returns `AwaitingData`, where the source keeps polling.
- Integer widths: the model assumes a release build. In a debug build, `key - 1` (index mode) and `guess - 1` (prompt mode) panic on `i32::MIN` instead of wrapping.
- `usize` is taken as 64 bits wide.
- `str::trim` is exact for the Unicode White_Space set. Reading input as UTF-8 is not modelled: lines are given as strings.

Behaviour a reader might expect that the code does not have (the model follows the code):
- One might expect that zero or negative prompt input re-prompts. The code panics (see Findings).
- One might expect failures to exit non-zero. Every explicit `process::exit` passes 0; only a main-thread panic gives a non-zero status (101).
- One might expect the relay to sleep before retrying after a read error. The code retries at once.
- One might expect the relay to be byte-exact. The code pads each read (see Findings).
- One might expect a non-zero status to end the session. The code neither reports nor exits: the process stays blocked on local input.

## Findings

| source | as written | input that shows it | evidently intended | confidence | as-written member | corrected member |
|---|---|---|---|---|---|---|
| src/ssh_module/command.rs:68-82 | the prompt checks only `num > len`, so 0 and negatives pass and `get((num - 1) as usize).unwrap()` panics | the line `0` with at least one profile | reject numbers below 1 and re-prompt, as for other bad input | high; not executed | `Selector.ZeroAtPromptPanics` | `Selector.CheckedPromptNeverPanics` |
| src/ssh_module/command.rs:336 | prints `from_utf8(&buf).unwrap()` of the whole 1024-byte buffer, not of the `c` bytes read | one read of the byte 0x61 prints 0x61 and 1023 NUL bytes; the bytes C3 A9 arriving in two reads panic the relay thread, leaving the process blocked on local input | write `&buf[..c]` as raw bytes | high; not executed | `Relay.PaddedRelayCounterexample` | `Relay.RelayRemoteToLocalExact` |
