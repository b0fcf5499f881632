/** `ssh_login`: what the launcher derives from a selected profile and how a
    native session ends. The transport library and the operating system are
    represented only by the answers they give. */
module Login {
  import opened StdModel
  import opened Profiles
  import opened Relay

  // ---------------------------------------------------------------------------
  // Connect string

  /** `format!("{}:{}", host, port)`: the address handed to `TcpStream::connect`. */
  function ConnectString(p: ServerConfig): string {
    p.host + ":" + Decimal(p.port as nat)
  }

  /** The position of the last `c` in `s`, if any. */
  function LastIndexOf(s: string, c: char): (r: Option<nat>)
    ensures r.Some? ==> r.value < |s| && s[r.value] == c
                        && forall j :: r.value < j < |s| ==> s[j] != c
    ensures r.None? ==> forall j :: 0 <= j < |s| ==> s[j] != c
  {
    if s == [] then None
    else if s[|s| - 1] == c then Some(|s| - 1)
    else LastIndexOf(s[..|s| - 1], c)
  }

  /** Reading an address back the way `TcpStream::connect` reads a `&str`:
      the host is everything before the last colon, the port the decimal
      number after it. The standard library parses that port as a u16, so a
      stored port above 65535 is refused at connect time; the model leaves
      that refusal to the answer of the `TcpConnect` call. */
  function SplitHostPort(address: string): Option<(string, nat)> {
    match LastIndexOf(address, ':')
    case None => None
    case Some(k) =>
      var digits := address[k + 1..];
      if digits != [] && AllDigits(digits) then Some((address[..k], DigitsValue(digits))) else None
  }

  /** The connect string names exactly the profile's host and port, even when
      the host itself contains colons. */
  lemma ConnectStringRoundTrip(p: ServerConfig)
    ensures SplitHostPort(ConnectString(p)) == Some((p.host, p.port as nat))
  {
    var s := ConnectString(p);
    var port := Decimal(p.port as nat);
    var k := |p.host|;
    assert s[k] == ':';
    forall j | k < j < |s| ensures s[j] != ':' {
      assert s[j] == port[j - k - 1];
    }
    var r := LastIndexOf(s, ':');
    assert r == Some(k);
    assert s[k + 1..] == port && s[..k] == p.host;
    DecimalValue(p.port as nat);
  }

  // ---------------------------------------------------------------------------
  // Delegated login script

  /** The fields a login needs, in the order the script takes them. */
  datatype LoginFields = LoginFields(title: string, host: string, port: nat, username: string, password: string)

  function Credentials(p: ServerConfig): LoginFields {
    LoginFields(p.title, p.host, p.port as nat, p.username, p.password)
  }

  /** The argument vector passed to the login script. */
  function ScriptArgs(p: ServerConfig): seq<string> {
    [p.title, p.host, Decimal(p.port as nat), p.username, p.password]
  }

  /** How the script reads its positional arguments. */
  function DecodeArgs(args: seq<string>): Option<LoginFields> {
    if |args| == 5 && args[2] != [] && AllDigits(args[2])
    then Some(LoginFields(args[0], args[1], DigitsValue(args[2]), args[3], args[4]))
    else None
  }

  /** The script receives exactly title, host, port, username and password, in
      that order, and the host and port it gets are the ones the native path
      connects to. */
  lemma ScriptArgsRoundTrip(p: ServerConfig)
    ensures DecodeArgs(ScriptArgs(p)) == Some(Credentials(p))
    ensures ConnectString(p) == ScriptArgs(p)[1] + ":" + ScriptArgs(p)[2]
  {
    DecimalValue(p.port as nat);
  }

  /** What the macOS/Linux branch runs: `<current dir>/sh/controller.sh` with
      the script arguments, unless the current directory cannot be read. */
  datatype Delegation = CwdUnavailable | Spawn(program: string, args: seq<string>)

  function DelegatedCommand(p: ServerConfig, cwd: Option<string>): (d: Delegation)
    ensures d.CwdUnavailable? <==> cwd.None?
    ensures d.Spawn? ==> d.program == cwd.value + "/sh/controller.sh"
                         && d.args == ScriptArgs(p)
                         && DecodeArgs(d.args) == Some(Credentials(p))
  {
    match cwd
    case None => CwdUnavailable
    case Some(dir) => ScriptArgsRoundTrip(p); Spawn(dir + "/sh/controller.sh", ScriptArgs(p))
  }

  // ---------------------------------------------------------------------------
  // Native session setup (Windows branch)

  /** The library calls the native branch makes before relaying, in order. */
  datatype Call =
    | NewSession
    | TcpConnect(address: string)
    | Handshake
    | PasswordAuth(username: string, password: string)
    | OpenChannel
    | RequestPty(term: string)
    | StartShell
    | MergeStderr

  /** The library's answer to one call. */
  datatype CallResult = Done | Refused(message: string)

  /** The diagnostic kind each refused call is reported with; only the
      authentication and stream-merge diagnostics carry the library's message. */
  datatype SetupFailure =
    | SessionError | ConnectError | HandshakeError | AuthError(message: string)
    | ChannelError | PtyError | ShellStartError | MergeError(message: string)

  function SetupCalls(p: ServerConfig): seq<Call> {
    [NewSession, TcpConnect(ConnectString(p)), Handshake, PasswordAuth(p.username, p.password),
     OpenChannel, RequestPty("xterm"), StartShell, MergeStderr]
  }

  function FailureOf(c: Call, message: string): SetupFailure {
    match c
    case NewSession => SessionError
    case TcpConnect(_) => ConnectError
    case Handshake => HandshakeError
    case PasswordAuth(_, _) => AuthError(message)
    case OpenChannel => ChannelError
    case RequestPty(_) => PtyError
    case StartShell => ShellStartError
    case MergeStderr => MergeError(message)
  }

  /** The calls actually made, and the failure that stopped them if any. */
  datatype SetupRun = SetupRun(attempted: seq<Call>, failure: Option<SetupFailure>)

  /** Make the calls in order; the first refusal is reported and exits. */
  function RunCalls(calls: seq<Call>, respond: Call -> CallResult): SetupRun {
    if calls == [] then SetupRun([], None)
    else match respond(calls[0])
      case Refused(m) => SetupRun([calls[0]], Some(FailureOf(calls[0], m)))
      case Done =>
        var rest := RunCalls(calls[1..], respond);
        SetupRun([calls[0]] + rest.attempted, rest.failure)
  }

  function NativeSetup(p: ServerConfig, respond: Call -> CallResult): SetupRun {
    RunCalls(SetupCalls(p), respond)
  }

  /** Setup never skips a step and never retries one: the calls made are a
      prefix of the plan, every one but the last succeeded, and the last is
      the refused one exactly when setup failed. */
  lemma {:induction false} RunCallsMeaning(calls: seq<Call>, respond: Call -> CallResult)
    ensures var run := RunCalls(calls, respond);
      && |run.attempted| <= |calls| && run.attempted == calls[..|run.attempted|]
      && (forall j :: 0 <= j < |run.attempted| - 1 ==> respond(calls[j]) == Done)
      && (run.failure.None? <==> forall j :: 0 <= j < |calls| ==> respond(calls[j]) == Done)
      && (run.failure.None? ==> run.attempted == calls)
      && (run.failure.Some? ==>
            && run.attempted != []
            && var last := calls[|run.attempted| - 1];
               respond(last).Refused? && run.failure.value == FailureOf(last, respond(last).message))
  {
    if calls != [] && respond(calls[0]).Done? {
      RunCallsMeaning(calls[1..], respond);
      var rest := RunCalls(calls[1..], respond);
      assert forall j :: 1 <= j < |calls| ==> calls[j] == calls[1..][j - 1];
      assert ([calls[0]] + rest.attempted)[1..] == rest.attempted;
    }
  }

  /** A refused TCP connect is reported as a connect error, and no
      handshake or authentication is attempted. */
  lemma ConnectRefusedSkipsAuth(p: ServerConfig, respond: Call -> CallResult)
    requires respond(NewSession) == Done && respond(TcpConnect(ConnectString(p))).Refused?
    ensures NativeSetup(p, respond) == SetupRun([NewSession, TcpConnect(ConnectString(p))], Some(ConnectError))
    ensures forall c :: c in NativeSetup(p, respond).attempted ==> !c.PasswordAuth? && !c.Handshake?
  {
    var calls := SetupCalls(p);
    assert calls[1..][1..] == calls[2..];
    assert RunCalls(calls[1..], respond) == SetupRun([TcpConnect(ConnectString(p))], Some(ConnectError));
  }

  // ---------------------------------------------------------------------------
  // After the relay: the exit-status decision

  /** What happens once the relay has seen end of stream. Both `close()`
      calls come after the session was made non-blocking and are unwrapped, so
      a failing close panics the relay thread before `process::exit(0)`. */
  datatype StatusOutcome =
    | StatusLost                   // status unreadable: diagnostic, close, exit(0)
    | SessionEnded(title: string)  // status 0: "exited <title>", close, exit(0)
    | Lingers(status: int)         // any other status: no report, no close
    | ClosePanicked(notice: Option<string>)
                                   // close failed after the diagnostic (None) or
                                   // after "exited <title>" (Some(title))

  /** The decision at the end of the relay thread, given the exit status (if
      it could be read) and whether `close()` succeeds. */
  function AfterRemoteEof(title: string, status: Option<int>, closeSucceeds: bool): StatusOutcome {
    match status
    case None => if closeSucceeds then StatusLost else ClosePanicked(None)
    case Some(n) =>
      if n != 0 then Lingers(n)
      else if closeSucceeds then SessionEnded(title) else ClosePanicked(Some(title))
  }

  /** The "exited <title>" notice printed, if any. */
  function ExitNotice(o: StatusOutcome): Option<string> {
    match o
    case SessionEnded(t) => Some(t)
    case ClosePanicked(n) => n
    case _ => None
  }

  /** `close()` was called. */
  predicate AttemptsClose(o: StatusOutcome) {
    o.StatusLost? || o.SessionEnded? || o.ClosePanicked?
  }

  /** The relay thread ends the process through `process::exit(0)`. In every
      other outcome the process stays blocked joining the local-input worker. */
  predicate ExitsProcess(o: StatusOutcome) {
    o.StatusLost? || o.SessionEnded?
  }

  /** The exit notice is printed exactly for status 0, naming the profile's
      title, whether or not the close that follows succeeds; close is
      attempted exactly when the status is 0 or unreadable; and the process
      exits exactly when that close succeeds. */
  lemma ExitStatusDecision(title: string, status: Option<int>, closeSucceeds: bool)
    ensures var o := AfterRemoteEof(title, status, closeSucceeds);
      && (ExitNotice(o).Some? <==> status == Some(0))
      && (ExitNotice(o).Some? ==> ExitNotice(o).value == title)
      && (AttemptsClose(o) <==> (status.None? || status == Some(0)))
      && (ExitsProcess(o) <==> AttemptsClose(o) && closeSucceeds)
      && (o.Lingers? <==> (status.Some? && status.value != 0))
  {
  }

  // ---------------------------------------------------------------------------
  // The whole native session

  /** How a native session ends. A setup failure exits with status 0. The
      relay runs on its own thread: its panic ends only that thread, and the
      process stays blocked joining the local-input worker. */
  datatype NativeRun =
    | SetupFailed(attempted: seq<Call>, failure: SetupFailure)
    | RelayPanicked(output: seq<byte>)   // relay thread panicked; process blocked
    | StillRelaying(output: seq<byte>)
    | Finished(output: seq<byte>, outcome: StatusOutcome)

  /** The Windows branch of `ssh_login`: setup, then the remote-to-local relay,
      then the exit-status decision. */
  function NativeLogin(p: ServerConfig, respond: Call -> CallResult, results: seq<ReadResult>,
                       status: Option<int>, closeSucceeds: bool): NativeRun
    requires ReadsFit(results)
  {
    var setup := NativeSetup(p, respond);
    if setup.failure.Some? then SetupFailed(setup.attempted, setup.failure.value)
    else
      var (end, output) := RelayFrom(results, 0, []);
      match end
      case Utf8Panic(_) => RelayPanicked(output)
      case AwaitingData => StillRelaying(output)
      case ReachedEof(_) => Finished(output, AfterRemoteEof(p.title, status, closeSucceeds))
  }

  /** A native session prints the exit notice exactly when every setup call
      succeeded, the relay reached end of stream without panicking, and the
      remote exit status is 0; the notice names the profile's title. It then
      exits cleanly exactly when, in addition, the channel closes. */
  lemma NativeSuccessExactly(p: ServerConfig, respond: Call -> CallResult, results: seq<ReadResult>,
                             status: Option<int>, closeSucceeds: bool)
    requires ReadsFit(results)
    ensures var run := NativeLogin(p, respond, results, status, closeSucceeds);
      (run.Finished? && ExitNotice(run.outcome).Some?)
      <==> (&& (forall j :: 0 <= j < |SetupCalls(p)| ==> respond(SetupCalls(p)[j]) == Done)
            && RelayFrom(results, 0, []).0.ReachedEof?
            && status == Some(0))
    ensures var run := NativeLogin(p, respond, results, status, closeSucceeds);
      run.Finished? && ExitNotice(run.outcome).Some? ==> ExitNotice(run.outcome).value == p.title
    ensures var run := NativeLogin(p, respond, results, status, closeSucceeds);
      (run.Finished? && run.outcome.SessionEnded?)
      <==> (&& (forall j :: 0 <= j < |SetupCalls(p)| ==> respond(SetupCalls(p)[j]) == Done)
            && RelayFrom(results, 0, []).0.ReachedEof?
            && status == Some(0) && closeSucceeds)
  {
    RunCallsMeaning(SetupCalls(p), respond);
  }
}
