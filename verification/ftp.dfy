/** The control-connection session of crates/cftp/src/ftp.rs (`Ftp::handle`
    and its helpers `read`, `passive_conn` and `upgrade_tls`) as a
    deterministic state machine.

    Everything the real session waits for becomes an input: the bytes the
    client sends, and for each command the answers the handler and the TLS
    acceptor give (`Answers`). What the session does in return is an
    `Outcome`: its next state, the replies it writes on the control
    connection, the handler calls it makes and the lines it writes on the
    data connection. */
module Ftp {
  import opened Wrappers
  import opened Uint
  import opened Text
  import Framing
  import Utf8
  import Code
  import Arguments
  import Commands
  import Handler

  // ---------------------------------------------------------------------
  // Configuration and state
  // ---------------------------------------------------------------------

  /** What the connection was built with. `tlsFeature` is the `tls` cargo
      feature; `hasAcceptor` and `allowPlaintext` exist only with it. */
  datatype Config = Config(tlsFeature: bool, hasAcceptor: bool, allowPlaintext: bool)

  /** `Ftp::new_insecure`: no TLS acceptor, and `USER` allowed on a plain
      connection. */
  function NewInsecure(tlsFeature: bool): (cfg: Config)
    ensures cfg.tlsFeature == tlsFeature
    ensures !cfg.hasAcceptor && cfg.allowPlaintext
  {
    Config(tlsFeature, false, true)
  }

  /** `MaybeTls`: the stream is plain, upgraded, or was taken out for an
      upgrade that failed. */
  datatype Security = Plain | Tls | UpgradeBroken

  /** `TlsUpgradeError`; `AcceptFailed` is its `Io` variant. */
  datatype TlsUpgradeError = Unconfigured | PreviousFailure | AcceptFailed

  /** `ReadError`: invalid input (`Io`) or a line that does not parse. */
  datatype ReadError = ReadIo | Parse(message: string)

  /** `HandleError`: why `handle` returned an error. */
  datatype HandleError =
    | HandlerFailed(error: Code.HandlerError)
    | ReadFailed(readError: ReadError)
    | TlsUpgradeFailed(upgradeError: TlsUpgradeError)

  /** A data-connection factory, known by the value the handler gave. */
  type Factory = nat

  /** Where `handle` is: in the pre-authentication loop, waiting for the
      password of `user`, in the logged-in loop with a possibly staged
      rename source, or returned (`Ended(None)` is `Ok(())`). */
  datatype Phase =
    | PreAuth
    | AwaitPass(user: string)
    | LoggedIn(toRename: Option<string>)
    | Ended(error: Option<HandleError>)

  /** The mutable part of `Ftp` plus the position in `handle`. */
  datatype Session = Session(phase: Phase, security: Security, ioFactory: Option<Factory>)

  /** A freshly built connection: plain unless TLS was implicit, and no
      passive connection yet. */
  function Start(implicitTls: bool): (s: Session)
    ensures s.phase == PreAuth && s.ioFactory.None?
    ensures s.security != UpgradeBroken && (s.security == Tls <==> implicitTls)
  {
    Session(PreAuth, if implicitTls then Tls else Plain, None)
  }

  // ---------------------------------------------------------------------
  // Inputs and outputs of a step
  // ---------------------------------------------------------------------

  /** One entry of an `ls` result, with the clock-dependent columns of its
      line and whether writing that line to the data connection worked. */
  datatype Entry = Entry(listing: Handler.FileListing, dates: string, sent: bool)

  /** What the handler, the factory and the TLS acceptor answer while one
      command is served. Only the fields the command asks for are read. */
  datatype Answers = Answers(
    authenticate: Result<bool, Code.HandlerError>,
    acceptTls: bool,
    setCwd: bool,
    cwd: Option<string>,
    passiveConn: Option<Handler.PassiveConn<Factory>>,
    createIo: bool,
    ls: Option<seq<Entry>>,
    read: bool,
    write: bool,
    rename: Result<(), Code.HandlerError>,
    osInfo: string,
    features: Code.FeatureSet)

  /** A call into the handler or the stored factory, with its arguments. */
  datatype HandlerCall =
    | Welcome
    | Authenticate(user: string, password: string)
    | SetCwd(path: string)
    | GetCwd
    | OpenPassive
    | CreateIo(factory: Factory)
    | ListFiles
    | ReadFile(path: string)
    | WriteFile(path: string)
    | RenameFile(from: string, to: string)
    | OsInfo
    | GetFeatures

  /** The effect of serving commands. */
  datatype Outcome = Outcome(
    session: Session,
    replies: seq<Code.FtpResponse>,
    calls: seq<HandlerCall>,
    data: seq<string>)

  /** One outcome followed by another. */
  function Then(o1: Outcome, o2: Outcome): Outcome {
    Outcome(o2.session, o1.replies + o2.replies, o1.calls + o2.calls, o1.data + o2.data)
  }

  /** `FtpResponse::simple`. */
  function SimpleReply(code: Code.SimpleReturnCode): Code.FtpResponse {
    Code.Simple(code, None)
  }

  /** `FtpResponse::simple_msg`. */
  function SimpleMsg(code: Code.SimpleReturnCode, msg: string): Code.FtpResponse {
    Code.Simple(code, Some(msg))
  }

  function Reply(s: Session, replies: seq<Code.FtpResponse>): Outcome {
    Outcome(s, replies, [], [])
  }

  /** `handle` returns, after writing `replies`. */
  function End(s: Session, error: Option<HandleError>, replies: seq<Code.FtpResponse>): Outcome {
    Outcome(s.(phase := Ended(error)), replies, [], [])
  }

  // ---------------------------------------------------------------------
  // Reading a command
  // ---------------------------------------------------------------------

  const CR: u8 := 13
  const LF: u8 := 10

  /** `CommandRead`. */
  datatype CommandRead = Command(command: Commands.Command) | Disconnect

  /** What `read` makes of the bytes of one line: invalid UTF-8 is an I/O
      error, an empty or all-whitespace line a disconnect, and anything else
      is parsed as a command. */
  function Interpret(line: seq<u8>): Result<CommandRead, ReadError> {
    match Utf8.Decode(line)
    case None => Failure(ReadIo)
    case Some(text) =>
      if Trim(text) == [] then Success(Disconnect)
      else
        match Commands.ParseCommand(text)
        case Success(c) => Success(Command(c))
        case Failure(e) => Failure(Parse(e))
  }

  /** `Ftp::read`: take one CR LF-terminated line (or everything up to the
      end of input) and interpret it; the rest of the input stays unread. */
  function ReadCommand(input: seq<u8>): (r: (Result<CommandRead, ReadError>, seq<u8>))
    ensures |r.1| <= |input|
  {
    var l := Framing.TakeLine(input, CR, LF);
    (Interpret(l.line), l.rest)
  }

  // ---------------------------------------------------------------------
  // TLS upgrade
  // ---------------------------------------------------------------------

  /** `upgrade_tls`: a plain stream becomes TLS when an acceptor is there
      and the handshake succeeds, and is left broken otherwise; a TLS
      stream stays as it is; a broken one stays broken. */
  function UpgradeTls(security: Security, hasAcceptor: bool, acceptOk: bool)
    : (r: (Security, Result<(), TlsUpgradeError>))
    ensures r.1.Success? <==> r.0 == Tls
    ensures r.0 != Plain
  {
    match security
    case Plain =>
      if !hasAcceptor then (UpgradeBroken, Failure(Unconfigured))
      else if acceptOk then (Tls, Success(()))
      else (UpgradeBroken, Failure(AcceptFailed))
    case Tls => (Tls, Success(()))
    case UpgradeBroken => (UpgradeBroken, Failure(PreviousFailure))
  }

  // ---------------------------------------------------------------------
  // One step of `handle`
  // ---------------------------------------------------------------------

  /** Serve what one `read` returned. */
  function Step(cfg: Config, s: Session, read: Result<CommandRead, ReadError>, a: Answers): Outcome {
    match s.phase
    case PreAuth => PreAuthStep(cfg, s, read, a)
    case AwaitPass(user) => PassStep(s, user, read, a)
    case LoggedIn(toRename) => LoggedInStep(s, toRename, read, a)
    case Ended(_) => Reply(s, [])
  }

  /** The loop before `USER`: `AUTH`, `USER` and `OPTS` are served, a
      disconnect ends the session quietly, anything else gets 503 and ends
      it, and a read error ends it with that error. */
  function PreAuthStep(cfg: Config, s: Session, read: Result<CommandRead, ReadError>, a: Answers): Outcome {
    match read
    case Failure(e) => End(s, Some(ReadFailed(e)), [])
    case Success(Disconnect) => End(s, None, [])
    case Success(Command(c)) =>
      match c
      case Auth(t) => AuthStep(cfg, s, t, a)
      case User(user) =>
        if cfg.tlsFeature && s.security != Tls && !cfg.allowPlaintext then
          Reply(s, [SimpleMsg(Code.NotLoggedIn, "Please use AUTH TLS before sending USER command.")])
        else
          Reply(s.(phase := AwaitPass(user)), [SimpleReply(Code.NeedPassword)])
      case Opts(_) => Reply(s, [SimpleReply(Code.Ok)])
      case _ => End(s, None, [SimpleReply(Code.BadSequence)])
  }

  /** `AUTH` before login: `AUTH TLS` with an acceptor answers 234 and
      upgrades the stream, and a failed upgrade ends the session with that
      error; any other `AUTH`, or any `AUTH` without the `tls` feature, gets
      502 and the loop goes on. */
  function AuthStep(cfg: Config, s: Session, t: Arguments.AuthType, a: Answers): Outcome {
    if !cfg.tlsFeature then
      Reply(s, [SimpleMsg(Code.CommandNotImplemented, "TLS not supported")])
    else if t == Arguments.Tls && cfg.hasAcceptor then
      var start := SimpleMsg(Code.AuthenticationSuccessful, "Starting TLS negotiation.");
      var (security, r) := UpgradeTls(s.security, cfg.hasAcceptor, a.acceptTls);
      var s' := s.(security := security);
      (match r
       case Success(_) => Reply(s', [start])
       case Failure(e) => End(s', Some(TlsUpgradeFailed(e)), [start]))
    else
      Reply(s, [SimpleMsg(Code.CommandNotImplemented, "unsupported AUTH type")])
  }

  /** After 331 the next line must be `PASS`; otherwise (a disconnect
      included) 503 ends the session. The handler's verdict gives 230 and
      the logged-in loop with nothing staged, or 530 and the end; a handler
      error ends the session with that error. */
  function PassStep(s: Session, user: string, read: Result<CommandRead, ReadError>, a: Answers): Outcome {
    match read
    case Failure(e) => End(s, Some(ReadFailed(e)), [])
    case Success(Command(Pass(password))) =>
      var calls := [Authenticate(user, password)];
      (match a.authenticate
       case Failure(e) => Outcome(s.(phase := Ended(Some(HandlerFailed(e)))), [], calls, [])
       case Success(ok) =>
         if ok then Outcome(s.(phase := LoggedIn(None)), [SimpleReply(Code.UserLoggedIn)], calls, [])
         else Outcome(s.(phase := Ended(None)), [SimpleReply(Code.NotLoggedIn)], calls, []))
    case Success(_) => End(s, None, [SimpleReply(Code.BadSequence)])
  }

  /** The logged-in loop: a disconnect or an I/O error ends the session
      without error, a parse error gets 502 with the error text, and a
      command is served. */
  function LoggedInStep(s: Session, toRename: Option<string>, read: Result<CommandRead, ReadError>, a: Answers): Outcome {
    match read
    case Success(Disconnect) => End(s, None, [])
    case Failure(Parse(message)) => Reply(s, [SimpleMsg(Code.CommandNotImplemented, message)])
    case Failure(ReadIo) => End(s, None, [])
    case Success(Command(c)) => Serve(s, toRename, c, a)
  }

  /** One command of the logged-in loop. */
  function Serve(s: Session, toRename: Option<string>, c: Commands.Command, a: Answers): Outcome {
    match c
    case Pwd =>
      (match a.cwd
       case Some(path) => Outcome(s, [Code.DirectoryCreated(UnixPath(path))], [GetCwd], [])
       case None => Outcome(s, [SimpleReply(Code.FileUnavailable)], [GetCwd], []))
    case Cwd(path) =>
      Outcome(s, [SimpleReply(if a.setCwd then Code.Ok else Code.FileUnavailable)], [SetCwd(path)], [])
    case Type(_) => Reply(s, [SimpleReply(Code.Ok)])
    case Pasv => ServePasv(s, a)
    case List => ServeList(s, a)
    case Syst => Outcome(s, [Code.NameSystemType(a.osInfo)], [OsInfo], [])
    case Retr(file) => ServeTransfer(s, a, ReadFile(file), a.read)
    case Stor(file) => ServeTransfer(s, a, WriteFile(file), a.write)
    case Feat => Outcome(s, [Code.Features(Extend(a.features, DefaultFeatures))], [GetFeatures], [])
    case Opts(_) => Reply(s, [SimpleReply(Code.Ok)])
    case Utf8 => Reply(s, [SimpleReply(Code.Ok)])
    case Auth(_) => Reply(s, [SimpleReply(Code.BadSequence)])
    case User(_) => Reply(s, [SimpleReply(Code.BadSequence)])
    case Pass(_) => Reply(s, [SimpleReply(Code.BadSequence)])
    case Rnfr(path) => Reply(s.(phase := LoggedIn(Some(path))), [SimpleReply(Code.FileActionPending)])
    case Rnto(to) => ServeRnto(s, toRename, to, a)
    case Pbsz => Reply(s, [SimpleReply(Code.Ok)])
  }

  /** The directory as `PWD` shows it: `to_string_lossy().replace('\\', "/")`
      on a path that is already text. */
  function UnixPath(path: string): string {
    ReplaceChar(path, '\\', '/')
  }

  /** `PASV`: a passive connection whose address fits a 227 reply is
      announced and its factory replaces the stored one; otherwise 502. */
  function ServePasv(s: Session, a: Answers): Outcome {
    match a.passiveConn
    case None => Outcome(s, [SimpleReply(Code.CommandNotImplemented)], [OpenPassive], [])
    case Some(conn) =>
      match Handler.ToReply(conn)
      case Some(reply) =>
        Outcome(s.(ioFactory := Some(Handler.IntoInner(conn))), [reply], [OpenPassive], [])
      case None => Outcome(s, [SimpleReply(Code.CommandNotImplemented)], [OpenPassive], [])
  }

  /** `Ftp::passive_conn`: the calls made to open a data connection, and
      whether one was opened. Its 150 reply is written by the callers. */
  function OpenData(s: Session, a: Answers): (r: (seq<HandlerCall>, bool))
    ensures r.1 ==> s.ioFactory.Some?
  {
    match s.ioFactory
    case None => ([], false)
    case Some(f) => ([CreateIo(f)], a.createIo)
  }

  /** `RETR` and `STOR`: 150, then 502 without a data connection, else the
      handler's transfer and 226 or 550. */
  function ServeTransfer(s: Session, a: Answers, call: HandlerCall, ok: bool): Outcome {
    var (calls, open) := OpenData(s, a);
    var opening := SimpleReply(Code.OpeningDataConnection);
    if !open then Outcome(s, [opening, SimpleReply(Code.CommandNotImplemented)], calls, [])
    else
      var last := if ok then Code.ClosingDataConnectionSuccessful else Code.FileUnavailable;
      Outcome(s, [opening, SimpleReply(last)], calls + [call], [])
  }

  /** `LIST`: 150, then 502 without a data connection, 225 when `ls`
      fails, and otherwise each entry's line on the data connection, 225
      for every line that could not be sent, and 226. */
  function ServeList(s: Session, a: Answers): Outcome {
    var (calls, open) := OpenData(s, a);
    var opening := SimpleReply(Code.OpeningDataConnection);
    if !open then Outcome(s, [opening, SimpleReply(Code.CommandNotImplemented)], calls, [])
    else
      match a.ls
      case None =>
        Outcome(s, [opening, SimpleReply(Code.ClosingDataConnectionNoTransfer)], calls + [ListFiles], [])
      case Some(entries) =>
        Outcome(s, [opening] + SendFailures(entries) + [SimpleReply(Code.ClosingDataConnectionSuccessful)],
          calls + [ListFiles], ListingData(entries))
  }

  /** The 225 replies for the entries whose line could not be sent. */
  function SendFailures(entries: seq<Entry>): seq<Code.FtpResponse> {
    if |entries| == 0 then []
    else
      (if entries[0].sent then [] else [SimpleReply(Code.ClosingDataConnectionNoTransfer)])
      + SendFailures(entries[1..])
  }

  /** The lines written on the data connection: those of the entries whose
      write succeeded. */
  function ListingData(entries: seq<Entry>): seq<string> {
    if |entries| == 0 then []
    else
      (if entries[0].sent then [EntryLine(entries[0])] else [])
      + ListingData(entries[1..])
  }

  /** `format!("{file}\r\n")`: an entry displayed and followed by CR LF. */
  function EntryLine(e: Entry): string {
    Handler.ListingLine(e.listing, e.dates) + "\r\n"
  }

  /** `RNTO`: 503 with nothing staged; otherwise the staged path is taken
      out before the handler renames it, and the reply is 200 or the
      handler error's own reply. */
  function ServeRnto(s: Session, toRename: Option<string>, to: string, a: Answers): Outcome {
    match toRename
    case None => Reply(s, [SimpleReply(Code.BadSequence)])
    case Some(from) =>
      var reply := match a.rename
        case Success(_) => SimpleReply(Code.Ok)
        case Failure(e) => Code.IntoFtpResponse(e);
      Outcome(s.(phase := LoggedIn(None)), [reply], [RenameFile(from, to)], [])
  }

  /** The features `FEAT` always adds to the handler's. */
  const DefaultFeatures: seq<string> := ["UTF8", "SIZE", "MDTM", "MFMT", "MLST", "MLSD"]

  /** `HashSet::extend`: add every element not already present. The order
      of a `HashSet` is unspecified; this keeps the old elements first. */
  function Extend(fs: Code.FeatureSet, more: seq<string>): Code.FeatureSet
    decreases |more|
  {
    if |more| == 0 then fs
    else if more[0] in fs then Extend(fs, more[1..])
    else
      var fs': Code.FeatureSet := AddNew(fs, more[0]);
      Extend(fs', more[1..])
  }

  function AddNew(fs: Code.FeatureSet, f: string): (r: Code.FeatureSet)
    requires f !in fs
    ensures r == fs + [f]
  {
    assert Code.NoDuplicates(fs + [f]) by {
      forall i, j | 0 <= i < j < |fs + [f]| ensures (fs + [f])[i] != (fs + [f])[j] {
        if j == |fs| { assert (fs + [f])[i] == fs[i]; }
      }
    }
    fs + [f]
  }

  // ---------------------------------------------------------------------
  // A whole session
  // ---------------------------------------------------------------------

  /** The loops of `handle` from state `s` on `input`: read a line, serve
      it with the `k`-th answers, and go on until `handle` returns. After
      the last byte every read sees an empty line, which ends every phase. */
  function Run(cfg: Config, s: Session, input: seq<u8>, answers: nat -> Answers, k: nat): Outcome
    decreases |input|, if s.phase.Ended? then 0 else 1
  {
    if s.phase.Ended? then Reply(s, [])
    else
      var (read, rest) := ReadCommand(input);
      var o := Step(cfg, s, read, answers(k));
      if |rest| < |input| || o.session.phase.Ended? then Then(o, Run(cfg, o.session, rest, answers, k + 1))
      else o
  }

  /** `Ftp::handle`: the handler's welcome text in a 220, then the loops. */
  function Handle(cfg: Config, implicitTls: bool, welcome: string, input: seq<u8>, answers: nat -> Answers): Outcome {
    var s := Start(implicitTls);
    Then(Outcome(s, [Code.ReadyForNewUser(welcome)], [Welcome], []), Run(cfg, s, input, answers, 0))
  }
}
