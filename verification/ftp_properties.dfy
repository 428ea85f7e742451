/** What the session of crates/cftp/src/ftp.rs promises, stated about the
    state machine of module `Ftp`: how a line is read, what each phase
    answers, how the rename slot, the stored factory and the TLS state
    evolve, and that every session ends. */
module FtpProperties {
  import opened Wrappers
  import opened Uint
  import opened Text
  import Framing
  import Utf8
  import Code
  import Arguments
  import Commands
  import Handler
  import opened Ftp

  // ---------------------------------------------------------------------
  // Reading a line
  // ---------------------------------------------------------------------

  /** A line of text as `read` sees it, stated on the text: blank text is a
      disconnect, and anything else is the parse of the whole text. */
  function ReadText(text: string): Result<CommandRead, ReadError> {
    if AllWhitespace(text) then Success(Disconnect)
    else
      match Commands.ParseCommand(text)
      case Success(c) => Success(Command(c))
      case Failure(e) => Failure(Parse(e))
  }

  /** A client that sends a line of text without CR, then CR LF, has that
      line read as `ReadText` says, and the bytes after it stay unread. */
  lemma ReadFramedLine(text: string, rest: seq<u8>)
    requires '\r' !in text
    ensures ReadCommand(Utf8.Encode(text) + [CR, LF] + rest) == (ReadText(text), rest)
  {
    var bs := Utf8.Encode(text);
    EncodeHasNoCr(text);
    Framing.TakeLineOfFramed(bs, rest, CR, LF);
    Utf8.DecodeEncode(text);
    TrimEmptyIffAllWhitespace(text);
  }

  /** At the end of input `read` sees an empty line: a disconnect. */
  lemma ReadAtEnd()
    ensures ReadCommand([]) == (Success(Disconnect), [])
  {
    assert Trim([]) == [] by { TrimEmptyIffAllWhitespace([]); }
  }

  /** Text with no CR encodes to bytes with no CR: every byte of a longer
      encoding is at least 0x80. */
  lemma {:induction false} EncodeHasNoCr(text: string)
    requires '\r' !in text
    ensures CR !in Utf8.Encode(text)
  {
    if |text| > 0 {
      var c := text[0];
      assert c != '\r';
      assert CR !in Utf8.EncodeChar(c);
      EncodeHasNoCr(text[1..]);
    }
  }

  /** Bytes that are not UTF-8 are an I/O error; text is read as
      `ReadText` says. */
  lemma InterpretDecodes(line: seq<u8>)
    ensures Utf8.Decode(line).None? ==> Interpret(line) == Failure(ReadIo)
    ensures Utf8.Decode(line).Some? ==> Interpret(line) == ReadText(Utf8.Decode(line).value)
  {
    if Utf8.Decode(line).Some? {
      TrimEmptyIffAllWhitespace(Utf8.Decode(line).value);
    }
  }

  // ---------------------------------------------------------------------
  // TLS upgrade
  // ---------------------------------------------------------------------

  /** A second upgrade never changes what the first left: a TLS stream
      stays TLS and a broken one stays broken, whatever the acceptor does. */
  lemma UpgradeTlsSettles(security: Security, hasAcceptor: bool, acceptOk: bool, hasAcceptor2: bool, acceptOk2: bool)
    ensures var first := UpgradeTls(security, hasAcceptor, acceptOk).0;
      UpgradeTls(first, hasAcceptor2, acceptOk2).0 == first
    ensures var first := UpgradeTls(security, hasAcceptor, acceptOk).0;
      first == UpgradeBroken ==> UpgradeTls(first, hasAcceptor2, acceptOk2).1 == Failure(PreviousFailure)
  {
  }

  /** A plain stream is upgraded exactly when an acceptor is configured and
      its handshake succeeds; without an acceptor the error is
      `Unconfigured`. */
  lemma UpgradeFromPlain(hasAcceptor: bool, acceptOk: bool)
    ensures UpgradeTls(Plain, hasAcceptor, acceptOk).0 == Tls <==> hasAcceptor && acceptOk
    ensures !hasAcceptor ==> UpgradeTls(Plain, hasAcceptor, acceptOk).1 == Failure(Unconfigured)
  {
  }

  // ---------------------------------------------------------------------
  // Before login
  // ---------------------------------------------------------------------

  /** Before login only `AUTH`, `USER` and `OPTS` keep the session going;
      any other command gets 503 and ends it. No handler call is made. */
  lemma PreAuthCommands(cfg: Config, s: Session, c: Commands.Command, a: Answers)
    requires s.phase == PreAuth
    ensures var o := Step(cfg, s, Success(Command(c)), a);
      && o.calls == [] && o.data == []
      && o.session.ioFactory == s.ioFactory
      && (!o.session.phase.Ended? ==> c.Auth? || c.User? || c.Opts?)
      && (c.User? || c.Opts? ==> !o.session.phase.Ended?)
      && (c.Opts? ==> o.session == s && o.replies == [SimpleReply(Code.Ok)])
      && (!(c.Auth? || c.User? || c.Opts?) ==>
            o.session.phase == Ended(None) && o.replies == [SimpleReply(Code.BadSequence)])
  {
    StepPreAuth(cfg, s, Success(Command(c)), a);
  }

  /** Before login a read error ends the session with that error, and a
      disconnect ends it quietly; neither writes a reply. */
  lemma PreAuthReadEnds(cfg: Config, s: Session, e: ReadError, a: Answers)
    requires s.phase == PreAuth
    ensures Step(cfg, s, Failure(e), a) == Outcome(s.(phase := Ended(Some(ReadFailed(e)))), [], [], [])
    ensures Step(cfg, s, Success(Disconnect), a) == Outcome(s.(phase := Ended(None)), [], [], [])
  {
  }

  /** `USER` is refused with 530, and the loop goes on, exactly when the
      `tls` feature is on, the stream is not TLS and plaintext is not
      allowed; otherwise it is answered with 331 and the password is
      awaited for that user. */
  lemma UserBeforeLogin(cfg: Config, s: Session, user: string, a: Answers)
    requires s.phase == PreAuth
    ensures var o := Step(cfg, s, Success(Command(Commands.User(user))), a);
      var refused := cfg.tlsFeature && s.security != Tls && !cfg.allowPlaintext;
      && (refused ==> o.session == s && |o.replies| == 1 && o.replies[0].Code() == 530)
      && (!refused ==> o.session == s.(phase := AwaitPass(user))
                       && o.replies == [SimpleReply(Code.NeedPassword)])
  {
    StepPreAuth(cfg, s, Success(Command(Commands.User(user))), a);
  }

  /** A connection built by `new_insecure` always accepts `USER`. */
  lemma InsecureAcceptsUser(tlsFeature: bool, user: string, a: Answers)
    ensures var o := Step(NewInsecure(tlsFeature), Start(false), Success(Command(Commands.User(user))), a);
      o.session.phase == AwaitPass(user) && o.replies[0].Code() == 331
  {
  }

  /** `AUTH TLS` with an acceptor answers 234 and upgrades; the session
      ends exactly when the upgrade fails. Any other `AUTH` answers 502
      and changes nothing. */
  lemma AuthBeforeLogin(cfg: Config, s: Session, t: Arguments.AuthType, a: Answers)
    requires s.phase == PreAuth
    ensures var o := Step(cfg, s, Success(Command(Commands.Auth(t))), a);
      && |o.replies| == 1
      && (if cfg.tlsFeature && cfg.hasAcceptor && t == Arguments.Tls then
            var (security, r) := UpgradeTls(s.security, true, a.acceptTls);
            && o.replies[0].Code() == 234
            && o.session.security == security
            && (o.session.phase.Ended? <==> r.Failure?)
            && (r.Failure? ==> o.session.phase == Ended(Some(TlsUpgradeFailed(r.error))))
          else
            o.session == s && o.replies[0].Code() == 502)
  {
    StepPreAuth(cfg, s, Success(Command(Commands.Auth(t))), a);
  }

  // ---------------------------------------------------------------------
  // The password
  // ---------------------------------------------------------------------

  /** After 331 only `PASS` is accepted: the handler is asked about the user
      and that password, and its verdict gives 230 and the logged-in loop
      with nothing staged, or 530 and the end; a handler error ends the
      session with it. Anything else, a disconnect included, gets 503 and
      ends the session. */
  lemma PassOutcomes(cfg: Config, s: Session, user: string, read: Result<CommandRead, ReadError>, a: Answers)
    requires s.phase == AwaitPass(user)
    ensures var o := Step(cfg, s, read, a);
      && o.session.security == s.security && o.session.ioFactory == s.ioFactory
      && (read.Failure? ==> o.session.phase == Ended(Some(ReadFailed(read.error))) && o.replies == [])
      && (read.Success? && !(read.value.Command? && read.value.command.Pass?) ==>
            o.session.phase == Ended(None) && o.replies == [SimpleReply(Code.BadSequence)] && o.calls == [])
      && (read.Success? && read.value.Command? && read.value.command.Pass? ==>
            var password := read.value.command.password;
            && o.calls == [Authenticate(user, password)]
            && (a.authenticate == Success(true) ==>
                  o.session.phase == LoggedIn(None) && o.replies == [SimpleReply(Code.UserLoggedIn)])
            && (a.authenticate == Success(false) ==>
                  o.session.phase == Ended(None) && o.replies == [SimpleReply(Code.NotLoggedIn)])
            && (a.authenticate.Failure? ==>
                  o.session.phase == Ended(Some(HandlerFailed(a.authenticate.error))) && o.replies == []))
  {
  }

  /** The configuration plays no part once `USER` has been accepted. */
  lemma PassIgnoresConfig(cfg: Config, s: Session, read: Result<CommandRead, ReadError>, a: Answers)
    requires s.phase.AwaitPass? || s.phase.LoggedIn?
    ensures Step(cfg, s, read, a) == Step(Config(false, false, false), s, read, a)
  {
  }

  // ---------------------------------------------------------------------
  // After login
  // ---------------------------------------------------------------------

  /** After login a parse error is answered with 502 and its text and the
      loop goes on; a disconnect or an I/O error ends the session without
      an error and without a reply. */
  lemma LoggedInReadErrors(cfg: Config, s: Session, message: string, a: Answers)
    requires s.phase.LoggedIn?
    ensures Step(cfg, s, Failure(Parse(message)), a)
            == Outcome(s, [SimpleMsg(Code.CommandNotImplemented, message)], [], [])
    ensures Step(cfg, s, Failure(ReadIo), a) == Outcome(s.(phase := Ended(None)), [], [], [])
    ensures Step(cfg, s, Success(Disconnect), a) == Outcome(s.(phase := Ended(None)), [], [], [])
  {
  }

  /** A logged-in session stays logged in whatever command it serves, and
      its TLS state never changes. */
  lemma LoggedInStays(cfg: Config, s: Session, c: Commands.Command, a: Answers)
    requires s.phase.LoggedIn?
    ensures var o := Step(cfg, s, Success(Command(c)), a);
      o.session.phase.LoggedIn? && o.session.security == s.security
  {
  }

  /** `TYPE`, `OPTS`, `UTF8` and `PBSZ` are acknowledged with 200 and
      change nothing; `AUTH`, `USER` and `PASS` get 503 and change nothing. */
  lemma AcknowledgedCommands(cfg: Config, s: Session, c: Commands.Command, a: Answers)
    requires s.phase.LoggedIn?
    requires c.Type? || c.Opts? || c.Utf8? || c.Pbsz? || c.Auth? || c.User? || c.Pass?
    ensures var o := Step(cfg, s, Success(Command(c)), a);
      && o.session == s && o.calls == [] && o.data == []
      && o.replies == [SimpleReply(if c.Auth? || c.User? || c.Pass? then Code.BadSequence else Code.Ok)]
  {
  }

  /** `CWD` hands its path to the handler and answers 200 or 550. */
  lemma CwdReply(cfg: Config, s: Session, path: string, a: Answers)
    requires s.phase.LoggedIn?
    ensures var o := Step(cfg, s, Success(Command(Commands.Cwd(path))), a);
      && o.session == s && o.calls == [SetCwd(path)]
      && |o.replies| == 1 && o.replies[0].Code() == (if a.setCwd then 200 else 550)
  {
  }

  /** `PWD` asks the handler for the directory and answers 257 with it as
      `UnixPath` shows it, or 550 when there is none. */
  lemma PwdReply(cfg: Config, s: Session, a: Answers)
    requires s.phase.LoggedIn?
    ensures var o := Step(cfg, s, Success(Command(Commands.Pwd)), a);
      o == Outcome(s, [if a.cwd.Some? then Code.DirectoryCreated(UnixPath(a.cwd.value))
                       else SimpleReply(Code.FileUnavailable)], [GetCwd], [])
  {
    StepServes(cfg, s, Commands.Pwd, a);
  }

  /** The directory `PWD` shows has every backslash turned into a slash and
      nothing else changed, and a client reads it back from the quoted 257
      reply: without a trailing backslash the quoting is never ambiguous. */
  lemma UnixPathReadsBack(path: string)
    ensures var dir := UnixPath(path);
      && |dir| == |path| && '\\' !in dir
      && (forall i :: 0 <= i < |path| && path[i] != '\\' ==> dir[i] == path[i])
      && Code.ParsePathReply(Code.ReplyText(Code.DirectoryCreated(dir))) == Some((257, dir))
  {
    var dir := UnixPath(path);
    assert '\\' !in dir by {
      forall i | 0 <= i < |dir| ensures dir[i] != '\\' {
      }
    }
    Code.PathReplyRoundTrip(Code.DirectoryCreated(dir));
  }

  /** `SYST` answers 215 with the handler's system name. */
  lemma SystReply(cfg: Config, s: Session, a: Answers)
    requires s.phase.LoggedIn?
    ensures var o := Step(cfg, s, Success(Command(Commands.Syst)), a);
      && o.session == s && o.calls == [OsInfo]
      && o.replies == [Code.NameSystemType(a.osInfo)] && o.replies[0].Code() == 215
  {
  }

  // ---------------------------------------------------------------------
  // Renaming
  // ---------------------------------------------------------------------

  /** `RNFR` answers 350 and stages its path, replacing whatever was
      staged. */
  lemma RnfrStages(cfg: Config, s: Session, path: string, a: Answers)
    requires s.phase.LoggedIn?
    ensures var o := Step(cfg, s, Success(Command(Commands.Rnfr(path))), a);
      && o.session == s.(phase := LoggedIn(Some(path)))
      && o.replies == [SimpleReply(Code.FileActionPending)] && o.calls == []
  {
  }

  /** No command other than `RNFR` and `RNTO` touches the staged path. */
  lemma StagedPathKept(cfg: Config, s: Session, c: Commands.Command, a: Answers)
    requires s.phase.LoggedIn?
    requires !c.Rnfr? && !c.Rnto?
    ensures Step(cfg, s, Success(Command(c)), a).session.phase == s.phase
  {
  }

  /** `RNTO` with nothing staged answers 503. Otherwise the staged path is
      cleared, the handler renames it to the new path, and the reply is 200
      or the handler error's own reply. */
  lemma RntoOutcomes(cfg: Config, s: Session, to: string, a: Answers)
    requires s.phase.LoggedIn?
    ensures var o := Step(cfg, s, Success(Command(Commands.Rnto(to))), a);
      && (s.phase.toRename.None? ==>
            o.session == s && o.replies == [SimpleReply(Code.BadSequence)] && o.calls == [])
      && (s.phase.toRename.Some? ==>
            && o.session == s.(phase := LoggedIn(None))
            && o.calls == [RenameFile(s.phase.toRename.value, to)]
            && o.replies == [if a.rename.Success? then SimpleReply(Code.Ok)
                             else Code.IntoFtpResponse(a.rename.error)])
  {
  }

  // ---------------------------------------------------------------------
  // Passive connections and transfers
  // ---------------------------------------------------------------------

  /** Only a `PASV` whose connection has an IPv4 address changes the stored
      factory, and it stores that connection's factory. */
  lemma FactoryOnlyFromPasv(cfg: Config, s: Session, c: Commands.Command, a: Answers)
    requires s.phase.LoggedIn?
    ensures var o := Step(cfg, s, Success(Command(c)), a);
      o.session.ioFactory != s.ioFactory ==>
        && c.Pasv? && a.passiveConn.Some? && a.passiveConn.value.addr.ip.V4?
        && o.session.ioFactory == Some(a.passiveConn.value.ioFactory)
  {
  }

  /** `PASV` with an IPv4 connection announces its address and port in a
      227 reply and stores its factory in place of the old one; with an
      IPv6 connection, or when the handler has none, it answers 502 and
      keeps the old factory. */
  lemma PasvReply(cfg: Config, s: Session, a: Answers)
    requires s.phase.LoggedIn?
    ensures var o := Step(cfg, s, Success(Command(Commands.Pasv)), a);
      if a.passiveConn.Some? && a.passiveConn.value.addr.ip.V4? then
        var conn := a.passiveConn.value;
        o == Outcome(s.(ioFactory := Some(conn.ioFactory)),
                     [Code.EnteringPassiveMode(conn.addr.ip.octets, Code.Port(conn.addr.port))], [OpenPassive], [])
      else
        o == Outcome(s, [SimpleReply(Code.CommandNotImplemented)], [OpenPassive], [])
  {
    StepServes(cfg, s, Commands.Pasv, a);
  }

  /** `RETR` and `STOR` answer 150 first; without a stored factory or a data
      connection they answer 502, and otherwise the handler transfers the
      file and the reply is 226 or 550. The stored factory is kept. */
  lemma TransferReplies(cfg: Config, s: Session, c: Commands.Command, a: Answers)
    requires s.phase.LoggedIn?
    requires c.Retr? || c.Stor?
    ensures var o := Step(cfg, s, Success(Command(c)), a);
      var call := if c.Retr? then ReadFile(c.file) else WriteFile(c.file);
      var ok := if c.Retr? then a.read else a.write;
      var connected := s.ioFactory.Some? && a.createIo;
      && o.session == s && o.data == []
      && o.replies == [SimpleReply(Code.OpeningDataConnection),
                       SimpleReply(if !connected then Code.CommandNotImplemented
                                   else if ok then Code.ClosingDataConnectionSuccessful
                                   else Code.FileUnavailable)]
      && o.calls == (if s.ioFactory.None? then []
                     else [CreateIo(s.ioFactory.value)] + (if a.createIo then [call] else []))
  {
    StepServes(cfg, s, c, a);
  }

  /** `LIST` answers 150 first and 502 without a data connection, and 225
      when the handler cannot list. Otherwise the data connection carries
      the lines that were written, each line that could not be sent is
      answered with 225 instead, and the last reply is 226. */
  lemma ListReplies(cfg: Config, s: Session, a: Answers)
    requires s.phase.LoggedIn?
    ensures var o := Step(cfg, s, Success(Command(Commands.List)), a);
      && o.session == s && |o.replies| >= 2
      && o.replies[0].Code() == 150
      && (!(s.ioFactory.Some? && a.createIo) ==> o.replies[1].Code() == 502 && o.data == [])
      && (s.ioFactory.Some? && a.createIo && a.ls.None? ==>
            o.replies == [SimpleReply(Code.OpeningDataConnection), SimpleReply(Code.ClosingDataConnectionNoTransfer)]
            && o.data == [])
      && (s.ioFactory.Some? && a.createIo && a.ls.Some? ==>
            var entries := a.ls.value;
            && o.calls == [CreateIo(s.ioFactory.value), ListFiles]
            && o.replies == [SimpleReply(Code.OpeningDataConnection)] + SendFailures(entries)
                            + [SimpleReply(Code.ClosingDataConnectionSuccessful)]
            && o.data == ListingData(entries))
  {
    StepServes(cfg, s, Commands.List, a);
  }

  /** One 225 per entry whose line was not sent, and none when all were. */
  lemma {:induction false} SendFailuresCount(entries: seq<Entry>)
    ensures |SendFailures(entries)| <= |entries|
    ensures forall i :: 0 <= i < |SendFailures(entries)| ==>
      SendFailures(entries)[i] == SimpleReply(Code.ClosingDataConnectionNoTransfer)
    ensures SendFailures(entries) == [] <==> forall i :: 0 <= i < |entries| ==> entries[i].sent
  {
    if |entries| > 0 {
      SendFailuresCount(entries[1..]);
      if entries[0].sent {
        forall i | 0 <= i < |entries| ensures entries[i].sent == (i == 0 || entries[1..][i - 1].sent) {
        }
      }
    }
  }

  /** Every entry either puts its displayed line, with CR LF, on the data
      connection or is answered with one 225, never both; when every write
      succeeds, the data connection carries one line per entry, in order. */
  lemma ListingDataLines(entries: seq<Entry>)
    ensures |ListingData(entries)| + |SendFailures(entries)| == |entries|
    ensures (forall e :: e in entries ==> e.sent) ==>
      && |ListingData(entries)| == |entries|
      && forall i :: 0 <= i < |entries| ==> ListingData(entries)[i] == EntryLine(entries[i])
  {
    ListingDataCount(entries);
    if forall e :: e in entries ==> e.sent {
      ListingDataAllSent(entries);
    }
  }

  lemma {:induction false} ListingDataCount(entries: seq<Entry>)
    ensures |ListingData(entries)| + |SendFailures(entries)| == |entries|
  {
    if |entries| > 0 {
      ListingDataCount(entries[1..]);
    }
  }

  lemma {:induction false} ListingDataAllSent(entries: seq<Entry>)
    requires forall e :: e in entries ==> e.sent
    ensures |ListingData(entries)| == |entries|
    ensures forall i :: 0 <= i < |entries| ==> ListingData(entries)[i] == EntryLine(entries[i])
  {
    if |entries| > 0 {
      ListingDataAllSent(entries[1..]);
      assert entries[0] in entries;
      forall i | 0 < i < |entries| ensures entries[i] == entries[1..][i - 1] {
      }
    }
  }

  /** A listing is served entry by entry: the data and the 225 replies of
      two runs of entries are those of the first run followed by those of
      the second. */
  lemma ListingDataAppend(a: seq<Entry>, b: seq<Entry>)
    ensures ListingData(a + b) == ListingData(a) + ListingData(b)
    ensures SendFailures(a + b) == SendFailures(a) + SendFailures(b)
  {
    SentLinesAppend(a, b);
    SendFailuresAppend(a, b);
  }

  lemma {:induction false} SentLinesAppend(a: seq<Entry>, b: seq<Entry>)
    ensures ListingData(a + b) == ListingData(a) + ListingData(b)
  {
    if |a| == 0 {
      assert a + b == b;
    } else {
      assert (a + b)[0] == a[0] && (a + b)[1..] == a[1..] + b;
      SentLinesAppend(a[1..], b);
    }
  }

  lemma {:induction false} SendFailuresAppend(a: seq<Entry>, b: seq<Entry>)
    ensures SendFailures(a + b) == SendFailures(a) + SendFailures(b)
  {
    if |a| == 0 {
      assert a + b == b;
    } else {
      assert (a + b)[0] == a[0] && (a + b)[1..] == a[1..] + b;
      SendFailuresAppend(a[1..], b);
    }
  }

  /** A single entry contributes its line when it was sent and a 225 when
      it was not. */
  lemma ListingDataOne(e: Entry)
    ensures ListingData([e]) == (if e.sent then [EntryLine(e)] else [])
    ensures SendFailures([e]) == (if e.sent then [] else [SimpleReply(Code.ClosingDataConnectionNoTransfer)])
  {
    assert [e][1..] == [];
  }

  // ---------------------------------------------------------------------
  // FEAT
  // ---------------------------------------------------------------------

  /** `FEAT` answers 211 with the handler's features and the six the server
      always adds, each once, and nothing else; the session is unchanged. */
  lemma FeatReply(cfg: Config, s: Session, a: Answers)
    requires s.phase.LoggedIn?
    ensures var o := Step(cfg, s, Success(Command(Commands.Feat)), a);
      && |o.replies| == 1 && o.replies[0].Features?
      && o == Outcome(s, [Code.Features(o.replies[0].features)], [GetFeatures], [])
      && (forall f :: f in o.replies[0].features <==> f in a.features || f in DefaultFeatures)
  {
    var fs := Extend(a.features, DefaultFeatures);
    assert Step(cfg, s, Success(Command(Commands.Feat)), a) == Outcome(s, [Code.Features(fs)], [GetFeatures], []) by {
      StepServes(cfg, s, Commands.Feat, a);
    }
    ExtendIsUnion(a.features, DefaultFeatures);
  }

  /** A step before login is `PreAuthStep`. */
  lemma StepPreAuth(cfg: Config, s: Session, read: Result<CommandRead, ReadError>, a: Answers)
    requires s.phase.PreAuth?
    ensures Step(cfg, s, read, a) == PreAuthStep(cfg, s, read, a)
  {
  }

  /** A logged-in step on a command is `Serve`. */
  lemma StepServes(cfg: Config, s: Session, c: Commands.Command, a: Answers)
    requires s.phase.LoggedIn?
    ensures Step(cfg, s, Success(Command(c)), a) == Serve(s, s.phase.toRename, c, a)
  {
  }

  /** `Extend` is set union, and keeps the old elements first. */
  lemma {:induction false} ExtendIsUnion(fs: Code.FeatureSet, more: seq<string>)
    ensures var r := Extend(fs, more);
      && |fs| <= |r| && r[..|fs|] == fs
      && (forall f :: f in r <==> f in fs || f in more)
    decreases |more|
  {
    if |more| > 0 {
      if more[0] in fs {
        ExtendIsUnion(fs, more[1..]);
      } else {
        var fs' := AddNew(fs, more[0]);
        ExtendIsUnion(fs', more[1..]);
        assert fs'[..|fs|] == fs;
      }
      assert forall f :: f in more <==> f == more[0] || f in more[1..];
    }
  }

  // ---------------------------------------------------------------------
  // Whole sessions
  // ---------------------------------------------------------------------

  /** `handle` asks the handler for its welcome text and writes it in a
      220 before anything else. */
  lemma HandleWelcomesFirst(cfg: Config, implicitTls: bool, welcome: string, input: seq<u8>, answers: nat -> Answers)
    ensures var o := Handle(cfg, implicitTls, welcome, input, answers);
      && |o.replies| >= 1 && o.replies[0] == Code.ReadyForNewUser(welcome) && o.replies[0].Code() == 220
      && |o.calls| >= 1 && o.calls[0] == Welcome
  {
  }

  /** Every session ends: once the input is used up, the next read sees an
      empty line, which ends every phase. */
  lemma {:induction false} RunEnds(cfg: Config, s: Session, input: seq<u8>, answers: nat -> Answers, k: nat)
    ensures Run(cfg, s, input, answers, k).session.phase.Ended?
    decreases |input|, if s.phase.Ended? then 0 else 1
  {
    if !s.phase.Ended? {
      var (read, rest) := ReadCommand(input);
      var o := Step(cfg, s, read, answers(k));
      if |rest| < |input| || o.session.phase.Ended? {
        RunEnds(cfg, o.session, rest, answers, k + 1);
      } else {
        EmptyReadEnds(cfg, s, input, answers(k));
      }
    }
  }

  /** A read that consumes nothing happens only at the end of input, where
      it is a disconnect, which ends every phase. */
  lemma EmptyReadEnds(cfg: Config, s: Session, input: seq<u8>, a: Answers)
    requires !s.phase.Ended?
    requires |ReadCommand(input).1| == |input|
    ensures Step(cfg, s, ReadCommand(input).0, a).session.phase.Ended?
  {
    Framing.ReadLoopFindsFirstCrlf([], input, CR, LF);
    assert input == [];
    ReadAtEnd();
  }

  /** Once a passive connection has been stored, a session always has one. */
  lemma {:induction false} RunKeepsFactory(cfg: Config, s: Session, input: seq<u8>, answers: nat -> Answers, k: nat)
    requires s.ioFactory.Some?
    ensures Run(cfg, s, input, answers, k).session.ioFactory.Some?
    decreases |input|, if s.phase.Ended? then 0 else 1
  {
    if !s.phase.Ended? {
      var (read, rest) := ReadCommand(input);
      var o := Step(cfg, s, read, answers(k));
      StepKeepsFactory(cfg, s, read, answers(k));
      if |rest| < |input| || o.session.phase.Ended? {
        RunKeepsFactory(cfg, o.session, rest, answers, k + 1);
      }
    }
  }

  /** No step clears the stored factory. */
  lemma StepKeepsFactory(cfg: Config, s: Session, read: Result<CommandRead, ReadError>, a: Answers)
    requires s.ioFactory.Some?
    ensures Step(cfg, s, read, a).session.ioFactory.Some?
  {
  }

  /** Once the stream is TLS it stays TLS for the rest of the session. */
  lemma {:induction false} RunKeepsTls(cfg: Config, s: Session, input: seq<u8>, answers: nat -> Answers, k: nat)
    requires s.security == Tls
    ensures Run(cfg, s, input, answers, k).session.security == Tls
    decreases |input|, if s.phase.Ended? then 0 else 1
  {
    if !s.phase.Ended? {
      var (read, rest) := ReadCommand(input);
      var o := Step(cfg, s, read, answers(k));
      StepKeepsTls(cfg, s, read, answers(k));
      if |rest| < |input| || o.session.phase.Ended? {
        RunKeepsTls(cfg, o.session, rest, answers, k + 1);
      }
    }
  }

  /** No step leaves TLS. */
  lemma StepKeepsTls(cfg: Config, s: Session, read: Result<CommandRead, ReadError>, a: Answers)
    requires s.security == Tls
    ensures Step(cfg, s, read, a).session.security == Tls
  {
  }
}
