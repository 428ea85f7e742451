/** The reply side of the control connection (crates/cftp/src/code.rs):
    the numeric reply codes of section 4.2 of RFC 959, the replies the
    server sends, and the exact text it writes for each. Next to the
    serialiser stand the readings a client makes of that text (the reply
    code, the PASV host-port, a quoted path, the FEAT lines); the lemmas
    show each reading recovers what was written. */
module Code {
  import opened Wrappers
  import opened Uint
  import opened Text
  import Utf8
  import Framing

  /** A TCP port. */
  datatype Port = Port(value: u16)

  /** `Port::p1_p2`: the high and the low byte of the port, as PASV writes
      them. On a `u16`, `>> 8` is division by 256 and `& 0xFF` is the
      remainder. */
  function P1P2(p: Port): (r: (u8, u8))
    ensures r.0 as int * 256 + r.1 as int == p.value as int
  {
    ((p.value as int / 256) as u8, (p.value as int % 256) as u8)
  }

  /** The four octets of an IPv4 address, most significant first. */
  datatype Ipv4Addr = Ipv4Addr(a: u8, b: u8, c: u8, d: u8)

  /** `SimpleReturnCode`: the reply codes of section 4.2 of RFC 959 the
      server can send on their own. */
  datatype SimpleReturnCode =
    | RestartMarker | ServiceReady | DataConnectionAlreadyOpen | OpeningDataConnection
    | Ok | Superfluous | SystemStatus | DirectoryStatus | FileStatus | HelpMessage
    | ClosingControlConnection | ClosingDataConnectionNoTransfer
    | ClosingDataConnectionSuccessful | UserLoggedIn | AuthenticationSuccessful
    | NeedPassword | NeedAccount | FileActionPending
    | ServiceNotAvailable | CantOpenDataConnection | TransferAborted
    | FileActionNotTaken | LocalError | InsufficientStorage
    | SyntaxError | CommandNotImplemented | BadSequence | ParameterNotImplemented
    | NotLoggedIn | NeetAccountForStoringFiles | FileUnavailable
    | ExceededStorageAllocation | FilenameNotAllowed
  {
    /** The `#[repr(u16)]` discriminant: the three-digit code. */
    function Value(): (v: u16)
      ensures 110 <= v <= 553
    {
      match this
      case RestartMarker => 110
      case ServiceReady => 120
      case DataConnectionAlreadyOpen => 125
      case OpeningDataConnection => 150
      case Ok => 200
      case Superfluous => 202
      case SystemStatus => 211
      case DirectoryStatus => 212
      case FileStatus => 213
      case HelpMessage => 214
      case ClosingControlConnection => 221
      case ClosingDataConnectionNoTransfer => 225
      case ClosingDataConnectionSuccessful => 226
      case UserLoggedIn => 230
      case AuthenticationSuccessful => 234
      case NeedPassword => 331
      case NeedAccount => 332
      case FileActionPending => 350
      case ServiceNotAvailable => 421
      case CantOpenDataConnection => 425
      case TransferAborted => 426
      case FileActionNotTaken => 450
      case LocalError => 451
      case InsufficientStorage => 452
      case SyntaxError => 501
      case CommandNotImplemented => 502
      case BadSequence => 503
      case ParameterNotImplemented => 504
      case NotLoggedIn => 530
      case NeetAccountForStoringFiles => 532
      case FileUnavailable => 550
      case ExceededStorageAllocation => 552
      case FilenameNotAllowed => 553
    }
  }

  /** No two codes share a number, so a client can tell every code apart. */
  lemma ValueInjective(c1: SimpleReturnCode, c2: SimpleReturnCode)
    requires c1.Value() == c2.Value()
    ensures c1 == c2
  {
  }

  predicate NoDuplicates<T(==)>(s: seq<T>) {
    forall i, j :: 0 <= i < j < |s| ==> s[i] != s[j]
  }

  /** A `HashSet<String>`, listed in its iteration order: each element once. */
  type FeatureSet = s: seq<string> | NoDuplicates(s)

  /** `FtpResponse`. */
  datatype FtpResponse =
    | Simple(code: SimpleReturnCode, msg: Option<string>)
    | Features(features: FeatureSet)
    | NameSystemType(system: string)
    | ReadyForNewUser(welcome: string)
    | EnteringPassiveMode(ip: Ipv4Addr, port: Port)
    | FileActionOk(path: Option<string>)
    | DirectoryCreated(dir: string)
  {
    /** `FtpResponse::code`: the `SimpleReturnCode` of a simple reply, the
        enum discriminant of every other variant. */
    function Code(): (c: u16)
      ensures 110 <= c <= 553
      ensures Simple? ==> c == code.Value()
      ensures Features? ==> c == SimpleReturnCode.SystemStatus.Value()
      ensures EnteringPassiveMode? ==> c == 227
      ensures DirectoryCreated? ==> c == 257
    {
      match this
      case Simple(code, _) => code.Value()
      case Features(_) => 211
      case NameSystemType(_) => 215
      case ReadyForNewUser(_) => 220
      case EnteringPassiveMode(_, _) => 227
      case FileActionOk(_) => 250
      case DirectoryCreated(_) => 257
    }
  }

  const CRLF: string := "\r\n"

  /** The lines of the FEAT listing: one space, the feature, CR LF, for every
      feature in iteration order. */
  function FeatureLines(fs: seq<string>): seq<string> {
    seq(|fs|, i requires 0 <= i < |fs| => " " + fs[i])
  }

  /** What `FtpResponse::to_bytes` writes between the code's space and the
      final CR LF. Messages have their double quotes escaped; paths are also
      put in double quotes; the FEAT listing spans several lines. */
  function ReplyBody(r: FtpResponse): string {
    match r
    case ReadyForNewUser(msg) => EscapeQuotes(msg)
    case NameSystemType(msg) => EscapeQuotes(msg)
    case Simple(_, Some(msg)) => EscapeQuotes(msg)
    case EnteringPassiveMode(ip, port) => HostPort(ip, port)
    case FileActionOk(Some(path)) => Quoted(path)
    case DirectoryCreated(path) => Quoted(path)
    case Features(f) =>
      "Features:\r\n" + Framing.JoinLines(FeatureLines(f), '\r', '\n') + Decimal(r.Code() as nat) + " End"
    case FileActionOk(None) => ""
    case Simple(_, None) => ""
  }

  /** `(h1,h2,h3,h4,p1,p2)`, the host-port of section 4.1.2 of RFC 959. */
  function HostPort(ip: Ipv4Addr, port: Port): string {
    var (p1, p2) := P1P2(port);
    "(" + Numbers([ip.a, ip.b, ip.c, ip.d, p1, p2])
  }

  /** `n1,n2,...,nk)`: the numbers in decimal, comma-separated, and the
      closing parenthesis. */
  function Numbers(ns: seq<u8>): string
    requires |ns| > 0
  {
    Decimal(ns[0] as nat) + if |ns| == 1 then ")" else "," + Numbers(ns[1..])
  }

  function Quoted(path: string): string {
    "\"" + EscapeQuotes(path) + "\""
  }

  /** The text of a reply as `FtpResponse::to_bytes` writes it: the decimal
      code, a space, the body, CR LF. */
  function ReplyText(r: FtpResponse): string {
    Decimal(r.Code() as nat) + (" " + (ReplyBody(r) + CRLF))
  }

  /** `FtpResponse::to_bytes`: the reply text, UTF-8 encoded. */
  function ToBytes(r: FtpResponse): (bs: seq<u8>)
    ensures Utf8.Decode(bs) == Some(ReplyText(r))
  {
    Utf8.DecodeEncode(ReplyText(r));
    Utf8.Encode(ReplyText(r))
  }

  // -----------------------------------------------------------------------
  // What a client reads back
  // -----------------------------------------------------------------------

  /** Every reply starts with its code in decimal followed by a space. */
  lemma ReplyCodeReadsBack(r: FtpResponse)
    ensures var t := ReplyText(r);
      ReadNat(t).Some? && ReadNat(t).value.0 == r.Code() as nat
      && |ReadNat(t).value.1| > 0 && ReadNat(t).value.1[0] == ' '
  {
    ReadNatDecimal(r.Code() as nat, " " + (ReplyBody(r) + CRLF));
  }

  /** A simple reply without a message, and a 250 without a path, are the
      code, a space and CR LF: the space stays although no text follows. */
  lemma BareReplyText(r: FtpResponse)
    requires (r.Simple? && r.msg.None?) || (r.FileActionOk? && r.path.None?)
    ensures ReplyText(r) == Decimal(r.Code() as nat) + " \r\n"
  {
  }

  /** Reads `n,` (or `n)`, with `sep` the separator): a number below 256
      followed by `sep`. */
  function ReadOctet(s: string, sep: char): Option<(u8, string)> {
    var (n, rest) :- ReadNat(s);
    if n < 256 && |rest| > 0 && rest[0] == sep then Some((n as u8, rest[1..])) else None
  }

  /** Reads `k` numbers below 256 in the layout of `Numbers`. */
  function ReadNumbers(s: string, k: nat): (r: Option<(seq<u8>, string)>)
    requires k > 0
    ensures r.Some? ==> |r.value.0| == k
  {
    match ReadOctet(s, if k == 1 then ')' else ',')
    case None => None
    case Some((n, rest)) =>
      if k == 1 then Some(([n], rest))
      else
        match ReadNumbers(rest, k - 1)
        case None => None
        case Some((ns, rest')) => Some(([n] + ns, rest'))
  }

  /** A client's reading of a 227 reply: `227 (h1,h2,h3,h4,p1,p2)` then
      CR LF, giving the host and the port p1 * 256 + p2. */
  function ParsePassiveReply(t: string): Option<(Ipv4Addr, Port)> {
    match ReadNat(t)
    case Some((227, s)) =>
      if |s| < 2 || s[0] != ' ' || s[1] != '(' then None
      else PassiveAddress(ReadNumbers(s[2..], 6))
    case _ => None
  }

  /** The address and port six numbers and a final CR LF stand for. */
  function PassiveAddress(r: Option<(seq<u8>, string)>): Option<(Ipv4Addr, Port)>
    requires r.Some? ==> |r.value.0| == 6
  {
    match r
    case Some((ns, rest)) =>
      if rest == CRLF then
        Some((Ipv4Addr(ns[0], ns[1], ns[2], ns[3]), Port((ns[4] as int * 256 + ns[5] as int) as u16)))
      else None
    case None => None
  }

  lemma ReadOctetDecimal(n: u8, sep: char, t: string)
    requires !IsDigit(sep)
    ensures ReadOctet(Decimal(n as nat) + [sep] + t, sep) == Some((n, t))
  {
    var s := Decimal(n as nat) + [sep] + t;
    assert s == Decimal(n as nat) + ([sep] + t);
    ReadNatDecimal(n as nat, [sep] + t);
    assert ([sep] + t)[1..] == t;
  }

  /** Reading back numbers laid out by `Numbers`. */
  lemma {:induction false} ReadNumbersOf(ns: seq<u8>, t: string)
    requires |ns| > 0
    ensures ReadNumbers(Numbers(ns) + t, |ns|) == Some((ns, t))
  {
    if |ns| == 1 {
      assert ns == [ns[0]];
      ReadOctetDecimal(ns[0], ')', t);
    } else {
      ReadNumbersOf(ns[1..], t);
      ReadNumbersNext(ns[0], ns[1..], t);
      assert [ns[0]] + ns[1..] == ns;
    }
  }

  lemma ReadNumbersNext(n: u8, ns: seq<u8>, t: string)
    requires |ns| > 0
    requires ReadNumbers(Numbers(ns) + t, |ns|) == Some((ns, t))
    ensures ReadNumbers(Numbers([n] + ns) + t, |ns| + 1) == Some(([n] + ns, t))
  {
    var s := Numbers([n] + ns) + t;
    assert s == Decimal(n as nat) + "," + (Numbers(ns) + t) by {
      assert ([n] + ns)[1..] == ns;
      Assoc(Decimal(n as nat), ",", Numbers(ns), t);
    }
    assert ReadOctet(s, ',') == Some((n, Numbers(ns) + t)) by {
      ReadOctetDecimal(n, ',', Numbers(ns) + t);
    }
  }

  /** The PASV reply round trip: the host and port the server announces are
      the ones a client reads from the reply's six numbers. */
  lemma PassiveReplyRoundTrip(ip: Ipv4Addr, port: Port)
    ensures ParsePassiveReply(ReplyText(EnteringPassiveMode(ip, port))) == Some((ip, port))
  {
    var (p1, p2) := P1P2(port);
    var ns := [ip.a, ip.b, ip.c, ip.d, p1, p2];
    var after := " (" + (Numbers(ns) + CRLF);
    assert " " + (HostPort(ip, port) + CRLF) == after;
    var t := ReplyText(EnteringPassiveMode(ip, port));
    assert t == Decimal(227) + after;
    ReadNatDecimal(227, after);
    assert after[2..] == Numbers(ns) + CRLF;
    ReadNumbersOf(ns, CRLF);
    assert ReadNumbers(after[2..], 6) == Some((ns, CRLF));
    assert ParsePassiveReply(t) == PassiveAddress(ReadNumbers(after[2..], 6));
    PassiveAddressOf(ip, port);
  }

  lemma PassiveAddressOf(ip: Ipv4Addr, port: Port)
    ensures var (p1, p2) := P1P2(port);
      PassiveAddress(Some(([ip.a, ip.b, ip.c, ip.d, p1, p2], CRLF))) == Some((ip, port))
  {
  }

  /** The three digits of a reply code. */
  lemma DecimalOfCode(n: nat)
    requires 100 <= n < 1000
    ensures Decimal(n) == [('0' as int + n / 100) as char, ('0' as int + n / 10 % 10) as char,
                           ('0' as int + n % 10) as char]
  {
    assert Decimal(n / 100) == [('0' as int + n / 100) as char];
    assert n / 10 / 10 == n / 100;
  }

  /** A client's reading of a quoted path: up to the first `"` without a
      backslash before it, `\"` standing for `"`. Returns the path and what
      follows the closing quote. */
  function ReadQuoted(s: string): Option<(string, string)> {
    if |s| == 0 then None
    else if s[0] == '"' then Some(([], s[1..]))
    else
      var escaped := s[0] == '\\' && |s| >= 2 && s[1] == '"';
      match ReadQuoted(s[if escaped then 2 else 1..])
      case None => None
      case Some((p, rest)) => Some(([if escaped then '"' else s[0]] + p, rest))
  }

  /** A client's reading of a 250 or 257 reply: the code, a space, the quoted
      path, CR LF. */
  function ParsePathReply(t: string): Option<(nat, string)> {
    match ReadNat(t)
    case Some((code, s)) =>
      if |s| < 2 || s[0] != ' ' || s[1] != '"' then None
      else
        (match ReadQuoted(s[2..])
         case Some((path, rest)) => if rest == CRLF then Some((code, path)) else None
         case None => None)
    case None => None
  }

  /** The escaped path and its closing quote read back as the path, unless
      the path ends in a backslash: the server does not escape backslashes,
      so a final `\` and the closing quote read as an escaped quote. */
  lemma {:induction false} ReadQuotedEscaped(p: string, tail: string)
    requires |p| == 0 || p[|p| - 1] != '\\'
    ensures ReadQuoted(EscapeQuotes(p) + "\"" + tail) == Some((p, tail))
  {
    if |p| == 0 {
      assert EscapeQuotes(p) + "\"" + tail == "\"" + tail;
    } else {
      var s' := EscapeQuotes(p[1..]) + "\"" + tail;
      ReadQuotedEscaped(p[1..], tail);
      EscapeQuotesThen(p, tail);
      assert [p[0]] + p[1..] == p;
      if p[0] == '"' {
        ReadQuotedQuote(s');
      } else {
        if p[0] == '\\' {
          // p does not end here, and the escape of the rest does not start
          // with a quote, so this backslash is read as itself
          EscapedNeverStartsWithQuote(p[1..]);
        }
        ReadQuotedPlain(p[0], s');
      }
    }
  }

  /** The escape of a non-empty path, a quote and more text, cut after the
      escape of the path's first character. */
  lemma EscapeQuotesThen(p: string, tail: string)
    requires |p| > 0
    ensures EscapeQuotes(p) + "\"" + tail
         == (if p[0] == '"' then "\\\"" else [p[0]]) + (EscapeQuotes(p[1..]) + "\"" + tail)
  {
    var h := if p[0] == '"' then "\\\"" else [p[0]];
    var e := EscapeQuotes(p[1..]);
    assert EscapeQuotes(p) == h + e;
    Assoc3(h, e, "\"", tail);
  }


  /** An escaped quote is read as a quote. */
  lemma ReadQuotedQuote(s: string)
    ensures ReadQuoted("\\\"" + s) == match ReadQuoted(s)
      case None => None
      case Some((p, rest)) => Some(("\"" + p, rest))
  {
    assert ("\\\"" + s)[2..] == s;
  }

  /** Any other character but the closing quote is read as itself. */
  lemma ReadQuotedPlain(c: char, s: string)
    requires c != '"'
    requires c == '\\' ==> |s| == 0 || s[0] != '"'
    ensures ReadQuoted([c] + s) == match ReadQuoted(s)
      case None => None
      case Some((p, rest)) => Some(([c] + p, rest))
  {
    assert ([c] + s)[1..] == s;
  }

  /** The round trip of a path reply (PWD's 257, a 250 with a path): a
      client reads back the code and the path the server sent. */
  lemma PathReplyRoundTrip(r: FtpResponse)
    requires r.DirectoryCreated? || (r.FileActionOk? && r.path.Some?)
    requires var p := if r.DirectoryCreated? then r.dir else r.path.value;
      |p| == 0 || p[|p| - 1] != '\\'
    ensures var p := if r.DirectoryCreated? then r.dir else r.path.value;
      ParsePathReply(ReplyText(r)) == Some((r.Code() as nat, p))
  {
    var p := if r.DirectoryCreated? then r.dir else r.path.value;
    assert ReplyBody(r) == Quoted(p);
    QuotedReplyRoundTrip(r.Code() as nat, p);
  }

  /** Why a final backslash is excluded above: a 257 reply, or a 250 with
      a path, whose path ends in `\\` cannot be read back at all, because
      that backslash and the closing quote read as an escaped quote and no
      closing quote follows. */
  lemma PathReplyFinalBackslash(r: FtpResponse)
    requires r.DirectoryCreated? || (r.FileActionOk? && r.path.Some?)
    requires var p := if r.DirectoryCreated? then r.dir else r.path.value;
      |p| > 0 && p[|p| - 1] == '\\'
    ensures ParsePathReply(ReplyText(r)) == None
  {
    var p := if r.DirectoryCreated? then r.dir else r.path.value;
    assert ReplyBody(r) == Quoted(p);
    QuotedReplyFinalBackslash(r.Code() as nat, p);
  }

  lemma QuotedReplyFinalBackslash(code: nat, p: string)
    requires |p| > 0 && p[|p| - 1] == '\\'
    ensures ParsePathReply(Decimal(code) + (" " + (Quoted(p) + CRLF))) == None
  {
    var after := " " + (Quoted(p) + CRLF);
    QuotedReplyShape(p);
    ReadNatDecimal(code, after);
    ReadQuotedFinalBackslash(p, CRLF);
  }

  /** After the code, a quoted reply is a space, the opening quote, and the
      escaped path closed by a quote and CR LF. */
  lemma QuotedReplyShape(p: string)
    ensures var after := " " + (Quoted(p) + CRLF);
      && |after| >= 2 && after[0] == ' ' && after[1] == '"'
      && after[2..] == EscapeQuotes(p) + "\"" + CRLF
  {
    var after := " " + (Quoted(p) + CRLF);
    Assoc3("\"", EscapeQuotes(p), "\"", CRLF);
    assert after == " " + ("\"" + (EscapeQuotes(p) + "\"" + CRLF));
  }

  /** An escaped path ending in a backslash, then the closing quote, then
      text without a quote, has no end. */
  lemma {:induction false} ReadQuotedFinalBackslash(p: string, tail: string)
    requires |p| > 0 && p[|p| - 1] == '\\'
    requires '"' !in tail
    ensures ReadQuoted(EscapeQuotes(p) + "\"" + tail) == None
  {
    var s' := EscapeQuotes(p[1..]) + "\"" + tail;
    EscapeQuotesThen(p, tail);
    if |p| == 1 {
      assert p == "\\" && EscapeQuotes(p[1..]) == [];
      assert EscapeQuotes(p) + "\"" + tail == "\\\"" + tail;
      assert ("\\\"" + tail)[2..] == tail;
      ReadQuotedUnclosed(tail);
    } else {
      ReadQuotedFinalBackslash(p[1..], tail);
      if p[0] == '"' {
        ReadQuotedQuote(s');
      } else {
        if p[0] == '\\' {
          EscapedNeverStartsWithQuote(p[1..]);
        }
        ReadQuotedPlain(p[0], s');
      }
    }
  }

  /** Text without a quote has no closing quote. */
  lemma {:induction false} ReadQuotedUnclosed(t: string)
    requires '"' !in t
    ensures ReadQuoted(t) == None
  {
    if |t| > 0 {
      assert t[0] in t;
      assert forall c :: c in t[1..] ==> c in t;
      ReadQuotedUnclosed(t[1..]);
    }
  }

  lemma QuotedReplyRoundTrip(code: nat, p: string)
    requires |p| == 0 || p[|p| - 1] != '\\'
    ensures ParsePathReply(Decimal(code) + (" " + (Quoted(p) + CRLF))) == Some((code, p))
  {
    var after := " " + (Quoted(p) + CRLF);
    QuotedReplyShape(p);
    ReadNatDecimal(code, after);
    ReadQuotedEscaped(p, CRLF);
  }

  /** The FEAT reply, read line by line: `211 Features:`, then one line per
      feature (a space and the feature), then `211 End`. This is not the
      `211-` continuation form of section 3.2 of RFC 2389. */
  lemma FeaturesLines(fs: FeatureSet)
    requires forall i :: 0 <= i < |fs| ==> '\r' !in fs[i]
    ensures Framing.SplitLines(ReplyText(Features(fs)), '\r', '\n')
         == ["211 Features:"] + FeatureLines(fs) + ["211 End"]
  {
    var lines := ["211 Features:"] + FeatureLines(fs) + ["211 End"];
    FeaturesJoined(fs);
    FeatureLinesHaveNoCr(fs);
    Framing.SplitJoinLines(lines, '\r', '\n');
  }

  lemma FeatureLinesHaveNoCr(fs: FeatureSet)
    requires forall i :: 0 <= i < |fs| ==> '\r' !in fs[i]
    ensures var lines := ["211 Features:"] + FeatureLines(fs) + ["211 End"];
      forall k :: 0 <= k < |lines| ==> '\r' !in lines[k]
  {
    var lines := ["211 Features:"] + FeatureLines(fs) + ["211 End"];
    forall k | 0 <= k < |lines| ensures '\r' !in lines[k] {
      if 1 <= k <= |fs| {
        assert lines[k] == " " + fs[k - 1];
      }
    }
  }

  /** The FEAT reply is its lines, each followed by CR LF. */
  lemma FeaturesJoined(fs: FeatureSet)
    ensures Framing.JoinLines(["211 Features:"] + FeatureLines(fs) + ["211 End"], '\r', '\n')
         == ReplyText(Features(fs))
  {
    var body := Framing.JoinLines(FeatureLines(fs), '\r', '\n');
    JoinFramed("211 Features:", FeatureLines(fs), "211 End", '\r', '\n');
    var code := Decimal(211);
    assert code == "211" by {
      DecimalOfCode(211);
    }
    assert ReplyText(Features(fs)) == code + (" " + ("Features:\r\n" + body + code + " End" + CRLF));
    FeaturesShape(code, body);
    FeaturesLiterals();
  }

  /** Lines `h`, then `ls`, then `e`, each followed by CR LF. */
  lemma JoinFramed<T>(h: seq<T>, ls: seq<seq<T>>, e: seq<T>, cr: T, lf: T)
    ensures Framing.JoinLines([h] + ls + [e], cr, lf)
         == h + [cr, lf] + Framing.JoinLines(ls, cr, lf) + (e + [cr, lf])
  {
    JoinLinesAppend([h] + ls, [e], cr, lf);
    JoinLinesAppend([h], ls, cr, lf);
    assert Framing.JoinLines([e], cr, lf) == e + [cr, lf] + [];
    assert Framing.JoinLines([h], cr, lf) == h + [cr, lf] + [];
  }

  /** How the FEAT reply text regroups into its first line, the feature
      lines and its last line. */
  lemma FeaturesShape(code: string, body: string)
    ensures code + (" " + ("Features:\r\n" + body + code + " End" + CRLF))
         == code + " Features:\r\n" + body + (code + " End\r\n")
  {
    assert " " + "Features:\r\n" == " Features:\r\n";
    assert " End" + CRLF == " End\r\n";
  }

  lemma FeaturesLiterals()
    ensures "211 Features:" + ['\r', '\n'] == "211" + " Features:\r\n"
    ensures "211 End" + ['\r', '\n'] == "211" + " End\r\n"
  {
  }

  lemma {:induction false} JoinLinesAppend<T>(a: seq<seq<T>>, b: seq<seq<T>>, cr: T, lf: T)
    ensures Framing.JoinLines(a + b, cr, lf) == Framing.JoinLines(a, cr, lf) + Framing.JoinLines(b, cr, lf)
  {
    if |a| == 0 {
      assert a + b == b;
    } else {
      assert (a + b)[1..] == a[1..] + b;
      JoinLinesAppend(a[1..], b, cr, lf);
    }
  }

  // -----------------------------------------------------------------------
  // Handler errors
  // -----------------------------------------------------------------------

  /** A handler's error value, seen through `IntoFtpResponse`: an error type
      that is `Display + Into<SimpleReturnCode>` gets the blanket impl
      (`Described`, with its code and its display text); one that implements
      the trait itself may return any reply it likes (`Custom`); any other
      uses the trait's default method (`Undescribed`). */
  datatype HandlerError =
    | Described(code: SimpleReturnCode, text: string)
    | Custom(reply: FtpResponse)
    | Undescribed(text: string)

  /** `IntoFtpResponse::into_ftp_response`. */
  function IntoFtpResponse(e: HandlerError): (r: FtpResponse)
    ensures e.Described? ==> r.Simple? && r.Code() == e.code.Value() && r.msg == Some(e.text)
    ensures e.Custom? ==> r == e.reply
    ensures e.Undescribed? ==> r.Simple? && r.Code() == 451 && r.msg.None?
  {
    match e
    case Described(code, text) => Simple(code, Some(text))
    case Custom(reply) => reply
    case Undescribed(_) => Simple(LocalError, None)
  }

  /** On the wire, a described error is its code and its text; an
      undescribed one is a bare 451; a custom one is whatever reply its own
      impl chose. */
  lemma IntoFtpResponseText(e: HandlerError)
    ensures e.Undescribed? ==> ReplyText(IntoFtpResponse(e)) == "451 \r\n"
    ensures e.Custom? ==> ReplyText(IntoFtpResponse(e)) == ReplyText(e.reply)
    ensures e.Described? ==>
      ReplyText(IntoFtpResponse(e)) == Decimal(e.code.Value() as nat) + " " + EscapeQuotes(e.text) + CRLF
  {
    if e.Undescribed? {
      assert Decimal(451) == "451";
    }
  }
}
