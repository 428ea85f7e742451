/** The control-line codec (crates/cftp/src/command/mod.rs and the
    `impl_command!` macro of crates/cftp/src/command/impl_command.rs): the
    seventeen commands the server knows, the verb table, and
    `Command::from_str`, which cuts a line into verb and argument, looks
    the verb up ignoring ASCII case and hands the argument to that
    command's own parser. */
module Commands {
  import opened Wrappers
  import opened Text
  import opened Arguments

  /** `Command`, one variant per row of the verb table, each holding what
      its argument parser produced. The seven unit commands hold nothing. */
  datatype Command =
    | Auth(authType: AuthType)
    | User(username: string)
    | Pass(password: string)
    | Cwd(path: string)
    | Pwd
    | Type(changeTo: TransferType)
    | Pasv
    | List
    | Retr(file: string)
    | Syst
    | Stor(file: string)
    | Feat
    | Opts(options: string)
    | Utf8
    | Pbsz
    | Rnfr(from: string)
    | Rnto(to: string)

  /** The verb table, in the order the generated parser tries it. */
  const Verbs: seq<string> := [
    "AUTH", "USER", "PASS", "CWD", "PWD", "TYPE", "PASV", "LIST", "RETR",
    "SYST", "STOR", "FEAT", "OPTS", "UTF8", "PBSZ", "RNFR", "RNTO"
  ]

  /** The rows whose command is a unit struct (`unit_commands!`). */
  predicate IsUnitVerb(k: nat) {
    k in {4, 6, 7, 9, 11, 13, 14}
  }

  /** The row of the table a command comes from. */
  function Row(c: Command): (k: nat)
    ensures k < |Verbs|
  {
    match c
    case Auth(_) => 0
    case User(_) => 1
    case Pass(_) => 2
    case Cwd(_) => 3
    case Pwd => 4
    case Type(_) => 5
    case Pasv => 6
    case List => 7
    case Retr(_) => 8
    case Syst => 9
    case Stor(_) => 10
    case Feat => 11
    case Opts(_) => 12
    case Utf8 => 13
    case Pbsz => 14
    case Rnfr(_) => 15
    case Rnto(_) => 16
  }

  /** The `FromStr` of row `k` applied to the argument: the command, or the
      `Display` text of the parser's error. */
  function ParseArgument(k: nat, args: string): (r: Result<Command, string>)
    requires k < |Verbs|
  {
    if k == 0 then AuthArgument(args)
    else if k == 1 then Success(User(ParseUser(args)))
    else if k == 2 then Success(Pass(ParsePass(args)))
    else if k == 3 then Success(Cwd(ParseCwd(args)))
    else if k == 4 then Success(Pwd)
    else if k == 5 then TypeArgument(args)
    else if k == 6 then Success(Pasv)
    else if k == 7 then Success(List)
    else if k == 8 then Success(Retr(ParseRetr(args)))
    else if k == 9 then Success(Syst)
    else if k == 10 then Success(Stor(ParseStor(args)))
    else if k == 11 then Success(Feat)
    else if k == 12 then Success(Opts(ParseOpts(args)))
    else if k == 13 then Success(Utf8)
    else if k == 14 then Success(Pbsz)
    else if k == 15 then Success(Rnfr(ParseRnfr(args)))
    else Success(Rnto(ParseRnto(args)))
  }

  /** `Auth::from_str`, its error written with `Display`. */
  function AuthArgument(args: string): (r: Result<Command, string>)
    ensures r.Success? ==> r.value.Auth?
  {
    match ParseAuth(args)
    case Success(t) => Success(Auth(t))
    case Failure(e) => Failure(e.Message())
  }

  /** `Type::from_str`, its error passed through. */
  function TypeArgument(args: string): (r: Result<Command, string>)
    ensures r.Success? ==> r.value.Type?
  {
    match ParseType(args)
    case Success(t) => Success(Type(t))
    case Failure(e) => Failure(e)
  }

  /** The first row at or after `k` whose verb equals `verb` ignoring ASCII
      case: the `if` chain the macro unrolls. */
  function MatchVerbFrom(verb: string, k: nat): (r: Option<nat>)
    requires k <= |Verbs|
    ensures r.Some? ==> k <= r.value < |Verbs| && EqIgnoreAsciiCase(verb, Verbs[r.value])
    ensures r.Some? ==> forall j :: k <= j < r.value ==> !EqIgnoreAsciiCase(verb, Verbs[j])
    ensures r.None? ==> forall j :: k <= j < |Verbs| ==> !EqIgnoreAsciiCase(verb, Verbs[j])
    decreases |Verbs| - k
  {
    if k == |Verbs| then None
    else if EqIgnoreAsciiCase(verb, Verbs[k]) then Some(k)
    else MatchVerbFrom(verb, k + 1)
  }

  function MatchVerb(verb: string): Option<nat> {
    MatchVerbFrom(verb, 0)
  }

  /** The first line of `from_str`: the text before the first space and the
      text after it, or the whole line and nothing; both trimmed. */
  function SplitCommand(line: string): (string, string) {
    match SplitOnce(line, ' ')
    case Some((command, params)) => (Trim(command), Trim(params))
    case None => (Trim(line), "")
  }

  /** `Command::from_str`. */
  function ParseCommand(line: string): Result<Command, string> {
    var (verb, args) := SplitCommand(line);
    Dispatch(verb, args)
  }

  /** The table lookup and the argument parse, on the trimmed verb and
      argument. */
  function Dispatch(verb: string, args: string): (r: Result<Command, string>)
    ensures r == Failure(UnknownCommand(verb)) <==> MatchVerb(verb).None?
    ensures r.Success? ==> EqIgnoreAsciiCase(verb, Verbs[Row(r.value)])
  {
    match MatchVerb(verb)
    case None => Failure(UnknownCommand(verb))
    case Some(k) =>
      ParseArgumentRow(k, args);
      match ParseArgument(k, args)
      case Success(c) => Success(c)
      case Failure(e) =>
        var r := Failure(ArgumentError(k, e));
        assert r != Failure(UnknownCommand(verb)) by {
          assert ArgumentError(k, e)[0] != UnknownCommand(verb)[0];
        }
        r
  }

  function UnknownCommand(verb: string): string {
    "unknown command: " + verb
  }

  function ArgumentError(k: nat, e: string): string
    requires k < |Verbs|
  {
    "failed to parse " + Verbs[k] + " command: " + e
  }

  // ---------------------------------------------------------------------
  // Splitting the line
  // ---------------------------------------------------------------------

  /** The verb is the trimmed text before the first space and the argument
      the trimmed text after it. */
  lemma SplitCommandAt(command: string, params: string)
    requires ' ' !in command
    ensures SplitCommand(command + " " + params) == (Trim(command), Trim(params))
  {
    SplitOnceAt(command, ' ', params);
  }

  /** Without a space the whole line, trimmed, is the verb and the argument
      is empty. */
  lemma SplitCommandNoSpace(line: string)
    requires ' ' !in line
    ensures SplitCommand(line) == (Trim(line), "")
  {
  }

  /** A line that starts with a space has an empty verb. */
  lemma SplitCommandLeadingSpace(line: string)
    requires |line| > 0 && line[0] == ' '
    ensures SplitCommand(line).0 == ""
  {
    assert line == [] + " " + line[1..];
    SplitCommandAt([], line[1..]);
    TrimOfTrimmed([]);
  }

  // ---------------------------------------------------------------------
  // The verb table
  // ---------------------------------------------------------------------

  /** No two verbs of the table are equal ignoring ASCII case. */
  lemma VerbsDistinct(i: nat, j: nat)
    requires i < j < |Verbs|
    ensures !EqIgnoreAsciiCase(Verbs[i], Verbs[j])
  {
    VerbsCapitals(i);
    VerbsCapitals(j);
    CapitalsIgnoreCase(Verbs[i], Verbs[j]);
  }

  /** Every verb is written in ASCII capitals and digits. */
  lemma VerbsCapitals(k: nat)
    requires k < |Verbs|
    ensures forall i :: 0 <= i < |Verbs[k]| ==> 'A' <= Verbs[k][i] <= 'Z' || '0' <= Verbs[k][i] <= '9'
  {
  }

  lemma CapitalsIgnoreCase(a: string, b: string)
    requires forall i :: 0 <= i < |a| ==> 'A' <= a[i] <= 'Z' || '0' <= a[i] <= '9'
    requires forall i :: 0 <= i < |b| ==> 'A' <= b[i] <= 'Z' || '0' <= b[i] <= '9'
    ensures EqIgnoreAsciiCase(a, b) <==> a == b
  {
  }

  // ---------------------------------------------------------------------
  // The argument parsers
  // ---------------------------------------------------------------------

  /** Row `k` builds the command of row `k`. */
  lemma ParseArgumentRow(k: nat, args: string)
    requires k < |Verbs|
    ensures ParseArgument(k, args).Success? ==> Row(ParseArgument(k, args).value) == k
  {
  }

  /** AUTH and TYPE are the only rows whose parse can fail, and each fails
      with its own parser's message. */
  lemma OnlyAuthAndTypeFail(k: nat, args: string)
    requires k < |Verbs|
    ensures ParseArgument(k, args).Failure? ==>
      || (k == 0 && ParseArgument(k, args).error == InvalidAuthType.Message())
      || (k == 5 && ParseArgument(k, args).error == InvalidTransferType)
    ensures k == 0 ==> (ParseArgument(k, args).Failure? <==> ParseAuthType(args).Failure?)
    ensures k == 5 ==> (ParseArgument(k, args).Failure? <==> ParseTransferType(args).Failure?)
  {
  }

  /** A unit command takes no argument: whatever follows the verb is
      accepted and dropped. */
  lemma UnitCommandsIgnoreArgument(k: nat, a: string, b: string)
    requires k < |Verbs| && IsUnitVerb(k)
    ensures ParseArgument(k, a).Success?
    ensures ParseArgument(k, a) == ParseArgument(k, b)
  {
  }

  // ---------------------------------------------------------------------
  // Looking the verb up
  // ---------------------------------------------------------------------

  /** Because the verbs are pairwise distinct ignoring case, the lookup
      finds the one row whose verb matches, wherever it sits in the table. */
  lemma MatchVerbUnique(verb: string, k: nat)
    requires k < |Verbs| && EqIgnoreAsciiCase(verb, Verbs[k])
    ensures MatchVerb(verb) == Some(k)
  {
    var m := MatchVerb(verb);
    assert m.Some?;
    if m.value < k {
      EqIgnoreAsciiCaseSymmetric(verb, Verbs[m.value]);
      EqIgnoreAsciiCaseTransitive(Verbs[m.value], verb, Verbs[k]);
      VerbsDistinct(m.value, k);
    }
  }

  /** Verbs that differ only in ASCII case are looked up alike. */
  lemma MatchVerbIgnoresCase(v: string, w: string)
    requires EqIgnoreAsciiCase(v, w)
    ensures MatchVerb(v) == MatchVerb(w)
  {
    EqIgnoreAsciiCaseSymmetric(v, w);
    var m := MatchVerb(v);
    if m.Some? {
      EqIgnoreAsciiCaseTransitive(w, v, Verbs[m.value]);
      MatchVerbUnique(w, m.value);
    }
  }

  /** The verb is recognised exactly when it equals one of the seventeen,
      ignoring ASCII case; otherwise the line is an unknown command that
      names the verb. */
  lemma UnknownVerb(verb: string, args: string)
    ensures Dispatch(verb, args) == Failure(UnknownCommand(verb))
            <==> forall k :: 0 <= k < |Verbs| ==> !EqIgnoreAsciiCase(verb, Verbs[k])
  {
    if MatchVerb(verb).Some? {
      var k := MatchVerb(verb).value;
      assert EqIgnoreAsciiCase(verb, Verbs[k]);
    }
  }

  /** A recognised verb's case does not matter: the parse is the same. */
  lemma DispatchIgnoresCase(v: string, w: string, args: string)
    requires EqIgnoreAsciiCase(v, w)
    requires MatchVerb(v).Some?
    ensures Dispatch(v, args) == Dispatch(w, args)
  {
    MatchVerbIgnoresCase(v, w);
  }

  /** The messages a line with a recognised verb can fail with: the table's
      own spelling of AUTH or TYPE, then that parser's message. */
  lemma ArgumentErrors(verb: string, args: string)
    requires MatchVerb(verb).Some?
    ensures Dispatch(verb, args).Failure? ==>
      || Dispatch(verb, args).error == ArgumentError(0, InvalidAuthType.Message())
      || Dispatch(verb, args).error == ArgumentError(5, InvalidTransferType)
  {
    var k := MatchVerb(verb).value;
    OnlyAuthAndTypeFail(k, args);
  }

  // ---------------------------------------------------------------------
  // Whole lines
  // ---------------------------------------------------------------------

  /** A line with a space: the verb and the argument are the trimmed text
      on either side of the first one. */
  lemma ParseCommandAt(command: string, params: string)
    requires ' ' !in command
    ensures ParseCommand(command + " " + params) == Dispatch(Trim(command), Trim(params))
  {
    SplitCommandAt(command, params);
  }

  /** A line without a space is all verb, with an empty argument. */
  lemma ParseCommandNoSpace(line: string)
    requires ' ' !in line
    ensures ParseCommand(line) == Dispatch(Trim(line), "")
  {
    SplitCommandNoSpace(line);
  }

  /** A line that starts with a space has an empty verb, which no row
      matches. */
  lemma LeadingSpaceIsUnknown(line: string)
    requires |line| > 0 && line[0] == ' '
    ensures ParseCommand(line) == Failure(UnknownCommand(""))
  {
    SplitCommandLeadingSpace(line);
    UnknownVerb("", SplitCommand(line).1);
  }

  // ---------------------------------------------------------------------
  // Writing a command line
  // ---------------------------------------------------------------------

  /** The argument a client writes for a command: the text it holds, the
      code of its type, or nothing. */
  function ArgumentText(c: Command): string {
    match c
    case Auth(t) => if t == Tls then "TLS" else "SSL"
    case User(u) => u
    case Pass(p) => p
    case Cwd(p) => p
    case Type(t) => if t == Ascii then "A" else "I"
    case Retr(f) => f
    case Stor(f) => f
    case Opts(o) => o
    case Rnfr(f) => f
    case Rnto(t) => t
    case _ => ""
  }

  /** The line a client sends for `c`: the table's verb, a space, the
      argument. */
  function FormatCommand(c: Command): string {
    Verbs[Row(c)] + " " + ArgumentText(c)
  }

  /** The commands a line can carry: no text argument has whitespace at an
      end, and the paths of RETR, STOR, RNFR and RNTO hold no backslash. */
  predicate Sendable(c: Command) {
    match c
    case User(u) => IsTrimmed(u)
    case Pass(p) => IsTrimmed(p)
    case Cwd(p) => IsTrimmed(p)
    case Opts(o) => IsTrimmed(o)
    case Retr(f) => IsTrimmed(f) && '\\' !in f
    case Stor(f) => IsTrimmed(f) && '\\' !in f
    case Rnfr(f) => IsTrimmed(f) && '\\' !in f
    case Rnto(t) => IsTrimmed(t) && '\\' !in t
    case _ => true
  }

  /** Every verb is a non-empty word without white space. */
  lemma VerbShape(k: nat)
    requires k < |Verbs|
    ensures |Verbs[k]| > 0 && ' ' !in Verbs[k] && IsTrimmed(Verbs[k])
  {
    VerbsCapitals(k);
  }

  /** The argument of a sendable command reads back as that command. */
  lemma ArgumentRoundTrip(c: Command)
    requires Sendable(c)
    ensures ParseArgument(Row(c), ArgumentText(c)) == Success(c)
  {
    match c {
      case Auth(t) => AuthRoundTrip(t); assert ParseArgument(0, ArgumentText(c)) == Success(c);
      case User(u) => TrimOfTrimmed(u); assert ParseArgument(1, u) == Success(c);
      case Pass(p) => TrimOfTrimmed(p); assert ParseArgument(2, p) == Success(c);
      case Cwd(p) => TrimOfTrimmed(p); assert ParseArgument(3, p) == Success(c);
      case Pwd => assert ParseArgument(4, "") == Success(c);
      case Type(t) => TypeRoundTrip(t); assert ParseArgument(5, ArgumentText(c)) == Success(c);
      case Pasv => assert ParseArgument(6, "") == Success(c);
      case List => assert ParseArgument(7, "") == Success(c);
      case Retr(f) => SlashPathFixes(f); assert ParseArgument(8, f) == Success(c);
      case Syst => assert ParseArgument(9, "") == Success(c);
      case Stor(f) => SlashPathFixes(f); assert ParseArgument(10, f) == Success(c);
      case Feat => assert ParseArgument(11, "") == Success(c);
      case Opts(o) => TrimOfTrimmed(o); assert ParseArgument(12, o) == Success(c);
      case Utf8 => assert ParseArgument(13, "") == Success(c);
      case Pbsz => assert ParseArgument(14, "") == Success(c);
      case Rnfr(f) => SlashPathFixes(f); assert ParseArgument(15, f) == Success(c);
      case Rnto(f) => SlashPathFixes(f); assert ParseArgument(16, f) == Success(c);
    }
  }

  lemma AuthRoundTrip(t: AuthType)
    ensures AuthArgument(ArgumentText(Auth(t))) == Success(Auth(t))
  {
    var w := ArgumentText(Auth(t));
    TrimOfTrimmed(w);
    if t == Tls {
      assert !EqIgnoreAsciiCase(w, "SSL") by { assert AsciiLower(w[0]) != AsciiLower("SSL"[0]); }
    }
  }

  lemma TypeRoundTrip(t: TransferType)
    ensures TypeArgument(ArgumentText(Type(t))) == Success(Type(t))
  {
    var w := ArgumentText(Type(t));
    ParseTrimmed(w);
    TrimIdempotent(w);
    TransferTypeOfIgnoresCase(w);
  }

  /** Reading the line written for a sendable command gives the command
      back. */
  lemma ParseFormatCommand(c: Command)
    requires Sendable(c)
    ensures ParseCommand(FormatCommand(c)) == Success(c)
  {
    var k, a := Row(c), ArgumentText(c);
    VerbShape(k);
    ParseCommandAt(Verbs[k], a);
    TrimOfTrimmed(Verbs[k]);
    ArgumentTextTrimmed(c);
    TrimOfTrimmed(a);
    MatchVerbUnique(Verbs[k], k);
    ArgumentRoundTrip(c);
  }

  lemma ArgumentTextTrimmed(c: Command)
    requires Sendable(c)
    ensures IsTrimmed(ArgumentText(c))
  {
  }

  /** Whatever a line parses to is sendable, and writing it out and reading
      it back gives the same command: the parse is a normal form. */
  lemma ParsedIsSendable(line: string)
    requires ParseCommand(line).Success?
    ensures Sendable(ParseCommand(line).value)
    ensures ParseCommand(FormatCommand(ParseCommand(line).value)) == ParseCommand(line)
  {
    var (verb, args) := SplitCommand(line);
    assert IsTrimmed(args);
    DispatchSendable(verb, args);
    ParseFormatCommand(ParseCommand(line).value);
  }

  lemma DispatchSendable(verb: string, args: string)
    requires IsTrimmed(args)
    ensures Dispatch(verb, args).Success? ==> Sendable(Dispatch(verb, args).value)
  {
    if Dispatch(verb, args).Success? {
      ArgumentSendable(MatchVerb(verb).value, args);
    }
  }

  /** Each parser leaves trimmed text trimmed, and the path parsers leave no
      backslash. */
  lemma ArgumentSendable(k: nat, args: string)
    requires k < |Verbs| && IsTrimmed(args)
    ensures ParseArgument(k, args).Success? ==> Sendable(ParseArgument(k, args).value)
  {
    SlashPathTrimmed(args);
  }

  /** A trimmed verb written in any case, a space, and an argument: the line
      is parsed by row `k`. */
  lemma VerbLine(verb: string, k: nat, params: string)
    requires k < |Verbs| && IsTrimmed(verb) && ' ' !in verb
    requires EqIgnoreAsciiCase(verb, Verbs[k])
    ensures ParseArgument(k, Trim(params)).Success? ==>
              ParseCommand(verb + " " + params) == ParseArgument(k, Trim(params))
    ensures ParseArgument(k, Trim(params)).Failure? ==>
              ParseCommand(verb + " " + params) == Failure(ArgumentError(k, ParseArgument(k, Trim(params)).error))
  {
    ParseCommandAt(verb, params);
    TrimOfTrimmed(verb);
    MatchVerbUnique(verb, k);
  }

  /** `user x` and `USER x` are the same command: on a whole line, a
      recognised verb's case does not matter. */
  lemma LineIgnoresVerbCase(v: string, w: string, params: string)
    requires IsTrimmed(v) && ' ' !in v && IsTrimmed(w) && ' ' !in w
    requires EqIgnoreAsciiCase(v, w) && MatchVerb(v).Some?
    ensures ParseCommand(v + " " + params) == ParseCommand(w + " " + params)
  {
    ParseCommandAt(v, params);
    ParseCommandAt(w, params);
    TrimOfTrimmed(v);
    TrimOfTrimmed(w);
    DispatchIgnoresCase(v, w, Trim(params));
  }

  /** `LIST -la` is `LIST`: a unit verb followed by anything parses to the
      unit command. */
  lemma UnitLineDropsArgument(verb: string, k: nat, params: string)
    requires k < |Verbs| && IsUnitVerb(k) && IsTrimmed(verb) && ' ' !in verb
    requires EqIgnoreAsciiCase(verb, Verbs[k])
    ensures ParseCommand(verb + " " + params) == ParseArgument(k, "")
    ensures ParseCommand(verb + " " + params).Success?
  {
    UnitCommandsIgnoreArgument(k, Trim(params), "");
    VerbLine(verb, k, params);
  }
}
