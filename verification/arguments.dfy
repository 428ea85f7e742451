/** The `FromStr` implementations of the command arguments
    (the files under crates/cftp/src/command). Each receives the argument text that
    `Command::from_str` has already trimmed, and each trims or rewrites it
    once more on its own. Only `TYPE` and `AUTH` can fail; the others are
    `Infallible` and are total functions here. */
module Arguments {
  import opened Wrappers
  import opened Text

  // ---------------------------------------------------------------------
  // TYPE
  // ---------------------------------------------------------------------

  /** `TransferType`: the representation types of section 3.1.1 of RFC 959
      the server accepts. */
  datatype TransferType = Ascii | Binary

  const InvalidTransferType: string := "invalid transfer type"

  /** `TransferType::from_str`: the trimmed text, upper-cased, must be `A` or
      `ASCII` (ASCII type) or `I` or `BINARY` (image type). */
  function ParseTransferType(s: string): Result<TransferType, string> {
    TransferTypeOf(Trim(s))
  }

  /** The `match` on the upper-cased, trimmed text `t`. */
  function TransferTypeOf(t: string): Result<TransferType, string> {
    if UppercaseIs(t, "A") || UppercaseIs(t, "ASCII") then Success(Ascii)
    else if UppercaseIs(t, "I") || UppercaseIs(t, "BINARY") then Success(Binary)
    else Failure(InvalidTransferType)
  }

  /** `Type::from_str`: trims, then defers to `TransferType::from_str`,
      passing its error through. */
  function ParseType(s: string): Result<TransferType, string> {
    ParseTransferType(Trim(s))
  }

  /** The only error is `invalid transfer type`, and only a one- to
      six-character code can succeed. */
  lemma TransferTypeErrors(s: string)
    ensures ParseTransferType(s).Failure? ==> ParseTransferType(s).error == InvalidTransferType
    ensures ParseTransferType(s).Success? ==> 1 <= |Trim(s)| <= 6
  {
    TransferTypeOfErrors(Trim(s));
  }

  lemma TransferTypeOfErrors(t: string)
    ensures TransferTypeOf(t).Failure? ==> TransferTypeOf(t).error == InvalidTransferType
    ensures TransferTypeOf(t).Success? ==> 1 <= |t| <= 6
  {
  }

  /** The second trim of `Type::from_str` changes nothing, so it parses as
      `TransferType::from_str` does, error included. */
  lemma TypeIsTransferType(s: string)
    ensures ParseType(s) == ParseTransferType(s)
  {
    TrimIdempotent(s);
  }

  /** For text in ASCII, the upper-case comparison is the ASCII
      case-insensitive one. */
  lemma UppercaseIsAscii(s: string, w: string)
    requires IsAsciiCapitals(w)
    requires forall i :: 0 <= i < |s| ==> s[i] < '\U{0080}'
    ensures UppercaseIs(s, w) <==> EqIgnoreAsciiCase(s, w)
  {
    if EqIgnoreAsciiCase(s, w) {
      UppercaseIsIgnoresAsciiCase(s, w);
    }
    if UppercaseIs(s, w) {
      forall i | 0 <= i < |s| ensures AsciiLower(s[i]) == AsciiLower(w[i]) {
        assert UpperImage(s[i]) == w[i];
      }
    }
  }

  /** `A` and `ASCII`, in any mix of cases, select the ASCII type; `I` and
      `BINARY` select the image type. */
  lemma TransferTypeIgnoresCase(s: string)
    ensures EqIgnoreAsciiCase(Trim(s), "A") || EqIgnoreAsciiCase(Trim(s), "ASCII")
            ==> ParseTransferType(s) == Success(Ascii)
    ensures EqIgnoreAsciiCase(Trim(s), "I") || EqIgnoreAsciiCase(Trim(s), "BINARY")
            ==> ParseTransferType(s) == Success(Binary)
  {
    TransferTypeOfIgnoresCase(Trim(s));
  }

  lemma TransferTypeOfIgnoresCase(t: string)
    ensures EqIgnoreAsciiCase(t, "A") || EqIgnoreAsciiCase(t, "ASCII") ==> TransferTypeOf(t) == Success(Ascii)
    ensures EqIgnoreAsciiCase(t, "I") || EqIgnoreAsciiCase(t, "BINARY") ==> TransferTypeOf(t) == Success(Binary)
  {
    if EqIgnoreAsciiCase(t, "A") { UppercaseIsIgnoresAsciiCase(t, "A"); }
    if EqIgnoreAsciiCase(t, "ASCII") { UppercaseIsIgnoresAsciiCase(t, "ASCII"); }
    if EqIgnoreAsciiCase(t, "I") {
      UppercaseIsIgnoresAsciiCase(t, "I");
      assert UpperImage(t[0]) == 'I';
      assert !UppercaseIs(t, "A") && !UppercaseIs(t, "ASCII");
    }
    if EqIgnoreAsciiCase(t, "BINARY") {
      UppercaseIsIgnoresAsciiCase(t, "BINARY");
      assert |t| == 6;
      assert !UppercaseIs(t, "A") && !UppercaseIs(t, "ASCII");
    }
  }

  /** On ASCII text the parser accepts exactly the four codes, in any case,
      and rejects everything else. */
  lemma TransferTypeAscii(s: string)
    requires forall i :: 0 <= i < |Trim(s)| ==> Trim(s)[i] < '\U{0080}'
    ensures var t := Trim(s);
      && (ParseTransferType(s) == Success(Ascii)
          <==> EqIgnoreAsciiCase(t, "A") || EqIgnoreAsciiCase(t, "ASCII"))
      && (ParseTransferType(s) == Success(Binary)
          <==> EqIgnoreAsciiCase(t, "I") || EqIgnoreAsciiCase(t, "BINARY"))
  {
    TransferTypeOfAscii(Trim(s));
  }

  lemma TransferTypeOfAscii(t: string)
    requires forall i :: 0 <= i < |t| ==> t[i] < '\U{0080}'
    ensures TransferTypeOf(t) == Success(Ascii) <==> EqIgnoreAsciiCase(t, "A") || EqIgnoreAsciiCase(t, "ASCII")
    ensures TransferTypeOf(t) == Success(Binary) <==> EqIgnoreAsciiCase(t, "I") || EqIgnoreAsciiCase(t, "BINARY")
  {
    UppercaseIsAscii(t, "A");
    UppercaseIsAscii(t, "ASCII");
    if EqIgnoreAsciiCase(t, "I") {
      assert AsciiLower(t[0]) == AsciiLower("I"[0]) == 'i';
      assert AsciiLower("A"[0]) == 'a';
      assert !EqIgnoreAsciiCase(t, "A");
    }
    UppercaseIsAscii(t, "I");
    UppercaseIsAscii(t, "BINARY");
  }

  /** White space around the code and its case do not matter. */
  lemma TransferTypeTrimmedExample()
    ensures ParseTransferType(" binary\t") == Success(Binary)
  {
    TrimSpaces();
    TransferTypeOfExamples();
  }

  /** Other codes of section 3.1.1 of RFC 959 (`E`, `L 8`) and a form
      parameter (`A N`) are refused. Rust's upper-casing also maps the
      dotless `ı` to `I`, so that character selects the image type. */
  lemma TransferTypeOfExamples()
    ensures TransferTypeOf("E") == Failure(InvalidTransferType)
    ensures TransferTypeOf("L 8") == Failure(InvalidTransferType)
    ensures TransferTypeOf("A N") == Failure(InvalidTransferType)
    ensures TransferTypeOf("binary") == Success(Binary)
    ensures TransferTypeOf("\U{0131}") == Success(Binary)
  {
    assert UpperImage("E"[0]) != "A"[0] && UpperImage("E"[0]) != "I"[0];
    assert UpperImage("L 8"[0]) != "A"[0];
    assert UpperImage("A N"[1]) != "ASCII"[1];
    assert UpperImage("A N"[1]) != "BINARY"[1];
    TransferTypeOfIgnoresCase("binary");
    assert UpperImage("\U{0131}"[0]) == "I"[0];
  }

  /** On text with no surrounding white space the parser sees the text
      itself. */
  lemma ParseTrimmed(s: string)
    requires |s| > 0 && !IsWhitespace(s[0]) && !IsWhitespace(s[|s| - 1])
    ensures ParseTransferType(s) == TransferTypeOf(s)
  {
    TrimOfTrimmed(s);
  }

  lemma TrimSpaces()
    ensures Trim(" binary\t") == "binary"
  {
    var s := " binary\t";
    assert s[1..7] == "binary";
    assert AllWhitespace(s[..1]) && AllWhitespace(s[7..]);
    assert TrimOf("binary", s);
    TrimIsTrimOf(s);
    TrimOfUnique(Trim(s), "binary", s);
  }

  // ---------------------------------------------------------------------
  // AUTH
  // ---------------------------------------------------------------------

  /** `AuthType`: the security mechanisms of section 4 of RFC 4217. */
  datatype AuthType = Ssl | Tls

  /** `AuthTypeParseError`, with the text its `Display` writes. */
  datatype AuthTypeParseError = InvalidAuthType
  {
    function Message(): string {
      "invalid authentication type"
    }
  }

  /** `AuthType::from_str`: the trimmed text must equal `SSL` or `TLS`
      ignoring ASCII case. */
  function ParseAuthType(s: string): Result<AuthType, AuthTypeParseError> {
    AuthTypeOf(Trim(s))
  }

  /** The comparisons on the trimmed text `t`. */
  function AuthTypeOf(t: string): Result<AuthType, AuthTypeParseError> {
    if EqIgnoreAsciiCase(t, "SSL") then Success(Ssl)
    else if EqIgnoreAsciiCase(t, "TLS") then Success(Tls)
    else Failure(InvalidAuthType)
  }

  /** `Auth::from_str`: trims, then defers to `AuthType::from_str`. */
  function ParseAuth(s: string): Result<AuthType, AuthTypeParseError> {
    ParseAuthType(Trim(s))
  }

  /** `SSL` and `TLS`, each in any mix of ASCII cases and with any white
      space around it, are the only texts accepted. */
  lemma AuthTypeAccepts(s: string)
    ensures ParseAuthType(s) == Success(Ssl) <==> EqIgnoreAsciiCase(Trim(s), "SSL")
    ensures ParseAuthType(s) == Success(Tls) <==> EqIgnoreAsciiCase(Trim(s), "TLS")
    ensures ParseAuthType(s).Failure? <==>
            !EqIgnoreAsciiCase(Trim(s), "SSL") && !EqIgnoreAsciiCase(Trim(s), "TLS")
  {
    AuthTypeOfAccepts(Trim(s));
  }

  lemma AuthTypeOfAccepts(t: string)
    ensures AuthTypeOf(t) == Success(Ssl) <==> EqIgnoreAsciiCase(t, "SSL")
    ensures AuthTypeOf(t) == Success(Tls) <==> EqIgnoreAsciiCase(t, "TLS")
  {
    if EqIgnoreAsciiCase(t, "TLS") {
      assert AsciiLower(t[0]) == 't';
      assert !EqIgnoreAsciiCase(t, "SSL");
    }
  }

  /** The second trim of `Auth::from_str` changes nothing. */
  lemma AuthIsAuthType(s: string)
    ensures ParseAuth(s) == ParseAuthType(s)
  {
    TrimIdempotent(s);
  }

  /** Only the trimmed text up to ASCII case matters: two arguments that
      agree there parse alike. */
  lemma AuthTypeIgnoresCase(a: string, b: string)
    requires EqIgnoreAsciiCase(Trim(a), Trim(b))
    ensures ParseAuthType(a) == ParseAuthType(b)
  {
    var ta, tb := Trim(a), Trim(b);
    AuthTypeAccepts(a);
    AuthTypeAccepts(b);
    EqIgnoreAsciiCaseSymmetric(ta, tb);
    if EqIgnoreAsciiCase(ta, "SSL") { EqIgnoreAsciiCaseTransitive(tb, ta, "SSL"); }
    if EqIgnoreAsciiCase(tb, "SSL") { EqIgnoreAsciiCaseTransitive(ta, tb, "SSL"); }
    if EqIgnoreAsciiCase(ta, "TLS") { EqIgnoreAsciiCaseTransitive(tb, ta, "TLS"); }
    if EqIgnoreAsciiCase(tb, "TLS") { EqIgnoreAsciiCaseTransitive(ta, tb, "TLS"); }
  }

  // ---------------------------------------------------------------------
  // USER, PASS, OPTS, CWD: the trimmed text
  // ---------------------------------------------------------------------

  /** `User::from_str`: the user name is the argument without whitespace
      at either end; whitespace inside it stays. */
  function ParseUser(s: string): (username: string)
    ensures IsTrimmed(username)
  {
    Trim(s)
  }

  /** `Pass::from_str`: the password, trimmed the same way. */
  function ParsePass(s: string): (password: string)
    ensures IsTrimmed(password)
  {
    Trim(s)
  }

  /** `Opts::from_str`: the options text, trimmed the same way. */
  function ParseOpts(s: string): (options: string)
    ensures IsTrimmed(options)
  {
    Trim(s)
  }

  /** `Cwd::from_str`: the path, trimmed the same way. Backslashes stay. */
  function ParseCwd(s: string): (path: string)
    ensures IsTrimmed(path)
  {
    Trim(s)
  }

  /** Each of the four is the argument with its whitespace ends cut away
      and nothing else: the slice left is contiguous, so whitespace inside
      it stays. */
  lemma TrimmedArguments(s: string)
    ensures TrimOf(ParseUser(s), s)
    ensures TrimOf(ParsePass(s), s)
    ensures TrimOf(ParseOpts(s), s)
    ensures TrimOf(ParseCwd(s), s)
  {
    TrimIsTrimOf(s);
  }

  /** Parsing what a trimming parser produced gives it back. */
  lemma TrimmedArgumentsIdempotent(s: string)
    ensures ParseUser(ParseUser(s)) == ParseUser(s)
    ensures ParsePass(ParsePass(s)) == ParsePass(s)
    ensures ParseOpts(ParseOpts(s)) == ParseOpts(s)
    ensures ParseCwd(ParseCwd(s)) == ParseCwd(s)
  {
    TrimIdempotent(s);
  }

  // ---------------------------------------------------------------------
  // RETR, STOR, RNFR, RNTO: backslashes become slashes
  // ---------------------------------------------------------------------

  /** `s.replace("\\", "/")`: every backslash becomes a slash, nothing else
      changes, and nothing is trimmed. */
  function SlashPath(s: string): (r: string)
    ensures '\\' !in r
    ensures |r| == |s|
    ensures forall i :: 0 <= i < |s| ==> r[i] == if s[i] == '\\' then '/' else s[i]
  {
    ReplaceChar(s, '\\', '/')
  }

  /** `Retr::from_str`. */
  function ParseRetr(s: string): (file: string)
    ensures '\\' !in file && |file| == |s|
    ensures forall i :: 0 <= i < |s| ==> file[i] == if s[i] == '\\' then '/' else s[i]
  {
    SlashPath(s)
  }

  /** `Stor::from_str`. */
  function ParseStor(s: string): (file: string)
    ensures '\\' !in file && |file| == |s|
    ensures forall i :: 0 <= i < |s| ==> file[i] == if s[i] == '\\' then '/' else s[i]
  {
    SlashPath(s)
  }

  /** `Rnfr::from_str`. */
  function ParseRnfr(s: string): (path: string)
    ensures '\\' !in path && |path| == |s|
    ensures forall i :: 0 <= i < |s| ==> path[i] == if s[i] == '\\' then '/' else s[i]
  {
    SlashPath(s)
  }

  /** `Rnto::from_str`. */
  function ParseRnto(s: string): (to: string)
    ensures '\\' !in to && |to| == |s|
    ensures forall i :: 0 <= i < |s| ==> to[i] == if s[i] == '\\' then '/' else s[i]
  {
    SlashPath(s)
  }

  /** A path without backslashes is left alone, so the rewrite is
      idempotent. */
  lemma SlashPathFixes(s: string)
    requires '\\' !in s
    ensures SlashPath(s) == s
  {
  }

  lemma SlashPathIdempotent(s: string)
    ensures ParseRetr(ParseRetr(s)) == ParseRetr(s)
    ensures ParseStor(ParseStor(s)) == ParseStor(s)
    ensures ParseRnfr(ParseRnfr(s)) == ParseRnfr(s)
    ensures ParseRnto(ParseRnto(s)) == ParseRnto(s)
  {
    SlashPathFixes(SlashPath(s));
  }

  /** The rewrite keeps a trimmed path trimmed: neither a backslash nor a
      slash is white space. */
  lemma SlashPathTrimmed(s: string)
    requires IsTrimmed(s)
    ensures IsTrimmed(SlashPath(s))
  {
  }

  /** CWD keeps a backslash that RETR turns into a slash. */
  lemma CwdKeepsBackslash()
    ensures ParseCwd("a\\b") == "a\\b"
    ensures ParseRetr("a\\b") == "a/b"
  {
    assert ParseRetr("a\\b") == "a/b";
    assert Trim("a\\b") == "a\\b" by { TrimOfTrimmed("a\\b"); }
  }
}
