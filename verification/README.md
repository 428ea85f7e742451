# cftp control connection, modelled in Dafny

cftp is a Rust library for the server side of FTP. An application supplies a
handler (authentication, the working directory, listings, file reads and
writes, renames, passive data connections). cftp drives the control connection
for one client. It reads CR LF-terminated command lines, parses them into
`Command`s, walks the session through the welcome, the loop before login,
`USER`/`PASS`, and the logged-in loop, and writes the numeric replies.

This project models that core as pure functions and proves what it promises:

| file | module | what it models |
|---|---|---|
| `wrappers.dfy` | `Wrappers` | `Option` and `Result` |
| `uint.dfy` | `Uint` | the `u8`, `u16` and `u64` of the Rust code |
| `text.dfy` | `Text` | the `str` operations the parsers use: `trim` (Unicode White_Space), `eq_ignore_ascii_case`, `to_uppercase` on the words compared, `split_once`, `replace`, quote escaping, `{}` and `{:>w}` formatting of numbers |
| `utf8.dfy` | `Utf8` | `String::from_utf8` and the UTF-8 encoding of a `String` |
| `framing.dfy` | `Framing` | the byte-at-a-time CR LF read loop of `Ftp::read`, and line splitting as a client does it |
| `code.rs` → `code.dfy` | `Code` | `Port::p1_p2`, `SimpleReturnCode`, `FtpResponse`, `FtpResponse::code`, `FtpResponse::to_bytes`, `IntoFtpResponse`, and a client's reading of the 227, 257 and 211 replies |
| `command/*.rs` → `arguments.dfy` | `Arguments` | the `FromStr` of every command argument (`AUTH`, `TYPE`, `USER`, `PASS`, `OPTS`, `CWD`, `RETR`, `STOR`, `RNFR`, `RNTO`) |
| `command/mod.rs`, `command/impl_command.rs` → `commands.dfy` | `Commands` | the seventeen-verb table, `Command::from_str`, and the line a client writes for a command |
| `handler.rs` → `handler.dfy` | `Handler` | `PassiveConn` (`new`, `into_inner`, `to_reply`) and the `Display` of `FileListing` |
| `ftp.rs` → `ftp.dfy` | `Ftp` | `Ftp::new_insecure`, `read`, `upgrade_tls`, `passive_conn` and `handle` as a state machine: `Step` serves one read, `Run` serves a whole input, `Handle` adds the welcome |
| `ftp_properties.dfy` | `FtpProperties` | the properties of the session: what each command answers, which handler calls it makes, what state it leaves, and what holds across a whole run |

The session is deterministic. Everything `handle` waits for is an input:
- the bytes the client sends;
- for each step, an `Answers` record holding what the handler, the data-connection factory and the TLS acceptor reply.

A step's result is an `Outcome` with four parts:
- the next `Session`, which holds the phase, the stream's TLS state and the stored factory;
- the replies written on the control connection;
- the handler calls made, with their arguments;
- the lines written on the data connection.

The code departs from RFC 959 (File Transfer Protocol) and RFC 2389 (Feature
negotiation mechanism for FTP) in these ways, and the model follows the code:
- RFC 959 lists 530 (not logged in) among the replies of the commands that need a login. Before login, cftp answers any command other than `AUTH`, `USER` and `OPTS` with 503 (bad sequence of commands), and `handle` returns.
- Section 4.2 of RFC 959 has 500 for an unrecognised command, 501 for a bad argument and 504 for an unsupported argument. After login, cftp answers all three, including an unsupported `TYPE` code, with 502 and the parser's message.
- RFC 959 has 425 when the data connection cannot be opened. A transfer or `LIST` without a data connection is answered with 150 and then 502.
- Section 4.1.3 of RFC 959 says `RNFR` must be immediately followed by `RNTO`. cftp keeps a staged `RNFR` path across the commands that follow it; only `RNTO` or another `RNFR` replaces it.
- The minimum implementation in section 5.1 of RFC 959 includes `QUIT`, `PORT`, `MODE`, `STRU` and `NOOP`. cftp has none of these; it has seventeen verbs in all.
- Section 3.2 of RFC 2389 opens the `FEAT` reply with `211-`, the multi-line form. cftp writes `211 Features:`, its features, and then `211 End`.

Other behaviour of the code worth knowing:
- A wrong password is answered with 530 and ends `handle`.
- The factory stored by `PASV` is never consumed. Later transfers reuse it until the next `PASV` replaces it.
- A blank line, or the end of the input, reads as a disconnect. There is no limit on the length of a line.

## Model

| member | source | states |
|---|---|---|
| `Text.Trim` | crates/cftp/src/command/impl_command.rs:25 | `trim` leaves no Unicode whitespace at either end of its result |
| `Text.TrimIsTrimOf` | crates/cftp/src/command/impl_command.rs:25 | `trim` returns a slice of its input and cuts away only whitespace, on both sides, until a non-whitespace character |
| `Text.TrimOfUnique` | crates/cftp/src/command/impl_command.rs:25 | a string has only one trim, so `TrimIsTrimOf` pins `trim` down completely |
| `Text.TrimOfTrimmed` | crates/cftp/src/command/type.rs:12 | text without whitespace ends is its own trim |
| `Text.TrimIdempotent` | crates/cftp/src/command/type.rs:12 | the second trim in `Type::from_str` and `Auth::from_str` changes nothing |
| `Text.TrimEmptyIffAllWhitespace` | crates/cftp/src/ftp.rs:566 | `trim().is_empty()` holds exactly when every character is whitespace |
| `Text.TrimStartByCuts` | crates/cftp/src/command/impl_command.rs:25 | trimming the start removes exactly a blank prefix, and the rest starts with a non-blank character |
| `Text.TrimEndByCuts` | crates/cftp/src/command/impl_command.rs:25 | trimming the end removes exactly a blank suffix, and the rest ends with a non-blank character |
| `Text.TrimByEmptyIffAllBlank` | crates/cftp/src/ftp.rs:566 | the general trim is empty exactly when every character is blank |
| `Text.EqIgnoreAsciiCaseSymmetric` | crates/cftp/src/command/impl_command.rs:28 | comparing ignoring ASCII case is symmetric |
| `Text.EqIgnoreAsciiCaseTransitive` | crates/cftp/src/command/impl_command.rs:28 | comparing ignoring ASCII case is transitive |
| `Text.UppercaseIsIgnoresAsciiCase` | crates/cftp/src/command/type.rs:27-29 | every mixed-case ASCII spelling of a capital word upper-cases to that word |
| `Text.SplitOnce` | crates/cftp/src/command/impl_command.rs:24 | `split_once` fails exactly when the separator is absent; otherwise the input is the part before, the separator and the part after, and the part before has no separator |
| `Text.SplitOnceAt` | crates/cftp/src/command/impl_command.rs:24 | the split is at the first separator |
| `Text.ReplaceChar` | crates/cftp/src/ftp.rs:270 | one-character `replace` keeps the length and changes exactly the matching characters |
| `Text.EscapeQuotes` | crates/cftp/src/code.rs:92 | escaping never shortens the text and leaves text without quotes unchanged |
| `Text.EscapeQuotesEscapes` | crates/cftp/src/code.rs:106 | every double quote of the escaped text has a backslash before it |
| `Text.UnescapeEscapeQuotes` | crates/cftp/src/code.rs:106 | reading `\"` as `"` undoes the escaping, so no text is lost |
| `Text.EscapedNeverStartsWithQuote` | crates/cftp/src/code.rs:106-107 | an escaped path never starts with an unescaped double quote |
| `Text.Decimal` | crates/cftp/src/code.rs:86 | `{}` of a number writes one or more decimal digits whose value is the number, with no leading zero |
| `Text.DigitRun` | crates/cftp/src/code.rs:86 | the digit run at the start of a text is all digits and is followed by a non-digit |
| `Text.ReadNatDecimal` | crates/cftp/src/code.rs:86 | reading a formatted number back, before a non-digit, gives the number and the rest |
| `Text.PadLeftShape` | crates/cftp/src/handler.rs:186 | `{:>w}` pads with spaces on the left to width `w`, ends with the value, and never cuts a wider value |
| `Utf8.Decode` | crates/cftp/src/ftp.rs:563-564 | valid ASCII bytes decode to a string of the same length |
| `Utf8.EncodeCharDecodes` | crates/cftp/src/ftp.rs:563-564 | the encoding of one character is a well-formed sequence standing for that character |
| `Utf8.DecodeEncode` | crates/cftp/src/ftp.rs:563-564 | `String::from_utf8` accepts the bytes of every string and gives the string back |
| `Utf8.EncodeDecode` | crates/cftp/src/ftp.rs:563-564 | bytes that `String::from_utf8` accepts are exactly the encoding of the string it returns, so it accepts no overlong form, surrogate or value past U+10FFFF |
| `Utf8.EncodeScalar` | crates/cftp/src/ftp.rs:563-564 | each well-formed sequence of one to four bytes is the encoding of the character it stands for |
| `Utf8.DecodeExactlyEncodings` | crates/cftp/src/ftp.rs:563-564 | `String::from_utf8` gives back a string exactly when the bytes are that string's encoding |
| `Utf8.DecodeAscii` | crates/cftp/src/ftp.rs:563-564 | bytes below 0x80 always decode, one character per byte, with the same value |
| `Framing.ReadLoop` | crates/cftp/src/ftp.rs:547-561 | the read loop never consumes more than the input, and a terminated line consumes at least two bytes |
| `Framing.ReadLoopFindsFirstCrlf` | crates/cftp/src/ftp.rs:547-561 | the loop stops at the first CR LF: input is line, CR LF, rest, and the line holds no earlier CR LF; at the end of input it returns everything |
| `Framing.TakeLineOfFramed` | crates/cftp/src/ftp.rs:547-561 | a line without CR, then CR LF, then more input, reads as exactly that line and leaves exactly the rest |
| `Framing.FirstCrlfUnique` | crates/cftp/src/ftp.rs:557-559 | a cut at the first CR LF is the only cut whose line has no CR |
| `Framing.SplitJoinLines` | crates/cftp/src/code.rs:110-121 | CR LF-terminated lines without CR split back into the same lines |
| `Code.P1P2` | crates/cftp/src/code.rs:7-11 | `p1 * 256 + p2` is the port |
| `Code.ValueInjective` | crates/cftp/src/code.rs:16-50 | no two `SimpleReturnCode`s share a number |
| `Code.ReplyCodeReadsBack` | crates/cftp/src/code.rs:73-86 | every reply text starts with the reply's code in decimal, followed by a space |
| `Code.BareReplyText` | crates/cftp/src/code.rs:118-121 | a simple reply without a message, and a 250 without a path, are just the code, a space and CR LF |
| `Code.ToBytes` | crates/cftp/src/code.rs:80-126 | the bytes written decode as UTF-8 to the reply text |
| `Code.ReadNumbers` | crates/cftp/src/code.rs:98-102 | a client reading `k` numbers gets exactly `k` of them |
| `Code.ReadNumbersOf` | crates/cftp/src/code.rs:98-102 | comma-separated octets closed by `)` read back as the same octets |
| `Code.PassiveReplyRoundTrip` | crates/cftp/src/code.rs:95-103 | a client reading a 227 reply gets back the IPv4 address and the port the server announced |
| `Code.ReadQuotedEscaped` | crates/cftp/src/code.rs:105-108 | an escaped path and its closing quote read back as the path, unless the path ends with a backslash |
| `Code.PathReplyRoundTrip` | crates/cftp/src/code.rs:105-108 | a client reading a 257 reply, or a 250 with a path, gets back the code and the path, unless the path ends with a backslash |
| `Code.PathReplyFinalBackslash` | crates/cftp/src/code.rs:105-108 | the exception is real: a 257 reply, or a 250 with a path, whose path ends in a backslash cannot be read back at all, because backslashes are not escaped |
| `Code.ReadQuotedFinalBackslash` | crates/cftp/src/code.rs:105-108 | an escaped path ending in a backslash, with its closing quote, reads as an escaped quote and finds no end when no quote follows |
| `Code.FeaturesLines` | crates/cftp/src/code.rs:110-116 | read line by line, the FEAT reply is `211 Features:`, then one ` feature` line per feature in order, then `211 End` |
| `Code.FeaturesJoined` | crates/cftp/src/code.rs:110-121 | the FEAT reply text is exactly its lines, each followed by CR LF |
| `Code.IntoFtpResponseText` | crates/cftp/src/code.rs:128-148 | on the wire, an error that is `Display + Into<SimpleReturnCode>` is its code, a space and its escaped display text; one that keeps the trait's default method is `451 `; one with its own impl sends the reply that impl chose |
| `Arguments.TransferTypeErrors` | crates/cftp/src/command/type.rs:26-32 | the only `TYPE` error is `invalid transfer type`, and an accepted code is one to six characters once trimmed |
| `Arguments.TypeIsTransferType` | crates/cftp/src/command/type.rs:11-14 | `Type::from_str` trims again and parses the same as `TransferType::from_str` |
| `Arguments.TransferTypeIgnoresCase` | crates/cftp/src/command/type.rs:26-32 | `A`/`ASCII` in any case select ASCII, and `I`/`BINARY` in any case select binary, with surrounding whitespace ignored |
| `Arguments.TransferTypeAscii` | crates/cftp/src/command/type.rs:26-32 | on ASCII text, ASCII is chosen exactly for `A`/`ASCII` and binary exactly for `I`/`BINARY`, in any case |
| `Arguments.TransferTypeOfExamples` | crates/cftp/src/command/type.rs:26-32 | the other RFC 959 codes `E` and `L 8`, and the form `A N`, are refused; dotless `ı` upper-cases to `I` and selects binary |
| `Arguments.UppercaseIsAscii` | crates/cftp/src/command/type.rs:27 | on ASCII text, comparing after `to_uppercase` is comparing ignoring ASCII case |
| `Arguments.AuthTypeAccepts` | crates/cftp/src/command/auth.rs:25-34 | `SSL` and `TLS`, trimmed and in any ASCII case, are the only accepted mechanisms; everything else is `InvalidAuthType` |
| `Arguments.AuthIsAuthType` | crates/cftp/src/command/auth.rs:40-43 | `Auth::from_str` trims again and parses the same as `AuthType::from_str` |
| `Arguments.AuthTypeIgnoresCase` | crates/cftp/src/command/auth.rs:25-34 | arguments whose trims are equal ignoring ASCII case parse alike |
| `Arguments.ParseUser` | crates/cftp/src/command/user.rs:11-15 | the user name has no whitespace at either end |
| `Arguments.ParsePass` | crates/cftp/src/command/pass.rs:11-15 | the password has no whitespace at either end |
| `Arguments.ParseOpts` | crates/cftp/src/command/opts.rs:11-15 | the options text has no whitespace at either end |
| `Arguments.ParseCwd` | crates/cftp/src/command/cwd.rs:11-15 | the `CWD` path has no whitespace at either end |
| `Arguments.TrimmedArguments` | crates/cftp/src/command/user.rs:13 | each of `USER`, `PASS`, `OPTS` and `CWD` keeps exactly the argument with its whitespace ends cut away |
| `Arguments.TrimmedArgumentsIdempotent` | crates/cftp/src/command/cwd.rs:13 | parsing a parsed `USER`, `PASS`, `OPTS` or `CWD` argument again changes nothing |
| `Arguments.SlashPath` | crates/cftp/src/command/retr.rs:13 | the path keeps its length, has no backslash left, and changes exactly the backslashes, into slashes |
| `Arguments.ParseRetr` | crates/cftp/src/command/retr.rs:11-15 | the `RETR` path is the argument with every backslash turned into a slash, and nothing else changed |
| `Arguments.ParseStor` | crates/cftp/src/command/stor.rs:11-15 | the `STOR` path is the argument with every backslash turned into a slash, and nothing else changed |
| `Arguments.ParseRnfr` | crates/cftp/src/command/rnfr.rs:11-15 | the `RNFR` path is the argument with every backslash turned into a slash, and nothing else changed |
| `Arguments.ParseRnto` | crates/cftp/src/command/rnto.rs:11-15 | the `RNTO` path is the argument with every backslash turned into a slash, and nothing else changed |
| `Arguments.SlashPathFixes` | crates/cftp/src/command/retr.rs:13 | a path without backslashes is left alone |
| `Arguments.SlashPathIdempotent` | crates/cftp/src/command/stor.rs:13 | parsing a parsed `RETR`, `STOR`, `RNFR` or `RNTO` path again changes nothing |
| `Arguments.SlashPathTrimmed` | crates/cftp/src/command/rnfr.rs:13 | the backslash rewrite keeps trimmed text trimmed |
| `Arguments.CwdKeepsBackslash` | crates/cftp/src/command/cwd.rs:13 | `CWD` keeps a backslash that `RETR` turns into a slash |
| `Commands.Row` | crates/cftp/src/command/mod.rs:25-43 | every command comes from a row of the seventeen-verb table |
| `Commands.AuthArgument` | crates/cftp/src/command/mod.rs:26 | a successful `AUTH` argument parse yields an `Auth` command |
| `Commands.TypeArgument` | crates/cftp/src/command/mod.rs:31 | a successful `TYPE` argument parse yields a `Type` command |
| `Commands.MatchVerbFrom` | crates/cftp/src/command/impl_command.rs:27-34 | the lookup finds the first row, from a given one on, whose verb equals the text ignoring ASCII case, and finds none only when no later row matches |
| `Commands.Dispatch` | crates/cftp/src/command/impl_command.rs:27-36 | `unknown command` comes exactly when no verb matches; a success comes from a row whose verb matches |
| `Commands.SplitCommandAt` | crates/cftp/src/command/impl_command.rs:24-25 | the verb is the trimmed text before the first space, and the argument is the trimmed text after it |
| `Commands.SplitCommandNoSpace` | crates/cftp/src/command/impl_command.rs:24-25 | without a space, the whole line trimmed is the verb, and the argument is empty |
| `Commands.SplitCommandLeadingSpace` | crates/cftp/src/command/impl_command.rs:24-25 | a line starting with a space has an empty verb |
| `Commands.VerbsDistinct` | crates/cftp/src/command/mod.rs:25-43 | no two verbs of the table are equal ignoring ASCII case |
| `Commands.VerbsCapitals` | crates/cftp/src/command/mod.rs:25-43 | every verb is written in ASCII capitals and digits |
| `Commands.ParseArgumentRow` | crates/cftp/src/command/impl_command.rs:29-32 | row `k`'s argument parser builds the command of row `k` |
| `Commands.OnlyAuthAndTypeFail` | crates/cftp/src/command/impl_command.rs:29-30 | only `AUTH` and `TYPE` arguments can fail to parse, each exactly when its own parser fails, and with its own message |
| `Commands.UnitCommandsIgnoreArgument` | crates/cftp/src/command/impl_command.rs:51-57 | a unit command always parses, whatever its argument |
| `Commands.MatchVerbUnique` | crates/cftp/src/command/impl_command.rs:27-34 | a verb that matches a row ignoring case is looked up as that row |
| `Commands.MatchVerbIgnoresCase` | crates/cftp/src/command/impl_command.rs:28 | verbs differing only in ASCII case are looked up alike |
| `Commands.UnknownVerb` | crates/cftp/src/command/impl_command.rs:36 | the parse fails with `unknown command` exactly when the verb equals none of the seventeen ignoring ASCII case |
| `Commands.DispatchIgnoresCase` | crates/cftp/src/command/impl_command.rs:28 | a recognised verb parses the same in any ASCII case |
| `Commands.ArgumentErrors` | crates/cftp/src/command/impl_command.rs:30 | a line with a known verb fails only with `failed to parse AUTH command: invalid authentication type` or `failed to parse TYPE command: invalid transfer type` |
| `Commands.ParseCommandAt` | crates/cftp/src/command/impl_command.rs:23-37 | a line with a space parses as the trimmed verb before the first space, applied to the trimmed text after it |
| `Commands.ParseCommandNoSpace` | crates/cftp/src/command/impl_command.rs:24 | a line without a space is all verb, with an empty argument |
| `Commands.LeadingSpaceIsUnknown` | crates/cftp/src/command/impl_command.rs:24-36 | a line starting with a space is an unknown command with an empty name |
| `Commands.VerbShape` | crates/cftp/src/command/mod.rs:25-43 | every verb is a non-empty word with no space or whitespace ends |
| `Commands.ArgumentRoundTrip` | crates/cftp/src/command/impl_command.rs:29 | the argument text of a sendable command parses back, in its row, to the command |
| `Commands.AuthRoundTrip` | crates/cftp/src/command/auth.rs:25-43 | the text written for each `AUTH` mechanism parses back to it |
| `Commands.TypeRoundTrip` | crates/cftp/src/command/type.rs:11-32 | the text written for each transfer type parses back to it |
| `Commands.ParseFormatCommand` | crates/cftp/src/command/impl_command.rs:23-37 | the line a client writes for a sendable command, verb and space and argument, parses back to the command |
| `Commands.ArgumentTextTrimmed` | crates/cftp/src/command/impl_command.rs:25 | the argument text of a sendable command has no whitespace ends |
| `Commands.ParsedIsSendable` | crates/cftp/src/command/impl_command.rs:23-37 | whatever a line parses to is sendable, and writing it out and parsing again gives the same command |
| `Commands.DispatchSendable` | crates/cftp/src/command/impl_command.rs:27-33 | a trimmed argument that parses yields a sendable command |
| `Commands.ArgumentSendable` | crates/cftp/src/command/impl_command.rs:29 | each row's parser turns a trimmed argument into a sendable command |
| `Commands.VerbLine` | crates/cftp/src/command/impl_command.rs:23-37 | a verb in any case, a space and an argument parse as that row's argument parser applied to the trimmed argument, and a failure carries the `failed to parse` message |
| `Commands.LineIgnoresVerbCase` | crates/cftp/src/command/impl_command.rs:28 | `user x` and `USER x` are the same command on a whole line |
| `Commands.UnitLineDropsArgument` | crates/cftp/src/command/impl_command.rs:54-56 | `LIST -la` parses as `LIST`: a unit verb followed by anything is the unit command |
| `Handler.IntoInnerOfNew` | crates/cftp/src/handler.rs:77-87 | taking a passive connection apart gives back the factory it was built with |
| `Handler.ToReply` | crates/cftp/src/handler.rs:89-100 | there is no reply exactly for an IPv6 address; an IPv4 address gives a 227 `EnteringPassiveMode` |
| `Handler.ToReplyAnnouncesAddress` | crates/cftp/src/handler.rs:89-100 | a client reading the 227 reply gets the connection's IPv4 octets and its port |
| `Handler.PermissionString` | crates/cftp/src/handler.rs:117-166 | the mode column is ten characters, and the first is `d` for a directory and `-` otherwise |
| `Handler.PermissionStringFlags` | crates/cftp/src/handler.rs:118-166 | position `k + 1` shows the `k`-th letter of `rwxrwxrwx` exactly when permission bit `0o400 >> k` is set, and `-` otherwise |
| `Handler.FlagAt` | crates/cftp/src/handler.rs:121-165 | one position of the mode column shows its letter exactly when its bit is set |
| `Handler.PermissionStringLowBitsOnly` | crates/cftp/src/handler.rs:118-166 | bits above the low nine never change the mode column |
| `Handler.PermissionStringShowsLowBits` | crates/cftp/src/handler.rs:118-166 | two permission words give the same mode column exactly when their low nine bits agree |
| `Handler.LinkColumn` | crates/cftp/src/handler.rs:168 | the link count is always ` 1` |
| `Handler.SizeColumnShape` | crates/cftp/src/handler.rs:186-190 | the size column is at least eight wide, space-padded on the left, and ends with the size in decimal |
| `Handler.SizeColumnReadsBack` | crates/cftp/src/handler.rs:186-190 | the number at the end of the size column reads back as the size |
| `Handler.SpacedParts` | crates/cftp/src/handler.rs:186 | two columns joined by one space can be cut apart again at that space |
| `Handler.ListingLineStart` | crates/cftp/src/handler.rs:184-195 | a listing line starts with the ten-character mode column, a space, the link count ` 1`, a space and the owner, and it ends with the file name |
| `Ftp.ReadCommand` | crates/cftp/src/ftp.rs:544-574 | a read never consumes more input than there is |
| `Ftp.UpgradeTls` | crates/cftp/src/ftp.rs:514-542 | the upgrade succeeds exactly when the stream ends up TLS, and the stream is never left plain |
| `Ftp.OpenData` | crates/cftp/src/ftp.rs:506-511 | a data connection opens only when a factory is stored |
| `FtpProperties.ReadFramedLine` | crates/cftp/src/ftp.rs:544-574 | a line of text without CR, sent with CR LF, reads as a disconnect if blank and otherwise as its parse, and leaves exactly the following bytes |
| `FtpProperties.ReadAtEnd` | crates/cftp/src/ftp.rs:550-552 | at the end of the input a read is a disconnect |
| `FtpProperties.EncodeHasNoCr` | crates/cftp/src/ftp.rs:557 | text without CR has no CR byte in its UTF-8 encoding, so the read loop cannot stop inside it |
| `FtpProperties.InterpretDecodes` | crates/cftp/src/ftp.rs:563-573 | bytes that are not UTF-8 are an I/O error, and valid text is read as a disconnect or its parse |
| `FtpProperties.UpgradeTlsSettles` | crates/cftp/src/ftp.rs:514-542 | a second upgrade never changes what the first left, and after a broken upgrade every upgrade fails with `PreviousFailure` |
| `FtpProperties.UpgradeFromPlain` | crates/cftp/src/ftp.rs:516-529 | a plain stream becomes TLS exactly when an acceptor exists and accepts, and without an acceptor the upgrade fails with `Unconfigured` |
| `FtpProperties.PreAuthCommands` | crates/cftp/src/ftp.rs:140-212 | before login only `AUTH`, `USER` and `OPTS` keep the session going; `OPTS` answers 200 and changes nothing, every other command answers 503 and ends the session, and no handler call is made |
| `FtpProperties.PreAuthReadEnds` | crates/cftp/src/ftp.rs:131-138 | before login a read error ends `handle` with that error and a disconnect ends it with `Ok`, with no reply |
| `FtpProperties.UserBeforeLogin` | crates/cftp/src/ftp.rs:180-197 | `USER` is refused with 530, and the loop goes on, exactly when TLS is compiled in, the stream is not TLS and plaintext is not allowed; otherwise it answers 331 and waits for the password |
| `FtpProperties.InsecureAcceptsUser` | crates/cftp/src/ftp.rs:112-125 | a connection from `new_insecure` always accepts `USER` |
| `FtpProperties.AuthBeforeLogin` | crates/cftp/src/ftp.rs:141-178 | `AUTH TLS` with TLS compiled in and an acceptor answers 234 and upgrades, ending the session exactly when the upgrade fails; every other `AUTH` answers 502 and changes nothing |
| `FtpProperties.PassOutcomes` | crates/cftp/src/ftp.rs:215-240 | after 331 only `PASS` is served: it asks the handler, and then 230 logs in, 530 ends the session, or a handler error ends `handle` with that error; anything else answers 503 and ends the session |
| `FtpProperties.PassIgnoresConfig` | crates/cftp/src/ftp.rs:215-500 | once `USER` is accepted, the TLS configuration plays no part |
| `FtpProperties.LoggedInReadErrors` | crates/cftp/src/ftp.rs:243-261 | after login a parse error answers 502 with its message and the loop goes on; an I/O error or a disconnect ends `handle` with `Ok` and no reply |
| `FtpProperties.LoggedInStays` | crates/cftp/src/ftp.rs:266-500 | no command ends the logged-in loop or changes the stream's TLS state |
| `FtpProperties.AcknowledgedCommands` | crates/cftp/src/ftp.rs:290-294 | `TYPE`, `OPTS`, `UTF8` and `PBSZ` answer 200, while `AUTH`, `USER` and `PASS` answer 503; none changes the session or calls the handler |
| `FtpProperties.CwdReply` | crates/cftp/src/ftp.rs:279-288 | `CWD` hands its path to the handler and answers 200 or 550, as the handler says |
| `FtpProperties.PwdReply` | crates/cftp/src/ftp.rs:267-277 | `PWD` asks for the directory and answers 257 with it in Unix form, or 550 when there is none |
| `FtpProperties.UnixPathReadsBack` | crates/cftp/src/ftp.rs:270-272 | the directory `PWD` shows has its backslashes turned into slashes, keeps every other character, and reads back from the 257 reply |
| `FtpProperties.SystReply` | crates/cftp/src/ftp.rs:368-371 | `SYST` answers 215 with the handler's system name |
| `FtpProperties.RnfrStages` | crates/cftp/src/ftp.rs:458-464 | `RNFR` answers 350 and stages its path, replacing any earlier one |
| `FtpProperties.StagedPathKept` | crates/cftp/src/ftp.rs:266-500 | no command other than `RNFR` and `RNTO` touches the staged path |
| `FtpProperties.RntoOutcomes` | crates/cftp/src/ftp.rs:466-494 | `RNTO` with nothing staged answers 503; otherwise it takes the staged path, renames it and answers 200, or the handler error's reply |
| `FtpProperties.FactoryOnlyFromPasv` | crates/cftp/src/ftp.rs:296-326 | only a `PASV` whose connection has an IPv4 address changes the stored factory, and it stores that connection's factory |
| `FtpProperties.PasvReply` | crates/cftp/src/ftp.rs:296-326 | `PASV` with an IPv4 connection answers 227 with its address and stores its factory; otherwise it answers 502 and keeps the old factory |
| `FtpProperties.TransferReplies` | crates/cftp/src/ftp.rs:373-425 | `RETR` and `STOR` answer 150, then 502 without a data connection, else 226 or 550 as the handler says; they call the handler only once a data connection is open |
| `FtpProperties.ListReplies` | crates/cftp/src/ftp.rs:328-366 | `LIST` answers 150, then 502 without a data connection, 225 when the listing fails, and otherwise one 225 per line that could not be sent and a final 226, with the lines that were written on the data connection |
| `FtpProperties.SendFailuresCount` | crates/cftp/src/ftp.rs:348-360 | the failed lines of a listing get a 225 each, and there are none exactly when every line was sent |
| `FtpProperties.ListingDataLines` | crates/cftp/src/ftp.rs:348-360 | each entry either puts its displayed line, with CR LF, on the data connection or gets one 225, never both; when every write works, the data connection carries one line per entry, in order |
| `FtpProperties.ListingDataAppend` | crates/cftp/src/ftp.rs:348-360 | the entries are served one after another: the data lines and the 225 replies of two runs of entries are those of the first run followed by those of the second |
| `FtpProperties.ListingDataOne` | crates/cftp/src/ftp.rs:348-360 | one entry contributes its line to the data connection when its write works, and a 225 and no line when it fails |
| `FtpProperties.FeatReply` | crates/cftp/src/ftp.rs:427-438 | `FEAT` answers one 211 reply whose features are exactly the handler's plus `UTF8`, `SIZE`, `MDTM`, `MFMT`, `MLST` and `MLSD` |
| `FtpProperties.ExtendIsUnion` | crates/cftp/src/ftp.rs:435 | `extend` is set union, keeping the old elements |
| `FtpProperties.HandleWelcomesFirst` | crates/cftp/src/ftp.rs:127-129 | `handle` first asks the handler for its welcome text, and writes it in a 220 before any other reply |
| `FtpProperties.RunEnds` | crates/cftp/src/ftp.rs:127-504 | every run on a finite input ends: once the input is used up, the next read sees an empty line, which ends every phase |
| `FtpProperties.RunKeepsFactory` | crates/cftp/src/ftp.rs:296-425 | once a passive connection has been stored, the session keeps one to the end |
| `FtpProperties.StepKeepsFactory` | crates/cftp/src/ftp.rs:319 | no step clears the stored factory |
| `FtpProperties.RunKeepsTls` | crates/cftp/src/ftp.rs:514-542 | once the stream is TLS, it stays TLS for the rest of the session |
| `FtpProperties.StepKeepsTls` | crates/cftp/src/ftp.rs:531-534 | no step leaves TLS |

## Left out

- Asynchronous I/O and `tracing`: the model is a pure function from the input bytes and the handler's answers to the outcome; log messages are not modelled.
- Write failures on the control connection: every `write` is taken to succeed, so the `?` after each `write` and the `.ok()?` in `passive_conn` never return early.
- Stream read errors: the only `ReadError::Io` modelled is invalid UTF-8 in a line (`ReadIo`); a socket error while reading is not an input.
- Data-connection I/O: the bytes of `RETR`/`STOR` are the handler's business and appear only as its success or failure; for `LIST` each line carries a flag saying whether its write worked.
- TLS internals (`tls.rs`, the rustls acceptor): an upgrade is an input `acceptOk`, and the stream's state is `Plain`, `Tls` or `UpgradeBroken`.
- `Ftp::new_from_builder`, `builder.rs`, `tcp.rs`, `lib.rs` and the runner crate: they build or host the session and are not part of this model; `Start(implicitTls)` stands for any way a connection starts: plain, or already TLS when TLS is implicit.
- The clock: the month, day and time-or-year columns of a `FileListing` line depend on `Utc::now()` and are an input string per entry.
- The iteration order of a `HashSet`: a `FeatureSet` is a duplicate-free sequence, and `Extend` appends new features in the order given; the order a real `HashSet` iterates in is not modelled.
- `Path::to_string_lossy`: paths are strings, so `UnixPath` only turns backslashes into slashes.
- The handler: its answers are an oracle `nat -> Answers`, indexed by the step; its internal state is not modelled, and a factory is known only by a `nat`.
- `Handler.ListingLineStart`: states the fixed start and the end of a listing line; the middle columns are the group, the size column and the dates, stated column by column by `SizeColumnShape` and `SpacedParts` but not as one index formula.
- `Code.PathReplyRoundTrip`: excludes a path ending in a backslash, because its escaped form followed by the closing quote reads as an escaped quote, so a client cannot find the end of such a path; `Code.PathReplyFinalBackslash` proves that such a reply never reads back.
- `Ftp.ReadCommand`: its own contract only bounds what it consumes; what it reads is stated by `FtpProperties.ReadFramedLine`, `FtpProperties.ReadAtEnd` and `Framing.ReadLoopFindsFirstCrlf`.
- Unicode case mapping: `to_uppercase` is modelled only as far as comparing with `A`, `ASCII`, `I` and `BINARY` needs, that is the characters that upper-case to a single ASCII capital.
