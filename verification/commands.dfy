/** The slash-command parser of the bot: `CommandArg::from_text` and
    `parse_command` from `src/commands.rs`. */
module Commands {
  import opened Base
  import opened Strings

  /** The argument of the get/set commands: absent, the word `none` (clear),
      or a trimmed non-empty value. */
  datatype CommandArg = Empty | None | Text(text: string)

  /** The argument of `/approve`; `chatId` holds a value of Rust's `i64`. */
  datatype ApproveArg = Empty | Invalid | ApproveChat(chatId: int, isAuthorized: bool)

  datatype Command =
    | Ignore
    | Help
    | Start
    | Models
    | Model(arg: CommandArg)
    | Key(arg: CommandArg)
    | SystemPrompt(arg: CommandArg)
    | Approve(approve: ApproveArg)

  /** The only error message the parser produces. */
  const UnknownCommand: string := "Unknown command"

  const I64Min: int := -0x8000_0000_0000_0000
  const I64Max: int := 0x7FFF_FFFF_FFFF_FFFF

  // ---------------------------------------------------------------------
  // CommandArg::from_text

  function FromText(text: Option<string>): (r: CommandArg)
    ensures r.Empty? <==> text.None? || IsBlank(text.value)
    ensures r.None? <==> text.Some? && EqIgnoreAsciiCase(Trim(text.value), "none")
    ensures r.Text? ==> text.Some? && r.text == Trim(text.value) && r.text != []
  {
    match text
    case Some(t) =>
      var trimmed := Trim(t);
      if trimmed == [] then CommandArg.Empty
      else if EqIgnoreAsciiCase(trimmed, "none") then CommandArg.None
      else CommandArg.Text(trimmed)
    case None => CommandArg.Empty
  }

  /** Only the trimmed value matters: surrounding whitespace never changes
      the argument. */
  lemma FromTextIgnoresPadding(t: string)
    ensures FromText(Some(Trim(t))) == FromText(Some(t))
  {
    TrimIdempotent(t);
  }

  /** The text an argument is written as. */
  function ArgText(a: CommandArg): string
  {
    match a
    case Empty => ""
    case None => "none"
    case Text(t) => t
  }

  /** An argument the parser can produce: a `Text` value is trimmed,
      non-empty and not `none`. */
  predicate WellFormedArg(a: CommandArg)
  {
    a.Text? ==> NonEmptyTrimmed(a.text) && !EqIgnoreAsciiCase(a.text, "none")
  }

  /** Writing an argument out and reading it back gives it again. */
  lemma FromTextArgText(a: CommandArg)
    requires WellFormedArg(a)
    ensures FromText(if a.Empty? then Base.None else Some(ArgText(a))) == a
  {
    match a
    case Empty =>
    case None =>
      FromTextNone();
    case Text(t) =>
      TrimOfTrimmed(t);
      assert Trim(t) == t != [];
  }

  lemma FromTextNone()
    ensures FromText(Some("none")) == CommandArg.None
  {
    assert !IsWhitespace('n') && !IsWhitespace('e');
    TrimOfTrimmed("none");
    assert EqIgnoreAsciiCase("none", "none");
  }

  // ---------------------------------------------------------------------
  // Tokenising

  /** `str::trim_start_matches(c)`: drops every leading `c`. */
  function TrimStartMatches(s: string, c: char): (r: string)
    ensures |r| <= |s| && r == s[|s| - |r|..]
    ensures forall i :: 0 <= i < |s| - |r| ==> s[i] == c
    ensures r != [] ==> r[0] != c
  {
    if s != [] && s[0] == c then TrimStartMatches(s[1..], c) else s
  }

  /** The command part up to the first whitespace, and the rest with leading
      whitespace removed; an empty rest counts as no argument. */
  function Tokenize(s: string): (r: (string, Option<string>))
    ensures |r.0| <= |s| && r.0 == s[..|r.0|] && NoWhitespace(r.0)
    ensures r.1.None? <==> AllWhitespace(s[|r.0|..])
    ensures r.1.Some? ==> r.1.value == TrimStart(s[|r.0|..]) && r.1.value != []
    ensures |r.0| < |s| ==> IsWhitespace(s[|r.0|])
  {
    match FindWhitespace(s)
    case Some(idx) =>
      var rest := TrimStart(s[idx..]);
      (s[..idx], if rest == [] then Base.None else Some(rest))
    case None =>
      assert s[..|s|] == s;
      (s, Base.None)
  }

  /** `str::split_once('@')`: the command name, and the bot it is addressed
      to when there is an `@`. */
  function SplitMention(cmdPart: string): (r: (string, Option<string>))
    ensures r.1.None? <==> '@' !in cmdPart
    ensures r.1.None? ==> r.0 == cmdPart
    ensures r.1.Some? ==> cmdPart == r.0 + "@" + r.1.value && '@' !in r.0
  {
    match IndexOf(cmdPart, '@')
    case Some(k) =>
      assert cmdPart == cmdPart[..k] + "@" + cmdPart[k + 1..];
      (cmdPart[..k], Some(cmdPart[k + 1..]))
    case None => (cmdPart, Base.None)
  }

  // ---------------------------------------------------------------------
  // Arguments of /approve

  predicate IsDigit(c: char)
  {
    '0' <= c <= '9'
  }

  predicate AllDigits(s: string)
  {
    forall i :: 0 <= i < |s| ==> IsDigit(s[i])
  }

  function DigitValue(c: char): nat
    requires IsDigit(c)
  {
    c as int - '0' as int
  }

  /** The number a string of decimal digits denotes (leading zeros allowed). */
  function DecimalValue(ds: string): nat
    requires AllDigits(ds)
    decreases |ds|
  {
    if ds == [] then 0 else DecimalValue(ds[..|ds| - 1]) * 10 + DigitValue(ds[|ds| - 1])
  }

  /** `str::parse::<i64>`: one optional `+` or `-`, then at least one ASCII
      digit and nothing else, and a value inside the range of `i64`. */
  function ParseI64(s: string): (r: Option<int>)
    ensures r.Some? ==> I64Min <= r.value <= I64Max
    ensures r.Some? ==> s != [] && (IsDigit(s[0]) || s[0] == '+' || s[0] == '-')
    ensures r.Some? ==> forall i :: 0 < i < |s| ==> IsDigit(s[i])
    ensures s == [] || s == "+" || s == "-" ==> r.None?
  {
    var signed := s != [] && (s[0] == '+' || s[0] == '-');
    var digits := if signed then s[1..] else s;
    if digits == [] || !AllDigits(digits) then Base.None
    else
      var v: int := if signed && s[0] == '-' then -(DecimalValue(digits) as int) else DecimalValue(digits);
      assert forall i :: 0 < i < |s| ==> IsDigit(s[i]) by {
        forall i | 0 < i < |s| ensures IsDigit(s[i]) {
          if signed { assert s[i] == digits[i - 1]; } else { assert s[i] == digits[i]; }
        }
      }
      if I64Min <= v <= I64Max then Some(v) else Base.None
  }

  /** The character of a digit value. */
  function DigitChar(d: nat): (c: char)
    requires d < 10
    ensures IsDigit(c) && DigitValue(c) == d
  {
    ('0' as int + d) as char
  }

  /** The shortest decimal spelling of `n`. */
  function NatToDecimal(n: nat): (r: string)
    ensures r != [] && AllDigits(r)
    ensures r[0] == '0' ==> n == 0
    decreases n
  {
    if n < 10 then [DigitChar(n)] else NatToDecimal(n / 10) + [DigitChar(n % 10)]
  }

  lemma {:induction false} DecimalValueOfNatToDecimal(n: nat)
    ensures DecimalValue(NatToDecimal(n)) == n
    decreases n
  {
    if n >= 10 {
      var s := NatToDecimal(n);
      DecimalValueOfNatToDecimal(n / 10);
      assert s[..|s| - 1] == NatToDecimal(n / 10);
    }
  }

  /** `i64`'s `Display`: a minus sign for negative values, then the digits. */
  function FormatI64(n: int): (r: string)
    ensures r != []
    ensures r[0] == '-' <==> n < 0
  {
    if n < 0 then "-" + NatToDecimal(-n) else NatToDecimal(n)
  }

  /** The value a formatted integer denotes, before the range check. */
  lemma {:induction false} ParseI64OfFormat(n: int)
    ensures var v := if I64Min <= n <= I64Max then Some(n) else Base.None;
      ParseI64(FormatI64(n)) == v
  {
    var ds := NatToDecimal(if n < 0 then -n else n);
    DecimalValueOfNatToDecimal(if n < 0 then -n else n);
    var s := FormatI64(n);
    if n < 0 {
      assert s[1..] == ds;
      assert s[0] == '-';
    } else {
      assert s == ds;
      assert !(s[0] == '+' || s[0] == '-');
    }
  }

  /** Parsing reads back exactly what formatting writes, for every `i64`. */
  lemma ParseFormatI64(n: int)
    requires I64Min <= n <= I64Max
    ensures ParseI64(FormatI64(n)) == Some(n)
  {
    ParseI64OfFormat(n);
  }

  /** The optional sign `str::parse::<i64>` accepts in front of the digits. */
  predicate IsSign(sign: string)
  {
    sign == "" || sign == "+" || sign == "-"
  }

  /** The value a sign and a string of digits denote. */
  function SignedValue(sign: string, ds: string): int
    requires AllDigits(ds)
  {
    if sign == "-" then -(DecimalValue(ds) as int) else DecimalValue(ds)
  }

  /** Every spelling is read: an optional `+` or `-` and any non-empty run
      of digits, leading zeros included, parse to the value they denote
      exactly when it lies in the range of `i64`. With the contract of
      `ParseI64`, which says every accepted text has this shape, this
      decides `ParseI64` on every input. */
  lemma ParseI64Spelled(sign: string, ds: string)
    requires IsSign(sign) && ds != [] && AllDigits(ds)
    ensures var v := SignedValue(sign, ds);
      ParseI64(sign + ds) == if I64Min <= v <= I64Max then Some(v) else Base.None
  {
    var s := sign + ds;
    if sign == "" {
      assert s == ds;
      assert IsDigit(s[0]);
    } else {
      assert s[0] == sign[0];
      assert s[1..] == ds;
    }
  }

  /** A value outside `i64` is rejected, however it is spelt: with either
      sign or none and with any number of leading zeros. */
  lemma ParseI64OutOfRange(sign: string, ds: string)
    requires IsSign(sign) && ds != [] && AllDigits(ds)
    requires SignedValue(sign, ds) < I64Min || SignedValue(sign, ds) > I64Max
    ensures ParseI64(sign + ds) == Base.None
  {
    ParseI64Spelled(sign, ds);
  }

  /** `true`/`1` and `false`/`0`, the words compared after ASCII lowercasing. */
  function ParseBoolFlag(s: string): (r: Option<bool>)
    ensures r == Some(true) <==> EqIgnoreAsciiCase(s, "true") || s == "1"
    ensures r == Some(false) <==> EqIgnoreAsciiCase(s, "false") || s == "0"
  {
    var lower := ToAsciiLowercase(s);
    LowercaseOfDigit(s, '1');
    LowercaseOfDigit(s, '0');
    EqIgnoreAsciiCaseIffSameLowercase(s, "true");
    EqIgnoreAsciiCaseIffSameLowercase(s, "false");
    assert ToAsciiLowercase("true") == "true";
    assert ToAsciiLowercase("false") == "false";
    if lower == "true" || lower == "1" then Some(true)
    else if lower == "false" || lower == "0" then Some(false)
    else Base.None
  }

  /** A digit is lowercase and has no other letter folding onto it. */
  lemma LowercaseOfDigit(s: string, d: char)
    requires IsDigit(d)
    ensures ToAsciiLowercase(s) == [d] <==> s == [d]
  {
    if ToAsciiLowercase(s) == [d] {
      assert AsciiLower(s[0]) == d;
    }
  }

  /** The argument of `/approve` once present: exactly two words, an `i64`
      chat id and an authorisation flag; anything else is `Invalid`. */
  function ParseApprove(args: string): (r: ApproveArg)
    ensures r != ApproveArg.Empty
    ensures r.ApproveChat? <==>
      var ws := SplitWhitespace(args);
      |ws| == 2 && ParseI64(ws[0]).Some? && ParseBoolFlag(ws[1]).Some?
    ensures r.ApproveChat? ==>
      var ws := SplitWhitespace(args);
      |ws| == 2 && Some(r.chatId) == ParseI64(ws[0]) && Some(r.isAuthorized) == ParseBoolFlag(ws[1])
  {
    var ws := SplitWhitespace(args);
    if |ws| != 2 then ApproveArg.Invalid
    else match ParseI64(ws[0])
      case None => ApproveArg.Invalid
      case Some(chatId) =>
        match ParseBoolFlag(ws[1])
        case None => ApproveArg.Invalid
        case Some(flag) => ApproveArg.ApproveChat(chatId, flag)
  }

  // ---------------------------------------------------------------------
  // parse_command

  /** The commands that take no argument. */
  predicate IsBareName(name: string)
  {
    name == "help" || name == "start" || name == "models"
  }

  predicate IsKnownName(name: string)
  {
    IsBareName(name) || name == "model" || name == "key" || name == "systemprompt" || name == "approve"
  }

  /** Selects the command by its lowercased name. */
  function Dispatch(name: string, args: Option<string>): (r: Result<Command, string>)
    ensures r.Err? ==> r.error == UnknownCommand
    ensures r.Err? <==> !IsKnownName(name) || (IsBareName(name) && args.Some?)
    ensures r.Ok? ==> !r.value.Ignore?
    ensures r.Ok? && r.value.Approve? ==> (r.value.approve == ApproveArg.Empty <==> args.None?)
    ensures r.Ok? && (r.value.Model? || r.value.Key? || r.value.SystemPrompt?) ==> r.value.arg == FromText(args)
    ensures name == "help" && args.None? ==> r == Ok(Help)
    ensures name == "start" && args.None? ==> r == Ok(Start)
    ensures name == "models" && args.None? ==> r == Ok(Models)
    ensures name == "model" ==> r == Ok(Model(FromText(args)))
    ensures name == "key" ==> r == Ok(Key(FromText(args)))
    ensures name == "systemprompt" ==> r == Ok(SystemPrompt(FromText(args)))
    ensures name == "approve" ==> r.Ok? && r.value.Approve?
  {
    if name == "help" then (if args.None? then Ok(Help) else Err(UnknownCommand))
    else if name == "start" then (if args.None? then Ok(Start) else Err(UnknownCommand))
    else if name == "models" then (if args.None? then Ok(Models) else Err(UnknownCommand))
    else if name == "model" then Ok(Model(FromText(args)))
    else if name == "key" then Ok(Key(FromText(args)))
    else if name == "systemprompt" then Ok(SystemPrompt(FromText(args)))
    else if name == "approve" then
      (match args
       case None => Ok(Approve(ApproveArg.Empty))
       case Some(a) => Ok(Approve(ParseApprove(a))))
    else Err(UnknownCommand)
  }

  /** Whether the command part names a different bot. */
  predicate ForeignMention(cmdPart: string, botUsername: string)
  {
    var (_, mention) := SplitMention(cmdPart);
    mention.Some? && !EqIgnoreAsciiCase(mention.value, botUsername)
  }

  /** A command part and its argument: ignored when addressed to another
      bot, otherwise dispatched on the ASCII-lowercased name. */
  function Interpret(cmdPart: string, args: Option<string>, botUsername: string): (r: Result<Command, string>)
    ensures r == Ok(Ignore) <==> ForeignMention(cmdPart, botUsername)
    ensures !ForeignMention(cmdPart, botUsername) ==>
      r == Dispatch(ToAsciiLowercase(SplitMention(cmdPart).0), args)
  {
    var (name, mention) := SplitMention(cmdPart);
    if mention.Some? && !EqIgnoreAsciiCase(mention.value, botUsername) then Ok(Ignore)
    else Dispatch(ToAsciiLowercase(name), args)
  }

  predicate StartsWithSlash(s: string)
  {
    s != [] && s[0] == '/'
  }

  /** The command part and argument of a message, once trimmed and stripped
      of its leading slashes. */
  function CommandParts(text: string): (string, Option<string>)
  {
    Tokenize(TrimStartMatches(Trim(text), '/'))
  }

  /** `parse_command`: total, and every error is `Unknown command`. */
  function ParseCommand(text: string, botUsername: string): (r: Result<Command, string>)
    ensures r.Err? ==> r.error == UnknownCommand
    ensures !StartsWithSlash(Trim(text)) ==> r == Err(UnknownCommand)
    ensures StartsWithSlash(Trim(text)) ==>
      (r == Ok(Ignore) <==> ForeignMention(CommandParts(text).0, botUsername))
  {
    var trimmed := Trim(text);
    if !StartsWithSlash(trimmed) then Err(UnknownCommand)
    else
      var (cmdPart, args) := Tokenize(TrimStartMatches(trimmed, '/'));
      Interpret(cmdPart, args, botUsername)
  }

  // ---------------------------------------------------------------------
  // Properties of parse_command

  /** Only the trimmed message matters. */
  lemma ParseCommandIgnoresPadding(text: string, botUsername: string)
    ensures ParseCommand(Trim(text), botUsername) == ParseCommand(text, botUsername)
  {
    TrimIdempotent(text);
  }

  /** Any number of leading slashes reads as one. */
  lemma ParseCommandExtraSlash(text: string, botUsername: string)
    requires Trim(text) == text && StartsWithSlash(text)
    ensures ParseCommand("/" + text, botUsername) == ParseCommand(text, botUsername)
  {
    SlashedTrimmed(text);
    SlashedStripped(text);
    ParseCommandOfStripped("/" + text, text, botUsername);
  }

  lemma SlashedTrimmed(text: string)
    requires Trim(text) == text && StartsWithSlash(text)
    ensures Trim("/" + text) == "/" + text
  {
    assert "/" + text == [text[0]] + text;
    TrimOfConsTrimmed(text[0], text);
  }

  lemma SlashedStripped(text: string)
    requires StartsWithSlash(text)
    ensures TrimStartMatches("/" + text, '/') == TrimStartMatches(text, '/')
  {
    assert "/" + text == [text[0]] + text;
    TrimStartMatchesCons(text[0], text);
  }

  /** Two trimmed messages that start with a slash and agree once their
      leading slashes are stripped parse alike. */
  lemma ParseCommandOfStripped(a: string, b: string, botUsername: string)
    requires Trim(a) == a && Trim(b) == b && StartsWithSlash(a) && StartsWithSlash(b)
    requires TrimStartMatches(a, '/') == TrimStartMatches(b, '/')
    ensures ParseCommand(a, botUsername) == ParseCommand(b, botUsername)
  {
  }

  lemma TrimStartMatchesCons(c: char, s: string)
    ensures TrimStartMatches([c] + s, c) == TrimStartMatches(s, c)
  {
    assert ([c] + s)[1..] == s;
  }

  lemma TrimOfConsTrimmed(c: char, s: string)
    requires !IsWhitespace(c) && s != [] && Trim(s) == s
    ensures Trim([c] + s) == [c] + s
  {
    var t := [c] + s;
    assert t[|t| - 1] == s[|s| - 1];
    TrimOfTrimmed(t);
  }

  /** `'@'` is not a letter, so ASCII folding keeps it where it is. */
  lemma IndexOfAtIgnoresCase(a: string, b: string)
    requires EqIgnoreAsciiCase(a, b)
    ensures IndexOf(a, '@') == IndexOf(b, '@')
    decreases |a|
  {
    if a != [] {
      assert AsciiLower(a[0]) == AsciiLower(b[0]);
      assert a[0] == '@' <==> b[0] == '@';
      IndexOfAtIgnoresCase(a[1..], b[1..]);
    }
  }

  lemma EqIgnoreAsciiCaseSlices(a: string, b: string, i: nat, j: nat)
    requires EqIgnoreAsciiCase(a, b) && i <= j <= |a|
    ensures EqIgnoreAsciiCase(a[i..j], b[i..j])
  {
    assert forall k :: 0 <= k < j - i ==> a[i..j][k] == a[i + k] && b[i..j][k] == b[i + k];
  }

  lemma EqIgnoreAsciiCaseTrans(a: string, b: string, c: string)
    requires EqIgnoreAsciiCase(a, b)
    ensures EqIgnoreAsciiCase(a, c) <==> EqIgnoreAsciiCase(b, c)
  {
    EqIgnoreAsciiCaseIffSameLowercase(a, b);
    EqIgnoreAsciiCaseIffSameLowercase(a, c);
    EqIgnoreAsciiCaseIffSameLowercase(b, c);
  }

  /** Command names, and the bot names they mention, match regardless of
      ASCII case. */
  lemma InterpretIgnoresCase(cmd1: string, cmd2: string, args: Option<string>, botUsername: string)
    requires EqIgnoreAsciiCase(cmd1, cmd2)
    ensures Interpret(cmd1, args, botUsername) == Interpret(cmd2, args, botUsername)
  {
    IndexOfAtIgnoresCase(cmd1, cmd2);
    var (n1, m1) := SplitMention(cmd1);
    var (n2, m2) := SplitMention(cmd2);
    match IndexOf(cmd1, '@')
    case None =>
      EqIgnoreAsciiCaseIffSameLowercase(cmd1, cmd2);
    case Some(k) =>
      EqIgnoreAsciiCaseSlices(cmd1, cmd2, 0, k);
      EqIgnoreAsciiCaseSlices(cmd1, cmd2, k + 1, |cmd1|);
      EqIgnoreAsciiCaseIffSameLowercase(n1, n2);
      EqIgnoreAsciiCaseTrans(m1.value, m2.value, botUsername);
  }

  /** The same message with the command name in another ASCII case parses
      the same way. */
  lemma ParseCommandIgnoresCase(name1: string, name2: string, rest: string, botUsername: string)
    requires EqIgnoreAsciiCase(name1, name2) && IsWord(name1) && name1[0] != '/' && name2[0] != '/'
    requires rest == [] || (IsWhitespace(rest[0]) && !IsWhitespace(rest[|rest| - 1]))
    ensures ParseCommand("/" + name1 + rest, botUsername) == ParseCommand("/" + name2 + rest, botUsername)
  {
    assert NoWhitespace(name2) by {
      forall i | 0 <= i < |name2| ensures !IsWhitespace(name2[i]) {
        assert AsciiLower(name1[i]) == AsciiLower(name2[i]);
      }
    }
    ParseWritten(name1, rest, botUsername);
    ParseWritten(name2, rest, botUsername);
    InterpretIgnoresCase(name1, name2, WrittenArgs(rest), botUsername);
  }

  /** The argument the parser reads from what follows the command part. */
  function WrittenArgs(rest: string): Option<string>
  {
    if AllWhitespace(rest) then Base.None else Some(TrimStart(rest))
  }

  /** A message written as `/`, a command part, and optionally whitespace
      and an argument: the parser reads back that command part, and the
      argument with its leading whitespace dropped. */
  lemma ParseWritten(cmdPart: string, rest: string, botUsername: string)
    requires IsWord(cmdPart) && cmdPart[0] != '/'
    requires rest == [] || (IsWhitespace(rest[0]) && !IsWhitespace(rest[|rest| - 1]))
    ensures ParseCommand("/" + cmdPart + rest, botUsername) == Interpret(cmdPart, WrittenArgs(rest), botUsername)
  {
    var text := "/" + cmdPart + rest;
    WrittenTrimmed(cmdPart, rest);
    WrittenStripped(cmdPart, rest);
    TokenizeWritten(cmdPart, rest);
    assert StartsWithSlash(text);
  }

  lemma WrittenTrimmed(cmdPart: string, rest: string)
    requires IsWord(cmdPart)
    requires rest == [] || (IsWhitespace(rest[0]) && !IsWhitespace(rest[|rest| - 1]))
    ensures Trim("/" + cmdPart + rest) == "/" + cmdPart + rest
  {
    var text := "/" + cmdPart + rest;
    assert text[0] == '/' && !IsWhitespace('/');
    assert text[|text| - 1] == if rest == [] then cmdPart[|cmdPart| - 1] else rest[|rest| - 1];
    TrimOfTrimmed(text);
  }

  lemma WrittenStripped(cmdPart: string, rest: string)
    requires cmdPart != [] && cmdPart[0] != '/'
    ensures TrimStartMatches("/" + cmdPart + rest, '/') == cmdPart + rest
  {
    var text := "/" + cmdPart + rest;
    DropSingle("/", cmdPart, rest);
    assert text[0] == '/';
    assert (cmdPart + rest)[0] == cmdPart[0];
  }

  /** The command part is the word before the first whitespace. */
  lemma TokenizeWritten(cmdPart: string, rest: string)
    requires IsWord(cmdPart) && (rest == [] || IsWhitespace(rest[0]))
    ensures Tokenize(cmdPart + rest) == (cmdPart, WrittenArgs(rest))
  {
    var s := cmdPart + rest;
    TrimStartEmpty(rest);
    if rest == [] {
      assert s == cmdPart;
    } else {
      FindWhitespaceAfterWord(cmdPart, rest);
      assert s[..|cmdPart|] == cmdPart && s[|cmdPart|..] == rest;
    }
  }

  /** A message naming a command and no argument. */
  lemma ParseBareMessage(cmdPart: string, botUsername: string)
    requires IsWord(cmdPart) && cmdPart[0] != '/'
    ensures ParseCommand("/" + cmdPart, botUsername) == Interpret(cmdPart, Base.None, botUsername)
  {
    assert "/" + cmdPart + [] == "/" + cmdPart;
    ParseWritten(cmdPart, [], botUsername);
  }

  /** A message naming a command, then one space and a trimmed argument. */
  lemma ParseMessageWithArgument(cmdPart: string, arg: string, botUsername: string)
    requires IsWord(cmdPart) && cmdPart[0] != '/'
    requires NonEmptyTrimmed(arg)
    ensures ParseCommand("/" + cmdPart + " " + arg, botUsername) == Interpret(cmdPart, Some(arg), botUsername)
  {
    var rest := " " + arg;
    assert "/" + cmdPart + " " + arg == "/" + cmdPart + rest;
    assert rest[|rest| - 1] == arg[|arg| - 1];
    assert rest[1..] == arg;
    TrimStartOfWordStart(arg);
    assert TrimStart(rest) == arg;
    ParseWritten(cmdPart, rest, botUsername);
  }

  /** A command addressed to another bot is ignored whatever its name;
      addressed to this bot (in any ASCII case) it is read as if there were
      no mention. */
  lemma InterpretMention(name: string, mention: string, args: Option<string>, botUsername: string)
    requires '@' !in name
    ensures EqIgnoreAsciiCase(mention, botUsername) ==>
      Interpret(name + "@" + mention, args, botUsername) == Interpret(name, args, botUsername)
    ensures !EqIgnoreAsciiCase(mention, botUsername) ==>
      Interpret(name + "@" + mention, args, botUsername) == Ok(Ignore)
  {
    var c := name + "@" + mention;
    assert c[|name|] == '@' && c[..|name|] == name && c[|name| + 1..] == mention;
    assert IndexOf(c, '@') == Some(|name|);
  }

  /** `help`, `start` and `models` take no argument: one is an error. */
  lemma BareCommandRejectsArgument(name: string, arg: string, botUsername: string)
    requires IsBareName(name)
    requires NonEmptyTrimmed(arg)
    ensures ParseCommand("/" + name + " " + arg, botUsername) == Err(UnknownCommand)
  {
    LowercaseName(name);
    ParseMessageWithArgument(name, arg, botUsername);
  }

  /** A non-empty run of the letters `a` to `z`. */
  predicate IsLowerWord(s: string)
  {
    s != [] && forall i :: 0 <= i < |s| ==> 'a' <= s[i] <= 'z'
  }

  lemma LowerWordFacts(s: string)
    requires IsLowerWord(s)
    ensures ToAsciiLowercase(s) == s && IsWord(s) && s[0] != '/' && '@' !in s
  {
    assert forall i :: 0 <= i < |s| ==> ToAsciiLowercase(s)[i] == s[i];
  }

  /** The command names are already lowercase words. */
  lemma LowercaseName(name: string)
    requires IsKnownName(name)
    ensures ToAsciiLowercase(name) == name && IsWord(name) && name[0] != '/' && '@' !in name
  {
    assert IsLowerWord(name);
    LowerWordFacts(name);
  }

  // ---------------------------------------------------------------------
  // Writing commands out

  /** The canonical message for each command the parser can produce. The
      slash, the command name and the argument are written as separate
      pieces so that proofs can take the name apart from the message.
      `Ignore` is never produced for this bot's own messages
      (`WellFormedCommand` excludes it); its message is a placeholder that
      nothing relies on. */
  function Render(c: Command): string
  {
    match c
    case Ignore => "/ignore@"
    case Help => "/" + "help"
    case Start => "/" + "start"
    case Models => "/" + "models"
    case Model(a) => "/" + "model" + RenderArg(a)
    case Key(a) => "/" + "key" + RenderArg(a)
    case SystemPrompt(a) => "/" + "systemprompt" + RenderArg(a)
    case Approve(Empty) => "/" + "approve"
    case Approve(Invalid) => "/" + "approve" + " " + "invalid"
    case Approve(ApproveChat(id, flag)) => "/" + "approve" + " " + RenderApproval(id, flag)
  }

  function RenderArg(a: CommandArg): string
  {
    if a.Empty? then "" else " " + ArgText(a)
  }

  function RenderFlag(flag: bool): string
  {
    if flag then "true" else "false"
  }

  function RenderApproval(id: int, flag: bool): string
  {
    Join([FormatI64(id), RenderFlag(flag)], " ")
  }

  /** The commands a message can produce for this bot. */
  predicate WellFormedCommand(c: Command)
  {
    match c
    case Ignore => false
    case Model(a) => WellFormedArg(a)
    case Key(a) => WellFormedArg(a)
    case SystemPrompt(a) => WellFormedArg(a)
    case Approve(ApproveChat(id, _)) => I64Min <= id <= I64Max
    case _ => true
  }

  /** The chat id and flag written by `RenderApproval` parse back. */
  lemma ParseApproveRendered(id: int, flag: bool)
    requires I64Min <= id <= I64Max
    ensures ParseApprove(RenderApproval(id, flag)) == ApproveChat(id, flag)
  {
    var w, f := FormatI64(id), RenderFlag(flag);
    FormatI64IsWord(id);
    RenderFlagParses(flag);
    assert AllWords([w, f]);
    SplitWhitespaceJoin([w, f]);
    ParseFormatI64(id);
  }

  lemma FormatI64IsWord(id: int)
    requires I64Min <= id <= I64Max
    ensures IsWord(FormatI64(id))
  {
    var w := FormatI64(id);
    var n := if id < 0 then -id else id;
    assert AllDigits(NatToDecimal(n));
    forall i | 0 <= i < |w| ensures !IsWhitespace(w[i]) {
      if id < 0 && i > 0 { assert w[i] == NatToDecimal(n)[i - 1]; }
    }
  }

  lemma RenderFlagParses(flag: bool)
    ensures IsWord(RenderFlag(flag)) && ParseBoolFlag(RenderFlag(flag)) == Some(flag)
  {
    assert EqIgnoreAsciiCase(RenderFlag(flag), RenderFlag(flag));
  }

  /** A known command name followed by one space and a trimmed argument. */
  lemma ParseKnownWithArgument(name: string, arg: string, botUsername: string)
    requires IsKnownName(name)
    requires NonEmptyTrimmed(arg)
    ensures ParseCommand("/" + name + " " + arg, botUsername) == Dispatch(name, Some(arg))
  {
    LowercaseName(name);
    ParseMessageWithArgument(name, arg, botUsername);
  }

  /** A known command name alone. */
  lemma ParseKnownBare(name: string, botUsername: string)
    requires IsKnownName(name)
    ensures ParseCommand("/" + name, botUsername) == Dispatch(name, Base.None)
  {
    LowercaseName(name);
    ParseBareMessage(name, botUsername);
  }

  lemma ParseRenderedArg(name: string, a: CommandArg, botUsername: string)
    requires name == "model" || name == "key" || name == "systemprompt"
    requires WellFormedArg(a)
    ensures ParseCommand("/" + name + RenderArg(a), botUsername) == Dispatch(name, if a.Empty? then Base.None else Some(ArgText(a)))
  {
    if a.Empty? {
      assert "/" + name + RenderArg(a) == "/" + name;
      ParseKnownBare(name, botUsername);
    } else {
      assert "/" + name + RenderArg(a) == "/" + name + " " + ArgText(a);
      ParseKnownWithArgument(name, ArgText(a), botUsername);
    }
  }

  lemma ParseRenderedApproval(id: int, flag: bool, botUsername: string)
    requires I64Min <= id <= I64Max
    ensures ParseCommand("/" + "approve" + " " + RenderApproval(id, flag), botUsername) == Ok(Approve(ApproveChat(id, flag)))
  {
    var r := RenderApproval(id, flag);
    assert NonEmptyTrimmed(r) by {
      JoinHead([FormatI64(id), RenderFlag(flag)], " ");
      assert r == FormatI64(id) + " " + RenderFlag(flag);
      assert r[|r| - 1] == 'e';
    }
    ParseKnownWithArgument("approve", r, botUsername);
    DispatchApprove(r);
    ParseApproveRendered(id, flag);
  }

  /** `approve` with an argument hands it to `ParseApprove`. */
  lemma DispatchApprove(args: string)
    ensures Dispatch("approve", Some(args)) == Ok(Approve(ParseApprove(args)))
  {
  }

  lemma DispatchArg(c: Command, name: string, args: Option<string>)
    requires c.Model? || c.Key? || c.SystemPrompt?
    requires name == if c.Model? then "model" else if c.Key? then "key" else "systemprompt"
    requires c.arg == FromText(args)
    ensures Dispatch(name, args) == Ok(c)
  {
  }

  lemma ParseRenderedInvalid(botUsername: string)
    ensures ParseCommand(Render(Approve(Invalid)), botUsername) == Ok(Approve(Invalid))
  {
    DispatchInvalid();
    RenderInvalid();
    ParseRenderWord(Approve(Invalid), "approve", "invalid", botUsername);
  }

  lemma RenderInvalid()
    ensures IsKnownName("approve")
    ensures Render(Approve(Invalid)) == "/" + "approve" + " " + "invalid"
  {
  }

  lemma DispatchInvalid()
    ensures Dispatch("approve", Some("invalid")) == Ok(Approve(Invalid))
    ensures NonEmptyTrimmed("invalid")
  {
    InvalidIsWord();
    DispatchApprove("invalid");
  }

  /** A command rendered as a known name, a space and a trimmed argument. */
  lemma ParseRenderWord(c: Command, name: string, arg: string, botUsername: string)
    requires IsKnownName(name) && NonEmptyTrimmed(arg)
    requires Render(c) == "/" + name + " " + arg && Dispatch(name, Some(arg)) == Ok(c)
    ensures ParseCommand(Render(c), botUsername) == Ok(c)
  {
    ParseKnownWithArgument(name, arg, botUsername);
  }

  lemma InvalidIsWord()
    ensures IsWord("invalid") && SplitWhitespace("invalid") == ["invalid"]
  {
    assert IsLowerWord("invalid");
    LowerWordFacts("invalid");
    SplitWhitespaceWord("invalid");
  }

  lemma ParseRenderBare(c: Command, botUsername: string)
    requires c.Help? || c.Start? || c.Models? || c == Approve(ApproveArg.Empty)
    ensures ParseCommand(Render(c), botUsername) == Ok(c)
  {
    match c
    case Help => ParseRenderNamed(Help, "help", botUsername);
    case Start => ParseRenderNamed(Start, "start", botUsername);
    case Models => ParseRenderNamed(Models, "models", botUsername);
    case Approve(_) => ParseRenderNamed(Approve(ApproveArg.Empty), "approve", botUsername);
  }

  /** A command rendered as its bare name. */
  lemma ParseRenderNamed(c: Command, name: string, botUsername: string)
    requires IsKnownName(name) && Render(c) == "/" + name && Dispatch(name, Base.None) == Ok(c)
    ensures ParseCommand(Render(c), botUsername) == Ok(c)
  {
    ParseKnownBare(name, botUsername);
  }

  lemma ParseRenderWithArg(c: Command, botUsername: string)
    requires c.Model? || c.Key? || c.SystemPrompt?
    requires WellFormedArg(c.arg)
    ensures ParseCommand(Render(c), botUsername) == Ok(c)
  {
    match c
    case Model(_) => ParseRenderArgNamed(c, "model", botUsername);
    case Key(_) => ParseRenderArgNamed(c, "key", botUsername);
    case SystemPrompt(_) => ParseRenderArgNamed(c, "systemprompt", botUsername);
  }

  /** A command rendered as its name and its optional argument. */
  lemma ParseRenderArgNamed(c: Command, name: string, botUsername: string)
    requires c.Model? || c.Key? || c.SystemPrompt?
    requires name == if c.Model? then "model" else if c.Key? then "key" else "systemprompt"
    requires Render(c) == "/" + name + RenderArg(c.arg)
    requires WellFormedArg(c.arg)
    ensures ParseCommand(Render(c), botUsername) == Ok(c)
  {
    var args := if c.arg.Empty? then Base.None else Some(ArgText(c.arg));
    ParseRenderedArg(name, c.arg, botUsername);
    FromTextArgText(c.arg);
    DispatchArg(c, name, args);
  }

  /** Every command the parser can produce is read back from its canonical
      message. */
  lemma ParseRender(c: Command, botUsername: string)
    requires WellFormedCommand(c)
    ensures ParseCommand(Render(c), botUsername) == Ok(c)
  {
    if c.Model? || c.Key? || c.SystemPrompt? {
      ParseRenderWithArg(c, botUsername);
    } else if c.Approve? && c.approve.Invalid? {
      ParseRenderedInvalid(botUsername);
    } else if c.Approve? && c.approve.ApproveChat? {
      ParseRenderedApproval(c.approve.chatId, c.approve.isAuthorized, botUsername);
    } else {
      ParseRenderBare(c, botUsername);
    }
  }
}
