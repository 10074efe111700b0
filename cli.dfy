/** Command dispatch of cmd/cli/root.go: `App.Execute` looks at the first
    argument only, prints the help or the version, hands the remaining
    arguments to the export command, or rejects an unknown command with an
    error naming it in Go's `%q` quoting. */
module Cli {
  import opened Wrappers

  /** The words that select each command. */
  const HelpWords: set<string> := {"help", "-h", "--help"}
  const VersionWords: set<string> := {"version", "-v", "--version"}
  const ExportWord: string := "export"

  /** What `Execute` does: print the help text and return nil, print the
      version text and return nil, return what the export command returns
      for the given arguments, or return an error with the given text. */
  datatype Action = ShowHelp | ShowVersion | RunExport(exportArgs: seq<string>) | Reject(message: string)

  /** The text after the quoted command name in the unknown-command error. */
  const UsageHint: string := "\nRun 'homebox-export help' for usage"

  /** The error for an unknown command. */
  function UnknownCommandMessage(name: string): string {
    "unknown command " + Quote(name) + UsageHint
  }

  /** `App.Execute(args)`: each action is chosen by exactly the first
      arguments described; the export command receives every argument after
      the first, and the error for anything else quotes the first argument. */
  function Execute(args: seq<string>): (a: Action)
    ensures a == ShowHelp <==> args == [] || args[0] in HelpWords
    ensures a == ShowVersion <==> args != [] && args[0] in VersionWords
    ensures a.RunExport? <==> args != [] && args[0] == ExportWord
    ensures a.Reject? <==> args != [] && args[0] !in HelpWords + VersionWords + {ExportWord}
    ensures a.RunExport? ==> a.exportArgs == args[1..]
    ensures a.Reject? ==> a.message == UnknownCommandMessage(args[0])
  {
    if args == [] then ShowHelp
    else if args[0] in HelpWords then ShowHelp
    else if args[0] in VersionWords then ShowVersion
    else if args[0] == ExportWord then RunExport(args[1..])
    else Reject(UnknownCommandMessage(args[0]))
  }

  /** Running without arguments is running `help`. */
  lemma NoArgumentsMeansHelp()
    ensures Execute([]) == Execute(["help"])
  {
  }

  /** Apart from what the export command receives, only the first argument
      matters: trailing arguments of the other commands are ignored. */
  lemma FirstArgumentDecides(a: seq<string>, b: seq<string>)
    requires a != [] && b != [] && a[0] == b[0]
    ensures a[0] != ExportWord ==> Execute(a) == Execute(b)
    ensures a[0] == ExportWord ==> Execute(a) == RunExport(a[1..]) && Execute(b) == RunExport(b[1..])
  {
  }

  /** The error names the command: different unknown commands give
      different errors. */
  lemma UnknownCommandsDistinct(a: string, b: string)
    ensures UnknownCommandMessage(a) == UnknownCommandMessage(b) <==> a == b
  {
    if UnknownCommandMessage(a) == UnknownCommandMessage(b) {
      QuotedNameRecoverable(a);
      QuotedNameRecoverable(b);
    }
  }

  /** The command name can be read back from its error message. */
  lemma QuotedNameRecoverable(name: string)
    ensures var m := UnknownCommandMessage(name);
      var prefix := |"unknown command "|;
      |m| >= prefix + |UsageHint|
      && Unquote(m[prefix..|m| - |UsageHint|]) == Some(name)
  {
    var m := UnknownCommandMessage(name);
    var prefix := |"unknown command "|;
    assert m[prefix..|m| - |UsageHint|] == Quote(name);
    QuoteRoundTrip(name);
  }

  // Go's `%q` verb on a string (`strconv.Quote`): a double-quoted string in
  // which `"` and `\` are escaped and the control characters that have a
  // one-letter escape are written with it.

  /** The letter of a character's one-letter escape, if it has one. */
  function EscapeLetter(c: char): Option<char> {
    if c == '"' then Some('"')
    else if c == '\\' then Some('\\')
    else if c == '\U{7}' then Some('a')
    else if c == '\U{8}' then Some('b')
    else if c == '\U{C}' then Some('f')
    else if c == '\n' then Some('n')
    else if c == '\r' then Some('r')
    else if c == '\t' then Some('t')
    else if c == '\U{B}' then Some('v')
    else None
  }

  /** The character a one-letter escape stands for. */
  function Unescaped(letter: char): Option<char> {
    if letter == '"' then Some('"')
    else if letter == '\\' then Some('\\')
    else if letter == 'a' then Some('\U{7}')
    else if letter == 'b' then Some('\U{8}')
    else if letter == 'f' then Some('\U{C}')
    else if letter == 'n' then Some('\n')
    else if letter == 'r' then Some('\r')
    else if letter == 't' then Some('\t')
    else if letter == 'v' then Some('\U{B}')
    else None
  }

  /** A character as it appears between the quotes. */
  function EscapeChar(c: char): (r: string)
    ensures EscapeLetter(c).Some? ==> r == ['\\', EscapeLetter(c).value] && Unescaped(EscapeLetter(c).value) == Some(c)
    ensures EscapeLetter(c).None? ==> r == [c] && c != '\\' && c != '"'
  {
    match EscapeLetter(c)
    case Some(letter) => ['\\', letter]
    case None => [c]
  }

  function Escape(s: string): string {
    if s == [] then [] else EscapeChar(s[0]) + Escape(s[1..])
  }

  function Quote(s: string): string {
    "\"" + Escape(s) + "\""
  }

  /** The inverse of `Escape`: fails on a bare `"`, on a dangling `\` and on
      an escape letter with no meaning. */
  function Unescape(t: string): Option<string>
    decreases |t|
  {
    if t == [] then Some([])
    else if t[0] == '"' then None
    else if t[0] == '\\' then
      if |t| < 2 then None
      else
        match Unescaped(t[1])
        case None => None
        case Some(c) =>
          match Unescape(t[2..])
          case None => None
          case Some(rest) => Some([c] + rest)
    else
      match Unescape(t[1..])
      case None => None
      case Some(rest) => Some([t[0]] + rest)
  }

  /** `strconv.Unquote` on the strings `Quote` produces. */
  function Unquote(q: string): Option<string> {
    if |q| >= 2 && q[0] == '"' && q[|q| - 1] == '"' then Unescape(q[1..|q| - 1]) else None
  }

  lemma {:induction false} UnescapeEscape(s: string)
    ensures Unescape(Escape(s)) == Some(s)
    decreases |s|
  {
    if s != [] {
      var head := EscapeChar(s[0]);
      var t := Escape(s);
      UnescapeEscape(s[1..]);
      assert t == head + Escape(s[1..]);
      assert [s[0]] + s[1..] == s;
      if EscapeLetter(s[0]).Some? {
        assert t[0] == '\\' && t[1] == EscapeLetter(s[0]).value && t[2..] == Escape(s[1..]);
      } else {
        assert t[0] == s[0] && t[1..] == Escape(s[1..]);
      }
    }
  }

  /** Quoting loses nothing: `Unquote(Quote(s))` gives `s` back. */
  lemma QuoteRoundTrip(s: string)
    ensures Unquote(Quote(s)) == Some(s)
  {
    var q := Quote(s);
    assert q[1..|q| - 1] == Escape(s);
    UnescapeEscape(s);
  }
}
