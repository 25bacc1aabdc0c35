/** Building the `sudo` command line shown to the user (src/cli_app.rs), and reading it back the way
    a shell does: sections 2.2.1, 2.2.2, 2.2.3 and 2.3 of the POSIX.1-2017 Shell Command Language. */
module ShellCommand {
  import opened Basics

  // ---------- quoting ----------

  predicate IsAlphanumeric(c: char) {
    'a' <= c <= 'z' || 'A' <= c <= 'Z' || '0' <= c <= '9'
  }

  predicate IsSafe(c: char) {
    IsAlphanumeric(c) || c in "/._-:@%+"
  }

  /** Every single quote becomes: close quote, escaped quote, open quote. */
  function EscapeQuotes(value: string): string {
    if value == "" then ""
    else (if value[0] == '\'' then "'\\''" else [value[0]]) + EscapeQuotes(value[1..])
  }

  function ShellQuote(value: string): string {
    if value == "" then "''"
    else if forall i :: 0 <= i < |value| ==> IsSafe(value[i]) then value
    else "'" + EscapeQuotes(value) + "'"
  }

  /** Characters that need no quoting. */
  predicate NeedsNoQuotes(c: char) {
    'a' <= c <= 'z' || 'A' <= c <= 'Z' || '0' <= c <= '9' || c in "/._-:@%+"
  }

  ghost predicate PrintsBare(value: string) {
    value != "" && forall i :: 0 <= i < |value| ==> NeedsNoQuotes(value[i])
  }

  /** What is printed: safe values as they are, all others in single quotes. */
  lemma QuoteIs(value: string)
    ensures PrintsBare(value) ==> ShellQuote(value) == value
    ensures !PrintsBare(value) ==> ShellQuote(value) == "'" + EscapeQuotes(value) + "'"
  {
    if value == "" {
      assert EscapeQuotes(value) == "";
      assert "'" + "" + "'" == "''";
    } else {
      BareIffSafe(value);
    }
  }

  lemma BareIffSafe(value: string)
    ensures (forall i :: 0 <= i < |value| ==> NeedsNoQuotes(value[i])) <==>
            (forall i :: 0 <= i < |value| ==> IsSafe(value[i]))
  {
    forall i | 0 <= i < |value|
      ensures NeedsNoQuotes(value[i]) <==> IsSafe(value[i])
    {
    }
  }

  lemma {:induction false} EscapeConcat(a: string, b: string)
    ensures EscapeQuotes(a + b) == EscapeQuotes(a) + EscapeQuotes(b)
  {
    if a == "" {
      assert a + b == b;
    } else {
      var first := if a[0] == '\'' then "'\\''" else [a[0]];
      EscapeConcat(a[1..], b);
      EscapeFirst(a[0], a[1..] + b);
      SplitFirst(a, b);
      TextIsAssociative(first, EscapeQuotes(a[1..]), EscapeQuotes(b));
    }
  }

  lemma SplitFirst(a: string, b: string)
    requires a != ""
    ensures a + b == [a[0]] + (a[1..] + b)
  {
  }

  lemma TextIsAssociative(a: string, b: string, c: string)
    ensures a + b + c == a + (b + c)
  {
  }

  lemma {:induction false} EscapePlain(plain: string)
    requires '\'' !in plain
    ensures EscapeQuotes(plain) == plain
  {
    if plain != "" {
      EscapePlain(plain[1..]);
      assert plain == [plain[0]] + plain[1..];
    }
  }

  /** Between the quotes, a text stays as it is up to its first single quote, which becomes four
      characters. */
  lemma EscapeIs(plain: string, rest: string)
    requires '\'' !in plain
    ensures EscapeQuotes(plain) == plain
    ensures EscapeQuotes(plain + ("'" + rest)) == plain + ("'\\''" + EscapeQuotes(rest))
  {
    EscapePlain(plain);
    EscapeConcat(plain, "'" + rest);
    EscapeFirst('\'', rest);
  }

  lemma EscapeFirst(c: char, rest: string)
    ensures EscapeQuotes([c] + rest) == (if c == '\'' then "'\\''" else [c]) + EscapeQuotes(rest)
  {
    assert ([c] + rest)[1..] == rest;
  }

  // ---------- the environment passed through sudo ----------

  datatype Service = Systemd | Launchd | NoService

  datatype Assignment = Assignment(name: string, value: string)

  /** Adds an assignment unless its name is there already. */
  function PushEnv(envs: seq<Assignment>, name: string, value: Option<string>): seq<Assignment> {
    if value.None? || exists k :: 0 <= k < |envs| && envs[k].name == name then envs
    else envs + [Assignment(name, value.value)]
  }

  /** An environment variable, unless unset or empty. */
  function EnvValue(env: string -> Option<string>, name: string): Option<string> {
    if env(name) == Some("") then None else env(name)
  }

  function SudoEnv(service: Service, config: Option<string>, env: string -> Option<string>): seq<Assignment> {
    var base :=
      if service.Launchd?
      then PushEnv(PushEnv([], "HOME", EnvValue(env, "HOME")), "SBH_LAUNCHD_LABEL", EnvValue(env, "SBH_LAUNCHD_LABEL"))
      else [];
    var withConfig :=
      if config.Some?
      then PushEnv(PushEnv(base, "SBH_CONFIG", config), "SBH_CONFIG_PATH", config)
      else PushEnv(PushEnv(base, "SBH_CONFIG", EnvValue(env, "SBH_CONFIG")),
                   "SBH_CONFIG_PATH", EnvValue(env, "SBH_CONFIG_PATH"));
    PushEnv(withConfig, "RUST_LOG", EnvValue(env, "RUST_LOG"))
  }

  // ---------- the command line ----------

  function Join(parts: seq<string>): string {
    if parts == [] then "" else if |parts| == 1 then parts[0] else parts[0] + " " + Join(parts[1..])
  }

  function AssignmentText(a: Assignment): string {
    a.name + "=" + ShellQuote(a.value)
  }

  function AssignmentTexts(envs: seq<Assignment>): seq<string> {
    seq(|envs|, k requires 0 <= k < |envs| => AssignmentText(envs[k]))
  }

  function Quoted(args: seq<string>): seq<string> {
    seq(|args|, k requires 0 <= k < |args| => ShellQuote(args[k]))
  }

  function CommandParts(envs: seq<Assignment>, argv: seq<string>): seq<string> {
    ["sudo"] + EnvironmentParts(envs) + (if argv == [] then ["sbh"] else Quoted(argv))
  }

  function EnvironmentParts(envs: seq<Assignment>): seq<string> {
    if envs == [] then [] else ["env"] + AssignmentTexts(envs)
  }

  method FormatRerunCommand(service: Service, config: Option<string>, env: string -> Option<string>, argv: seq<string>)
    returns (command: string)
    ensures command == Join(CommandParts(SudoEnv(service, config, env), argv))
    ensures Words(command) == Some(MeantWords(service, config, env, argv))
  {
    var parts := CollectParts(SudoEnv(service, config, env), argv);
    command := Join(parts);
    CommandMeans(service, config, env, argv);
  }

  method CollectParts(envs: seq<Assignment>, argv: seq<string>) returns (parts: seq<string>)
    ensures parts == CommandParts(envs, argv)
  {
    parts := PushEnvironment(["sudo"], envs);
    parts := parts + if argv == [] then ["sbh"] else Quoted(argv);
  }

  method PushEnvironment(parts: seq<string>, envs: seq<Assignment>) returns (longer: seq<string>)
    ensures longer == parts + EnvironmentParts(envs)
  {
    if envs == [] {
      return parts;
    }
    longer := PushAssignments(parts + ["env"], envs);
    ConcatIsAssociative(parts, ["env"], AssignmentTexts(envs));
  }

  lemma ConcatIsAssociative(a: seq<string>, b: seq<string>, c: seq<string>)
    ensures a + b + c == a + (b + c)
  {
  }

  method PushAssignments(parts: seq<string>, envs: seq<Assignment>) returns (longer: seq<string>)
    ensures longer == parts + AssignmentTexts(envs)
  {
    longer := parts;
    var texts := AssignmentTexts(envs);
    for k := 0 to |envs|
      invariant longer == parts + texts[..k]
    {
      longer := longer + [envs[k].name + "=" + ShellQuote(envs[k].value)];
      assert texts[..k + 1] == texts[..k] + [texts[k]];
    }
    assert texts[..|envs|] == texts;
  }

  // ---------- the shell's reading of a line ----------

  /** Where the reader is: between words, inside a bare word, or inside quotes. */
  datatype Mode = Between | Bare | Single | Double

  /** Characters that, unquoted, end the command, redirect, expand or match file names. */
  predicate IsActive(c: char) {
    c in "|&;<>()$`*?[~\n"
  }

  predicate IsBlank(c: char) {
    c == ' ' || c == '\t'
  }

  /** The words of a simple command line. None when the line is unfinished or anything in it would be
      expanded, matched, commented out, or interpreted as an operator. */
  function Read(s: string, mode: Mode, word: string, words: seq<string>): Option<seq<string>>
    decreases |s|
  {
    if s == "" then
      match mode
      case Between => Some(words)
      case Bare => Some(words + [word])
      case _ => None
    else
      var c := s[0];
      match mode
      case Single =>
        if c == '\'' then Read(s[1..], Bare, word, words) else Read(s[1..], Single, word + [c], words)
      case Double =>
        if c == '"' then Read(s[1..], Bare, word, words)
        else if c == '$' || c == '`' then None
        else if c == '\\' && |s| > 1 && s[1] == '\n' then Read(s[2..], Double, word, words)
        else if c == '\\' && |s| > 1 && s[1] in "$`\"\\" then Read(s[2..], Double, word + [s[1]], words)
        else Read(s[1..], Double, word + [c], words)
      case _ =>
        var begun := if mode.Between? then "" else word;
        if IsBlank(c) then Read(s[1..], Between, "", if mode.Between? then words else words + [word])
        else if mode.Between? && c == '#' then None
        else if IsActive(c) then None
        else if c == '\'' then Read(s[1..], Single, begun, words)
        else if c == '"' then Read(s[1..], Double, begun, words)
        else if c == '\\' then
          if |s| == 1 then None
          else if s[1] == '\n' then Read(s[2..], mode, word, words)
          else Read(s[2..], Bare, begun + [s[1]], words)
        else Read(s[1..], Bare, begun + [c], words)
  }

  function Words(line: string): Option<seq<string>> {
    Read(line, Between, "", [])
  }

  // ---------- reading back what was quoted ----------

  /** Reading `text` in a bare word appends exactly `word`, whatever surrounds it. */
  ghost predicate Appends(text: string, word: string) {
    forall tail, begun, words ::
      Read(text + tail, Bare, begun, words) == Read(tail, Bare, begun + word, words)
  }

  /** A text that reads as one whole word. */
  ghost predicate Denotes(text: string, word: string) {
    && Appends(text, word)
    && text != "" && !IsBlank(text[0]) && text[0] != '#' && text[0] != '\\'
  }

  predicate Plain(c: char) {
    !IsBlank(c) && !IsActive(c) && c != '\'' && c != '"' && c != '\\' && c != '#'
  }

  lemma {:induction false} PlainAppends(text: string)
    requires forall i :: 0 <= i < |text| ==> Plain(text[i])
    ensures Appends(text, text)
  {
    forall tail, begun, words
      ensures Read(text + tail, Bare, begun, words) == Read(tail, Bare, begun + text, words)
    {
      if text == "" {
        assert text + tail == tail && begun + text == begun;
      } else {
        var rest := text[1..];
        PlainAppends(rest);
        assert (text + tail)[1..] == rest + tail;
        assert begun + [text[0]] + rest == begun + text;
      }
    }
  }

  lemma EscapedQuoteReads(after: string, begun: string, words: seq<string>)
    ensures Read("'\\''" + after, Single, begun, words) == Read(after, Single, begun + ['\''], words)
  {
    var text, escaped, reopened := "'\\''" + after, "\\''" + after, "'" + after;
    assert text[1..] == escaped && escaped[2..] == reopened && reopened[1..] == after;
    assert Read(text, Single, begun, words) == Read(escaped, Bare, begun, words);
    assert Read(escaped, Bare, begun, words) == Read(reopened, Bare, begun + ['\''], words);
    assert Read(reopened, Bare, begun + ['\''], words) == Read(after, Single, begun + ['\''], words);
  }

  lemma {:induction false} EscapedReads(value: string, tail: string, begun: string, words: seq<string>)
    ensures Read(EscapeQuotes(value) + "'" + tail, Single, begun, words) == Read(tail, Bare, begun + value, words)
    decreases |value|
  {
    var text := EscapeQuotes(value) + "'" + tail;
    if value == "" {
      assert text == "'" + tail && text[1..] == tail && begun + value == begun;
    } else {
      var rest := value[1..];
      var after := EscapeQuotes(rest) + "'" + tail;
      EscapedReads(rest, tail, begun + [value[0]], words);
      assert begun + [value[0]] + rest == begun + value;
      if value[0] == '\'' {
        assert text == "'\\''" + after;
        EscapedQuoteReads(after, begun, words);
      } else {
        assert text == [value[0]] + after;
        assert text[1..] == after;
      }
    }
  }

  lemma QuotedTextAppends(value: string)
    ensures Appends("'" + EscapeQuotes(value) + "'", value)
  {
    forall tail, begun, words
      ensures Read("'" + EscapeQuotes(value) + "'" + tail, Bare, begun, words) == Read(tail, Bare, begun + value, words)
    {
      var inside := EscapeQuotes(value) + "'" + tail;
      var text := "'" + inside;
      assert "'" + EscapeQuotes(value) + "'" + tail == text;
      assert text[1..] == inside;
      assert Read(text, Bare, begun, words) == Read(inside, Single, begun, words);
      EscapedReads(value, tail, begun, words);
    }
  }

  lemma QuoteAppends(value: string)
    ensures Appends(ShellQuote(value), value)
    ensures var text := ShellQuote(value); text != "" && !IsBlank(text[0]) && text[0] != '#' && text[0] != '\\'
  {
    if value == "" {
      QuotedTextAppends("");
      assert "'" + EscapeQuotes("") + "'" == "''";
    } else if forall i :: 0 <= i < |value| ==> IsSafe(value[i]) {
      PlainAppends(value);
    } else {
      QuotedTextAppends(value);
    }
  }

  lemma AppendsConcat(a: string, x: string, b: string, y: string)
    requires Appends(a, x) && Appends(b, y)
    ensures Appends(a + b, x + y)
  {
    forall tail, begun, words
      ensures Read(a + b + tail, Bare, begun, words) == Read(tail, Bare, begun + (x + y), words)
    {
      assert a + b + tail == a + (b + tail);
      assert begun + x + y == begun + (x + y);
    }
  }

  ghost predicate AllDenote(texts: seq<string>, words: seq<string>) {
    |texts| == |words| && forall k :: 0 <= k < |texts| ==> Denotes(texts[k], words[k])
  }

  /** Words joined by single spaces read back as exactly those words. */
  lemma {:induction false} JoinReads(texts: seq<string>, words: seq<string>, earlier: seq<string>)
    requires AllDenote(texts, words)
    ensures Read(Join(texts), Between, "", earlier) == Some(earlier + words)
    decreases |texts|
  {
    if texts == [] {
      assert earlier + words == earlier;
    } else {
      var text := texts[0];
      var tail := if |texts| == 1 then "" else " " + Join(texts[1..]);
      assert Join(texts) == text + tail by {
        assert text + "" == text;
        assert text + " " + Join(texts[1..]) == text + (" " + Join(texts[1..]));
      }
      FirstWord(text, words[0], tail, earlier);
      if |texts| == 1 {
        assert earlier + words == earlier + [words[0]];
      } else {
        assert tail[1..] == Join(texts[1..]);
        JoinReads(texts[1..], words[1..], earlier + [words[0]]);
        assert earlier + [words[0]] + words[1..] == earlier + words;
      }
    }
  }

  lemma FirstWord(text: string, word: string, tail: string, earlier: seq<string>)
    requires Denotes(text, word)
    ensures Read(text + tail, Between, "", earlier) == Read(tail, Bare, word, earlier)
  {
    assert Read(text + tail, Between, "", earlier) == Read(text + tail, Bare, "", earlier);
    assert "" + word == word;
  }

  // ---------- the round trip ----------

  function AssignmentWords(envs: seq<Assignment>): seq<string> {
    seq(|envs|, k requires 0 <= k < |envs| => envs[k].name + "=" + envs[k].value)
  }

  /** What the command should mean: sudo, the environment when there is one, the original arguments. */
  function IntendedWords(envs: seq<Assignment>, argv: seq<string>): seq<string> {
    ["sudo"] + (if envs == [] then [] else ["env"] + AssignmentWords(envs))
             + (if argv == [] then ["sbh"] else argv)
  }

  predicate ProperName(name: string) {
    name != "" && !('0' <= name[0] <= '9') && forall i :: 0 <= i < |name| ==> IsAlphanumeric(name[i]) || name[i] == '_'
  }

  predicate ProperNames(envs: seq<Assignment>) {
    && (forall k :: 0 <= k < |envs| ==> ProperName(envs[k].name))
    && (forall j, k :: 0 <= j < k < |envs| ==> envs[j].name != envs[k].name)
  }

  lemma PushKeepsProper(envs: seq<Assignment>, name: string, value: Option<string>)
    requires ProperNames(envs) && ProperName(name)
    ensures ProperNames(PushEnv(envs, name, value))
  {
  }

  /** The environment list names proper variables, each once. */
  lemma SudoEnvIsProper(service: Service, config: Option<string>, env: string -> Option<string>)
    ensures ProperNames(SudoEnv(service, config, env))
  {
    NamesAreProper();
    var none: seq<Assignment> := [];
    var home := PushEnv(none, "HOME", EnvValue(env, "HOME"));
    PushKeepsProper(none, "HOME", EnvValue(env, "HOME"));
    PushKeepsProper(home, "SBH_LAUNCHD_LABEL", EnvValue(env, "SBH_LAUNCHD_LABEL"));
    var labelled := PushEnv(home, "SBH_LAUNCHD_LABEL", EnvValue(env, "SBH_LAUNCHD_LABEL"));
    var base := if service.Launchd? then labelled else none;
    var file := if config.Some? then config else EnvValue(env, "SBH_CONFIG");
    var path := if config.Some? then config else EnvValue(env, "SBH_CONFIG_PATH");
    PushKeepsProper(base, "SBH_CONFIG", file);
    var withFile := PushEnv(base, "SBH_CONFIG", file);
    PushKeepsProper(withFile, "SBH_CONFIG_PATH", path);
    PushKeepsProper(PushEnv(withFile, "SBH_CONFIG_PATH", path), "RUST_LOG", EnvValue(env, "RUST_LOG"));
  }

  lemma NamesAreProper()
    ensures ProperName("HOME") && ProperName("SBH_LAUNCHD_LABEL") && ProperName("RUST_LOG")
    ensures ProperName("SBH_CONFIG") && ProperName("SBH_CONFIG_PATH")
  {
  }

  lemma AssignmentDenotes(a: Assignment)
    requires ProperName(a.name)
    ensures Denotes(AssignmentText(a), a.name + "=" + a.value)
  {
    var prefix := a.name + "=";
    PlainAppends(prefix);
    QuoteAppends(a.value);
    AppendsConcat(prefix, prefix, ShellQuote(a.value), a.value);
    assert AssignmentText(a)[0] == a.name[0];
  }

  lemma WordDenotesItself(text: string)
    requires text != "" && forall i :: 0 <= i < |text| ==> Plain(text[i])
    ensures Denotes(text, text)
  {
    PlainAppends(text);
  }

  /** A shell reads the suggested command as exactly `sudo`, then `env` and the assignments when there
      are any, then the original arguments (`sbh` when there are none): each one word, with nothing
      split, expanded or interpreted, for every configuration, environment and argument list. */
  lemma CommandRoundTrip(service: Service, config: Option<string>, env: string -> Option<string>, argv: seq<string>)
    ensures var envs := SudoEnv(service, config, env);
            Words(Join(CommandParts(envs, argv))) == Some(IntendedWords(envs, argv))
  {
    var envs := SudoEnv(service, config, env);
    SudoEnvIsProper(service, config, env);
    PartsDenoteWords(envs, argv);
    JoinReads(CommandParts(envs, argv), IntendedWords(envs, argv), []);
    assert [] + IntendedWords(envs, argv) == IntendedWords(envs, argv);
  }

  /** A word, when the condition holds. */
  function When(condition: bool, word: string): seq<string> {
    if condition then [word] else []
  }

  function Text(value: Option<string>): string {
    if value.Some? then value.value else ""
  }

  /** What is passed through sudo, word by word and in this order. For a launchd service: the home directory
      and the label, when they are set. Then the configuration file given on the command line under both its
      names, whatever the environment says, or without one what the environment has. Then the log filter. */
  function ForwardedWords(service: Service, config: Option<string>, env: string -> Option<string>): seq<string> {
    Passed("HOME", service == Launchd, env) + Passed("SBH_LAUNCHD_LABEL", service == Launchd, env)
    + (match config
       case Some(file) => ["SBH_CONFIG" + "=" + file] + ["SBH_CONFIG_PATH" + "=" + file]
       case None => Passed("SBH_CONFIG", true, env) + Passed("SBH_CONFIG_PATH", true, env))
    + Passed("RUST_LOG", true, env)
  }

  /** A variable with its value, when it is wanted and set to something. */
  function Passed(name: string, wanted: bool, env: string -> Option<string>): seq<string> {
    if wanted && env(name).Some? && env(name).value != "" then [name + "=" + env(name).value] else []
  }

  /** Pushing a name that is not there yet. */
  lemma PushNew(envs: seq<Assignment>, name: string, value: Option<string>)
    requires forall k :: 0 <= k < |envs| ==> envs[k].name != name
    ensures AssignmentWords(PushEnv(envs, name, value))
            == AssignmentWords(envs) + When(value.Some?, name + "=" + Text(value))
    ensures forall k :: 0 <= k < |PushEnv(envs, name, value)| ==>
              PushEnv(envs, name, value)[k].name == name || PushEnv(envs, name, value)[k] in envs
  {
    assert AssignmentWords(PushEnv(envs, name, value))
        == AssignmentWords(envs) + When(value.Some?, name + "=" + Text(value));
  }

  ghost predicate NamesIn(envs: seq<Assignment>, names: set<string>) {
    forall k :: 0 <= k < |envs| ==> envs[k].name in names
  }

  /** The same, keeping account of the names. */
  lemma PushNamed(envs: seq<Assignment>, names: set<string>, name: string, value: Option<string>)
    requires NamesIn(envs, names) && name !in names
    ensures AssignmentWords(PushEnv(envs, name, value))
            == AssignmentWords(envs) + When(value.Some?, name + "=" + Text(value))
    ensures NamesIn(PushEnv(envs, name, value), names + {name})
  {
    PushNew(envs, name, value);
  }

  lemma NamesDiffer()
    ensures "SBH_LAUNCHD_LABEL" != "HOME"
    ensures "SBH_CONFIG" !in {"HOME", "SBH_LAUNCHD_LABEL"}
    ensures "SBH_CONFIG_PATH" !in {"HOME", "SBH_LAUNCHD_LABEL", "SBH_CONFIG"}
    ensures "RUST_LOG" !in {"HOME", "SBH_LAUNCHD_LABEL", "SBH_CONFIG", "SBH_CONFIG_PATH"}
  {
    assert |"HOME"| == 4 && |"SBH_LAUNCHD_LABEL"| == 17 && |"SBH_CONFIG"| == 10;
    assert |"SBH_CONFIG_PATH"| == 15 && |"RUST_LOG"| == 8;
  }

  lemma EnvValuePasses(env: string -> Option<string>, name: string)
    ensures When(EnvValue(env, name).Some?, name + "=" + Text(EnvValue(env, name))) == Passed(name, true, env)
  {
  }

  lemma BaseForwards(service: Service, env: string -> Option<string>) returns (base: seq<Assignment>)
    ensures base ==
      if service.Launchd?
      then PushEnv(PushEnv([], "HOME", EnvValue(env, "HOME")), "SBH_LAUNCHD_LABEL", EnvValue(env, "SBH_LAUNCHD_LABEL"))
      else []
    ensures NamesIn(base, {"HOME", "SBH_LAUNCHD_LABEL"})
    ensures AssignmentWords(base)
            == Passed("HOME", service == Launchd, env) + Passed("SBH_LAUNCHD_LABEL", service == Launchd, env)
  {
    base := [];
    NamesDiffer();
    if service.Launchd? {
      PushNamed(base, {}, "HOME", EnvValue(env, "HOME"));
      EnvValuePasses(env, "HOME");
      base := PushEnv(base, "HOME", EnvValue(env, "HOME"));
      PushNamed(base, {} + {"HOME"}, "SBH_LAUNCHD_LABEL", EnvValue(env, "SBH_LAUNCHD_LABEL"));
      EnvValuePasses(env, "SBH_LAUNCHD_LABEL");
      base := PushEnv(base, "SBH_LAUNCHD_LABEL", EnvValue(env, "SBH_LAUNCHD_LABEL"));
    }
  }

  /** The configuration file under both its names. */
  lemma ConfigForwards(base: seq<Assignment>, file: Option<string>, path: Option<string>) returns (all: seq<Assignment>)
    requires NamesIn(base, {"HOME", "SBH_LAUNCHD_LABEL"})
    ensures all == PushEnv(PushEnv(base, "SBH_CONFIG", file), "SBH_CONFIG_PATH", path)
    ensures NamesIn(all, {"HOME", "SBH_LAUNCHD_LABEL", "SBH_CONFIG", "SBH_CONFIG_PATH"})
    ensures AssignmentWords(all)
            == AssignmentWords(base) + When(file.Some?, "SBH_CONFIG" + "=" + Text(file))
               + When(path.Some?, "SBH_CONFIG_PATH" + "=" + Text(path))
  {
    NamesDiffer();
    var names := {"HOME", "SBH_LAUNCHD_LABEL"};
    PushNamed(base, names, "SBH_CONFIG", file);
    all := PushEnv(base, "SBH_CONFIG", file);
    PushNamed(all, names + {"SBH_CONFIG"}, "SBH_CONFIG_PATH", path);
    all := PushEnv(all, "SBH_CONFIG_PATH", path);
  }

  /** The environment list is that. */
  lemma SudoEnvForwards(service: Service, config: Option<string>, env: string -> Option<string>)
    ensures AssignmentWords(SudoEnv(service, config, env)) == ForwardedWords(service, config, env)
  {
    NamesDiffer();
    var base := BaseForwards(service, env);
    var file := if config.Some? then config else EnvValue(env, "SBH_CONFIG");
    var path := if config.Some? then config else EnvValue(env, "SBH_CONFIG_PATH");
    var all := ConfigForwards(base, file, path);
    EnvValuePasses(env, "SBH_CONFIG");
    EnvValuePasses(env, "SBH_CONFIG_PATH");
    EnvValuePasses(env, "RUST_LOG");
    var names := {"HOME", "SBH_LAUNCHD_LABEL", "SBH_CONFIG", "SBH_CONFIG_PATH"};
    PushNamed(all, names, "RUST_LOG", EnvValue(env, "RUST_LOG"));
    ConcatIsAssociative(AssignmentWords(base), When(file.Some?, "SBH_CONFIG" + "=" + Text(file)),
                        When(path.Some?, "SBH_CONFIG_PATH" + "=" + Text(path)));
  }

  /** What the command is to mean. */
  function MeantWords(service: Service, config: Option<string>, env: string -> Option<string>, argv: seq<string>)
    : seq<string>
  {
    var forwarded := ForwardedWords(service, config, env);
    ["sudo"] + (if forwarded == [] then [] else ["env"] + forwarded) + (if argv == [] then ["sbh"] else argv)
  }

  /** The whole command as the shell reads it. */
  lemma CommandMeans(service: Service, config: Option<string>, env: string -> Option<string>, argv: seq<string>)
    ensures Words(Join(CommandParts(SudoEnv(service, config, env), argv)))
            == Some(MeantWords(service, config, env, argv))
  {
    CommandRoundTrip(service, config, env, argv);
    SudoEnvForwards(service, config, env);
    assert |AssignmentWords(SudoEnv(service, config, env))| == |SudoEnv(service, config, env)|;
  }

  lemma PartsDenoteWords(envs: seq<Assignment>, argv: seq<string>)
    requires ProperNames(envs)
    ensures AllDenote(CommandParts(envs, argv), IntendedWords(envs, argv))
  {
    WordDenotesItself("sudo");
    WordDenotesItself("env");
    WordDenotesItself("sbh");
    forall k | 0 <= k < |envs|
      ensures Denotes(AssignmentTexts(envs)[k], AssignmentWords(envs)[k])
    {
      AssignmentDenotes(envs[k]);
    }
    forall k | 0 <= k < |argv|
      ensures Denotes(Quoted(argv)[k], argv[k])
    {
      QuoteAppends(argv[k]);
    }
    ConcatDenotes(if envs == [] then [] else ["env"] + AssignmentTexts(envs),
                  if envs == [] then [] else ["env"] + AssignmentWords(envs),
                  if argv == [] then ["sbh"] else Quoted(argv),
                  if argv == [] then ["sbh"] else argv);
  }

  lemma ConcatDenotes(a: seq<string>, x: seq<string>, b: seq<string>, y: seq<string>)
    requires AllDenote(a, x) && AllDenote(b, y) && Denotes("sudo", "sudo")
    ensures AllDenote(["sudo"] + a + b, ["sudo"] + x + y)
  {
  }
}
