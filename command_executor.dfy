/** The device side of a command: `execute_firewall_command` accepts only an
    `iptables ` line whose arguments use a small character set, turns it into
    the argument vector for `sudo`, and reports the process outcome. Running
    the process is outside the model: its outcome is passed in. */
module CommandExecutor {
  import opened Common
  import opened Strings
  import opened Rules
  import opened ServiceMapper
  import opened RuleInterpreter
  import opened CommandBuilder

  const IptablesPath: string := "/usr/sbin/iptables"

  /** The prefix every accepted command starts with, space included. */
  const CommandPrefix: string := "iptables "

  const PrefixMessage: string := "Command does not start with 'iptables '."
  const NoStdoutMessage: string := "Command executed successfully (no stdout)."
  const NotFoundMessage: string := "Error: '/usr/sbin/iptables' or 'sudo' not found. Ensure paths are correct and sudo is installed."
  const TimeoutMessage: string := "Error: Command execution timed out."

  predicate IsAsciiLetter(c: char)
  {
    'a' <= c <= 'z' || 'A' <= c <= 'Z'
  }

  /** One character of the allow-list `[a-zA-Z0-9\s.\-/=:*]`. */
  predicate AllowedChar(c: char)
  {
    IsAsciiLetter(c) || IsDigit(c) || IsSpace(c) || c in {'.', '-', '/', '=', ':', '*'}
  }

  predicate AllAllowed(s: string)
  {
    forall i :: 0 <= i < |s| ==> AllowedChar(s[i])
  }

  /** The full match of the allow-list pattern: one or more allowed characters. */
  predicate ArgsAllowed(args: string)
  {
    |args| > 0 && AllAllowed(args)
  }

  predicate StartsWith(s: string, prefix: string)
  {
    |prefix| <= |s| && s[..|prefix|] == prefix
  }

  /** The result of validation: the argument vector to run, or the rejection message. */
  datatype Prepared = Run(argv: seq<string>) | Rejected(message: string)

  /** Validation and argument-vector construction (lines 27-42). */
  function PrepareCommand(command: string): Prepared
  {
    if !StartsWith(command, CommandPrefix) then Rejected(PrefixMessage)
    else
      var args := command[|CommandPrefix|..];
      if !ArgsAllowed(args) then Rejected("Command arguments contain disallowed characters: '" + args + "'")
      else Run(["sudo", IptablesPath] + Split(args))
  }

  /** What running the argument vector gave: a completed process, or one of the
      failures the executor catches. */
  datatype RunOutcome =
    | Completed(returnCode: int, stdout: string, stderr: string)
    | NotFound
    | TimedOut
    | OtherError(detail: string)

  /** The message for a non-zero return code, with the trimmed output and error text when there is any. */
  function FailureDetails(code: int, out: string, err: string): string
  {
    ("Return code: " + IntToString(code) + ".")
    + ((if out != "" then " Stdout: " + Strip(out) + "." else "")
       + (if err != "" then " Stderr: " + Strip(err) + "." else ""))
  }

  /** The executor's reply: success flag and message. */
  datatype Reply = Reply(success: bool, message: string)

  /** The reply for a process outcome (lines 53-77). */
  function ReportOutcome(outcome: RunOutcome): Reply
  {
    match outcome
    case Completed(code, out, err) =>
      if code == 0 then Reply(true, if out != "" then Strip(out) else NoStdoutMessage)
      else
        Reply(false, FailureDetails(code, out, err))
    case NotFound => Reply(false, NotFoundMessage)
    case TimedOut => Reply(false, TimeoutMessage)
    case OtherError(detail) => Reply(false, "An unexpected error occurred during command execution: " + detail)
  }

  /** `execute_firewall_command(command_string)`, with `outcome` what the process
      would give if it were started. */
  function ExecuteFirewallCommand(command: string, outcome: RunOutcome): Reply
  {
    match PrepareCommand(command)
    case Rejected(message) => Reply(false, message)
    case Run(_) => ReportOutcome(outcome)
  }

  // ---------------------------------------------------------------------
  // Lemmas

  /** A command is run exactly when it starts with `iptables ` and the rest is a
      non-empty string of allowed characters; otherwise it is rejected with the
      matching message and nothing is started. */
  lemma PrepareCases(command: string)
    ensures PrepareCommand(command).Run? <==>
      StartsWith(command, CommandPrefix) && ArgsAllowed(command[|CommandPrefix|..])
    ensures !StartsWith(command, CommandPrefix) ==> PrepareCommand(command) == Rejected(PrefixMessage)
    ensures !PrepareCommand(command).Run? ==>
      forall outcome :: ExecuteFirewallCommand(command, outcome) == Reply(false, PrepareCommand(command).message)
  {
  }

  /** The argument vector is `sudo`, the iptables path, then the words of the
      arguments: no item is empty or holds whitespace, and every character is allowed. */
  lemma {:induction false} ArgvShape(command: string)
    requires PrepareCommand(command).Run?
    ensures var argv := PrepareCommand(command).argv;
      && |argv| >= 2 && argv[..2] == ["sudo", IptablesPath]
      && argv[2..] == Split(command[|CommandPrefix|..])
      && (forall i :: 2 <= i < |argv| ==> argv[i] != "" && NoSpace(argv[i]) && AllAllowed(argv[i]))
  {
    var args := command[|CommandPrefix|..];
    var argv := PrepareCommand(command).argv;
    SplitAreWords(args);
    assert argv[2..] == Split(args);
    forall i | 2 <= i < |argv|
      ensures argv[i] != "" && NoSpace(argv[i]) && AllAllowed(argv[i])
    {
      assert argv[i] == Split(args)[i - 2];
      forall m | 0 <= m < |argv[i]|
        ensures AllowedChar(argv[i][m])
      {
        SplitCharsFrom(args, i - 2, m);
      }
    }
  }

  /** A completed process succeeds exactly when its return code is 0; every other
      outcome, and every rejected command, is a failure. */
  lemma ExecuteSucceeds(command: string, outcome: RunOutcome)
    ensures ExecuteFirewallCommand(command, outcome).success <==>
      PrepareCommand(command).Run? && outcome.Completed? && outcome.returnCode == 0
  {
    match PrepareCommand(command)
    case Rejected(_) =>
    case Run(_) =>
      assert ExecuteFirewallCommand(command, outcome) == ReportOutcome(outcome);
  }

  /** A failed process's message opens with its return code; a successful one's is
      its trimmed output, or the fixed message when there was none. */
  lemma CompletedMessage(code: int, out: string, err: string)
    ensures code != 0 ==>
      StartsWith(ReportOutcome(Completed(code, out, err)).message, "Return code: " + IntToString(code) + ".")
    ensures code == 0 && out == "" ==> ReportOutcome(Completed(code, out, err)).message == NoStdoutMessage
    ensures code == 0 && out != "" ==> ReportOutcome(Completed(code, out, err)).message == Strip(out)
  {
    if code != 0 {
      var head := "Return code: " + IntToString(code) + ".";
      PrefixOfAppend(head, (if out != "" then " Stdout: " + Strip(out) + "." else "")
                           + (if err != "" then " Stderr: " + Strip(err) + "." else ""));
    }
  }

  lemma PrefixOfAppend(a: string, b: string)
    ensures StartsWith(a + b, a)
  {
    assert (a + b)[..|a|] == a;
  }

  /** A line of allowed words led by `iptables` is accepted, and splits back into
      its words after `iptables`. */
  lemma {:induction false} JoinedLineAccepted(parts: seq<string>)
    requires |parts| >= 2 && parts[0] == "iptables"
    requires AreWords(parts)
    requires PartsAllowed(parts)
    ensures PrepareCommand(Join(parts, " ")) == Run(["sudo", IptablesPath] + parts[1..])
  {
    var rest := Join(parts[1..], " ");
    assert Join(parts, " ") == "iptables" + " " + rest;
    assert Join(parts, " ") == CommandPrefix + rest;
    assert Join(parts, " ")[|CommandPrefix|..] == rest;
    assert AreWords(parts[1..]);
    JoinWordsNonEmpty(parts[1..]);
    forall i | 0 <= i < |rest|
      ensures AllowedChar(rest[i])
    {
      JoinChars(parts[1..], " ", i);
      if rest[i] != ' ' {
        var k :| 0 <= k < |parts[1..]| && rest[i] in parts[1..][k];
        var m :| 0 <= m < |parts[1..][k]| && parts[1..][k][m] == rest[i];
        assert AllowedChar(parts[k + 1][m]);
      }
    }
    SplitJoin(parts[1..]);
  }

  predicate PartsAllowed(parts: seq<string>)
  {
    forall j :: 0 <= j < |parts| ==> AllAllowed(parts[j])
  }

  lemma BaseAllowed(chain: string, source: Option<string>, destination: Option<string>)
    requires AllAllowed(chain)
    requires Truthy(source) ==> AllAllowed(source.value)
    requires Truthy(destination) ==> AllAllowed(destination.value)
    ensures PartsAllowed(BaseParts(chain, source, destination))
  {
  }

  lemma ProtoAllowed(e: Param)
    requires Truthy(e.proto) ==> AllAllowed(e.proto.value)
    ensures PartsAllowed(ProtoParts(e))
  {
    if Truthy(e.proto) && e.dport.Some? {
      var d := e.dport.value;
      NatToStringDigits(if d < 0 then -d else d);
      assert AllAllowed(IntToString(d));
    }
  }

  lemma PartsAllowedAppend(a: seq<string>, b: seq<string>)
    requires PartsAllowed(a) && PartsAllowed(b)
    ensures PartsAllowed(a + b)
  {
  }

  /** Every part the builder writes is made of allowed characters when the
      addresses and the protocols are. */
  lemma CommandCharsAllowed(rule: InterpretedRule, catalog: Catalog, k: nat)
    requires k < |CommandParts(rule, catalog)|
    requires Truthy(rule.source) ==> AllAllowed(rule.source.value)
    requires Truthy(rule.destination) ==> AllAllowed(rule.destination.value)
    requires ParamsFor(rule.service, catalog).Some? ==>
      forall e :: e in ParamsFor(rule.service, catalog).value && Truthy(e.proto) ==> AllAllowed(e.proto.value)
    ensures PartsAllowed(CommandParts(rule, catalog)[k])
  {
    var t := TargetFor(rule.action).value;
    var params := ParamsFor(rule.service, catalog);
    var chain := ChainName(rule.chain);
    assert AllAllowed(chain);
    BaseAllowed(chain, rule.source, rule.destination);
    var base := BaseParts(chain, rule.source, rule.destination);
    var jump := ["-j", t];
    assert PartsAllowed(jump) by {
      assert t in {"DROP", "ACCEPT"};
    }
    var p := CommandParts(rule, catalog)[k];
    if !IsCatchAll(rule.service) && params.Some? && params.value != [] {
      var e := params.value[k];
      assert e in params.value;
      ProtoAllowed(e);
      PartsAllowedAppend(ProtoParts(e), jump);
      PartsAllowedAppend(base, ProtoParts(e) + jump);
      assert p == base + (ProtoParts(e) + jump);
    } else {
      PartsAllowedAppend(base, jump);
      assert p == base + jump;
    }
  }

  /** Builder to device: with addresses and protocols that are whitespace-free
      and use only allowed characters, every command line the builder produces
      passes validation, and the device runs `sudo /usr/sbin/iptables` with
      exactly the builder's parts after `iptables`. */
  lemma BuiltCommandAccepted(rule: InterpretedRule, catalog: Catalog, k: nat)
    requires k < |CommandParts(rule, catalog)|
    requires Truthy(rule.source) ==> NoSpace(rule.source.value) && AllAllowed(rule.source.value)
    requires Truthy(rule.destination) ==> NoSpace(rule.destination.value) && AllAllowed(rule.destination.value)
    requires ParamsFor(rule.service, catalog).Some? ==>
      forall e :: e in ParamsFor(rule.service, catalog).value && Truthy(e.proto) ==>
        NoSpace(e.proto.value) && AllAllowed(e.proto.value)
    ensures var parts := CommandParts(rule, catalog)[k];
      PrepareCommand(Join(parts, " ")) == Run(["sudo", IptablesPath] + parts[1..])
  {
    var parts := CommandParts(rule, catalog)[k];
    CommandWords(rule, catalog, k);
    CommandCharsAllowed(rule, catalog, k);
    CommandOptions(rule, catalog, k);
    JoinedLineAccepted(parts);
  }
}
