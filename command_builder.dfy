/** The iptables command builder: one interpreted rule becomes the command
    lines to run on its device, one per protocol/port entry of its service. */
module CommandBuilder {
  import opened Common
  import opened Strings
  import opened Rules
  import opened ServiceMapper
  import opened RuleInterpreter

  /** The iptables jump target of an action verb, compared in lower case. */
  function TargetFor(action: Option<string>): Option<string>
  {
    if !Truthy(action) then None else Get(ActionTargets, Lower(action.value))
  }

  /** The parts every command of a rule starts with: the chain, then the
      source and the destination that are set. */
  function BaseParts(chain: string, source: Option<string>, destination: Option<string>): seq<string>
  {
    ["iptables", "-A", chain]
    + (if Truthy(source) then ["-s", source.value] else [])
    + (if Truthy(destination) then ["-d", destination.value] else [])
  }

  /** The protocols whose entries carry a destination port. */
  const PortProtocols: set<string> := {"tcp", "udp"}

  /** What one catalog entry adds: its protocol, and its port when the protocol takes one. */
  function ProtoParts(p: Param): seq<string>
  {
    if !Truthy(p.proto) then []
    else
      ["-p", p.proto.value]
      + (if Lower(p.proto.value) in PortProtocols && p.dport.Some? then ["--dport", IntToString(p.dport.value)] else [])
  }

  function ParamParts(base: seq<string>, p: Param, target: string): seq<string>
  {
    base + (ProtoParts(p) + ["-j", target])
  }

  /** The service test of the builder: set, and one of the catch-all names in any letter case. */
  predicate IsCatchAll(service: Option<string>)
  {
    Truthy(service) && Lower(service.value) in ServicesToIgnore
  }

  /** The parts of each command `build_commands` produces for `rule`, with `catalog` the loaded service table. */
  function CommandParts(rule: InterpretedRule, catalog: Catalog): seq<seq<string>>
  {
    var target := TargetFor(rule.action);
    if !Truthy(target) then []
    else
      var base := BaseParts(ChainName(rule.chain), rule.source, rule.destination);
      if IsCatchAll(rule.service) then [base + ["-j", target.value]]
      else
        var params := ParamsFor(rule.service, catalog);
        if params.Some? && params.value != [] then
          seq(|params.value|, i requires 0 <= i < |params.value| => ParamParts(base, params.value[i], target.value))
        else if Truthy(rule.source) || Truthy(rule.destination) then [base + ["-j", target.value]]
        else []
  }

  /** `IPTablesCommandBuilder.build_commands(interpreted_rule)`. */
  method BuildCommands(rule: InterpretedRule, catalog: Catalog) returns (commands: seq<string>)
    ensures |commands| == |CommandParts(rule, catalog)|
    ensures forall i :: 0 <= i < |commands| ==> commands[i] == Join(CommandParts(rule, catalog)[i], " ")
  {
    var chain := ChainName(rule.chain);
    if !Truthy(rule.action) || chain == "" {
      return [];
    }
    var target := Get(ActionTargets, Lower(rule.action.value));
    if !Truthy(target) {
      return [];
    }
    var base := ["iptables", "-A", chain];
    if Truthy(rule.source) {
      base := base + ["-s", rule.source.value];
    }
    if Truthy(rule.destination) {
      base := base + ["-d", rule.destination.value];
    }
    assert base == BaseParts(chain, rule.source, rule.destination);
    commands := [];
    if Truthy(rule.service) && Lower(rule.service.value) in ServicesToIgnore {
      commands := commands + [Join(base + ["-j", target.value], " ")];
    } else {
      var paramList := ParamsFor(rule.service, catalog);
      if paramList.Some? && paramList.value != [] {
        var params := paramList.value;
        var i := 0;
        while i < |params|
          invariant 0 <= i <= |params|
          invariant |commands| == i
          invariant forall j :: 0 <= j < i ==> commands[j] == Join(ParamParts(base, params[j], target.value), " ")
        {
          var parts := ExtendForParam(base, params[i], target.value);
          commands := commands + [Join(parts, " ")];
          i := i + 1;
        }
      } else if Truthy(rule.source) || Truthy(rule.destination) {
        commands := commands + [Join(base + ["-j", target.value], " ")];
      }
    }
    if commands == [] && (Truthy(rule.source) || Truthy(rule.destination)) {
      commands := commands + [Join(base + ["-j", target.value], " ")];
    }
  }

  /** The loop body of `build_commands`: extends the base parts by one catalog entry and the jump. */
  method ExtendForParam(base: seq<string>, param: Param, target: string) returns (parts: seq<string>)
    ensures parts == ParamParts(base, param, target)
  {
    parts := base;
    var proto := param.proto;
    var dport := param.dport;
    if Truthy(proto) {
      parts := parts + ["-p", proto.value];
      if Lower(proto.value) in PortProtocols && dport.Some? {
        parts := parts + ["--dport", IntToString(dport.value)];
      }
    }
    parts := parts + ["-j", target];
  }

  // ---------------------------------------------------------------------
  // Lemmas

  /** `flag` is immediately followed by `value` somewhere in `parts`. */
  predicate HasOption(parts: seq<string>, flag: string, value: string)
  {
    exists i :: 0 <= i < |parts| - 1 && parts[i] == flag && parts[i + 1] == value
  }

  /** Block-like verbs jump to DROP, allow-like verbs to ACCEPT, in any letter case;
      any other verb, or none, has no target. */
  lemma TargetMeaning(action: Option<string>)
    ensures TargetFor(action) == Some("DROP") <==> Truthy(action) && Lower(action.value) in {"block", "deny", "drop", "reject"}
    ensures TargetFor(action) == Some("ACCEPT") <==> Truthy(action) && Lower(action.value) in {"allow", "permit", "accept"}
    ensures TargetFor(action).None? <==> !Truthy(action) || Lower(action.value) !in ActionTargets
  {
  }

  /** No command at all exactly when the verb has no target, or when the service is
      neither a catch-all nor a non-empty catalog entry and the rule has no address.
      In particular the builder's final "IP-only" fallback can never fire: a rule
      with a target and an address always yields a command before it. */
  lemma CommandsEmpty(rule: InterpretedRule, catalog: Catalog)
    ensures CommandParts(rule, catalog) == [] <==>
      || TargetFor(rule.action).None?
      || (&& !IsCatchAll(rule.service)
          && (ParamsFor(rule.service, catalog).None? || ParamsFor(rule.service, catalog).value == [])
          && !Truthy(rule.source) && !Truthy(rule.destination))
  {
  }

  /** A catch-all service gives one command; a known service gives one command per
      catalog entry; an unknown service gives one address-only command when an
      address is set. */
  lemma CommandCount(rule: InterpretedRule, catalog: Catalog)
    requires TargetFor(rule.action).Some?
    ensures IsCatchAll(rule.service) ==> |CommandParts(rule, catalog)| == 1
    ensures !IsCatchAll(rule.service) && ParamsFor(rule.service, catalog).Some? ==>
      |CommandParts(rule, catalog)| == (if ParamsFor(rule.service, catalog).value == [] then
                                           (if Truthy(rule.source) || Truthy(rule.destination) then 1 else 0)
                                         else |ParamsFor(rule.service, catalog).value|)
    ensures !IsCatchAll(rule.service) && ParamsFor(rule.service, catalog).None? ==>
      |CommandParts(rule, catalog)| == (if Truthy(rule.source) || Truthy(rule.destination) then 1 else 0)
  {
  }

  /** Whatever follows the base parts, the command opens with `iptables -A <chain>`,
      then `-s <source>` when the source is set, then `-d <destination>` when the
      destination is set, and nothing else before `rest`. */
  lemma {:induction false} BaseOptions(chain: string, source: Option<string>, destination: Option<string>, rest: seq<string>)
    ensures var b := BaseParts(chain, source, destination);
      var p := b + rest;
      && |b| == 3 + (if Truthy(source) then 2 else 0) + (if Truthy(destination) then 2 else 0)
      && p[..3] == ["iptables", "-A", chain]
      && (Truthy(source) ==> p[3..5] == ["-s", source.value])
      && (Truthy(destination) ==> p[|b| - 2..|b|] == ["-d", destination.value])
      && p[|b|..] == rest
      && HasOption(p, "-A", chain)
      && (Truthy(source) ==> HasOption(p, "-s", source.value))
      && (Truthy(destination) ==> HasOption(p, "-d", destination.value))
  {
    var b := BaseParts(chain, source, destination);
    var p := b + rest;
    assert p[1] == "-A" && p[2] == chain;
    if Truthy(source) {
      assert p[3] == "-s" && p[4] == source.value;
    }
    if Truthy(destination) {
      var k := if Truthy(source) then 5 else 3;
      assert p[k] == "-d" && p[k + 1] == destination.value;
    }
  }

  /** A command that ends in `-j <target>` carries that option. */
  lemma EndsWithJump(front: seq<string>, target: string)
    ensures HasOption(front + ["-j", target], "-j", target)
  {
    var p := front + ["-j", target];
    assert p[|front|] == "-j" && p[|front| + 1] == target;
  }

  /** Every command opens with `iptables -A <chain>`, then `-s <source>` and
      `-d <destination>` for the addresses that are set, in that order and with
      nothing for an address that is not, and ends by jumping to the verb's target.
      A catch-all or unknown service adds nothing in between; a known service adds
      the entry's protocol options. */
  lemma {:induction false} CommandOptions(rule: InterpretedRule, catalog: Catalog, k: nat)
    requires k < |CommandParts(rule, catalog)|
    ensures TargetFor(rule.action).Some?
    ensures var p := CommandParts(rule, catalog)[k];
      var b := BaseParts(ChainName(rule.chain), rule.source, rule.destination);
      var t := TargetFor(rule.action).value;
      var params := ParamsFor(rule.service, catalog);
      && |b| == 3 + (if Truthy(rule.source) then 2 else 0) + (if Truthy(rule.destination) then 2 else 0)
      && |b| + 2 <= |p| && p[..|b|] == b
      && p[..3] == ["iptables", "-A", ChainName(rule.chain)]
      && (Truthy(rule.source) ==> p[3..5] == ["-s", rule.source.value])
      && (Truthy(rule.destination) ==> p[|b| - 2..|b|] == ["-d", rule.destination.value])
      && p[|p| - 2..] == ["-j", t]
      && (IsCatchAll(rule.service) || params.None? || params.value == [] ==> p == b + ["-j", t])
      && (!IsCatchAll(rule.service) && params.Some? && params.value != [] ==>
            k < |params.value| && p[|b|..|p| - 2] == ProtoParts(params.value[k]))
      && (Truthy(rule.source) ==> HasOption(p, "-s", rule.source.value))
      && (Truthy(rule.destination) ==> HasOption(p, "-d", rule.destination.value))
  {
    CommandShape(rule, catalog, k);
    var b := BaseParts(ChainName(rule.chain), rule.source, rule.destination);
    var mid := CommandMiddle(rule, catalog, k);
    var t := TargetFor(rule.action).value;
    JumpLayout(b, mid, t);
    BaseOptions(ChainName(rule.chain), rule.source, rule.destination, mid + ["-j", t]);
  }

  /** The layout of `front`, then `mid`, then the jump to `target`. */
  lemma JumpLayout(front: seq<string>, mid: seq<string>, target: string)
    ensures var p := front + (mid + ["-j", target]);
      && |p| == |front| + |mid| + 2
      && p[..|front|] == front
      && p[|front|..|p| - 2] == mid
      && p[|p| - 2..] == ["-j", target]
  {
    var p := front + (mid + ["-j", target]);
    assert p[..|front|] == front;
    assert p[|front|..|p| - 2] == mid;
    assert p[|p| - 2..] == ["-j", target];
  }

  /** What command `k` of a rule holds between its base parts and its jump. */
  function CommandMiddle(rule: InterpretedRule, catalog: Catalog, k: nat): seq<string>
  {
    var params := ParamsFor(rule.service, catalog);
    if !IsCatchAll(rule.service) && params.Some? && k < |params.value|
    then ProtoParts(params.value[k])
    else []
  }

  /** Every command of a rule is its base parts, its middle and its jump. */
  lemma CommandShape(rule: InterpretedRule, catalog: Catalog, k: nat)
    requires k < |CommandParts(rule, catalog)|
    ensures TargetFor(rule.action).Some?
    ensures CommandParts(rule, catalog)[k] ==
      BaseParts(ChainName(rule.chain), rule.source, rule.destination)
      + (CommandMiddle(rule, catalog, k) + ["-j", TargetFor(rule.action).value])
    ensures !IsCatchAll(rule.service) && ParamsFor(rule.service, catalog).Some? && ParamsFor(rule.service, catalog).value != [] ==>
      k < |ParamsFor(rule.service, catalog).value|
  {
    var params := ParamsFor(rule.service, catalog);
    if !(!IsCatchAll(rule.service) && params.Some? && params.value != []) {
      assert CommandMiddle(rule, catalog, k) + ["-j", TargetFor(rule.action).value] == ["-j", TargetFor(rule.action).value];
    }
  }

  /** For a known service, command `k` carries entry `k`'s protocol, and its port
      exactly when the protocol is TCP or UDP (in any letter case) and a port is
      given. (An address or protocol spelled `--dport` would read as the flag, hence
      the requirement.) */
  lemma {:induction false} EntryOptions(rule: InterpretedRule, catalog: Catalog, k: nat)
    requires TargetFor(rule.action).Some? && !IsCatchAll(rule.service)
    requires ParamsFor(rule.service, catalog).Some? && k < |ParamsFor(rule.service, catalog).value|
    requires rule.source != Some("--dport") && rule.destination != Some("--dport")
    requires ParamsFor(rule.service, catalog).value[k].proto != Some("--dport")
    ensures k < |CommandParts(rule, catalog)|
    ensures var e := ParamsFor(rule.service, catalog).value[k];
      var p := CommandParts(rule, catalog)[k];
      && (Truthy(e.proto) ==> HasOption(p, "-p", e.proto.value))
      && (Truthy(e.proto) && Lower(e.proto.value) in PortProtocols && e.dport.Some? ==>
            HasOption(p, "--dport", IntToString(e.dport.value)))
      && ("--dport" in p <==> Truthy(e.proto) && Lower(e.proto.value) in PortProtocols && e.dport.Some?)
  {
    var e := ParamsFor(rule.service, catalog).value[k];
    var t := TargetFor(rule.action).value;
    var base := BaseParts(ChainName(rule.chain), rule.source, rule.destination);
    var p := CommandParts(rule, catalog)[k];
    assert p == base + (ProtoParts(e) + ["-j", t]);
    var b := |base|;
    if Truthy(e.proto) {
      assert p[b] == "-p" && p[b + 1] == e.proto.value;
      if Lower(e.proto.value) in PortProtocols && e.dport.Some? {
        assert p[b + 2] == "--dport" && p[b + 3] == IntToString(e.dport.value);
      }
    }
    NatToStringDigits(if e.dport.Some? && e.dport.value < 0 then -e.dport.value else if e.dport.Some? then e.dport.value else 0);
    assert "--dport" !in base;
    assert "--dport" !in ["-j", t] by {
      assert t in {"DROP", "ACCEPT"};
    }
    if !(Truthy(e.proto) && Lower(e.proto.value) in PortProtocols && e.dport.Some?) {
      assert "--dport" !in ProtoParts(e);
      assert "--dport" !in p by {
        forall x | x in p ensures x != "--dport" {
          assert x in base || x in ProtoParts(e) || x in ["-j", t];
        }
      }
    }
  }

  lemma BaseWords(chain: string, source: Option<string>, destination: Option<string>)
    requires chain != "" && NoSpace(chain)
    requires Truthy(source) ==> NoSpace(source.value)
    requires Truthy(destination) ==> NoSpace(destination.value)
    ensures AreWords(BaseParts(chain, source, destination))
  {
  }

  lemma ProtoWords(e: Param)
    requires Truthy(e.proto) ==> NoSpace(e.proto.value)
    ensures AreWords(ProtoParts(e))
  {
    if Truthy(e.proto) {
      var head := ["-p", e.proto.value];
      assert AreWords(head);
      var tail := if Lower(e.proto.value) in PortProtocols && e.dport.Some? then ["--dport", IntToString(e.dport.value)] else [];
      if e.dport.Some? {
        PortWord(e.dport.value);
      }
      assert AreWords(tail);
      AreWordsAppend(head, tail);
    }
  }

  /** A rendered port number is one non-empty word. */
  lemma PortWord(d: int)
    ensures IntToString(d) != [] && NoSpace(IntToString(d))
  {
    NatToStringDigits(if d < 0 then -d else d);
  }

  lemma AreWordsAppend(a: seq<string>, b: seq<string>)
    requires AreWords(a) && AreWords(b)
    ensures AreWords(a + b)
  {
  }

  /** With addresses and protocols free of whitespace, every part is a word, so
      splitting a command line on whitespace gives back its parts. */
  lemma {:induction false} CommandWords(rule: InterpretedRule, catalog: Catalog, k: nat)
    requires k < |CommandParts(rule, catalog)|
    requires Truthy(rule.source) ==> NoSpace(rule.source.value)
    requires Truthy(rule.destination) ==> NoSpace(rule.destination.value)
    requires ParamsFor(rule.service, catalog).Some? ==>
      forall e :: e in ParamsFor(rule.service, catalog).value && Truthy(e.proto) ==> NoSpace(e.proto.value)
    ensures AreWords(CommandParts(rule, catalog)[k])
    ensures Split(Join(CommandParts(rule, catalog)[k], " ")) == CommandParts(rule, catalog)[k]
  {
    var t := TargetFor(rule.action).value;
    var params := ParamsFor(rule.service, catalog);
    var chain := ChainName(rule.chain);
    var base := BaseParts(chain, rule.source, rule.destination);
    BaseWords(chain, rule.source, rule.destination);
    var jump := ["-j", t];
    assert AreWords(jump) by {
      assert t in {"DROP", "ACCEPT"};
    }
    var p := CommandParts(rule, catalog)[k];
    if !IsCatchAll(rule.service) && params.Some? && params.value != [] {
      var e := params.value[k];
      assert e in params.value;
      ProtoWords(e);
      AreWordsAppend(ProtoParts(e), jump);
      AreWordsAppend(base, ProtoParts(e) + jump);
      assert p == base + (ProtoParts(e) + jump);
    } else {
      AreWordsAppend(base, jump);
      assert p == base + jump;
    }
    SplitJoin(p);
  }
}
