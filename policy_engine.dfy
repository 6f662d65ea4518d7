/** The legacy end-to-end compiler `parse_and_generate_commands`: for each
    parsed rule it settles the device (weighing an operator selection against
    the parser's target), the chain and the command lines, inline and with
    its own variants of the interpreter's and the builder's tables. */
module PolicyEngine {
  import opened Common
  import opened Strings
  import opened Tokens
  import opened Rules
  import opened ServiceMapper
  import opened RuleInterpreter
  import opened CommandBuilder
  import opened LegacyNlp

  /** One output tuple: the device, the rule's two addresses, and its command lines. */
  datatype Generated = Generated(
    target: string,
    source: Option<string>,
    destination: Option<string>,
    commands: seq<string>)

  /** The engine's explicitness test: the target is set and differs from the
      addresses that are set; with no address at all it is not explicit. */
  predicate EngineExplicit(target: Option<string>, source: Option<string>, destination: Option<string>)
  {
    && Truthy(target)
    && (|| (Truthy(source) && Truthy(destination) && target != source && target != destination)
        || (Truthy(source) && !Truthy(destination) && target != source)
        || (Truthy(destination) && !Truthy(source) && target != destination))
  }

  /** A parser target the operator's selection may replace: the source of a rule
      without a distinct destination, or the destination. */
  predicate EngineImplicitDefault(target: Option<string>, source: Option<string>, destination: Option<string>)
  {
    (target == source && (!Truthy(destination) || destination == source)) || target == destination
  }

  /** The device the engine settles on. */
  function EngineFinalTarget(rule: NlpRule, preferred: Option<string>): Option<string>
  {
    if !Truthy(preferred) then rule.target
    else if !Truthy(rule.target) then preferred
    else if !EngineExplicit(rule.target, rule.source, rule.destination)
            && EngineImplicitDefault(rule.target, rule.source, rule.destination)
    then preferred
    else rule.target
  }

  /** The engine's chain table. */
  function EngineChain(target: string, source: Option<string>, destination: Option<string>): Chain
  {
    if Some(target) == source && Truthy(destination) then Output
    else if Some(target) == destination && Truthy(source) then Input
    else if Truthy(source) && Truthy(destination) then Forward
    else if Truthy(source) then (if Some(target) == source then Output else Input)
    else if Truthy(destination) then (if Some(target) == destination then Output else Input)
    else Input
  }

  /** What one catalog entry adds; the protocol is compared as written, without lower-casing. */
  function EngineProtoParts(p: Param): seq<string>
  {
    if !Truthy(p.proto) then []
    else
      ["-p", p.proto.value]
      + (if p.proto.value in PortProtocols && p.dport.Some? then ["--dport", IntToString(p.dport.value)] else [])
  }

  /** The parts of each command line for a rule with base parts `base` and jump target `jump`. */
  function EngineCommandParts(base: seq<string>, service: Option<string>, catalog: Catalog, jump: string): seq<seq<string>>
  {
    if IsIgnoredService(service) then [base + ["-j", jump]]
    else
      var params := ParamsFor(service, catalog);
      if params.Some? && params.value != [] then
        seq(|params.value|, i requires 0 <= i < |params.value| => base + (EngineProtoParts(params.value[i]) + ["-j", jump]))
      else [base + ["-j", jump]]
  }

  function JoinEach(parts: seq<seq<string>>): (r: seq<string>)
    ensures |r| == |parts|
    ensures forall i :: 0 <= i < |parts| ==> r[i] == Join(parts[i], " ")
  {
    seq(|parts|, i requires 0 <= i < |parts| => Join(parts[i], " "))
  }

  /** One iteration of the engine's loop: the tuple for `rule`, or `None` when it is skipped. */
  function EngineRule(rule: NlpRule, preferred: Option<string>, catalog: Catalog): Option<Generated>
  {
    var target := EngineFinalTarget(rule, preferred);
    if !Truthy(target) then None
    else if !Truthy(rule.action) || !(Truthy(rule.source) || Truthy(rule.destination)) then None
    else
      var jump := Get(ActionTargets, rule.action.value);
      if !Truthy(jump) then None
      else
        var chain := EngineChain(target.value, rule.source, rule.destination);
        var base := BaseParts(ChainName(chain), rule.source, rule.destination);
        var commands := JoinEach(EngineCommandParts(base, rule.service, catalog, jump.value));
        if commands == [] then None
        else Some(Generated(target.value, rule.source, rule.destination, commands))
  }

  /** The engine's output for a list of parsed rules: the surviving tuples in order. */
  function EngineAll(rules: seq<NlpRule>, preferred: Option<string>, catalog: Catalog): seq<Generated>
  {
    if rules == [] then []
    else
      var last := EngineRule(rules[|rules| - 1], preferred, catalog);
      EngineAll(rules[..|rules| - 1], preferred, catalog) + (if last.Some? then [last.value] else [])
  }

  /** The body of the engine's loop for one rule. */
  method GenerateForRule(rule: NlpRule, preferred: Option<string>, catalog: Catalog) returns (g: Option<Generated>)
    ensures g == EngineRule(rule, preferred, catalog)
  {
    var source := rule.source;
    var destination := rule.destination;
    var finalTarget := rule.target;
    var wasExplicit := false;
    if Truthy(rule.target) {
      if Truthy(source) && Truthy(destination) && rule.target != source && rule.target != destination {
        wasExplicit := true;
      } else if Truthy(source) && !Truthy(destination) && rule.target != source {
        wasExplicit := true;
      } else if Truthy(destination) && !Truthy(source) && rule.target != destination {
        wasExplicit := true;
      }
    }
    if Truthy(preferred) {
      if !Truthy(rule.target) {
        finalTarget := preferred;
      } else if !wasExplicit {
        var implicitDefault := false;
        if rule.target == source && (!Truthy(destination) || destination == source) {
          implicitDefault := true;
        } else if rule.target == destination {
          implicitDefault := true;
        }
        if implicitDefault {
          finalTarget := preferred;
        }
      }
    }
    if !Truthy(finalTarget) {
      return None;
    }
    if !Truthy(rule.action) || !(Truthy(source) || Truthy(destination)) {
      return None;
    }
    var jump := Get(ActionTargets, rule.action.value);
    if !Truthy(jump) {
      return None;
    }
    var t := finalTarget.value;
    var chain := Input;
    if Some(t) == source && Truthy(destination) {
      chain := Output;
    } else if Some(t) == destination && Truthy(source) {
      chain := Input;
    } else if Truthy(source) && Truthy(destination) {
      chain := Forward;
    } else if Truthy(source) {
      if Some(t) == source {
        chain := Output;
      } else {
        chain := Input;
      }
    } else if Truthy(destination) {
      if Some(t) == destination {
        chain := Output;
      } else {
        chain := Input;
      }
    }
    assert chain == EngineChain(t, source, destination);
    var base := ["iptables", "-A", ChainName(chain)];
    if Truthy(source) {
      base := base + ["-s", source.value];
    }
    if Truthy(destination) {
      base := base + ["-d", destination.value];
    }
    assert base == BaseParts(ChainName(chain), source, destination);
    var commands := GenerateCommandLines(base, rule.service, catalog, jump.value);
    if commands != [] {
      g := Some(Generated(t, source, destination, commands));
    } else {
      g := None;
    }
  }

  /** The command lines of one rule (lines 158-181 of the engine). */
  method GenerateCommandLines(base: seq<string>, service: Option<string>, catalog: Catalog, jump: string)
    returns (commands: seq<string>)
    ensures commands == JoinEach(EngineCommandParts(base, service, catalog, jump))
  {
    commands := [];
    if IsIgnoredService(service) {
      commands := commands + [Join(base + ["-j", jump], " ")];
    } else {
      var paramList := ParamsFor(service, catalog);
      if paramList.Some? && paramList.value != [] {
        var params := paramList.value;
        var i := 0;
        while i < |params|
          invariant 0 <= i <= |params|
          invariant |commands| == i
          invariant forall j :: 0 <= j < i ==> commands[j] == Join(base + (EngineProtoParts(params[j]) + ["-j", jump]), " ")
        {
          var parts := base;
          var proto := params[i].proto;
          var dport := params[i].dport;
          if Truthy(proto) {
            parts := parts + ["-p", proto.value];
            if proto.value in PortProtocols && dport.Some? {
              parts := parts + ["--dport", IntToString(dport.value)];
            }
          }
          parts := parts + ["-j", jump];
          assert parts == base + (EngineProtoParts(params[i]) + ["-j", jump]);
          commands := commands + [Join(parts, " ")];
          i := i + 1;
        }
      } else {
        commands := commands + [Join(base + ["-j", jump], " ")];
      }
    }
  }

  /** `parse_and_generate_commands` on an already parsed rule list. */
  method ParseAndGenerateCommands(rules: seq<NlpRule>, preferred: Option<string>, catalog: Catalog)
    returns (out: seq<Generated>)
    ensures out == EngineAll(rules, preferred, catalog)
  {
    if rules == [] {
      return [];
    }
    out := [];
    var i := 0;
    while i < |rules|
      invariant 0 <= i <= |rules|
      invariant out == EngineAll(rules[..i], preferred, catalog)
    {
      assert rules[..i + 1][..i] == rules[..i];
      var g := GenerateForRule(rules[i], preferred, catalog);
      if g.Some? {
        out := out + [g.value];
      }
      i := i + 1;
    }
    assert rules[..|rules|] == rules;
  }

  /** The whole engine: the legacy parser's rules for `sentences`, then the loop. */
  method ParseAndGenerate(sentences: seq<seq<Token>>, preferred: Option<string>, catalog: Catalog)
    returns (out: seq<Generated>)
    ensures out == EngineAll(Collect(LegacyParseSingleSpec, sentences), preferred, catalog)
  {
    var rules := LegacyParseCommands(sentences);
    out := ParseAndGenerateCommands(rules, preferred, catalog);
  }

  // ---------------------------------------------------------------------
  // Lemmas

  /** A rule is skipped exactly when no device is settled, the verb is missing
      or not in the (case-sensitive) table, or neither address is set; a
      surviving rule always has at least one command line. */
  lemma EngineSkips(rule: NlpRule, preferred: Option<string>, catalog: Catalog)
    ensures EngineRule(rule, preferred, catalog).None? <==>
      || !Truthy(EngineFinalTarget(rule, preferred))
      || !Truthy(rule.action)
      || rule.action.value !in ActionTargets
      || !(Truthy(rule.source) || Truthy(rule.destination))
    ensures EngineRule(rule, preferred, catalog).Some? ==>
      var g := EngineRule(rule, preferred, catalog).value;
      && g.commands != []
      && Some(g.target) == EngineFinalTarget(rule, preferred)
      && g.source == rule.source && g.destination == rule.destination
  {
  }

  /** The operator's selection is used when the parser gave no target, replaces an
      implicit one, and is ignored for a target that differs from every address set. */
  lemma EngineTargetChoice(rule: NlpRule, preferred: Option<string>)
    ensures !Truthy(preferred) ==> EngineFinalTarget(rule, preferred) == rule.target
    ensures Truthy(preferred) && !Truthy(rule.target) ==> EngineFinalTarget(rule, preferred) == preferred
    ensures Truthy(preferred) && Truthy(rule.target) && EngineImplicitDefault(rule.target, rule.source, rule.destination) ==>
      EngineFinalTarget(rule, preferred) == preferred
    ensures Truthy(rule.target) && !EngineImplicitDefault(rule.target, rule.source, rule.destination) ==>
      EngineFinalTarget(rule, preferred) == rule.target
  {
    if Truthy(preferred) && Truthy(rule.target) && EngineImplicitDefault(rule.target, rule.source, rule.destination) {
      assert !EngineExplicit(rule.target, rule.source, rule.destination);
    }
  }

  /** The chain table, case by case. */
  lemma EngineChainTable(target: string, source: Option<string>, destination: Option<string>)
    requires target != ""
    ensures Truthy(source) && Truthy(destination) ==>
      EngineChain(target, source, destination) ==
        (if target == source.value then Output else if target == destination.value then Input else Forward)
    ensures Truthy(source) && !Truthy(destination) ==>
      EngineChain(target, source, destination) == (if target == source.value then Output else Input)
    ensures !Truthy(source) && Truthy(destination) ==>
      EngineChain(target, source, destination) == (if target == destination.value then Output else Input)
    ensures !Truthy(source) && !Truthy(destination) ==> EngineChain(target, source, destination) == Input
  {
  }

  /** Where the engine and the interpreter part: a rule with only a destination,
      installed on that destination, goes to OUTPUT here and to INPUT there; every
      rule with a source gets the same chain from both. */
  lemma ChainDivergence(target: string, source: Option<string>, destination: Option<string>)
    requires target != ""
    ensures !Truthy(source) && destination == Some(target) ==>
      EngineChain(target, source, destination) == Output && ChooseChain(target, source, destination) == Input
    ensures Truthy(source) ==> EngineChain(target, source, destination) == ChooseChain(target, source, destination)
  {
    EngineChainTable(target, source, destination);
    ChainMatchesReference(target, source, destination);
  }

  /** Where the engine and the interpreter part on the device: a parser target equal
      to the source of a rule whose destination differs is kept here, while the
      interpreter replaces it with the operator's selection. */
  lemma SourceTargetKept(rule: NlpRule, preferred: string)
    requires preferred != "" && Truthy(rule.source) && Truthy(rule.destination)
    requires rule.target == rule.source && rule.destination != rule.source
    ensures EngineFinalTarget(rule, Some(preferred)) == rule.source
    ensures FinalTarget(rule, Some(preferred)) == Some(preferred)
  {
  }

  /** Commands per service: one plain `base -j <jump>` command for a catch-all
      (matched exactly, `None` included) or an unknown service, and one per entry
      of a known one, each made of the base, the entry's options and the jump. */
  lemma EngineCommandCount(base: seq<string>, service: Option<string>, catalog: Catalog, jump: string)
    ensures IsIgnoredService(service) ==> EngineCommandParts(base, service, catalog, jump) == [base + ["-j", jump]]
    ensures !IsIgnoredService(service) && ParamsFor(service, catalog).Some? && ParamsFor(service, catalog).value != [] ==>
      && |EngineCommandParts(base, service, catalog, jump)| == |ParamsFor(service, catalog).value|
      && forall k :: 0 <= k < |ParamsFor(service, catalog).value| ==>
           var p := EngineCommandParts(base, service, catalog, jump)[k];
           p[..|base|] == base && p[|base|..] == EngineProtoParts(ParamsFor(service, catalog).value[k]) + ["-j", jump]
    ensures !IsIgnoredService(service) && (ParamsFor(service, catalog).None? || ParamsFor(service, catalog).value == []) ==>
      EngineCommandParts(base, service, catalog, jump) == [base + ["-j", jump]]
  {
  }

  /** An entry's command carries its protocol, and a port exactly when the
      protocol is written "tcp" or "udp" and a port is given. */
  lemma EngineEntryParts(p: Param)
    ensures Truthy(p.proto) ==> EngineProtoParts(p)[..2] == ["-p", p.proto.value]
    ensures |EngineProtoParts(p)| == 4 <==> Truthy(p.proto) && p.proto.value in PortProtocols && p.dport.Some?
    ensures |EngineProtoParts(p)| == 4 ==> EngineProtoParts(p)[2..] == ["--dport", IntToString(p.dport.value)]
    ensures !Truthy(p.proto) <==> EngineProtoParts(p) == []
  {
  }

  /** The output keeps the input's order: the tuples of a concatenation are the
      tuples of each part, one after the other. */
  lemma {:induction false} EngineAllAppend(a: seq<NlpRule>, b: seq<NlpRule>, preferred: Option<string>, catalog: Catalog)
    ensures EngineAll(a + b, preferred, catalog) == EngineAll(a, preferred, catalog) + EngineAll(b, preferred, catalog)
    decreases |b|
  {
    if b == [] {
      assert a + b == a;
    } else {
      var init := b[..|b| - 1];
      EngineAllAppend(a, init, preferred, catalog);
      assert (a + b)[..|a + b| - 1] == a + init;
      assert (a + b)[|a + b| - 1] == b[|b| - 1];
    }
  }

  /** Every output tuple comes from some input rule, and there are never more
      tuples than rules; no rules, no tuples. */
  lemma {:induction false} EngineAllMembership(rules: seq<NlpRule>, preferred: Option<string>, catalog: Catalog)
    ensures |EngineAll(rules, preferred, catalog)| <= |rules|
    ensures forall g :: g in EngineAll(rules, preferred, catalog) <==>
      exists i :: 0 <= i < |rules| && EngineRule(rules[i], preferred, catalog) == Some(g)
    ensures rules == [] ==> EngineAll(rules, preferred, catalog) == []
  {
    if rules != [] {
      var init := rules[..|rules| - 1];
      EngineAllMembership(init, preferred, catalog);
      assert forall i :: 0 <= i < |init| ==> init[i] == rules[i];
    }
  }

  /** Every rule the legacy parser yields survives the engine: it has a target, an
      address and a verb from the table, so the engine emits one tuple per rule. */
  lemma {:induction false} ParsedRulesAllSurvive(sentences: seq<seq<Token>>, preferred: Option<string>, catalog: Catalog)
    ensures |EngineAll(Collect(LegacyParseSingleSpec, sentences), preferred, catalog)| == |Collect(LegacyParseSingleSpec, sentences)|
  {
    var rules := Collect(LegacyParseSingleSpec, sentences);
    CollectMembership(LegacyParseSingleSpec, sentences);
    forall r | r in rules
      ensures EngineRule(r, preferred, catalog).Some?
    {
      var i :| 0 <= i < |sentences| && LegacyParseSingleSpec(sentences[i]) == Some(r);
      ParsedRuleSurvives(sentences[i], preferred, catalog);
    }
    AllSurviveLength(rules, preferred, catalog);
  }

  lemma ParsedRuleSurvives(doc: seq<Token>, preferred: Option<string>, catalog: Catalog)
    requires LegacyParseSingleSpec(doc).Some?
    ensures EngineRule(LegacyParseSingleSpec(doc).value, preferred, catalog).Some?
  {
    var r := LegacyParseSingleSpec(doc).value;
    LegacyParseOutcome(doc);
    CompleteRuleSurvives(r, preferred, catalog);
  }

  /** A rule with a target, an address and a lower-case verb from the table survives. */
  lemma CompleteRuleSurvives(r: NlpRule, preferred: Option<string>, catalog: Catalog)
    requires r.action.Some? && r.action.value in ActionVerbs
    requires Truthy(r.target) && (Truthy(r.source) || Truthy(r.destination))
    ensures EngineRule(r, preferred, catalog).Some?
  {
    assert Truthy(EngineFinalTarget(r, preferred));
    EngineSkips(r, preferred, catalog);
  }

  lemma {:induction false} AllSurviveLength(rules: seq<NlpRule>, preferred: Option<string>, catalog: Catalog)
    requires forall r :: r in rules ==> EngineRule(r, preferred, catalog).Some?
    ensures |EngineAll(rules, preferred, catalog)| == |rules|
  {
    if rules != [] {
      var init := rules[..|rules| - 1];
      assert forall r :: r in init ==> r in rules;
      assert rules[|rules| - 1] in rules;
      AllSurviveLength(init, preferred, catalog);
    }
  }
}
