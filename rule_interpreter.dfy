/** The interpreter that decides on which device a parsed rule is installed
    and in which chain: it weighs the parser's target against the device the
    operator selected, then picks INPUT, OUTPUT or FORWARD from where that
    device sits relative to the rule's source and destination. */
module RuleInterpreter {
  import opened Common
  import opened Rules

  datatype Chain = Input | Output | Forward

  function ChainName(c: Chain): string
  {
    match c
    case Input => "INPUT"
    case Output => "OUTPUT"
    case Forward => "FORWARD"
  }

  /** The record the interpreter returns. */
  datatype InterpretedRule = InterpretedRule(
    finalTarget: string,
    chain: Chain,
    action: Option<string>,
    service: Option<string>,
    source: Option<string>,
    destination: Option<string>,
    original: NlpRule)

  /** The parser's target counts as explicit when it is set and differs from
      every address of the rule that is set. */
  predicate TargetWasExplicit(target: Option<string>, source: Option<string>, destination: Option<string>)
  {
    if !Truthy(target) then false
    else
      var differsFromSource := Truthy(source) && target != source;
      var differsFromDestination := Truthy(destination) && target != destination;
      || (Truthy(source) && Truthy(destination) && differsFromSource && differsFromDestination)
      || (Truthy(source) && !Truthy(destination) && differsFromSource)
      || (Truthy(destination) && !Truthy(source) && differsFromDestination)
      || (!Truthy(source) && !Truthy(destination))
  }

  /** The device the rule goes to: the operator's selection replaces a missing
      or implicit parser target. */
  function FinalTarget(rule: NlpRule, preferred: Option<string>): Option<string>
  {
    if Truthy(preferred) && (!Truthy(rule.target) || !TargetWasExplicit(rule.target, rule.source, rule.destination))
    then preferred
    else rule.target
  }

  /** The chain chosen for a rule installed on `target`. */
  function ChooseChain(target: string, source: Option<string>, destination: Option<string>): Chain
  {
    if Some(target) == source && Truthy(destination) then Output
    else if Some(target) == destination && Truthy(source) then Input
    else if Truthy(source) && Truthy(destination) then
      (if Some(target) != source && Some(target) != destination then Forward
       else if Some(target) == source then Output
       else Input)
    else if Truthy(source) then (if Some(target) == source then Output else Input)
    else Input
  }

  /** `determine_final_target_and_chain(nlp_rule, preferred_target_ip)`. */
  function DetermineFinalTargetAndChain(rule: NlpRule, preferred: Option<string>): Option<InterpretedRule>
  {
    var target := FinalTarget(rule, preferred);
    if !Truthy(target) then None
    else Some(InterpretedRule(target.value, ChooseChain(target.value, rule.source, rule.destination),
                              rule.action, rule.service, rule.source, rule.destination, rule))
  }

  /** The reference placement: on the source of a two-ended rule, outgoing; on
      its destination, incoming; elsewhere, forwarded. With only a source, the
      source's own traffic is outgoing and anyone else's incoming. Every other
      rule is incoming. */
  function ReferenceChain(target: string, source: Option<string>, destination: Option<string>): Chain
  {
    if Truthy(source) && Truthy(destination) then
      (if target == source.value then Output else if target == destination.value then Input else Forward)
    else if Truthy(source) then (if target == source.value then Output else Input)
    else Input
  }

  // ---------------------------------------------------------------------
  // Lemmas

  /** The chain follows the reference placement. */
  lemma ChainMatchesReference(target: string, source: Option<string>, destination: Option<string>)
    requires target != ""
    ensures ChooseChain(target, source, destination) == ReferenceChain(target, source, destination)
  {
  }

  /** Explicit means: set, and different from each of the source and the destination that is set. */
  lemma ExplicitMeansDistinct(target: Option<string>, source: Option<string>, destination: Option<string>)
    ensures TargetWasExplicit(target, source, destination) <==>
      && Truthy(target)
      && (Truthy(source) ==> target != source)
      && (Truthy(destination) ==> target != destination)
  {
  }

  /** A rule is dropped exactly when neither the parser nor the operator names a device;
      otherwise the final device is the operator's choice exactly when the parser's
      target is missing or implicit, and the parser's otherwise. */
  lemma FinalTargetChoice(rule: NlpRule, preferred: Option<string>)
    ensures DetermineFinalTargetAndChain(rule, preferred).None? <==> !Truthy(preferred) && !Truthy(rule.target)
    ensures DetermineFinalTargetAndChain(rule, preferred).Some? ==>
      var r := DetermineFinalTargetAndChain(rule, preferred).value;
      && r.finalTarget != ""
      && (Truthy(preferred) && !TargetWasExplicit(rule.target, rule.source, rule.destination) ==> Some(r.finalTarget) == preferred)
      && (TargetWasExplicit(rule.target, rule.source, rule.destination) ==> Some(r.finalTarget) == rule.target)
      && (!Truthy(preferred) ==> Some(r.finalTarget) == rule.target)
  {
  }

  /** The action, the service and both addresses pass through unchanged, and the
      chain is the reference placement of the final device. */
  lemma InterpretedFields(rule: NlpRule, preferred: Option<string>)
    requires DetermineFinalTargetAndChain(rule, preferred).Some?
    ensures var r := DetermineFinalTargetAndChain(rule, preferred).value;
      && r.action == rule.action && r.service == rule.service
      && r.source == rule.source && r.destination == rule.destination && r.original == rule
      && r.chain == ReferenceChain(r.finalTarget, rule.source, rule.destination)
  {
    var r := DetermineFinalTargetAndChain(rule, preferred).value;
    ChainMatchesReference(r.finalTarget, rule.source, rule.destination);
  }

  /** A parser target equal to the source of a rule with a destination is
      overridden by an operator selection; the rule then goes out of, into or
      through the selected device as it sits relative to the two ends. */
  lemma ImplicitSourceTargetOverridden(rule: NlpRule, preferred: string)
    requires preferred != "" && Truthy(rule.source) && Truthy(rule.destination)
    requires rule.target == rule.source
    ensures DetermineFinalTargetAndChain(rule, Some(preferred)).Some?
    ensures DetermineFinalTargetAndChain(rule, Some(preferred)).value.finalTarget == preferred
    ensures preferred != rule.source.value && preferred != rule.destination.value ==>
      DetermineFinalTargetAndChain(rule, Some(preferred)).value.chain == Forward
  {
  }
}
