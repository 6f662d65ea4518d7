/** The older single-file clause parser. It shares the vocabularies, the IP
    extraction and the three preposition passes with the backend parser, but
    takes the FIRST action verb, searches for the service only after it,
    turns a lone leftover address into the source without comparing it with
    the target, and rejects a rule that has neither a source nor a
    destination. Its `preprocess` is the backend's `CleanRawText`. */
module LegacyNlp {
  import opened Common
  import opened Tokens
  import opened Rules
  import opened BackendNlp

  /** The first action verb at or after token `j`, with its index. */
  function FirstActionFrom(doc: seq<Token>, j: nat): (r: Option<(string, nat)>)
    requires j <= |doc|
    ensures r.None? <==> forall i :: j <= i < |doc| ==> LowerLemma(doc[i]) !in ActionVerbs
    ensures r.Some? ==> j <= r.value.1 < |doc| && r.value.0 == LowerLemma(doc[r.value.1]) && r.value.0 in ActionVerbs
    ensures r.Some? ==> forall i :: j <= i < r.value.1 ==> LowerLemma(doc[i]) !in ActionVerbs
    decreases |doc| - j
  {
    if j == |doc| then None
    else if LowerLemma(doc[j]) in ActionVerbs then Some((LowerLemma(doc[j]), j))
    else FirstActionFrom(doc, j + 1)
  }

  /** The forward service search: stop words and punctuation are skipped
      before the boundary test, other non-alphabetic tokens are skipped, and
      the first remaining alphabetic token is the service. */
  function ServiceFrom(doc: seq<Token>, j: nat): Option<string>
    requires j <= |doc|
    decreases |doc| - j
  {
    if j == |doc| then None
    else
      var t := doc[j];
      if t.isStop || t.isPunct then ServiceFrom(doc, j + 1)
      else if LowerLemma(t) in BoundaryPreps then None
      else if t.isAlpha then Some(LowerLemma(t))
      else ServiceFrom(doc, j + 1)
  }

  /** Some entity was preceded by a word of `preps`: the `*_assigned` flags. */
  predicate AnyWith(ents: seq<IpEntity>, preps: set<string>)
  {
    exists k :: 0 <= k < |ents| && HasPrep(ents[k], preps)
  }

  /** The roles the legacy parser assigns. */
  function LegacyRolesSpec(ents: seq<IpEntity>): Roles
  {
    var (target, r1) := TargetPass(ents, |ents|);
    var explicit := AnyWith(ents, TargetPreps);
    var (source, r2) := ClaimPass(r1, |r1|, SourcePreps);
    var (destination, r3) := ClaimPass(r2, |r2|, DestinationPreps);
    var sourceFlag := AnyWith(r1, SourcePreps);
    var destinationFlag := AnyWith(r2, DestinationPreps);
    var lone := |r3| == 1 && !sourceFlag && !destinationFlag;
    var source' := if lone then Some(r3[0].ip) else source;
    var r4 := if lone then [] else r3;
    var target' :=
      if explicit then target
      else if destinationFlag then destination
      else if sourceFlag || lone then source'
      else target;
    Roles(source', destination, target', r4)
  }

  /** `parse_single(cmd)` on the clause's tokens. */
  function LegacyParseSingleSpec(doc: seq<Token>): Option<NlpRule>
  {
    var first := FirstActionFrom(doc, 0);
    var service := if first.Some? then ServiceFrom(doc, first.value.1 + 1) else None;
    var roles := LegacyRolesSpec(EntitiesUpTo(doc, |doc|));
    if first.None? || !Truthy(roles.target) || (!Truthy(roles.source) && !Truthy(roles.destination)) then None
    else Some(NlpRule(Some(first.value.0), if Truthy(service) then service else Some("any"),
                      roles.source, roles.destination, roles.target))
  }

  /** A claiming pass that also reports whether any entity matched. */
  method ClaimFirstFlagged(ents: seq<IpEntity>, preps: set<string>)
    returns (claimed: Option<string>, matched: bool, rest: seq<IpEntity>)
    ensures (claimed, rest) == ClaimPass(ents, |ents|, preps)
    ensures matched == AnyWith(ents, preps)
  {
    claimed, matched, rest := None, false, [];
    var k := 0;
    while k < |ents|
      invariant 0 <= k <= |ents|
      invariant (claimed, rest) == ClaimPass(ents, k, preps)
      invariant matched == exists m :: 0 <= m < k && HasPrep(ents[m], preps)
      invariant claimed.Some? ==> matched
    {
      var e := ents[k];
      if HasPrep(e, preps) {
        if !Truthy(claimed) {
          claimed := Some(e.ip);
          matched := true;
        }
      } else {
        rest := rest + [e];
      }
      k := k + 1;
    }
  }

  /** The first loop of `parse_single`: the first action verb and its index, or -1. */
  method FindFirstAction(doc: seq<Token>) returns (action: Option<string>, actionIdx: int)
    ensures FirstActionFrom(doc, 0).None? ==> action.None? && actionIdx == -1
    ensures FirstActionFrom(doc, 0).Some? ==>
      action == Some(FirstActionFrom(doc, 0).value.0) && actionIdx == FirstActionFrom(doc, 0).value.1
  {
    action, actionIdx := None, -1;
    var i := 0;
    while i < |doc|
      invariant 0 <= i <= |doc|
      invariant FirstActionFrom(doc, 0) == FirstActionFrom(doc, i)
      invariant action.None? && actionIdx == -1
      decreases |doc| - i
    {
      var l := LowerLemma(doc[i]);
      if l in ActionVerbs {
        action := Some(l);
        actionIdx := i;
        break;
      }
      i := i + 1;
    }
  }

  /** The second loop of `parse_single`: the service after the action. */
  method FindService(doc: seq<Token>, actionIdx: int) returns (service: Option<string>)
    requires -1 <= actionIdx < |doc|
    ensures service == if actionIdx == -1 then None else ServiceFrom(doc, actionIdx + 1)
  {
    service := None;
    if actionIdx != -1 {
      var j := actionIdx + 1;
      while j < |doc|
        invariant actionIdx + 1 <= j <= |doc|
        invariant ServiceFrom(doc, actionIdx + 1) == ServiceFrom(doc, j)
        invariant service.None?
        decreases |doc| - j
      {
        var t := doc[j];
        if t.isStop || t.isPunct {
          j := j + 1;
          continue;
        }
        if LowerLemma(t) in BoundaryPreps {
          break;
        }
        if t.isAlpha {
          service := Some(LowerLemma(t));
          break;
        }
        j := j + 1;
      }
    }
  }

  /** The role passes of `parse_single`. */
  method LegacyAssignRoles(ents: seq<IpEntity>) returns (source: Option<string>, destination: Option<string>,
                                                         target: Option<string>, remaining: seq<IpEntity>)
    ensures Roles(source, destination, target, remaining) == LegacyRolesSpec(ents)
  {
    target := None;
    var explicit := false;
    var temp: seq<IpEntity> := [];
    var k := 0;
    while k < |ents|
      invariant 0 <= k <= |ents|
      invariant (target, temp) == TargetPass(ents, k)
      invariant explicit == exists m :: 0 <= m < k && HasPrep(ents[m], TargetPreps)
      invariant target.Some? ==> explicit
    {
      var e := ents[k];
      if HasPrep(e, TargetPreps) {
        if !Truthy(target) {
          target := Some(e.ip);
          explicit := true;
        } else {
          temp := temp + [e];
        }
      } else {
        temp := temp + [e];
      }
      k := k + 1;
    }
    var sourceAssigned, destinationAssigned;
    source, sourceAssigned, remaining := ClaimFirstFlagged(temp, SourcePreps);
    destination, destinationAssigned, remaining := ClaimFirstFlagged(remaining, DestinationPreps);
    if |remaining| == 1 && !sourceAssigned && !destinationAssigned {
      source := Some(remaining[0].ip);
      sourceAssigned := true;
      remaining := [];
    }
    if !explicit {
      if destinationAssigned {
        target := destination;
      } else if sourceAssigned {
        target := source;
      }
    }
  }

  method LegacyParseSingle(doc: seq<Token>) returns (r: Option<NlpRule>)
    ensures r == LegacyParseSingleSpec(doc)
  {
    var action, actionIdx := FindFirstAction(doc);
    var service := FindService(doc, actionIdx);
    var ents := ExtractIpEntities(doc);
    var source, destination, target, _ := LegacyAssignRoles(ents);
    if !Truthy(action) || !Truthy(target) || (!Truthy(source) && !Truthy(destination)) {
      return None;
    }
    if !Truthy(service) {
      service := Some("any");
    }
    r := Some(NlpRule(action, service, source, destination, target));
  }
  /** `parse_commands(text)` on the sentences' tokens: each sentence parsed,
      the empty results dropped. */
  method LegacyParseCommands(sentences: seq<seq<Token>>) returns (out: seq<NlpRule>)
    ensures out == Collect(LegacyParseSingleSpec, sentences)
    ensures forall r :: r in out <==> exists i :: 0 <= i < |sentences| && LegacyParseSingleSpec(sentences[i]) == Some(r)
  {
    out := [];
    var i := 0;
    while i < |sentences|
      invariant 0 <= i <= |sentences|
      invariant out == Collect(LegacyParseSingleSpec, sentences[..i])
    {
      var r := LegacyParseSingle(sentences[i]);
      assert sentences[..i + 1][..i] == sentences[..i];
      if r.Some? {
        out := out + [r.value];
      }
      i := i + 1;
    }
    assert sentences[..|sentences|] == sentences;
    CollectMembership(LegacyParseSingleSpec, sentences);
  }

  // ---------------------------------------------------------------------
  // Lemmas

  /** The service is an alphabetic token that is neither a stop word, nor
      punctuation, nor a boundary preposition. */
  lemma {:induction false} ServiceFromFinds(doc: seq<Token>, j: nat)
    requires j <= |doc|
    ensures ServiceFrom(doc, j).Some? ==>
      exists k :: j <= k < |doc| && doc[k].isAlpha && !doc[k].isStop && !doc[k].isPunct &&
        LowerLemma(doc[k]) !in BoundaryPreps && ServiceFrom(doc, j).value == LowerLemma(doc[k])
    decreases |doc| - j
  {
    if j < |doc| {
      ServiceFromFinds(doc, j + 1);
    }
  }

  lemma AnyWithFirst(ents: seq<IpEntity>, preps: set<string>)
    ensures AnyWith(ents, preps) <==> FirstWith(ents, preps).Some?
  {
    FirstWithIndex(ents, preps);
  }

  /** The legacy roles follow the same prepositions as the backend's: the
      first on/at, from and to addresses are the target, the source and the
      destination; with no from and no to address, a single leftover address
      becomes the source even when it is the explicit target. */
  lemma LegacyRolesPriority(ents: seq<IpEntity>)
    requires IpsNonEmpty(ents)
    ensures FirstWith(ents, TargetPreps).Some? ==> LegacyRolesSpec(ents).target == FirstWith(ents, TargetPreps)
    ensures FirstWith(ents, SourcePreps).Some? ==> LegacyRolesSpec(ents).source == FirstWith(ents, SourcePreps)
    ensures LegacyRolesSpec(ents).destination == FirstWith(ents, DestinationPreps)
    ensures FirstWith(ents, SourcePreps).None? ==>
      LegacyRolesSpec(ents).source ==
        (if FirstWith(ents, DestinationPreps).None? && |Leftover(ents)| == 1 then Some(Leftover(ents)[0].ip) else None)
    ensures FirstWith(ents, TargetPreps).None? ==>
      LegacyRolesSpec(ents).target ==
        (if LegacyRolesSpec(ents).destination.Some? then LegacyRolesSpec(ents).destination else LegacyRolesSpec(ents).source)
  {
    PassesFacts(ents);
    var r1 := TargetPass(ents, |ents|).1;
    var r2 := ClaimPass(r1, |r1|, SourcePreps).1;
    TargetPassKeeps(ents, |ents|, SourcePreps);
    TargetPassKeeps(ents, |ents|, DestinationPreps);
    ClaimPassKeeps(r1, |r1|, SourcePreps, DestinationPreps);
    assert r1[..|r1|] == r1 && ents[..|ents|] == ents;
    AnyWithFirst(ents, TargetPreps);
    AnyWithFirst(r1, SourcePreps);
    AnyWithFirst(r2, DestinationPreps);
  }

  /** "block A on A": the address after "on" is also mentioned bare. The
      backend will not make the explicit target the source and leaves the
      source empty; the legacy parser makes it the source. */
  lemma RepeatedTargetAddress(a: string, p: Option<string>, i: nat, j: nat)
    requires a != ""
    requires !(p.Some? && p.value in BoundaryPreps)
    ensures var ents := [IpEntity(a, p, i), IpEntity(a, Some("on"), j)];
      && AssignRolesSpec(ents).source == None && AssignRolesSpec(ents).target == Some(a)
      && LegacyRolesSpec(ents).source == Some(a) && LegacyRolesSpec(ents).target == Some(a)
  {
    var bare := IpEntity(a, p, i);
    var on := IpEntity(a, Some("on"), j);
    var ents := [bare, on];
    assert ents[..1] == [bare] && [bare][..0] == [];
    assert !HasPrep(bare, TargetPreps) && !HasPrep(bare, SourcePreps) && !HasPrep(bare, DestinationPreps);
    assert HasPrep(on, TargetPreps) && !HasPrep(on, SourcePreps) && !HasPrep(on, DestinationPreps);
    assert FirstWith([bare], TargetPreps) == None;
    assert Leftover([bare]) == [bare];
    assert Leftover(ents) == [bare];
    FirstWithAppend([bare], on, TargetPreps);
    assert [bare] + [on] == ents;
    assert FirstWith(ents, TargetPreps) == Some(a);
    FirstWithIndex(ents, SourcePreps);
    FirstWithIndex(ents, DestinationPreps);
    RolesPriority(ents);
    LegacyRolesPriority(ents);
  }

  /** A parsed clause has an action verb, a non-empty service and target, and
      a source or a destination. */
  lemma LegacyParseOutcome(doc: seq<Token>)
    ensures LegacyParseSingleSpec(doc).Some? ==>
      var r := LegacyParseSingleSpec(doc).value;
      && r.action.Some? && r.action.value in ActionVerbs
      && Truthy(r.service) && Truthy(r.target) && (Truthy(r.source) || Truthy(r.destination))
    ensures (forall i :: 0 <= i < |doc| ==> LowerLemma(doc[i]) !in ActionVerbs) ==> LegacyParseSingleSpec(doc).None?
  {
  }

  /** Where the two parsers part: a clause whose only address follows "on" or
      "at" becomes a rule without source or destination in the backend parser,
      while the legacy parser rejects it. */
  lemma {:induction false} TargetOnlyClause(doc: seq<Token>, e: IpEntity)
    requires LastAction(doc).Some?
    requires EntitiesUpTo(doc, |doc|) == [e] && HasPrep(e, TargetPreps)
    ensures ParseSingleSpec(doc).Some?
    ensures ParseSingleSpec(doc).value.target == Some(e.ip)
    ensures ParseSingleSpec(doc).value.source.None? && ParseSingleSpec(doc).value.destination.None?
    ensures LegacyParseSingleSpec(doc).None?
  {
    EntitiesIpsNonEmpty(doc);
    assert e in EntitiesUpTo(doc, |doc|);
    assert TargetPass([e], 0) == (None, []);
    assert TargetPass([e], 1) == (Some(e.ip), []);
    assert ClaimPass([], 0, SourcePreps) == (None, []);
    assert ClaimPass([], 0, DestinationPreps) == (None, []);
  }
}

