/** The view of a clause that both parsers work on: a sequence of tokens with
    the attributes the tokenizer supplies, the fixed vocabularies, the IPv4
    pattern the matcher uses, and the extraction of IP mentions together with
    the word that governs each. */
module Tokens {
  import opened Common
  import opened Strings

  /** One token: its text, its lemma, and the stop-word, punctuation and
      alphabetic flags the tokenizer computed. */
  datatype Token = Token(text: string, lemmaText: string, isStop: bool, isPunct: bool, isAlpha: bool)

  /** `tok.lemma_.lower()` */
  function LowerLemma(t: Token): string
  {
    Lower(t.lemmaText)
  }

  const ActionVerbs: set<string> := {"block", "deny", "drop", "reject", "allow", "permit", "accept"}
  const TargetPreps: set<string> := {"on", "at"}
  const SourcePreps: set<string> := {"from"}
  const DestinationPreps: set<string> := {"to"}
  const BoundaryPreps: set<string> := TargetPreps + SourcePreps + DestinationPreps

  /** One to three decimal digits: `\d{1,3}`. */
  predicate DigitGroup(g: string)
  {
    1 <= |g| <= 3 && forall i :: 0 <= i < |g| ==> IsDigit(g[i])
  }

  /** The whole text is `^(?:\d{1,3}\.){3}\d{1,3}$`: four digit groups joined by dots. */
  predicate IsIpText(s: string)
  {
    var f := Fields(s, '.');
    |f| == 4 && forall k :: 0 <= k < 4 ==> DigitGroup(f[k])
  }

  /** An IP mention: the address text, the lower-cased lemma of the token just
      before it (none at the start of the clause), and its token index. */
  datatype IpEntity = IpEntity(ip: string, prep: Option<string>, start: nat)

  function EntityAt(doc: seq<Token>, i: nat): IpEntity
    requires i < |doc|
  {
    IpEntity(doc[i].text, if i > 0 then Some(LowerLemma(doc[i - 1])) else None, i)
  }

  /** The IP mentions among the first `n` tokens, in token order. */
  function EntitiesUpTo(doc: seq<Token>, n: nat): seq<IpEntity>
    requires n <= |doc|
  {
    if n == 0 then []
    else EntitiesUpTo(doc, n - 1) + (if IsIpText(doc[n - 1].text) then [EntityAt(doc, n - 1)] else [])
  }

  /** `_extract_ip_entities(doc)`: one entity per token whose text is an IPv4 literal. */
  method ExtractIpEntities(doc: seq<Token>) returns (ents: seq<IpEntity>)
    ensures ents == EntitiesUpTo(doc, |doc|)
    ensures forall e :: e in ents <==> exists i :: 0 <= i < |doc| && IsIpText(doc[i].text) && e == EntityAt(doc, i)
    ensures forall k :: 0 <= k < |ents| ==> ents[k].ip != ""
  {
    ents := [];
    var i := 0;
    while i < |doc|
      invariant 0 <= i <= |doc|
      invariant ents == EntitiesUpTo(doc, i)
    {
      if IsIpText(doc[i].text) {
        var prep := if i > 0 then Some(LowerLemma(doc[i - 1])) else None;
        ents := ents + [IpEntity(doc[i].text, prep, i)];
      }
      i := i + 1;
    }
    EntitiesMembership(doc, |doc|);
    EntitiesNonEmpty(doc, |doc|);
  }

  // ---------------------------------------------------------------------
  // Lemmas

  /** An IPv4 literal is never empty. */
  lemma IpTextNonEmpty(s: string)
    requires IsIpText(s)
    ensures s != ""
  {
  }

  /** Four groups of one to three digits joined by dots form an IPv4 literal. */
  lemma DottedQuadIsIp(a: string, b: string, c: string, d: string)
    requires DigitGroup(a) && DigitGroup(b) && DigitGroup(c) && DigitGroup(d)
    ensures IsIpText(Join([a, b, c, d], "."))
  {
    var ws := [a, b, c, d];
    forall k | 0 <= k < 4 ensures '.' !in ws[k] {
      assert forall i :: 0 <= i < |ws[k]| ==> ws[k][i] != '.';
    }
    FieldsJoin(ws, '.');
  }

  /** The entities are exactly the IP tokens, each with the lemma before it. */
  lemma {:induction false} EntitiesMembership(doc: seq<Token>, n: nat)
    requires n <= |doc|
    ensures forall e :: e in EntitiesUpTo(doc, n) <==>
      exists i :: 0 <= i < n && IsIpText(doc[i].text) && e == EntityAt(doc, i)
  {
    if n > 0 {
      EntitiesMembership(doc, n - 1);
    }
  }

  /** The entities come in strictly increasing token order. */
  lemma {:induction false} EntitiesOrdered(doc: seq<Token>, n: nat)
    requires n <= |doc|
    ensures forall j, k :: 0 <= j < k < |EntitiesUpTo(doc, n)| ==>
      EntitiesUpTo(doc, n)[j].start < EntitiesUpTo(doc, n)[k].start
    ensures forall k :: 0 <= k < |EntitiesUpTo(doc, n)| ==> EntitiesUpTo(doc, n)[k].start < n
  {
    if n > 0 {
      EntitiesOrdered(doc, n - 1);
    }
  }

  lemma {:induction false} EntitiesNonEmpty(doc: seq<Token>, n: nat)
    requires n <= |doc|
    ensures forall k :: 0 <= k < |EntitiesUpTo(doc, n)| ==> EntitiesUpTo(doc, n)[k].ip != ""
  {
    if n > 0 {
      EntitiesNonEmpty(doc, n - 1);
    }
  }
}
