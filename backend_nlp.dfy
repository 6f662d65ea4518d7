/** The clause parser of the backend package: text cleaning, alias
    substitution, and, per clause, the action verb, the service word, the IP
    mentions and the roles (target, source, destination) assigned to them.
    The tokenizer is outside the model: a clause arrives as its tokens, and
    the input text as its sentences' tokens. */
module BackendNlp {
  import opened Common
  import opened Strings
  import opened Tokens
  import opened Rules

  // =====================================================================
  // Text cleaning and alias substitution

  /** `_clean_raw_text`: strip, lower-case, commas to spaces, collapse whitespace. */
  function CleanRawText(text: string): string
  {
    Join(Split(ReplaceChar(Lower(Strip(text)), ',', ' ')), " ")
  }

  /** The word characters of the regex `\b` (ASCII letters, digits, underscore). */
  predicate IsWordChar(c: char)
  {
    'a' <= c <= 'z' || 'A' <= c <= 'Z' || IsDigit(c) || c == '_'
  }

  /** `\b` at position `i` of `s`: a word character on exactly one side. */
  predicate Boundary(s: string, i: nat)
    requires i <= |s|
  {
    (i > 0 && IsWordChar(s[i - 1])) != (i < |s| && IsWordChar(s[i]))
  }

  /** `\b<alias>\b` matches at position `i`. */
  predicate MatchAt(s: string, alias: string, i: nat)
    requires i <= |s|
  {
    i + |alias| <= |s| && s[i..i + |alias|] == alias && Boundary(s, i) && Boundary(s, i + |alias|)
  }

  /** `re.sub(r'\b' + re.escape(alias) + r'\b', ip, s)` from position `i` on:
      a left-to-right scan that replaces each whole-word occurrence. */
  function ReplaceWholeWordFrom(s: string, alias: string, ip: string, i: nat): string
    requires alias != "" && i <= |s|
    decreases |s| - i
  {
    if i == |s| then ""
    else if MatchAt(s, alias, i) then ip + ReplaceWholeWordFrom(s, alias, ip, i + |alias|)
    else [s[i]] + ReplaceWholeWordFrom(s, alias, ip, i + 1)
  }

  function ReplaceWholeWord(s: string, alias: string, ip: string): string
    requires alias != ""
  {
    ReplaceWholeWordFrom(s, alias, ip, 0)
  }

  /** One alias entry: (lower-case name, address). */
  type AliasEntry = (string, string)

  predicate NamesNonEmpty(entries: seq<AliasEntry>)
  {
    forall k :: 0 <= k < |entries| ==> entries[k].0 != ""
  }

  /** Entries ordered with longer names first. */
  predicate LongestFirst(entries: seq<AliasEntry>)
  {
    forall i, j :: 0 <= i < j < |entries| ==> |entries[i].0| >= |entries[j].0|
  }

  function InsertByLength(e: AliasEntry, sorted: seq<AliasEntry>): seq<AliasEntry>
  {
    if sorted == [] || |sorted[0].0| <= |e.0| then [e] + sorted
    else [sorted[0]] + InsertByLength(e, sorted[1..])
  }

  /** `sorted(keys, key=len, reverse=True)`: a stable sort, longest name first. */
  function SortByLengthDesc(entries: seq<AliasEntry>): seq<AliasEntry>
  {
    if entries == [] then [] else InsertByLength(entries[0], SortByLengthDesc(entries[1..]))
  }

  /** Replace each alias in turn, in the order given. */
  function ReplaceEach(text: string, entries: seq<AliasEntry>): string
    requires NamesNonEmpty(entries)
    decreases |entries|
  {
    if entries == [] then text
    else ReplaceEach(ReplaceWholeWord(text, entries[0].0, entries[0].1), entries[1..])
  }

  /** `_substitute_aliases_in_text`: replace every alias, longest first. */
  function SubstituteAliasesInText(text: string, entries: seq<AliasEntry>): string
    requires NamesNonEmpty(entries)
  {
    SortedKeepsEntries(entries);
    ReplaceEach(text, SortByLengthDesc(entries))
  }

  /** `preprocess_and_resolve_aliases(text)` with the registry's entries
      (`get_all_aliases()` in its iteration order) given as a parameter. */
  function PreprocessAndResolveAliases(text: string, entries: seq<AliasEntry>): string
    requires NamesNonEmpty(entries)
  {
    var cleaned := CleanRawText(text);
    if |entries| == 0 then cleaned
    else Join(Split(SubstituteAliasesInText(cleaned, entries)), " ")
  }

  // ---------------------------------------------------------------------
  // Lemmas about cleaning and substitution

  /** Cleaned text is lower-case, has no commas, and is space-normalized. */
  lemma CleanRawTextNormalForm(text: string)
    ensures IsLowered(CleanRawText(text))
    ensures ',' !in CleanRawText(text)
    ensures SpaceNormalized(CleanRawText(text))
  {
    CleanRawTextLowered(text);
    CleanRawTextSpaced(text);
  }

  lemma CleanRawTextLowered(text: string)
    ensures IsLowered(CleanRawText(text)) && ',' !in CleanRawText(text)
  {
    var y := ReplaceChar(Lower(Strip(text)), ',', ' ');
    LoweredWithoutCommas(Strip(text));
    JoinSplitKeepsLowered(y);
  }

  lemma CleanRawTextSpaced(text: string)
    ensures SpaceNormalized(CleanRawText(text))
  {
    var y := ReplaceChar(Lower(Strip(text)), ',', ' ');
    SplitAreWords(y);
    JoinWordsNormalized(Split(y));
  }

  /** Lower-casing and then replacing commas leaves no capital and no comma. */
  lemma LoweredWithoutCommas(s: string)
    ensures var y := ReplaceChar(Lower(s), ',', ' ');
      forall i :: 0 <= i < |y| ==> !IsUpper(y[i]) && y[i] != ','
  {
    var l := Lower(s);
    var y := ReplaceChar(l, ',', ' ');
    forall i | 0 <= i < |y| ensures !IsUpper(y[i]) && y[i] != ',' {
      assert y[i] == (if l[i] == ',' then ' ' else l[i]);
      assert l[i] == LowerChar(s[i]);
    }
  }

  lemma JoinSplitKeepsLowered(y: string)
    requires forall i :: 0 <= i < |y| ==> !IsUpper(y[i]) && y[i] != ','
    ensures IsLowered(Join(Split(y), " ")) && ',' !in Join(Split(y), " ")
  {
    var r := Join(Split(y), " ");
    JoinSplitChars(y);
    forall i | 0 <= i < |r|
      ensures !IsUpper(r[i]) && r[i] != ','
    {
      if r[i] != ' ' {
        var m :| 0 <= m < |y| && y[m] == r[i];
      }
    }
  }

  /** Cleaning twice is cleaning once. */
  lemma CleanRawTextIdempotent(text: string)
    ensures CleanRawText(CleanRawText(text)) == CleanRawText(text)
  {
    var y := ReplaceChar(Lower(Strip(text)), ',', ' ');
    var ws := Split(y);
    var r := Join(ws, " ");
    CleanRawTextNormalForm(text);
    StripTrimmed(r);
    LowerOfLowered(r);
    ReplaceAbsent(r, ',', ' ');
    SplitAreWords(y);
    SplitJoin(ws);
  }

  /** Blank input cleans to the empty string. */
  lemma CleanBlank(text: string)
    requires forall i :: 0 <= i < |text| ==> IsSpace(text[i])
    ensures CleanRawText(text) == ""
  {
    StripLeftBlank(text);
    assert Strip(text) == [];
    assert ReplaceChar(Lower([]), ',', ' ') == [];
  }

  /** Text in which the alias never occurs as a whole word is left unchanged. */
  lemma {:induction false} NoMatchUnchanged(s: string, alias: string, ip: string, i: nat)
    requires alias != "" && i <= |s|
    requires forall j :: i <= j <= |s| ==> !MatchAt(s, alias, j)
    ensures ReplaceWholeWordFrom(s, alias, ip, i) == s[i..]
    decreases |s| - i
  {
    if i < |s| {
      NoMatchUnchanged(s, alias, ip, i + 1);
    }
  }

  /** A whole text that is the alias, beginning and ending in word characters,
      becomes the address. */
  lemma AliasAloneReplaced(alias: string, ip: string)
    requires alias != "" && IsWordChar(alias[0]) && IsWordChar(alias[|alias| - 1])
    ensures ReplaceWholeWord(alias, alias, ip) == ip
  {
    assert alias[0..|alias|] == alias;
    assert MatchAt(alias, alias, 0);
    assert ReplaceWholeWordFrom(alias, alias, ip, |alias|) == "";
  }

  /** A text without any whole-word alias keeps all its characters: the
      result of the scan has the same words. */
  lemma {:induction false} ReplaceEachNoMatch(text: string, entries: seq<AliasEntry>)
    requires NamesNonEmpty(entries)
    requires forall k, j :: 0 <= k < |entries| && 0 <= j <= |text| ==> !MatchAt(text, entries[k].0, j)
    ensures ReplaceEach(text, entries) == text
  {
    if entries != [] {
      NoMatchUnchanged(text, entries[0].0, entries[0].1, 0);
      assert text[0..] == text;
      ReplaceEachNoMatch(text, entries[1..]);
    }
  }

  lemma {:induction false} InsertByLengthElements(e: AliasEntry, sorted: seq<AliasEntry>)
    ensures |InsertByLength(e, sorted)| == |sorted| + 1
    ensures forall j :: 0 <= j < |InsertByLength(e, sorted)| ==>
      InsertByLength(e, sorted)[j] == e || InsertByLength(e, sorted)[j] in sorted
    ensures multiset(InsertByLength(e, sorted)) == multiset(sorted) + multiset{e}
  {
    if !(sorted == [] || |sorted[0].0| <= |e.0|) {
      InsertByLengthElements(e, sorted[1..]);
      assert sorted == [sorted[0]] + sorted[1..];
    }
  }

  lemma {:induction false} InsertByLengthKeeps(e: AliasEntry, sorted: seq<AliasEntry>)
    requires LongestFirst(sorted)
    ensures LongestFirst(InsertByLength(e, sorted))
    ensures multiset(InsertByLength(e, sorted)) == multiset(sorted) + multiset{e}
  {
    InsertByLengthElements(e, sorted);
    if sorted == [] || |sorted[0].0| <= |e.0| {
      forall j | 0 <= j < |sorted| ensures |sorted[j].0| <= |e.0| {
        assert j == 0 || |sorted[0].0| >= |sorted[j].0|;
      }
      ConsLongestFirst(e, sorted);
    } else {
      var tail := sorted[1..];
      InsertByLengthKeeps(e, tail);
      InsertByLengthElements(e, tail);
      var rest := InsertByLength(e, tail);
      forall j | 0 <= j < |rest| ensures |rest[j].0| <= |sorted[0].0| {
        if rest[j] != e {
          var m :| 0 <= m < |tail| && tail[m] == rest[j];
          assert tail[m] == sorted[m + 1];
        }
      }
      ConsLongestFirst(sorted[0], rest);
    }
  }

  /** An entry at least as long as every entry of a longest-first list may lead it. */
  lemma ConsLongestFirst(x: AliasEntry, rest: seq<AliasEntry>)
    requires LongestFirst(rest)
    requires forall j :: 0 <= j < |rest| ==> |rest[j].0| <= |x.0|
    ensures LongestFirst([x] + rest)
  {
    var r := [x] + rest;
    forall i, j | 0 <= i < j < |r| ensures |r[i].0| >= |r[j].0| {
      assert r[j] == rest[j - 1];
      if i > 0 {
        assert r[i] == rest[i - 1];
      }
    }
  }


  /** The entries whose name has `n` characters, in their order in `entries`. */
  function OfLength(entries: seq<AliasEntry>, n: nat): seq<AliasEntry>
  {
    if entries == [] then []
    else (if |entries[0].0| == n then [entries[0]] else []) + OfLength(entries[1..], n)
  }

  /** Filtering a list that starts with `x` keeps `x` exactly when it has length `n`. */
  lemma OfLengthCons(x: AliasEntry, rest: seq<AliasEntry>, n: nat)
    ensures OfLength([x] + rest, n) == (if |x.0| == n then [x] else []) + OfLength(rest, n)
  {
    assert ([x] + rest)[1..] == rest;
  }

  /** Inserting puts `e` ahead of every entry of its length that is already there. */
  lemma {:induction false} InsertByLengthOfLength(e: AliasEntry, sorted: seq<AliasEntry>, n: nat)
    ensures OfLength(InsertByLength(e, sorted), n) == (if |e.0| == n then [e] else []) + OfLength(sorted, n)
  {
    if sorted == [] || |sorted[0].0| <= |e.0| {
      OfLengthCons(e, sorted, n);
    } else {
      InsertByLengthOfLength(e, sorted[1..], n);
      OfLengthCons(sorted[0], InsertByLength(e, sorted[1..]), n);
      OfLengthCons(sorted[0], sorted[1..], n);
      assert [sorted[0]] + sorted[1..] == sorted;
    }
  }

  /** The alias order is longest first, holds every entry exactly once, and, as
      the stable sort does, keeps names of equal length in their given order. */
  lemma {:induction false} SortedLongestFirst(entries: seq<AliasEntry>)
    ensures LongestFirst(SortByLengthDesc(entries))
    ensures multiset(SortByLengthDesc(entries)) == multiset(entries)
    ensures forall n: nat :: OfLength(SortByLengthDesc(entries), n) == OfLength(entries, n)
  {
    if entries != [] {
      SortedLongestFirst(entries[1..]);
      InsertByLengthKeeps(entries[0], SortByLengthDesc(entries[1..]));
      assert entries == [entries[0]] + entries[1..];
      forall n: nat ensures OfLength(SortByLengthDesc(entries), n) == OfLength(entries, n) {
        InsertByLengthOfLength(entries[0], SortByLengthDesc(entries[1..]), n);
      }
    }
  }

  lemma SortedKeepsEntries(entries: seq<AliasEntry>)
    requires NamesNonEmpty(entries)
    ensures NamesNonEmpty(SortByLengthDesc(entries))
  {
    SortedLongestFirst(entries);
    forall k | 0 <= k < |SortByLengthDesc(entries)|
      ensures SortByLengthDesc(entries)[k].0 != ""
    {
      var e := SortByLengthDesc(entries)[k];
      assert e in multiset(entries);
    }
  }

  /** With no aliases registered, preprocessing is cleaning; blank input gives "". */
  lemma PreprocessCases(text: string, entries: seq<AliasEntry>)
    requires NamesNonEmpty(entries)
    ensures |entries| == 0 ==> PreprocessAndResolveAliases(text, entries) == CleanRawText(text)
    ensures (forall i :: 0 <= i < |text| ==> IsSpace(text[i])) ==> PreprocessAndResolveAliases(text, entries) == ""
  {
    if forall i :: 0 <= i < |text| ==> IsSpace(text[i]) {
      CleanBlank(text);
      if |entries| > 0 {
        SortedKeepsEntries(entries);
        ReplaceEachNoMatch("", SortByLengthDesc(entries));
      }
    }
  }

  /** The result of preprocessing is space-normalized. */
  lemma PreprocessNormalized(text: string, entries: seq<AliasEntry>)
    requires NamesNonEmpty(entries)
    ensures SpaceNormalized(PreprocessAndResolveAliases(text, entries))
  {
    if |entries| == 0 {
      CleanRawTextNormalForm(text);
    } else {
      var s := SubstituteAliasesInText(CleanRawText(text), entries);
      SplitAreWords(s);
      JoinWordsNormalized(Split(s));
    }
  }
  // =====================================================================
  // The primary action

  /** Every action verb among the first `n` tokens, with its index, in order. */
  function ActionsUpTo(doc: seq<Token>, n: nat): seq<(string, nat)>
    requires n <= |doc|
  {
    if n == 0 then []
    else ActionsUpTo(doc, n - 1) + (if LowerLemma(doc[n - 1]) in ActionVerbs then [(LowerLemma(doc[n - 1]), n - 1)] else [])
  }

  /** The last action verb of the clause and its index, if there is one. */
  function LastAction(doc: seq<Token>): Option<(string, nat)>
  {
    var acts := ActionsUpTo(doc, |doc|);
    if acts == [] then None else Some(acts[|acts| - 1])
  }

  /** `_find_primary_action(doc)`: collect the action verbs, choose the last;
      `(None, -1)` when there is none. */
  method FindPrimaryAction(doc: seq<Token>) returns (verb: Option<string>, idx: int)
    ensures LastAction(doc).None? ==> verb == None && idx == -1
    ensures LastAction(doc).Some? ==> verb == Some(LastAction(doc).value.0) && idx == LastAction(doc).value.1
    ensures verb.None? <==> forall i :: 0 <= i < |doc| ==> LowerLemma(doc[i]) !in ActionVerbs
    ensures verb.Some? ==> 0 <= idx < |doc| && verb.value == LowerLemma(doc[idx]) && verb.value in ActionVerbs
    ensures verb.Some? ==> forall j :: idx < j < |doc| ==> LowerLemma(doc[j]) !in ActionVerbs
  {
    var potential: seq<(string, nat)> := [];
    var i := 0;
    while i < |doc|
      invariant 0 <= i <= |doc|
      invariant potential == ActionsUpTo(doc, i)
    {
      var l := LowerLemma(doc[i]);
      if l in ActionVerbs {
        potential := potential + [(l, i)];
      }
      i := i + 1;
    }
    ActionsFacts(doc, |doc|);
    if potential == [] {
      return None, -1;
    }
    var chosen := potential[|potential| - 1];
    verb, idx := Some(chosen.0), chosen.1;
  }

  /** The collected actions are exactly the action tokens, in increasing
      index order, so the last one is the action nearest the end. */
  lemma ActionsFacts(doc: seq<Token>, n: nat)
    requires n <= |doc|
    ensures forall k :: 0 <= k < |ActionsUpTo(doc, n)| ==>
      ActionsUpTo(doc, n)[k].1 < n && ActionsUpTo(doc, n)[k].0 == LowerLemma(doc[ActionsUpTo(doc, n)[k].1]) &&
      ActionsUpTo(doc, n)[k].0 in ActionVerbs
    ensures ActionsUpTo(doc, n) == [] <==> forall i :: 0 <= i < n ==> LowerLemma(doc[i]) !in ActionVerbs
    ensures ActionsUpTo(doc, n) != [] ==> forall j ::
      ActionsUpTo(doc, n)[|ActionsUpTo(doc, n)| - 1].1 < j < n ==> LowerLemma(doc[j]) !in ActionVerbs
  {
    ActionsAreVerbs(doc, n);
    ActionsNone(doc, n);
    ActionsLastIsLast(doc, n);
  }

  /** Each collected action is an action verb, with the index of its token. */
  lemma {:induction false} ActionsAreVerbs(doc: seq<Token>, n: nat)
    requires n <= |doc|
    ensures forall k :: 0 <= k < |ActionsUpTo(doc, n)| ==>
      ActionsUpTo(doc, n)[k].1 < n && ActionsUpTo(doc, n)[k].0 == LowerLemma(doc[ActionsUpTo(doc, n)[k].1]) &&
      ActionsUpTo(doc, n)[k].0 in ActionVerbs
  {
    if n > 0 {
      ActionsAreVerbs(doc, n - 1);
    }
  }

  /** No action is collected exactly when no token is an action verb. */
  lemma {:induction false} ActionsNone(doc: seq<Token>, n: nat)
    requires n <= |doc|
    ensures ActionsUpTo(doc, n) == [] <==> forall i :: 0 <= i < n ==> LowerLemma(doc[i]) !in ActionVerbs
  {
    if n > 0 {
      ActionsNone(doc, n - 1);
    }
  }

  /** No action verb follows the last collected action. */
  lemma {:induction false} ActionsLastIsLast(doc: seq<Token>, n: nat)
    requires n <= |doc|
    ensures ActionsUpTo(doc, n) != [] ==> forall j ::
      ActionsUpTo(doc, n)[|ActionsUpTo(doc, n)| - 1].1 < j < n ==> LowerLemma(doc[j]) !in ActionVerbs
  {
    if n > 0 {
      ActionsLastIsLast(doc, n - 1);
      ActionsAreVerbs(doc, n - 1);
    }
  }

  // =====================================================================
  // The service word

  const SkippablePrefixWords: set<string> := {"all", "any", "incoming", "outgoing", "traffic", "access", "queries"}
  const SkippableGeneralWords: set<string> := SkippablePrefixWords + {"ensure", "please"}

  /** A token that ends the forward search: an IP literal or a boundary preposition. */
  predicate Stops(t: Token)
  {
    IsIpText(t.text) || LowerLemma(t) in BoundaryPreps
  }

  /** The forward search from token `j`: skip stop words, punctuation and
      skippable prefix words; take the first other alphabetic word; give up
      at an IP, a boundary preposition or a non-alphabetic token. */
  function ForwardScan(doc: seq<Token>, j: nat): Option<string>
    requires j <= |doc|
    decreases |doc| - j
  {
    if j == |doc| then None
    else
      var t := doc[j];
      if Stops(t) then None
      else if t.isStop || t.isPunct then ForwardScan(doc, j + 1)
      else if t.isAlpha then
        (if LowerLemma(t) in SkippablePrefixWords then ForwardScan(doc, j + 1) else Some(LowerLemma(t)))
      else None
  }

  /** The backward search over tokens `i-1` down to `0`, with the weak candidate
      found so far: the first non-skippable alphabetic word wins; otherwise
      the first skippable word met (the one nearest the action) is kept. */
  function BackwardScan(doc: seq<Token>, i: nat, weak: Option<string>): Option<string>
    requires i <= |doc|
  {
    if i == 0 then weak
    else
      var t := doc[i - 1];
      if Stops(t) || t.isStop || t.isPunct || !t.isAlpha then BackwardScan(doc, i - 1, weak)
      else if LowerLemma(t) !in SkippableGeneralWords then Some(LowerLemma(t))
      else if weak.None? then BackwardScan(doc, i - 1, Some(LowerLemma(t)))
      else BackwardScan(doc, i - 1, weak)
  }

  /** `_identify_service(doc, action_idx)`. */
  function IdentifyServiceSpec(doc: seq<Token>, actionIdx: int): Option<string>
    requires -1 <= actionIdx < |doc|
  {
    var after :=
      if actionIdx != -1 && actionIdx + 1 < |doc| && Truthy(ForwardScan(doc, actionIdx + 1))
      then ForwardScan(doc, actionIdx + 1) else None;
    if !Truthy(after) && actionIdx > 0 && Truthy(BackwardScan(doc, actionIdx, None))
    then BackwardScan(doc, actionIdx, None)
    else after
  }

  method IdentifyService(doc: seq<Token>, actionIdx: int) returns (service: Option<string>)
    requires -1 <= actionIdx < |doc|
    ensures service == IdentifyServiceSpec(doc, actionIdx)
    ensures service.None? || service.value != ""
  {
    service := None;
    if actionIdx != -1 && actionIdx + 1 < |doc| {
      var candidate: Option<string> := None;
      var i := actionIdx + 1;
      while i < |doc|
        invariant actionIdx + 1 <= i <= |doc|
        invariant ForwardScan(doc, actionIdx + 1) == ForwardScan(doc, i)
        decreases |doc| - i
      {
        var t := doc[i];
        if IsIpText(t.text) { break; }
        if LowerLemma(t) in BoundaryPreps { break; }
        if t.isStop || t.isPunct {
          i := i + 1;
          continue;
        }
        if t.isAlpha {
          if LowerLemma(t) in SkippablePrefixWords && candidate.None? {
            i := i + 1;
            continue;
          } else {
            candidate := Some(LowerLemma(t));
            break;
          }
        } else {
          break;
        }
      }
      if Truthy(candidate) {
        service := candidate;
      }
    }
    if !Truthy(service) && actionIdx > 0 {
      var candidate: Option<string> := None;
      var i := actionIdx;
      while i > 0
        invariant 0 <= i <= actionIdx
        invariant BackwardScan(doc, actionIdx, None) == BackwardScan(doc, i, candidate)
      {
        var t := doc[i - 1];
        if IsIpText(t.text) || LowerLemma(t) in BoundaryPreps || t.isStop || t.isPunct {
          i := i - 1;
          continue;
        }
        if t.isAlpha {
          if LowerLemma(t) !in SkippableGeneralWords {
            candidate := Some(LowerLemma(t));
            break;
          } else if candidate.None? {
            candidate := Some(LowerLemma(t));
          }
        }
        i := i - 1;
      }
      if Truthy(candidate) {
        service := candidate;
      }
    }
  }
  /** A token the forward search steps over. */
  predicate ForwardSkips(t: Token)
  {
    !Stops(t) && (t.isStop || t.isPunct || (t.isAlpha && LowerLemma(t) in SkippablePrefixWords))
  }

  /** A token the forward search takes as the service. */
  predicate ForwardTakes(t: Token)
  {
    !Stops(t) && !t.isStop && !t.isPunct && t.isAlpha && LowerLemma(t) !in SkippablePrefixWords
  }

  predicate SkipsBetween(doc: seq<Token>, j: nat, k: nat)
    requires j <= k <= |doc|
  {
    forall m :: j <= m < k ==> ForwardSkips(doc[m])
  }

  /** The forward search finds a word exactly when some token it would take
      is preceded (from `j` on) only by tokens it steps over; the word is that
      token's lower-cased lemma. */
  lemma {:induction false} ForwardScanFinds(doc: seq<Token>, j: nat)
    requires j <= |doc|
    ensures forall k :: j <= k < |doc| && ForwardTakes(doc[k]) && SkipsBetween(doc, j, k) ==>
      ForwardScan(doc, j) == Some(LowerLemma(doc[k]))
    ensures ForwardScan(doc, j).Some? ==>
      exists k :: j <= k < |doc| && ForwardTakes(doc[k]) && SkipsBetween(doc, j, k) && ForwardScan(doc, j).value == LowerLemma(doc[k])
    decreases |doc| - j
  {
    if j < |doc| {
      ForwardScanFinds(doc, j + 1);
      if ForwardScan(doc, j).Some? && ForwardSkips(doc[j]) {
        var k :| j + 1 <= k < |doc| && ForwardTakes(doc[k]) && SkipsBetween(doc, j + 1, k) &&
          ForwardScan(doc, j + 1).value == LowerLemma(doc[k]);
        assert SkipsBetween(doc, j, k);
      }
      if ForwardScan(doc, j).Some? && !ForwardSkips(doc[j]) {
        assert SkipsBetween(doc, j, j);
      }
    }
  }

  /** A token the backward search takes at once. */
  predicate StrongCandidate(t: Token)
  {
    !Stops(t) && !t.isStop && !t.isPunct && t.isAlpha && LowerLemma(t) !in SkippableGeneralWords
  }

  /** A skippable word the backward search remembers if it finds nothing better. */
  predicate WeakCandidate(t: Token)
  {
    !Stops(t) && !t.isStop && !t.isPunct && t.isAlpha && LowerLemma(t) in SkippableGeneralWords
  }

  /** The nearest strong candidate before position `i` is the service,
      whatever weak candidate was held. */
  lemma {:induction false} BackwardNearestStrong(doc: seq<Token>, i: nat, weak: Option<string>, k: nat)
    requires k < i <= |doc| && StrongCandidate(doc[k])
    requires forall m :: k < m < i ==> !StrongCandidate(doc[m])
    ensures BackwardScan(doc, i, weak) == Some(LowerLemma(doc[k]))
  {
    if i - 1 != k {
      var t := doc[i - 1];
      var w := if !(Stops(t) || t.isStop || t.isPunct || !t.isAlpha) && weak.None? then Some(LowerLemma(t)) else weak;
      BackwardNearestStrong(doc, i - 1, w, k);
    }
  }

  /** With no strong candidate before `i`, a held weak candidate is kept. */
  lemma {:induction false} BackwardKeepsWeak(doc: seq<Token>, i: nat, weak: Option<string>)
    requires i <= |doc| && weak.Some?
    requires forall m :: 0 <= m < i ==> !StrongCandidate(doc[m])
    ensures BackwardScan(doc, i, weak) == weak
  {
    if i > 0 {
      BackwardKeepsWeak(doc, i - 1, weak);
    }
  }

  /** With no strong candidate before `i`, the weak candidate `k` nearest to `i` is the service. */
  lemma {:induction false} BackwardNearestWeakAt(doc: seq<Token>, i: nat, k: nat)
    requires k < i <= |doc| && WeakCandidate(doc[k])
    requires forall m :: 0 <= m < i ==> !StrongCandidate(doc[m])
    requires forall m :: k < m < i ==> !WeakCandidate(doc[m])
    ensures BackwardScan(doc, i, None) == Some(LowerLemma(doc[k]))
  {
    if k == i - 1 {
      BackwardKeepsWeak(doc, i - 1, Some(LowerLemma(doc[k])));
    } else {
      var t := doc[i - 1];
      assert !StrongCandidate(t) && !WeakCandidate(t);
      assert BackwardScan(doc, i, None) == BackwardScan(doc, i - 1, None);
      BackwardNearestWeakAt(doc, i - 1, k);
    }
  }

  /** With no candidate at all before `i`, the backward search finds nothing. */
  lemma {:induction false} BackwardNoCandidate(doc: seq<Token>, i: nat)
    requires i <= |doc|
    requires forall m :: 0 <= m < i ==> !StrongCandidate(doc[m]) && !WeakCandidate(doc[m])
    ensures BackwardScan(doc, i, None) == None
  {
    if i > 0 {
      BackwardNoCandidate(doc, i - 1);
    }
  }

  /** With no strong candidate, the weak candidate nearest the action is the service;
      with no candidate at all there is none. */
  lemma BackwardNearestWeak(doc: seq<Token>, i: nat)
    requires i <= |doc|
    requires forall m :: 0 <= m < i ==> !StrongCandidate(doc[m])
    ensures forall k :: 0 <= k < i && WeakCandidate(doc[k]) && (forall m :: k < m < i ==> !WeakCandidate(doc[m])) ==>
      BackwardScan(doc, i, None) == Some(LowerLemma(doc[k]))
    ensures (forall m :: 0 <= m < i ==> !WeakCandidate(doc[m])) ==> BackwardScan(doc, i, None) == None
  {
    forall k | 0 <= k < i && WeakCandidate(doc[k]) && (forall m :: k < m < i ==> !WeakCandidate(doc[m]))
      ensures BackwardScan(doc, i, None) == Some(LowerLemma(doc[k]))
    {
      BackwardNearestWeakAt(doc, i, k);
    }
    if forall m :: 0 <= m < i ==> !WeakCandidate(doc[m]) {
      BackwardNoCandidate(doc, i);
    }
  }

  // =====================================================================
  // IP roles

  /** The entity was preceded by one of the words in `preps`. */
  predicate HasPrep(e: IpEntity, preps: set<string>)
  {
    e.prep.Some? && e.prep.value in preps
  }

  predicate IpsNonEmpty(ents: seq<IpEntity>)
  {
    forall e :: e in ents ==> e.ip != ""
  }

  /** The address of the first entity preceded by a word in `preps`. */
  function FirstWith(ents: seq<IpEntity>, preps: set<string>): Option<string>
  {
    if ents == [] then None
    else if FirstWith(ents[..|ents| - 1], preps).Some? then FirstWith(ents[..|ents| - 1], preps)
    else if HasPrep(ents[|ents| - 1], preps) then Some(ents[|ents| - 1].ip)
    else None
  }

  /** The first pass over the first `n` entities: the first on/at address
      becomes the target; later on/at entities stay for the next passes. */
  function TargetPass(ents: seq<IpEntity>, n: nat): (Option<string>, seq<IpEntity>)
    requires n <= |ents|
  {
    if n == 0 then (None, [])
    else
      var (target, rest) := TargetPass(ents, n - 1);
      var e := ents[n - 1];
      if HasPrep(e, TargetPreps) && !Truthy(target) then (Some(e.ip), rest)
      else (target, rest + [e])
  }

  /** The source and the destination passes: the first matching address is
      claimed, and every matching entity leaves the list. */
  function ClaimPass(ents: seq<IpEntity>, n: nat, preps: set<string>): (Option<string>, seq<IpEntity>)
    requires n <= |ents|
  {
    if n == 0 then (None, [])
    else
      var (claimed, rest) := ClaimPass(ents, n - 1, preps);
      var e := ents[n - 1];
      if HasPrep(e, preps) then (if !Truthy(claimed) then Some(e.ip) else claimed, rest)
      else (claimed, rest + [e])
  }

  datatype Roles = Roles(source: Option<string>, destination: Option<string>, target: Option<string>, remaining: seq<IpEntity>)

  /** `_assign_ip_roles(ip_entities)`. */
  function AssignRolesSpec(ents: seq<IpEntity>): Roles
  {
    var (target, r1) := TargetPass(ents, |ents|);
    var (source, r2) := ClaimPass(r1, |r1|, SourcePreps);
    var (destination, r3) := ClaimPass(r2, |r2|, DestinationPreps);
    var lone := |r3| == 1 && !Truthy(source) && !Truthy(destination) && target != Some(r3[0].ip);
    var source' := if lone then Some(r3[0].ip) else source;
    var r4 := if lone then [] else r3;
    var target' :=
      if Truthy(target) then target
      else if Truthy(destination) then destination
      else if Truthy(source') then source'
      else target;
    Roles(source', destination, target', r4)
  }

  /** One claiming pass over `ents`. */
  method ClaimFirst(ents: seq<IpEntity>, preps: set<string>) returns (claimed: Option<string>, rest: seq<IpEntity>)
    ensures (claimed, rest) == ClaimPass(ents, |ents|, preps)
  {
    claimed, rest := None, [];
    var k := 0;
    while k < |ents|
      invariant 0 <= k <= |ents|
      invariant (claimed, rest) == ClaimPass(ents, k, preps)
    {
      var e := ents[k];
      if HasPrep(e, preps) {
        if !Truthy(claimed) {
          claimed := Some(e.ip);
        }
      } else {
        rest := rest + [e];
      }
      k := k + 1;
    }
  }

  /** `_assign_ip_roles`: the on/at pass, the from pass, the to pass, the lone
      leftover as source, then the target defaulted to destination or source. */
  method AssignIpRoles(ents: seq<IpEntity>) returns (source: Option<string>, destination: Option<string>,
                                                     target: Option<string>, remaining: seq<IpEntity>)
    ensures Roles(source, destination, target, remaining) == AssignRolesSpec(ents)
  {
    target := None;
    var temp: seq<IpEntity> := [];
    var k := 0;
    while k < |ents|
      invariant 0 <= k <= |ents|
      invariant (target, temp) == TargetPass(ents, k)
    {
      var e := ents[k];
      if HasPrep(e, TargetPreps) {
        if !Truthy(target) {
          target := Some(e.ip);
        } else {
          temp := temp + [e];
        }
      } else {
        temp := temp + [e];
      }
      k := k + 1;
    }
    remaining := temp;
    source, remaining := ClaimFirst(remaining, SourcePreps);
    destination, remaining := ClaimFirst(remaining, DestinationPreps);
    if |remaining| == 1 && !Truthy(source) && !Truthy(destination) {
      var candidate := remaining[0].ip;
      if target != Some(candidate) {
        source := Some(candidate);
        remaining := [];
      }
    }
    if !Truthy(target) {
      if Truthy(destination) {
        target := destination;
      } else if Truthy(source) {
        target := source;
      }
    }
  }
  // ---------------------------------------------------------------------
  // Lemmas about the role passes

  /** `FirstWith` is the address of the lowest-indexed entity with a word of `preps`. */
  lemma {:induction false} FirstWithIndex(ents: seq<IpEntity>, preps: set<string>)
    ensures FirstWith(ents, preps).None? <==> forall k :: 0 <= k < |ents| ==> !HasPrep(ents[k], preps)
    ensures forall k :: 0 <= k < |ents| && HasPrep(ents[k], preps) && (forall m :: 0 <= m < k ==> !HasPrep(ents[m], preps)) ==>
      FirstWith(ents, preps) == Some(ents[k].ip)
    ensures FirstWith(ents, preps).Some? ==> exists e :: e in ents && HasPrep(e, preps) && e.ip == FirstWith(ents, preps).value
  {
    if ents != [] {
      var init := ents[..|ents| - 1];
      FirstWithIndex(init, preps);
      assert forall k :: 0 <= k < |init| ==> init[k] == ents[k];
      if FirstWith(init, preps).Some? {
        var e :| e in init && HasPrep(e, preps) && e.ip == FirstWith(init, preps).value;
        assert e in ents;
      }
    }
  }

  /** An entity without a word of `preps` appended at the end changes nothing. */
  lemma FirstWithAppendOther(ents: seq<IpEntity>, e: IpEntity, preps: set<string>)
    requires !HasPrep(e, preps)
    ensures FirstWith(ents + [e], preps) == FirstWith(ents, preps)
  {
    assert (ents + [e])[..|ents|] == ents;
  }

  lemma FirstWithAppend(ents: seq<IpEntity>, e: IpEntity, preps: set<string>)
    ensures FirstWith(ents + [e], preps) ==
      if FirstWith(ents, preps).Some? then FirstWith(ents, preps) else if HasPrep(e, preps) then Some(e.ip) else None
  {
    assert (ents + [e])[..|ents|] == ents;
  }

  lemma FirstWithNonEmpty(ents: seq<IpEntity>, preps: set<string>)
    requires IpsNonEmpty(ents)
    ensures FirstWith(ents, preps).None? || FirstWith(ents, preps).value != ""
  {
    FirstWithIndex(ents, preps);
  }

  /** The target pass claims the first on/at address and keeps every other entity. */
  lemma {:induction false} TargetPassFacts(ents: seq<IpEntity>, n: nat)
    requires n <= |ents| && IpsNonEmpty(ents)
    ensures TargetPass(ents, n).0 == FirstWith(ents[..n], TargetPreps)
    ensures forall e :: e in TargetPass(ents, n).1 ==> e in ents
  {
    if n > 0 {
      TargetPassFacts(ents, n - 1);
      assert ents[..n] == ents[..n - 1] + [ents[n - 1]];
      FirstWithAppend(ents[..n - 1], ents[n - 1], TargetPreps);
      assert IpsNonEmpty(ents[..n - 1]);
      FirstWithNonEmpty(ents[..n - 1], TargetPreps);
    }
  }

  /** Removing on/at entities does not change which entity first has a word of a disjoint set. */
  lemma {:induction false} TargetPassKeeps(ents: seq<IpEntity>, n: nat, preps: set<string>)
    requires n <= |ents|
    requires preps * TargetPreps == {}
    ensures FirstWith(TargetPass(ents, n).1, preps) == FirstWith(ents[..n], preps)
  {
    if n > 0 {
      TargetPassKeeps(ents, n - 1, preps);
      var e := ents[n - 1];
      assert ents[..n] == ents[..n - 1] + [e];
      FirstWithAppend(ents[..n - 1], e, preps);
      FirstWithAppend(TargetPass(ents, n - 1).1, e, preps);
      if HasPrep(e, TargetPreps) {
        assert e.prep.value !in preps * TargetPreps;
        assert e.prep.value !in preps;
      }
    }
  }

  /** A claiming pass takes the first matching address and drops exactly the matching entities. */
  lemma {:induction false} ClaimPassFacts(ents: seq<IpEntity>, n: nat, preps: set<string>)
    requires n <= |ents| && IpsNonEmpty(ents)
    ensures ClaimPass(ents, n, preps).0 == FirstWith(ents[..n], preps)
    ensures forall e :: e in ClaimPass(ents, n, preps).1 <==> e in ents[..n] && !HasPrep(e, preps)
  {
    if n > 0 {
      ClaimPassFacts(ents, n - 1, preps);
      assert ents[..n] == ents[..n - 1] + [ents[n - 1]];
      FirstWithAppend(ents[..n - 1], ents[n - 1], preps);
      assert IpsNonEmpty(ents[..n - 1]);
      FirstWithNonEmpty(ents[..n - 1], preps);
    }
  }

  /** Dropping the entities of one set keeps the first entity of a disjoint set. */
  lemma {:induction false} ClaimPassKeeps(ents: seq<IpEntity>, n: nat, preps: set<string>, others: set<string>)
    requires n <= |ents|
    requires preps * others == {}
    ensures FirstWith(ClaimPass(ents, n, preps).1, others) == FirstWith(ents[..n], others)
  {
    if n > 0 {
      ClaimPassKeeps(ents, n - 1, preps, others);
      var e := ents[n - 1];
      assert ents[..n] == ents[..n - 1] + [e];
      FirstWithAppend(ents[..n - 1], e, others);
      FirstWithAppend(ClaimPass(ents, n - 1, preps).1, e, others);
      if HasPrep(e, preps) {
        assert forall x :: x in preps ==> x !in others by {
          forall x | x in preps ensures x !in others {
            assert x !in preps * others;
          }
        }
      }
    }
  }

  /** The entities no role pass claims, in clause order: those not preceded by
      from or to, except the first one preceded by on or at. */
  function Leftover(ents: seq<IpEntity>): seq<IpEntity>
  {
    if ents == [] then []
    else
      var init := ents[..|ents| - 1];
      var e := ents[|ents| - 1];
      var claimed := HasPrep(e, SourcePreps + DestinationPreps) || (HasPrep(e, TargetPreps) && FirstWith(init, TargetPreps).None?);
      Leftover(init) + (if claimed then [] else [e])
  }

  /** A claiming pass over the first `n` entities sees only those entities. */
  lemma {:induction false} ClaimPassPrefix(a: seq<IpEntity>, b: seq<IpEntity>, n: nat, preps: set<string>)
    requires n <= |a| && n <= |b| && a[..n] == b[..n]
    ensures ClaimPass(a, n, preps) == ClaimPass(b, n, preps)
  {
    if n > 0 {
      assert a[n - 1] == a[..n][n - 1] == b[..n][n - 1] == b[n - 1];
      assert a[..n - 1] == a[..n][..n - 1] == b[..n][..n - 1] == b[..n - 1];
      ClaimPassPrefix(a, b, n - 1, preps);
    }
  }

  /** What a claiming pass keeps of a list grown by one entity. */
  lemma ClaimPassRestAppend(xs: seq<IpEntity>, e: IpEntity, preps: set<string>)
    ensures ClaimPass(xs + [e], |xs| + 1, preps).1 == ClaimPass(xs, |xs|, preps).1 + (if HasPrep(e, preps) then [] else [e])
  {
    assert (xs + [e])[..|xs|] == xs[..|xs|];
    ClaimPassPrefix(xs + [e], xs, |xs|, preps);
  }

  /** The source and destination passes over a list grown by one entity keep
      what they kept before, plus that entity unless it follows from or to. */
  lemma BothClaimPassesAppend(r1: seq<IpEntity>, e: IpEntity)
    ensures var r2 := ClaimPass(r1, |r1|, SourcePreps).1;
      var r2' := ClaimPass(r1 + [e], |r1 + [e]|, SourcePreps).1;
      ClaimPass(r2', |r2'|, DestinationPreps).1
        == ClaimPass(r2, |r2|, DestinationPreps).1 + (if HasPrep(e, SourcePreps + DestinationPreps) then [] else [e])
  {
    var r2 := ClaimPass(r1, |r1|, SourcePreps).1;
    ClaimPassRestAppend(r1, e, SourcePreps);
    if HasPrep(e, SourcePreps) {
      assert ClaimPass(r1 + [e], |r1 + [e]|, SourcePreps).1 == r2;
    } else {
      assert ClaimPass(r1 + [e], |r1 + [e]|, SourcePreps).1 == r2 + [e];
      ClaimPassRestAppend(r2, e, DestinationPreps);
    }
  }

  /** The three role passes leave exactly `Leftover`. */
  lemma {:induction false} LeftoverIsRemaining(ents: seq<IpEntity>, n: nat)
    requires n <= |ents| && IpsNonEmpty(ents)
    ensures var r1 := TargetPass(ents, n).1;
            var r2 := ClaimPass(r1, |r1|, SourcePreps).1;
            ClaimPass(r2, |r2|, DestinationPreps).1 == Leftover(ents[..n])
  {
    if n > 0 {
      LeftoverIsRemaining(ents, n - 1);
      var e := ents[n - 1];
      assert ents[..n][..n - 1] == ents[..n - 1];
      assert ents[..n][n - 1] == e;
      TargetPassFacts(ents, n - 1);
      assert IpsNonEmpty(ents[..n - 1]);
      FirstWithNonEmpty(ents[..n - 1], TargetPreps);
      var r1 := TargetPass(ents, n - 1).1;
      var r2 := ClaimPass(r1, |r1|, SourcePreps).1;
      var r3 := ClaimPass(r2, |r2|, DestinationPreps).1;
      var firstTarget := HasPrep(e, TargetPreps) && FirstWith(ents[..n - 1], TargetPreps).None?;
      var tail := if HasPrep(e, SourcePreps + DestinationPreps) || firstTarget then [] else [e];
      assert Leftover(ents[..n]) == r3 + tail;
      if firstTarget {
        assert TargetPass(ents, n).1 == r1;
      } else {
        assert TargetPass(ents, n).1 == r1 + [e];
        BothClaimPassesAppend(r1, e);
      }
    }
  }

  /** The three passes claim the first on/at, the first from and the first to
      address, and leave `Leftover`. */
  lemma PassesFacts(ents: seq<IpEntity>)
    requires IpsNonEmpty(ents)
    ensures var p1 := TargetPass(ents, |ents|);
      var p2 := ClaimPass(p1.1, |p1.1|, SourcePreps);
      var p3 := ClaimPass(p2.1, |p2.1|, DestinationPreps);
      && p1.0 == FirstWith(ents, TargetPreps)
      && p2.0 == FirstWith(ents, SourcePreps)
      && p3.0 == FirstWith(ents, DestinationPreps)
      && p3.1 == Leftover(ents)
      && (forall e :: e in p3.1 ==> e in ents)
  {
    assert ents[..|ents|] == ents;
    TargetPassFacts(ents, |ents|);
    var r1 := TargetPass(ents, |ents|).1;
    assert r1[..|r1|] == r1;
    assert IpsNonEmpty(r1);
    ClaimPassFacts(r1, |r1|, SourcePreps);
    TargetPassKeeps(ents, |ents|, SourcePreps);
    TargetPassKeeps(ents, |ents|, DestinationPreps);
    var r2 := ClaimPass(r1, |r1|, SourcePreps).1;
    assert r2[..|r2|] == r2;
    assert IpsNonEmpty(r2);
    ClaimPassFacts(r2, |r2|, DestinationPreps);
    ClaimPassKeeps(r1, |r1|, SourcePreps, DestinationPreps);
    LeftoverIsRemaining(ents, |ents|);
  }

  /** The roles follow the prepositions: the first on/at address is the target,
      the first from address the source, the first to address the destination;
      without an on/at address the target is the destination, else the source;
      with no from and no to address, a single leftover address becomes the
      source unless it is the explicit target; and every role holds the
      address of some entity. */
  lemma RolesPriority(ents: seq<IpEntity>)
    requires IpsNonEmpty(ents)
    ensures FirstWith(ents, TargetPreps).Some? ==> AssignRolesSpec(ents).target == FirstWith(ents, TargetPreps)
    ensures FirstWith(ents, SourcePreps).Some? ==> AssignRolesSpec(ents).source == FirstWith(ents, SourcePreps)
    ensures AssignRolesSpec(ents).destination == FirstWith(ents, DestinationPreps)
    ensures FirstWith(ents, SourcePreps).None? ==>
      AssignRolesSpec(ents).source ==
        (if FirstWith(ents, DestinationPreps).None? && |Leftover(ents)| == 1 && Some(Leftover(ents)[0].ip) != FirstWith(ents, TargetPreps)
         then Some(Leftover(ents)[0].ip) else None)
    ensures FirstWith(ents, TargetPreps).None? ==>
      AssignRolesSpec(ents).target ==
        (if AssignRolesSpec(ents).destination.Some? then AssignRolesSpec(ents).destination else AssignRolesSpec(ents).source)
    ensures AssignRolesSpec(ents).target.Some? ==> exists e :: e in ents && e.ip == AssignRolesSpec(ents).target.value
    ensures AssignRolesSpec(ents).source.Some? ==> exists e :: e in ents && e.ip == AssignRolesSpec(ents).source.value
  {
    PassesFacts(ents);
    FirstWithNonEmpty(ents, TargetPreps);
    FirstWithNonEmpty(ents, SourcePreps);
    FirstWithNonEmpty(ents, DestinationPreps);
    FirstWithIndex(ents, TargetPreps);
    FirstWithIndex(ents, SourcePreps);
    FirstWithIndex(ents, DestinationPreps);
    var r3 := Leftover(ents);
    if |r3| == 1 {
      assert r3[0] in r3;
    }
  }

  /** A clause with a single address and no boundary word before it: that
      address is both the source and the target. */
  lemma LoneAddress(e: IpEntity)
    requires e.ip != "" && !HasPrep(e, BoundaryPreps)
    ensures AssignRolesSpec([e]) == Roles(Some(e.ip), None, Some(e.ip), [])
  {
    assert !HasPrep(e, TargetPreps) && !HasPrep(e, SourcePreps) && !HasPrep(e, DestinationPreps);
    assert TargetPass([e], 0) == (None, []);
    assert [] + [e] == [e];
    assert TargetPass([e], 1) == (None, [e]);
    assert ClaimPass([e], 1, SourcePreps) == (None, [e]);
    assert ClaimPass([e], 1, DestinationPreps) == (None, [e]);
  }

  // =====================================================================
  // One clause and a whole text

  /** `parse_single`: `None` stands for the empty dictionary. */
  function ParseSingleSpec(doc: seq<Token>): Option<NlpRule>
  {
    var last := LastAction(doc);
    if last.None? then None
    else
      var (verb, idx) := last.value;
      ActionsFacts(doc, |doc|);
      var service := IdentifyServiceSpec(doc, idx);
      var roles := AssignRolesSpec(EntitiesUpTo(doc, |doc|));
      if !Truthy(roles.target) then None
      else Some(NlpRule(Some(verb), if Truthy(service) then service else Some("any"),
                        roles.source, roles.destination, roles.target))
  }

  method ParseSingle(doc: seq<Token>) returns (r: Option<NlpRule>)
    ensures r == ParseSingleSpec(doc)
  {
    var verb, idx := FindPrimaryAction(doc);
    if !Truthy(verb) {
      return None;
    }
    var service := IdentifyService(doc, idx);
    var ents := ExtractIpEntities(doc);
    var source, destination, target, _ := AssignIpRoles(ents);
    if !Truthy(target) {
      return None;
    }
    if !Truthy(service) {
      service := Some("any");
    }
    r := Some(NlpRule(verb, service, source, destination, target));
  }

  lemma EntitiesIpsNonEmpty(doc: seq<Token>)
    ensures IpsNonEmpty(EntitiesUpTo(doc, |doc|))
  {
    EntitiesNonEmpty(doc, |doc|);
  }

  /** A parsed clause has an action verb, a non-empty service (defaulting to
      "any") and a target that is one of the clause's IP literals; a clause
      without an action or without any IP literal yields nothing. */
  lemma ParseSingleOutcome(doc: seq<Token>)
    ensures ParseSingleSpec(doc).Some? ==>
      var r := ParseSingleSpec(doc).value;
      && r.action.Some? && r.action.value in ActionVerbs
      && Truthy(r.service) && Truthy(r.target)
      && exists i :: 0 <= i < |doc| && IsIpText(doc[i].text) && doc[i].text == r.target.value
    ensures (forall i :: 0 <= i < |doc| ==> LowerLemma(doc[i]) !in ActionVerbs) ==> ParseSingleSpec(doc).None?
    ensures (forall i :: 0 <= i < |doc| ==> !IsIpText(doc[i].text)) ==> ParseSingleSpec(doc).None?
  {
    ActionsFacts(doc, |doc|);
    var ents := EntitiesUpTo(doc, |doc|);
    EntitiesIpsNonEmpty(doc);
    EntitiesMembership(doc, |doc|);
    RolesPriority(ents);
  }

  /** An action and an address after "on" or "at" always make a rule, aimed at the
      first such address. */
  lemma ExplicitTargetParses(doc: seq<Token>, k: nat)
    requires LastAction(doc).Some?
    requires 0 < k < |doc| && IsIpText(doc[k].text) && LowerLemma(doc[k - 1]) in TargetPreps
    requires forall m :: 0 < m < k && IsIpText(doc[m].text) ==> LowerLemma(doc[m - 1]) !in TargetPreps
    ensures ParseSingleSpec(doc).Some?
    ensures ParseSingleSpec(doc).value.target == Some(doc[k].text)
  {
    var ents := EntitiesUpTo(doc, |doc|);
    EntitiesIpsNonEmpty(doc);
    EntitiesMembership(doc, |doc|);
    EntitiesOrdered(doc, |doc|);
    assert EntityAt(doc, k) in ents;
    var j :| 0 <= j < |ents| && ents[j] == EntityAt(doc, k);
    forall m | 0 <= m < j ensures !HasPrep(ents[m], TargetPreps) {
      assert ents[m] in ents;
      var i :| 0 <= i < |doc| && IsIpText(doc[i].text) && ents[m] == EntityAt(doc, i);
    }
    FirstWithIndex(ents, TargetPreps);
    RolesPriority(ents);
  }

  /** `parse_commands`: parse each sentence and keep the non-empty results, in order.
      Preprocessing and sentence splitting happen before the sentences arrive here. */
  method ParseCommands(sentences: seq<seq<Token>>) returns (rules: seq<NlpRule>)
    ensures rules == Collect(ParseSingleSpec, sentences)
    ensures forall r :: r in rules <==> exists i :: 0 <= i < |sentences| && ParseSingleSpec(sentences[i]) == Some(r)
  {
    rules := [];
    var i := 0;
    while i < |sentences|
      invariant 0 <= i <= |sentences|
      invariant rules == Collect(ParseSingleSpec, sentences[..i])
    {
      var r := ParseSingle(sentences[i]);
      assert sentences[..i + 1][..i] == sentences[..i];
      if r.Some? {
        rules := rules + [r.value];
      }
      i := i + 1;
    }
    assert sentences[..|sentences|] == sentences;
    CollectMembership(ParseSingleSpec, sentences);
  }
}
