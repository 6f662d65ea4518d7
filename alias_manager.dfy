/** The alias registry: a name-to-address table and its reverse, kept in
    two dictionaries that `add_alias` and `remove_alias_for_ip` update in place.
    Names are stored lower-cased; addresses are compared as given. */
module AliasManager {
  import opened Common
  import opened Strings
  import BackendNlp

  /** The two dictionaries: `_aliases_to_ip` and `_ip_to_aliases`. */
  datatype Tables = Tables(toIp: map<string, string>, toAlias: map<string, string>)

  /** Each table is the other's inverse: a bijection between stored names and addresses. */
  predicate Inverse(t: Tables)
  {
    && (forall n :: n in t.toIp ==> t.toIp[n] in t.toAlias && t.toAlias[t.toIp[n]] == n)
    && (forall ip :: ip in t.toAlias ==> t.toAlias[ip] in t.toIp && t.toIp[t.toAlias[ip]] == ip)
  }

  /** Neither table holds an empty name or an empty address. */
  predicate NoEmptyKeys(t: Tables)
  {
    "" !in t.toIp && "" !in t.toAlias
  }

  /** What `add_alias(ip, name)` returns and leaves in the two tables. */
  function AddAliasSpec(t: Tables, ip: string, name: string): (bool, Tables)
  {
    if ip == "" || name == "" then (false, t)
    else
      var key := Lower(name);
      var toIp1 := if ip in t.toAlias && t.toAlias[ip] in t.toIp then t.toIp - {t.toAlias[ip]} else t.toIp;
      var toAlias1 :=
        if key in toIp1 && toIp1[key] in t.toAlias && t.toAlias[toIp1[key]] == key
        then t.toAlias - {toIp1[key]} else t.toAlias;
      (true, Tables(toIp1[key := ip], toAlias1[ip := key]))
  }

  /** What `remove_alias_for_ip(ip)` returns and leaves in the two tables. */
  function RemoveAliasSpec(t: Tables, ip: string): (bool, Tables)
  {
    if ip in t.toAlias then
      var name := t.toAlias[ip];
      if name in t.toIp then (true, Tables(t.toIp - {name}, t.toAlias - {ip}))
      else (false, Tables(t.toIp, t.toAlias - {ip}))
    else (false, t)
  }

  /** `get_ip_for_alias(name)`: the name is lower-cased before the lookup. */
  function LookupIp(t: Tables, name: string): Option<string>
  {
    Get(t.toIp, Lower(name))
  }

  /** `get_alias_for_ip(ip)`: the stored (lower-case) name. */
  function LookupAlias(t: Tables, ip: string): Option<string>
  {
    Get(t.toAlias, ip)
  }

  class AliasRegistry {
    var aliasesToIp: map<string, string>
    var ipToAliases: map<string, string>

    function State(): Tables
      reads this
    {
      Tables(aliasesToIp, ipToAliases)
    }

    constructor ()
      ensures aliasesToIp == map[] && ipToAliases == map[]
      ensures Inverse(State()) && NoEmptyKeys(State())
    {
      aliasesToIp := map[];
      ipToAliases := map[];
    }

    method AddAlias(ip: string, name: string) returns (ok: bool)
      modifies this
      ensures (ok, State()) == AddAliasSpec(old(State()), ip, name)
      ensures old(Inverse(State())) ==> Inverse(State())
      ensures old(NoEmptyKeys(State())) ==> NoEmptyKeys(State())
    {
      ghost var t := State();
      if ip == "" || name == "" {
        return false;
      }
      var key := Lower(name);
      if ip in ipToAliases {
        var oldAlias := ipToAliases[ip];
        if oldAlias in aliasesToIp {
          aliasesToIp := aliasesToIp - {oldAlias};
        }
      }
      if key in aliasesToIp {
        var oldIp := aliasesToIp[key];
        if oldIp in ipToAliases && ipToAliases[oldIp] == key {
          ipToAliases := ipToAliases - {oldIp};
        }
      }
      aliasesToIp := aliasesToIp[key := ip];
      ipToAliases := ipToAliases[ip := key];
      ok := true;
      if Inverse(t) {
        AddPreservesInverse(t, ip, name);
      }
      if NoEmptyKeys(t) {
        AddKeepsNamesNonEmpty(t, ip, name);
      }
    }

    method RemoveAliasForIp(ip: string) returns (ok: bool)
      modifies this
      ensures (ok, State()) == RemoveAliasSpec(old(State()), ip)
      ensures old(Inverse(State())) ==> Inverse(State())
      ensures old(NoEmptyKeys(State())) ==> NoEmptyKeys(State())
    {
      ghost var t := State();
      ok := false;
      if ip in ipToAliases {
        var name := ipToAliases[ip];
        ipToAliases := ipToAliases - {ip};
        if name in aliasesToIp {
          aliasesToIp := aliasesToIp - {name};
          ok := true;
        }
      }
      if Inverse(t) {
        RemovePreservesInverse(t, ip);
      }
    }

    method GetIpForAlias(name: string) returns (r: Option<string>)
      ensures r == LookupIp(State(), name)
      ensures r.Some? <==> Lower(name) in aliasesToIp
      ensures r.Some? ==> r.value == aliasesToIp[Lower(name)]
    {
      var key := Lower(name);
      r := if key in aliasesToIp then Some(aliasesToIp[key]) else None;
    }

    method GetAliasForIp(ip: string) returns (r: Option<string>)
      ensures r == LookupAlias(State(), ip)
      ensures r.Some? <==> ip in ipToAliases
      ensures r.Some? ==> r.value == ipToAliases[ip]
    {
      r := if ip in ipToAliases then Some(ipToAliases[ip]) else None;
    }

    /** `get_all_aliases()`: a Dafny map is a value, so the copy the caller
        gets cannot be changed through the registry, nor the registry through it. */
    method GetAllAliases() returns (r: map<string, string>)
      ensures r == aliasesToIp
    {
      r := aliasesToIp;
    }
  }

  // ---------------------------------------------------------------------
  // Lemmas about the two operations

  /** An empty address or an empty name is refused and changes nothing. */
  lemma AddEmptyRejected(t: Tables, ip: string, name: string)
    requires ip == "" || name == ""
    ensures AddAliasSpec(t, ip, name) == (false, t)
  {
  }

  /** After a successful add, the lower-cased name maps to the address and back,
      and the name can be looked up in any letter case. */
  lemma AddThenLookup(t: Tables, ip: string, name: string, asked: string)
    requires ip != "" && name != ""
    requires Lower(asked) == Lower(name)
    ensures AddAliasSpec(t, ip, name).0
    ensures AddAliasSpec(t, ip, name).1.toIp[Lower(name)] == ip
    ensures AddAliasSpec(t, ip, name).1.toAlias[ip] == Lower(name)
    ensures LookupIp(AddAliasSpec(t, ip, name).1, asked) == Some(ip)
    ensures LookupAlias(AddAliasSpec(t, ip, name).1, ip) == Some(Lower(name))
  {
  }

  /** Re-aliasing an address removes its previous name from the forward table. */
  lemma AddDropsOldName(t: Tables, ip: string, name: string)
    requires ip != "" && name != ""
    requires ip in t.toAlias && t.toAlias[ip] != Lower(name)
    ensures t.toAlias[ip] !in AddAliasSpec(t, ip, name).1.toIp
  {
  }

  /** Pointing a name at a new address drops the old address's reverse entry
      when that entry named this alias, and keeps it otherwise. */
  lemma AddDropsOldAddress(t: Tables, ip: string, name: string)
    requires ip != "" && name != ""
    requires Lower(name) in t.toIp && t.toIp[Lower(name)] != ip
    requires !(ip in t.toAlias && t.toAlias[ip] == Lower(name))
    ensures var oldIp := t.toIp[Lower(name)];
      && (oldIp in t.toAlias && t.toAlias[oldIp] == Lower(name) ==> oldIp !in AddAliasSpec(t, ip, name).1.toAlias)
      && (oldIp in t.toAlias && t.toAlias[oldIp] != Lower(name) ==>
            oldIp in AddAliasSpec(t, ip, name).1.toAlias &&
            AddAliasSpec(t, ip, name).1.toAlias[oldIp] == t.toAlias[oldIp])
  {
  }

  /** `add_alias` never stores an empty name or address: the empty check at its
      start refuses both, and lower-casing keeps a name's length. */
  lemma AddKeepsNamesNonEmpty(t: Tables, ip: string, name: string)
    requires NoEmptyKeys(t)
    ensures NoEmptyKeys(AddAliasSpec(t, ip, name).1)
  {
    if ip != "" && name != "" {
      assert |Lower(name)| == |name| > 0;
    }
  }

  /** Removal only deletes entries, so it stores no empty name or address. */
  lemma RemoveKeepsNamesNonEmpty(t: Tables, ip: string)
    requires NoEmptyKeys(t)
    ensures NoEmptyKeys(RemoveAliasSpec(t, ip).1)
  {
  }

  /** Alias entries read from a registry have non-empty names, as the alias
      substitution of the clause parser requires. */
  lemma RegistryEntriesNonEmpty(t: Tables, entries: seq<BackendNlp.AliasEntry>)
    requires NoEmptyKeys(t)
    requires forall k :: 0 <= k < |entries| ==> entries[k].0 in t.toIp && t.toIp[entries[k].0] == entries[k].1
    ensures BackendNlp.NamesNonEmpty(entries)
  {
  }

  /** `add_alias` keeps the two tables each other's inverse. */
  lemma AddPreservesInverse(t: Tables, ip: string, name: string)
    requires Inverse(t)
    ensures Inverse(AddAliasSpec(t, ip, name).1)
  {
    if ip != "" && name != "" {
      var key := Lower(name);
      var t' := AddAliasSpec(t, ip, name).1;
      forall n | n in t'.toIp
        ensures t'.toIp[n] in t'.toAlias && t'.toAlias[t'.toIp[n]] == n
      {
        if n != key {
          assert n in t.toIp && t.toIp[n] == t'.toIp[n];
          assert t.toAlias[t.toIp[n]] == n;
        }
      }
      forall a | a in t'.toAlias
        ensures t'.toAlias[a] in t'.toIp && t'.toIp[t'.toAlias[a]] == a
      {
        if a != ip {
          assert a in t.toAlias && t.toAlias[a] == t'.toAlias[a];
        }
      }
    }
  }

  /** `remove_alias_for_ip` keeps the two tables each other's inverse. */
  lemma RemovePreservesInverse(t: Tables, ip: string)
    requires Inverse(t)
    ensures Inverse(RemoveAliasSpec(t, ip).1)
  {
  }

  /** With inverse tables, removal succeeds exactly when the address had an alias,
      and afterwards neither the address nor its name is registered. */
  lemma RemoveResult(t: Tables, ip: string)
    requires Inverse(t)
    ensures RemoveAliasSpec(t, ip).0 <==> ip in t.toAlias
    ensures ip !in RemoveAliasSpec(t, ip).1.toAlias
    ensures ip in t.toAlias ==> t.toAlias[ip] !in RemoveAliasSpec(t, ip).1.toIp
    ensures ip !in t.toAlias ==> RemoveAliasSpec(t, ip).1 == t
  {
  }

  /** Lookup by name ignores letter case. */
  lemma LookupIgnoresCase(t: Tables, a: string, b: string)
    requires Lower(a) == Lower(b)
    ensures LookupIp(t, a) == LookupIp(t, b)
  {
  }
}
