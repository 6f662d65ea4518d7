/** The service catalog: a lazily loaded, cached table from lower-case
    service name to its protocol/port entries. Reading the file is outside
    the model: what the read produced is passed in as a `LoadOutcome`. */
module ServiceMapper {
  import opened Common
  import opened Strings
  import opened Rules

  /** What reading and decoding the catalog file gives: the table, or a failure
      (missing file, malformed JSON, any other error). */
  datatype LoadOutcome = Loaded(catalog: Catalog) | LoadFailed

  /** The table left in the cache by a load: a failure leaves the empty table. */
  function CachedAfterLoad(outcome: LoadOutcome): Catalog
  {
    if outcome.Loaded? then outcome.catalog else map[]
  }

  /** The lookup in a loaded table: the name is lower-cased; a definition that
      is not a list reads as not found. */
  function Lookup(catalog: Catalog, name: string): Option<seq<Param>>
  {
    var d := Get(catalog, Lower(name));
    if d.Some? && d.value.ParamList? then Some(d.value.params) else None
  }

  /** `get_service_params` on an already loaded table. A missing name is `None`. */
  function ParamsFor(service: Option<string>, catalog: Catalog): Option<seq<Param>>
  {
    if service.None? then None else Lookup(catalog, service.value)
  }

  class Mapper {
    /** `_service_mappings`: `None` until the first lookup loads it. */
    var mappings: Option<Catalog>

    constructor ()
      ensures mappings.None?
    {
      mappings := None;
    }

    /** `_load_mappings()`: fills the cache; a failure leaves an empty table and reports false. */
    method LoadMappings(outcome: LoadOutcome) returns (ok: bool)
      modifies this
      ensures ok <==> outcome.Loaded?
      ensures mappings == Some(CachedAfterLoad(outcome))
    {
      match outcome {
        case Loaded(catalog) =>
          mappings := Some(catalog);
          ok := true;
        case LoadFailed =>
          mappings := Some(map[]);
          ok := false;
      }
    }

    /** `get_service_params(service_name)`: a missing name returns at once; the
        first lookup loads the table, and a failed load answers `None`. */
    method GetServiceParams(service: Option<string>, outcome: LoadOutcome) returns (r: Option<seq<Param>>)
      modifies this
      ensures service.None? ==> r.None? && mappings == old(mappings)
      ensures service.Some? && old(mappings).None? ==> mappings == Some(CachedAfterLoad(outcome))
      ensures service.Some? && old(mappings).Some? ==> mappings == old(mappings)
      ensures service.Some? && old(mappings).None? && outcome.LoadFailed? ==> r.None?
      ensures service.Some? && (old(mappings).Some? || outcome.Loaded?) ==> r == Lookup(mappings.value, service.value)
    {
      if service.None? {
        return None;
      }
      if mappings.None? {
        var ok := LoadMappings(outcome);
        if !ok {
          return None;
        }
      }
      var d := Get(mappings.value, Lower(service.value));
      if d.None? {
        r := None;
      } else if !d.value.ParamList? {
        return None;
      } else {
        r := Some(d.value.params);
      }
    }
  }

  // ---------------------------------------------------------------------
  // Lemmas

  /** A lookup finds entries exactly when the lower-cased name holds a list. */
  lemma LookupFinds(catalog: Catalog, name: string)
    ensures Lookup(catalog, name).Some? <==> Lower(name) in catalog && catalog[Lower(name)].ParamList?
    ensures Lookup(catalog, name).Some? ==> Lookup(catalog, name).value == catalog[Lower(name)].params
  {
  }

  /** Names differing only in letter case find the same entries. */
  lemma LookupIgnoresCase(catalog: Catalog, a: string, b: string)
    requires Lower(a) == Lower(b)
    ensures Lookup(catalog, a) == Lookup(catalog, b)
  {
  }

  /** A failed load answers every lookup as the empty table does: not found.
      The command builder can therefore take the loaded table as a plain map. */
  lemma FailedLoadIsEmptyCatalog(service: Option<string>)
    ensures ParamsFor(service, CachedAfterLoad(LoadFailed)) == None
    ensures ParamsFor(service, map[]) == None
  {
  }
}
