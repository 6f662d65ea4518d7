/** The records passed between the parser, the interpreter, the command
    builder and the legacy engine, and the service catalog's shape. */
module Rules {
  import opened Common

  /** The dictionary a parser returns for one clause. A key that is absent
      and a key holding `None` read the same (`rule.get(key)`), so both are `None`. */
  datatype NlpRule = NlpRule(
    action: Option<string>,
    service: Option<string>,
    source: Option<string>,
    destination: Option<string>,
    target: Option<string>)

  /** One protocol/port entry of a service definition: `{"proto": ..., "dport": ...}`. */
  datatype Param = Param(proto: Option<string>, dport: Option<int>)

  /** What the catalog file holds for a service name: a list of entries, or
      some other JSON value (which lookups treat as "not found"). */
  datatype Definition = ParamList(params: seq<Param>) | NotAList

  /** The loaded catalog: lower-case service name to definition. */
  type Catalog = map<string, Definition>

  /** `SERVICES_TO_IGNORE` without its `None` member, which `IsIgnoredService` adds. */
  const ServicesToIgnore: set<string> := {"any", "all", "traffic"}

  /** `service in SERVICES_TO_IGNORE`, exact match, `None` included. */
  predicate IsIgnoredService(s: Option<string>)
  {
    s.None? || s.value in ServicesToIgnore
  }

  /** `ACTION_TO_IPTABLES_TARGET`. */
  const ActionTargets: map<string, string> := map[
    "block" := "DROP", "deny" := "DROP", "drop" := "DROP", "reject" := "DROP",
    "allow" := "ACCEPT", "permit" := "ACCEPT", "accept" := "ACCEPT"]
}
