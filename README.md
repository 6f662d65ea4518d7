# NLP-Based-Networking policy compiler, modelled in Dafny

This project models the policy compiler of NLP-Based-Networking. The compiler
turns an English firewall policy ("block ssh from 10.0.0.5 to 10.0.0.9") into
`iptables` command lines, one set per device, and the device side validates a
command line before it runs it. The model covers these parts:

- **Alias registry** (`alias_manager.dfy`). Two mutually inverse tables map
  lower-case names to addresses and back; `add_alias` and
  `remove_alias_for_ip` update them in place.
- **Backend clause parser** (`backend_nlp.dfy`, with `tokens.dfy`, `strings.dfy`, `common.dfy`).
  Text cleaning and whole-word alias substitution (longest name first), then
  for each clause: the last action verb, the service (a forward then a
  backward search around the verb), the IPv4 literals with the word before
  each, role assignment (on/at target, from source, to destination, a lone
  leftover as source, the target defaulting to destination then source), and
  `parse_commands`.
- **Legacy clause parser** (`legacy_nlp.dfy`). The older `nlp.py`: the first
  action verb, a forward-only service search, flagged role passes, and a
  stricter validation.
- **Rule interpreter** (`rule_interpreter.dfy`). It settles the device a rule
  is installed on (parser target or operator selection) and the chain
  (INPUT/OUTPUT/FORWARD).
- **Service catalog** (`service_mapper.dfy`). A lazily loaded, cached table
  with case-insensitive lookup.
- **Command builder** (`command_builder.dfy`). One interpreted rule becomes one
  command line per protocol/port entry of its service.
- **Legacy engine** (`policy_engine.dfy`). `parse_and_generate_commands` does
  the same settling and rendering inline, with its own tables.
- **Device-side executor** (`command_executor.dfy`). It checks the prefix and a
  character allow-list, builds the `sudo` argument vector, and maps the process
  outcome to a reply.
- **GUI state** (`app_state.dfy`). The administration window's state holder.

Tokens (text, lemma, stop/punctuation/alphabetic flags) and the sentence list
are inputs: the language model that produces them is not modelled. The catalog
file's contents, the process outcome and timestamps are parameters as well.

The legacy parser, the legacy engine and the backend components disagree in
places. Each file is modelled as written, and lemmas state where they part:

- `LegacyNlp.TargetOnlyClause`: a clause with only an "on" address parses in the backend and is rejected by the legacy parser.
- `PolicyEngine.ChainDivergence`: a destination-only rule on its destination is OUTPUT in the engine and INPUT in the interpreter.
- `PolicyEngine.SourceTargetKept`: a source target with a distinct destination is kept by the engine and overridden by the interpreter.
- `LegacyNlp.RepeatedTargetAddress`: in "block A on A" the backend leaves the source empty, because it will not make the explicit target the source; the legacy parser makes A the source.

## Model

| member | source | states |
|---|---|---|
| AliasManager.AliasRegistry.constructor | backend/alias_manager.py:10-13 | Both tables start empty, so they are inverse and hold no empty name or address. |
| AliasManager.AliasRegistry.AddAlias | backend/alias_manager.py:15-43 | The new tables and the result are those of `AddAliasSpec` on the old tables; inverse tables stay inverse, and tables without empty keys stay so. |
| AliasManager.AliasRegistry.RemoveAliasForIp | backend/alias_manager.py:45-54 | The new tables and the result are those of `RemoveAliasSpec`; inverse tables stay inverse, and tables without empty keys stay so. |
| AliasManager.AliasRegistry.GetIpForAlias | backend/alias_manager.py:56-60 | Finds an address exactly when the lower-cased name is registered, and returns that name's address. |
| AliasManager.AliasRegistry.GetAliasForIp | backend/alias_manager.py:62-67 | Finds a name exactly when the address is registered, and returns the stored lower-case name. |
| AliasManager.AliasRegistry.GetAllAliases | backend/alias_manager.py:69-71 | Returns the forward table; as a value it cannot alias the registry's own table. |
| AliasManager.AddEmptyRejected | backend/alias_manager.py:20-22 | An empty address or name returns false and leaves both tables unchanged. |
| AliasManager.AddThenLookup | backend/alias_manager.py:24-43 | After a successful add, the lower-cased name maps to the address and back, and a lookup in any letter case finds it. |
| AliasManager.AddDropsOldName | backend/alias_manager.py:26-31 | Re-aliasing an address removes its previous name from the forward table. |
| AliasManager.AddDropsOldAddress | backend/alias_manager.py:33-38 | Moving a name to a new address drops the old address's reverse entry only if that entry named this alias. |
| AliasManager.AddPreservesInverse | backend/alias_manager.py:15-43 | `add_alias` keeps the two tables mutual inverses. |
| AliasManager.RemovePreservesInverse | backend/alias_manager.py:45-54 | `remove_alias_for_ip` keeps the two tables mutual inverses. |
| AliasManager.RemoveResult | backend/alias_manager.py:45-54 | With inverse tables, removal succeeds exactly when the address had an alias; afterwards neither the address nor its name is registered, and a miss changes nothing. |
| AliasManager.AddKeepsNamesNonEmpty | backend/alias_manager.py:20-22 | Because empty input is refused and lower-casing keeps length, `add_alias` never stores an empty name or address. |
| AliasManager.RemoveKeepsNamesNonEmpty | backend/alias_manager.py:45-54 | Removal stores no empty name or address. |
| AliasManager.RegistryEntriesNonEmpty | backend/nlp.py:70-75 | Alias entries read from a registry without empty keys have non-empty names, as the parser's whole-word substitution needs. |
| AliasManager.LookupIgnoresCase | backend/alias_manager.py:56-60 | Names equal up to letter case resolve to the same address. |
| Tokens.ExtractIpEntities | backend/nlp.py:156-166 | The entities are exactly the tokens whose text is an IPv4 literal, each with the lower-cased lemma before it (or none at the start), and every address is non-empty. |
| Tokens.DottedQuadIsIp | backend/nlp.py:22-25 | Four groups of one to three digits joined by dots match the IPv4 pattern. |
| Tokens.EntitiesMembership | backend/nlp.py:161-164 | An entity is in the list exactly when its token is an IP literal. |
| Tokens.EntitiesOrdered | backend/nlp.py:161-164 | Entities come in strictly increasing token order. |
| Tokens.EntitiesNonEmpty | backend/nlp.py:161-164 | Every extracted address is non-empty. |
| BackendNlp.CleanRawTextNormalForm | backend/nlp.py:41-45 | Cleaned text is lower-case, has no commas, and is space-normalized (no leading, trailing or doubled whitespace). |
| BackendNlp.CleanRawTextIdempotent | backend/nlp.py:41-45 | Cleaning twice is cleaning once. |
| BackendNlp.CleanBlank | backend/nlp.py:41-45 | Blank input cleans to the empty string. |
| BackendNlp.NoMatchUnchanged | backend/nlp.py:55-56 | Text where the alias never occurs as a whole word is unchanged by the substitution. |
| BackendNlp.AliasAloneReplaced | backend/nlp.py:55-56 | A text that is exactly the alias becomes the address. |
| BackendNlp.ReplaceEachNoMatch | backend/nlp.py:53-57 | Text containing none of the aliases as a whole word is unchanged by the whole substitution loop. |
| BackendNlp.SortedLongestFirst | backend/nlp.py:51 | The alias order puts longer names first, keeps every entry exactly once (a permutation), and keeps names of equal length in their given order, as a stable sort does. |
| BackendNlp.InsertByLengthKeeps | backend/nlp.py:51 | Inserting one entry into a longest-first list keeps it longest-first and adds exactly that entry. |
| BackendNlp.PreprocessCases | backend/nlp.py:60-83 | With no aliases, preprocessing is cleaning; blank input gives "". |
| BackendNlp.PreprocessNormalized | backend/nlp.py:60-83 | The preprocessed text is always space-normalized. |
| BackendNlp.FindPrimaryAction | backend/nlp.py:88-102 | No verb (and index -1) exactly when no token's lemma is an action verb; otherwise the verb is the lemma at the returned index and no action verb follows it. |
| BackendNlp.ActionsFacts | backend/nlp.py:90-93 | The collected actions are exactly the action tokens, in index order. |
| BackendNlp.IdentifyService | backend/nlp.py:105-153 | The two searches compute `IdentifyServiceSpec`, and a found service is non-empty. |
| BackendNlp.ForwardScanFinds | backend/nlp.py:111-131 | The forward search returns the first word it can take after only skippable tokens, and nothing else. |
| BackendNlp.BackwardNearestStrong | backend/nlp.py:133-150 | Searching backward, the strong candidate nearest the verb wins over any held weak one. |
| BackendNlp.BackwardNearestWeak | backend/nlp.py:133-150 | With no strong candidate, the weak candidate nearest the verb is the service; with no candidate there is none. |
| BackendNlp.AssignIpRoles | backend/nlp.py:169-239 | The loops compute `AssignRolesSpec` on the entities. |
| BackendNlp.ClaimFirst | backend/nlp.py:189-213 | One claiming loop computes the claiming pass: the first matching address, and the non-matching entities. |
| BackendNlp.RolesPriority | backend/nlp.py:169-239 | The target is the first on/at address, the source the first from address, and the destination the first to address. With no from and no to address, the source is the single `Leftover` address unless it equals the explicit target, and otherwise none. Without on/at the target is the destination, else the source. Roles hold addresses of entities. |
| BackendNlp.LeftoverIsRemaining | backend/nlp.py:174-213 | The three role passes leave exactly the entities not preceded by from/to, minus the first on/at entity, in clause order. |
| BackendNlp.TargetPassFacts | backend/nlp.py:174-187 | The target pass claims the first on/at address and keeps the others. |
| BackendNlp.ClaimPassFacts | backend/nlp.py:189-213 | A claiming pass takes the first matching address and drops exactly the matching entities. |
| BackendNlp.LoneAddress | backend/nlp.py:215-231 | A single address with no boundary word before it becomes both source and target. |
| BackendNlp.ParseSingle | backend/nlp.py:244-300 | `parse_single` computes `ParseSingleSpec` on the clause's tokens. |
| BackendNlp.ParseSingleOutcome | backend/nlp.py:244-300 | A parsed rule has an action verb, a non-empty service and a target that is an IP token of the clause; no action verb or no IP literal gives no rule. |
| BackendNlp.ExplicitTargetParses | backend/nlp.py:174-187 | An action plus an address after "on"/"at" always parses, aimed at the first such address. |
| BackendNlp.ParseCommands | backend/nlp.py:303-333 | The output is the non-empty parses of the sentences, in order; a rule is in it exactly when some sentence parses to it. |
| LegacyNlp.FirstActionFrom | nlp.py:76-83 | None exactly when no action verb follows; otherwise the index of the first action verb, and none before it. |
| LegacyNlp.FindFirstAction | nlp.py:76-83 | The loop returns the first action verb and its index, or none and -1. |
| LegacyNlp.FindService | nlp.py:85-95 | The loop returns the forward-only service search from the token after the verb. |
| LegacyNlp.ServiceFromFinds | nlp.py:85-95 | A found service is an alphabetic, non-stop, non-punctuation token that is not a boundary preposition. |
| LegacyNlp.ClaimFirstFlagged | nlp.py:133-161 | One flagged claiming loop computes the claiming pass and reports whether any entity matched. |
| LegacyNlp.LegacyAssignRoles | nlp.py:112-185 | The role loops compute `LegacyRolesSpec`. |
| LegacyNlp.LegacyRolesPriority | nlp.py:118-185 | Target, source and destination are the first on/at, from and to addresses. With no from and no to address, a single `Leftover` address is the source even when it is the explicit target, and otherwise there is none. Without on/at the target is the destination, else the source. |
| LegacyNlp.RepeatedTargetAddress | nlp.py:163-170 | For "block A on A" the backend (backend/nlp.py:217-222) leaves the source empty, while the legacy parser makes A the source; both aim at A. |
| LegacyNlp.LegacyParseSingle | nlp.py:50-205 | `parse_single` computes `LegacyParseSingleSpec`. |
| LegacyNlp.LegacyParseOutcome | nlp.py:187-202 | A parsed rule has an action verb, a non-empty service and target, and a source or destination; no action verb gives no rule. |
| LegacyNlp.LegacyParseCommands | nlp.py:208-231 | The output is the non-empty parses of the sentences, in order. |
| LegacyNlp.TargetOnlyClause | nlp.py:191-198 | A clause whose only address follows "on"/"at" parses in the backend (target set, no source or destination) but is rejected here. |
| RuleInterpreter.ChainMatchesReference | backend/policy_components/rule_interpreter.py:70-107 | The chain is OUTPUT on the source of a two-ended rule, INPUT on its destination, FORWARD elsewhere; with only a source, OUTPUT on it and INPUT elsewhere; otherwise INPUT. |
| RuleInterpreter.ExplicitMeansDistinct | backend/policy_components/rule_interpreter.py:38-47 | A target is explicit exactly when it is set and differs from each address that is set. |
| RuleInterpreter.FinalTargetChoice | backend/policy_components/rule_interpreter.py:49-68 | No rule exactly when neither the parser nor the operator names a device; the operator's choice replaces a missing or implicit target and never an explicit one. |
| RuleInterpreter.InterpretedFields | backend/policy_components/rule_interpreter.py:111-119 | Action, service and addresses pass through unchanged and the chain is the reference placement. |
| RuleInterpreter.ImplicitSourceTargetOverridden | backend/policy_components/rule_interpreter.py:49-79 | A target equal to the source of a two-ended rule yields to the operator's selection, which then forwards when it is neither end. |
| ServiceMapper.Mapper.LoadMappings | service_mapper.py:16-44 | Success stores the table and answers true; any failure stores the empty table and answers false. |
| ServiceMapper.Mapper.GetServiceParams | service_mapper.py:46-78 | A missing name answers none and loads nothing; the table is loaded only while the cache is empty, so at most once; a failed first load answers none; otherwise the answer is the lower-cased lookup. |
| ServiceMapper.LookupFinds | service_mapper.py:69-78 | A lookup finds entries exactly when the lower-cased name holds a list, and returns that list. |
| ServiceMapper.LookupIgnoresCase | service_mapper.py:70 | Names equal up to letter case find the same entries. |
| ServiceMapper.FailedLoadIsEmptyCatalog | service_mapper.py:33-44 | After a failed load every lookup answers none, as the empty table does. |
| CommandBuilder.BuildCommands | backend/policy_components/iptables_command_builder.py:21-109 | The command lines are the parts of `CommandParts` joined with spaces, one per part list, the final fallback included. |
| CommandBuilder.TargetMeaning | backend/policy_components/iptables_command_builder.py:11-14 | Block-like verbs jump to DROP, allow-like verbs to ACCEPT, in any letter case; any other verb or none has no target. |
| CommandBuilder.CommandsEmpty | backend/policy_components/iptables_command_builder.py:40-106 | No command exactly when the verb has no target, or the service is neither catch-all nor a known non-empty entry and there is no address; so the fallback at lines 100-106 never fires. |
| CommandBuilder.CommandCount | backend/policy_components/iptables_command_builder.py:63-98 | A catch-all service gives one command, a known service one per catalog entry, an unknown service one address-only command when an address is set. |
| CommandBuilder.CommandOptions | backend/policy_components/iptables_command_builder.py:57-98 | Every command is `iptables -A <chain>`, then `-s <source>` if set, then `-d <destination>` if set, with nothing for an unset address, and ends with `-j <target>`. A catch-all or unknown service command is exactly that with nothing in between; a known service puts entry `k`'s protocol options there. |
| CommandBuilder.EntryOptions | backend/policy_components/iptables_command_builder.py:72-87 | Each entry's command carries its protocol, and `--dport` exactly when the protocol is tcp or udp in any letter case and a port is given. |
| CommandBuilder.CommandWords | backend/policy_components/iptables_command_builder.py:66-87 | With whitespace-free addresses and protocols, splitting a command line gives back its parts. |
| PolicyEngine.ParseAndGenerateCommands | policy_engine.py:48-191 | The loop returns `EngineAll`: one tuple per surviving rule, in input order. |
| PolicyEngine.GenerateForRule | policy_engine.py:59-188 | One loop iteration computes `EngineRule`. |
| PolicyEngine.GenerateCommandLines | policy_engine.py:158-181 | The command lines are the part lists of `EngineCommandParts` joined with spaces. |
| PolicyEngine.ParseAndGenerate | policy_engine.py:31-56 | Parsing with the legacy parser and then running the loop gives `EngineAll` of the parsed rules. |
| PolicyEngine.EngineSkips | policy_engine.py:115-132 | A rule is skipped exactly when no device is settled, the verb is missing or not in the table (exact case), or no address is set; a surviving tuple has commands and the rule's addresses. |
| PolicyEngine.EngineTargetChoice | policy_engine.py:72-113 | The selection is used without a parser target, replaces an implicit one (the source with no distinct destination, or the destination), and is ignored otherwise. |
| PolicyEngine.EngineChainTable | policy_engine.py:134-151 | Two-ended: OUTPUT on the source, INPUT on the destination, FORWARD elsewhere; source only: OUTPUT on it, else INPUT; destination only: OUTPUT on it, else INPUT; no address: INPUT. |
| PolicyEngine.ChainDivergence | policy_engine.py:147-151 | A destination-only rule on its destination is OUTPUT here but INPUT in the interpreter; rules with a source get the same chain from both. |
| PolicyEngine.SourceTargetKept | policy_engine.py:93-110 | A target equal to the source of a rule with a distinct destination is kept here, while the interpreter takes the selection. |
| PolicyEngine.EngineCommandCount | policy_engine.py:158-181 | A catch-all service (exact match, none included) or an unknown one gives exactly the one command `base -j <jump>`. A known one gives one command per entry: the base, that entry's options, then the jump. |
| PolicyEngine.EngineEntryParts | policy_engine.py:165-177 | An entry adds its protocol, and a port exactly when the protocol is written tcp or udp and a port is given. |
| PolicyEngine.EngineAllAppend | policy_engine.py:56-188 | The output of a concatenation is the outputs of its parts in order. |
| PolicyEngine.EngineAllMembership | policy_engine.py:48-191 | Every tuple comes from some input rule, there are at most as many tuples as rules, and no rules give no tuples. |
| PolicyEngine.ParsedRulesAllSurvive | policy_engine.py:48-132 | Every rule the legacy parser yields survives the engine, so there is one tuple per parsed rule. |
| CommandExecutor.PrepareCases | device_app/command_executor.py:27-42 | A command runs exactly when it starts with `iptables ` and the rest is a non-empty string of allowed characters; otherwise it is rejected with the matching message. |
| CommandExecutor.ArgvShape | device_app/command_executor.py:40-42 | The argument vector is `sudo`, `/usr/sbin/iptables`, then the whitespace-split arguments, none empty, none holding whitespace, all characters allowed. |
| CommandExecutor.ExecuteSucceeds | device_app/command_executor.py:53-77 | A command succeeds exactly when it passes validation and its process completes with return code 0. |
| CommandExecutor.CompletedMessage | device_app/command_executor.py:53-64 | A failure message opens with the return code; a success message is the trimmed output, or the fixed text when there is none. |
| CommandExecutor.JoinedLineAccepted | device_app/command_executor.py:27-42 | A space-joined line of allowed words led by `iptables` is accepted and splits back into its words. |
| CommandExecutor.CommandCharsAllowed | device_app/command_executor.py:10-12 | Every part the builder writes uses only allowed characters when the addresses and protocols do. |
| CommandExecutor.BuiltCommandAccepted | device_app/command_executor.py:27-42 | Every line the builder produces, from clean addresses and protocols, is accepted, and the device runs exactly its parts after `iptables`. |
| AppStateModel.AppState.constructor | admin_app/app_logic/app_state.py:4-9 | Nothing previewed, nothing selected, no device status, backend not running. |
| AppStateModel.AppState.SetPreviewedCommands | admin_app/app_logic/app_state.py:15-17 | Sets the previewed list and nothing else. |
| AppStateModel.AppState.SetSelectedTargetIpDisplay | admin_app/app_logic/app_state.py:23-25 | Sets the displayed selection and nothing else. |
| AppStateModel.AppState.SetSelectedTargetActualIp | admin_app/app_logic/app_state.py:31-33 | Sets the selected address and nothing else. |
| AppStateModel.AppState.UpdateDeviceStatusEntry | admin_app/app_logic/app_state.py:35-39 | Overwrites only that address's entry: it then reads back the new entry and every other address reads as before. |
| AppStateModel.AppState.GetDeviceStatusEntry | admin_app/app_logic/app_state.py:38-39 | The entry exactly when the address is known, none otherwise. |
| AppStateModel.AppState.RemoveDeviceStatusEntry | admin_app/app_logic/app_state.py:38-43 | Deletes the entry if present and is a no-op otherwise: the address then reads as unknown and every other address reads as before. |
| AppStateModel.AppState.ClearAllDeviceStatuses | admin_app/app_logic/app_state.py:45-46 | Empties the device map and nothing else. |
| AppStateModel.AppState.ClearPreviewData | admin_app/app_logic/app_state.py:48-49 | Empties the previewed list and nothing else. |
| AppStateModel.AppState.ClearSelectionData | admin_app/app_logic/app_state.py:51-53 | Sets both selection fields to none and leaves the other fields alone. |

## Left out

- Language model: loading, tokenisation, lemmatisation, the stop-word, punctuation and alphabetic flags, and sentence splitting. Tokens and sentences are inputs. The IPv4 match is modelled on one token's text.
- Logging everywhere, and the `print` diagnostics of the catalog loader.
- Reading and decoding `services.json`. A load is passed in as "loaded this table" or "failed". A JSON value that is not an object, or an entry that is not an object, is not modelled. A port is an integer; a port written as a JSON string is not modelled.
- Letter case: `str.lower` is modelled on ASCII letters only. The regex classes `\d` and `\w` are modelled as ASCII. Whitespace is Python's `str.isspace` set.
- BackendNlp.SubstituteAliasesInText: an address is inserted literally. `re.sub` would interpret backslash escapes in the replacement; addresses contain none.
- BackendNlp.PreprocessAndResolveAliases: the branch taken when the alias module is missing (backend/nlp.py:67-69) is not modelled, because the import makes it unreachable. Registry entries are passed in the order `get_all_aliases` yields them.
- BackendNlp.ParseSingleSpec: the second target check (backend/nlp.py:290-293) is omitted because it is unreachable after the first.
- CommandBuilder.BuildCommands: the interpreter's chain is always one of the three names, so the "missing chain" test never fails. The fallback at lines 100-106 is kept in the method and proved never to change the result.
- CommandBuilder.BuildCommands and PolicyEngine.ParseAndGenerateCommands: they take the loaded catalog as a map. The cache's lazy load is modelled once, in `ServiceMapper.Mapper`, and `ServiceMapper.FailedLoadIsEmptyCatalog` shows that a failed load reads as the empty map.
- CommandBuilder.EntryOptions: the "only for tcp/udp" direction assumes no address or protocol is literally `--dport`.
- CommandExecutor: `subprocess.run` is not run. Its outcome is a parameter: completed with a code and output, not found, timed out, or another error. The "error preparing command list" branch (lines 44-47) is left out because `str.split` cannot raise.
- `process_and_dispatch` (policy_engine.py:194-219): network dispatch, not modelled.
- AppStateModel: `datetime` values are timestamps (integers). The GUI code that reads this state is not modelled.
- Python dictionaries are records with `Option` fields. A missing key and a key holding `None` read the same, as `dict.get` makes them.
