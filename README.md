# flare in Dafny

flare manages named security groups: rule groups of firewall-style rules
applied to docker containers. The authoritative copy of every group is kept
in etcd. The service keeps a local cache of the groups beside a dependency
graph of the group-to-group references, and tells listeners about changes.

This project models the core of flare:

- the rule and group value model with its validation and comparison
  (`ApiRule`, `ApiGroup`);
- the `IsValidArgument` family of checks with Go's interface equality
  (`Validation`);
- the bounded retry loop (`Resilience`);
- the dependency graph, as a set of node IDs and a set of edges (`RulesDependency`);
- the key builder, the rule events and the rule store with its cache, graph
  and listener set (`RulesNamespace`, `RulesEvents`, `RulesStore`);
- the etcd adapter over an in-memory hierarchical key tree, and its store
  events (`EtcdTree`, `EtcdStore`, `StoreEvents`);
- the configuration options and the configuration check (`Config`);
- the container events, and the environment, listener and event-filter
  logic of the docker service (`ServiceEvent`, `ServiceDocker`).

The Go packages `strings` and `path/filepath` are modelled where the core
depends on them (`GoStrings`: `Split`, `SplitN`, `HasPrefix`, `Base`,
`ToLower`, `ToUpper`). `Common` holds the `Option`, `Result` and `Outcome`
wrappers and facts about sequences.

The model takes the source's own shape:

- Objects the source updates through `*T` method receivers are classes whose
  methods name what they modify: `FlareRule`, `FlareRuleGroup`,
  `DependencyGraph`, `RulesEvent`, `RulesStore`, `EtcdStoreAgent`,
  `ConfigOptions`, `ContainerEvent` and `Docker`.
- Loops that build a list or change state are `while` loops with
  invariants, each proved against a specification function; the read-only
  scans inside pure checks are recursive functions.
- Pure checks are functions, with lemmas stating what they accept.

Values the source obtains from outside are parameters. The address check
`IsValidIpAddress` reads IPv4 addresses itself and leaves the IPv6 reading
of `net.ParseIP` to an oracle; the rule and group checks take the address
check as an `ipValid` predicate. `url.Parse`, `net.Interfaces` and `os.Stat` are a
`Host`. The codecs are an abstract encode/decode pair. Whether the etcd
server answers attempt `i` of a write is a `reachable` predicate. What the
docker client answers to an inspection is passed in.

Every key the etcd adapter sends is cleaned before the server acts on it:
the client joins it onto its `keys` endpoint with `path.Join` and the
server cleans it again. `CleanKey` models that: one leading "/", the
non-empty elements each after a single "/", nothing trailing, and "/" for a
key with no element. So "flare" names "/flare", and "web/" as a group ID
names "/flare/groups/web".

Points where the code differs from what its names and comments suggest:

- `TYPE_GROUP` is the literal `"type"`.
- `StoreEvent` has the `Directory` field the code sets.
- `RulesStore.Delete` looks at the outbound edges of the group being
  deleted, not at the groups that reference it.
- `RulesStore.Add` only makes the group a node and connects no edges.
- `DependencyGraph.Connect` creates missing endpoints instead of refusing them.
- The environment pattern `^(.*)=(.*)$` matches only entries with no newline,
  since `.` does not match one.

## Model

| member | source | states |
|---|---|---|
| Validation.PortRange | pkg/utils/validation.go:47-52 | a port is valid exactly when it lies in 0..65535 |
| Validation.AnyEqual | pkg/utils/validation.go:88 | Go interface equality: true exactly when both dynamic types and values agree |
| Validation.IsEmpty | pkg/utils/validation.go:56-61 | a string is empty exactly when it is "" |
| Validation.IsValidArgument | pkg/utils/validation.go:86-93 | true exactly when the argument equals one of the allowed values, so never for an empty list |
| Validation.SliceArgumentNeverMatches | pkg/utils/validation.go:86-93 | a string never equals a string slice passed as the single allowed value |
| Validation.StringArgument | pkg/utils/validation.go:86-93 | checking a string against a list of strings is list membership |
| Validation.IsNetworkInterface | pkg/utils/validation.go:70-81 | given the interface listing: its error is passed on, otherwise the answer is membership of the name |
| Validation.IsValidIpAddress | pkg/utils/validation.go:24-30 | a text without ':' is accepted exactly when it is a dotted-decimal IPv4 address, four fields of at most 255 |
| Validation.IPv4AcceptsAddress | pkg/utils/validation_test.go:23-24 | the address check accepts "10.0.0.1", whatever the IPv6 reading |
| Validation.IPv4RejectsLargeOctet | pkg/utils/validation_test.go:25-26 | it rejects "10.0.111.256", whatever the IPv6 reading |
| Validation.IPv4RejectsNetwork | pkg/utils/validation_test.go:27-28 | it rejects the network "10.0.111.0/24", whatever the IPv6 reading |
| Resilience.Attempt | pkg/utils/resilience.go:18-26 | no call and success for attempts <= 0; otherwise at most `attempts` calls, every call before the last fails, the result is the last call's, and a failure means every attempt was used |
| ApiRule.FirstInvalidPortSpec | pkg/api/rule.go:72-76 | the port loop passes exactly when every port is valid; otherwise it names the first invalid port |
| ApiRule.TypeChoice | pkg/api/rule.go:44-46 | a rule type is accepted exactly when it is "service", "address" or "type" |
| ApiRule.ProtocolChoice | pkg/api/rule.go:64-66 | a protocol is accepted exactly when it is "all", "tcp" or "udp" |
| ApiRule.ActionChoice | pkg/api/rule.go:78-80 | an action is accepted exactly when it is ACCEPT (0) or DROP (1) |
| ApiRule.IsValidMeansWellFormed | pkg/api/rule.go:42-83 | IsValid passes exactly when the rule meets every condition, stated independently as WellFormed |
| ApiRule.GroupRuleChecksOnlyId | pkg/api/rule.go:48-53 | a group rule is valid exactly when its ID is non-empty; no other field is checked |
| ApiRule.FirstFailureReported | pkg/api/rule.go:54-81 | a non-group rule fails on the first failing check, in source order: description, destination, protocol, no ports, first invalid port, action |
| ApiRule.ValidationSteps | pkg/api/rule_test.go:36-48 | for any address check that accepts "10.0.0.1" and refuses "90.9.9..00", the test's five rules fail, fail, fail, fail and pass, with the errors the test expects |
| ApiRule.ValidationStepsParsed | pkg/api/rule_test.go:44-47 | with the address check itself, under any IPv6 reading, "90.9.9..00" is refused and "10.0.0.1" passes |
| ApiRule.PortsMatchFromSpec | pkg/api/rule.go:114-118 | the port comparison loop succeeds exactly when the remaining ports are equal |
| ApiRule.CompareDifferentTypes | pkg/api/rule.go:87-89 | rules of different types never compare equal |
| ApiRule.CompareNonGroup | pkg/api/rule.go:97-128 | a non-group rule compares equal exactly when every field but the ID is equal |
| ApiRule.CompareGroupInverted | pkg/api/rule.go:91-96 | group rules compare equal exactly when their IDs differ |
| ApiRule.CompareGroupNotReflexive | pkg/api/rule.go:91-96 | a group rule does not compare equal to itself |
| ApiRule.CompareIntendedEquivalence | pkg/api/rule.go:91-96 | the intended comparison is reflexive and symmetric and matches group rules by ID |
| ApiRule.ActionTypeNames | pkg/api/rule.go:223-228 | ActionType is "DROP" exactly for ACTION_DROP and "ACCEPT" otherwise |
| ApiRule.FlareRule.NewRule | pkg/api/rule.go:216-221 | a new rule is the empty rule: no ports, action DROP |
| ApiRule.FlareRule.Port | pkg/api/rule.go:133-136 | appends the port and changes nothing else |
| ApiRule.FlareRule.Addr | pkg/api/rule.go:138-141 | sets the destination only |
| ApiRule.FlareRule.SetID | pkg/api/rule.go:143-147 | sets the ID only |
| ApiRule.FlareRule.Comment | pkg/api/rule.go:149-153 | sets the description only |
| ApiRule.FlareRule.Invert | pkg/api/rule.go:155-158 | sets the inverse flag only |
| ApiRule.FlareRule.Group | pkg/api/rule.go:160-163 | sets the type to TYPE_GROUP only |
| ApiRule.FlareRule.Service | pkg/api/rule.go:165-168 | sets the type to TYPE_SERVICE only |
| ApiRule.FlareRule.Address | pkg/api/rule.go:170-173 | sets the type to TYPE_ADDRESS only |
| ApiRule.FlareRule.Drop | pkg/api/rule.go:176-179 | sets the action to DROP only |
| ApiRule.FlareRule.Accept | pkg/api/rule.go:181-184 | sets the action to ACCEPT only |
| ApiRule.FlareRule.TCP | pkg/api/rule.go:186-189 | sets the protocol to tcp only |
| ApiRule.FlareRule.UDP | pkg/api/rule.go:191-194 | sets the protocol to udp only |
| ApiRule.FlareRule.All | pkg/api/rule.go:196-199 | sets the protocol to all only |
| ApiRule.FlareRule.AnyAny | pkg/api/rule.go:201-203 | sets the protocol to all and the destination to 0.0.0.0/0, nothing else |
| ApiRule.FlareRule.DestinationAny | pkg/api/rule.go:205-208 | sets the destination to 0.0.0.0/0 only |
| ApiGroup.FirstRuleErrorSpec | pkg/api/group.go:35-39 | the rule loop passes exactly when every rule is valid; otherwise it reports the error of the first invalid rule |
| ApiGroup.IsValidSpec | pkg/api/group.go:24-41 | a group is valid exactly when its ID is non-empty, its rules are not nil and every rule is well formed; an empty ID, nil rules and the first invalid rule give their own errors |
| ApiGroup.CompareSpec | pkg/api/group.go:63-83 | groups compare equal exactly when ID, active flag, description and rule count agree |
| ApiGroup.CompareIgnoresRuleContents | pkg/api/group.go:80-82 | replacing the rules by any as many others still compares equal |
| ApiGroup.ReferencesAppend | pkg/api/group.go:52-60 | the references grow by the ID of an appended group rule and by nothing for other rules |
| ApiGroup.ReferencesMembers | pkg/api/group.go:52-60 | a name is a reference exactly when some group rule has that ID |
| ApiGroup.FirstReference | pkg/api/group.go:101-102 | the index of the first group rule with the name, or -1 when none has it |
| ApiGroup.RemoveAt | pkg/api/group.go:103 | the slice splice: one shorter, the rules before the index kept, the rest shifted down by one |
| ApiGroup.RemoveReference | pkg/api/group.go:100-105 | removing the first matching rule removes the first occurrence of the name from the references |
| ApiGroup.FlareRuleGroup.NewFlareGroup | pkg/api/group.go:44-49 | a new group is active with an empty, non-nil rule list |
| ApiGroup.FlareRuleGroup.SetID | pkg/api/group.go:86-89 | sets the ID only |
| ApiGroup.FlareRuleGroup.Rule | pkg/api/group.go:92-96 | appends one fresh empty rule and returns it; the earlier rules and the other fields are unchanged |
| ApiGroup.FlareRuleGroup.References | pkg/api/group.go:52-60 | the loop returns the IDs of the group rules, in rule order |
| ApiGroup.FlareRuleGroup.RemoveGroup | pkg/api/group.go:100-108 | removes exactly the first group rule naming the group, keeping the order of the rest; fails with the rules unchanged when there is none |
| RulesDependency.TargetsConnect | pkg/rules/dependency.go:45-53 | an added edge adds its target to the targets of its source only |
| RulesDependency.TargetsDisconnect | pkg/rules/dependency.go:58-69 | a removed edge removes its target from the targets of its source only |
| RulesDependency.DependencyGraph.NewDependencies | pkg/rules/dependency.go:30-35 | the new graph has no nodes and no edges |
| RulesDependency.DependencyGraph.Add | pkg/rules/dependency.go:38-40 | the ID becomes a node, the edges are unchanged, and adding it again changes nothing |
| RulesDependency.DependencyGraph.Connect | pkg/rules/dependency.go:45-53 | always succeeds, adds both endpoints as nodes and the edge |
| RulesDependency.DependencyGraph.Disconnect | pkg/rules/dependency.go:58-69 | fails with the edges unchanged when an endpoint is missing; otherwise removes exactly that edge |
| RulesDependency.DependencyGraph.Delete | pkg/rules/dependency.go:73-77 | succeeds and changes nothing |
| RulesDependency.DependencyGraph.Exists | pkg/rules/dependency.go:81-87 | an ID exists exactly when it is a node of the graph |
| RulesDependency.DependencyGraph.Edges | pkg/rules/dependency.go:92-107 | fails for a missing node; otherwise lists each outbound target once and nothing else, found meaning non-empty |
| RulesDependency.DependencyGraph.Size | pkg/rules/dependency.go:111-113 | the number of nodes |
| RulesDependency.EdgesOfA | pkg/rules/dependency_test.go:54-72 | with edges A→B, B→C and A→D, A has two outbound edges |
| RulesDependency.DisconnectFromA | pkg/rules/dependency_test.go:33-52 | disconnecting one of three edges of A leaves two |
| RulesNamespace.GetNamespace | pkg/rules/namespace.go:23-32 | the buffer loop builds the key defined by Namespace |
| RulesNamespace.SectionsAppend | pkg/rules/namespace.go:26-30 | keys contribute their sections in argument order |
| RulesNamespace.NamespacePrefix | pkg/rules/namespace.go:25 | every key starts with "/" and the store namespace |
| RulesNamespace.SkipsEmptyKey | pkg/rules/namespace.go:27 | an empty key contributes nothing |
| RulesNamespace.SectionsInOrder | pkg/rules/namespace.go:26-30 | a non-empty key appends "/" and the key |
| RulesNamespace.GroupKey | pkg/rules/rules.go:117 | with no keys the result is "/ns"; a group's key is "/ns/groups/id" |
| RulesEvents.KindNames | pkg/rules/events.go:134-145 | 0, 1 and 2 name changed, added and deleted; every other value is "unknown"; different kinds get different names |
| RulesEvents.RulesEvent.constructor | pkg/rules/doc.go:46-51 | an event carries the group ID and kind it is given |
| RulesEvents.RulesEvent.Changed | pkg/rules/events.go:93-96 | sets the kind to changed and keeps the ID |
| RulesEvents.RulesEvent.Added | pkg/rules/events.go:99-102 | sets the kind to added and keeps the ID |
| RulesEvents.RulesEvent.Deleted | pkg/rules/events.go:105-108 | sets the kind to deleted and keeps the ID |
| RulesEvents.RulesEvent.KindsExclusive | pkg/rules/events.go:111-132 | at most one of IsChanged, IsAdded and IsDeleted holds, each agreeing with the kind's name |
| RulesStore.CodecFor | pkg/rules/encoding.go:27-61 | "json" selects the JSON codec and anything else the YAML one |
| RulesStore.GroupsDirKey | pkg/rules/rules.go:204-207 | the groups directory is built as "/" + namespace + "/groups" and is a canonical key other than the root |
| RulesStore.GroupPathClean | pkg/rules/rules.go:117-120 | cleaning the key built from the namespace, "groups" and the ID gives the groups directory followed by each element of the ID, and the directory itself for an ID without elements |
| RulesStore.GroupPathListed | pkg/rules/rules.go:117-120 | an ID with an element is stored inside the groups directory; a plain name is the last element of its key |
| RulesStore.StoredGroupListed | pkg/rules/rules.go:120 | after the write the group's key reads back the content, and is a listed file when the ID has an element |
| RulesStore.DoubledKey | pkg/rules/rules.go:257 | fetching a listed key as an ID reads the groups directory followed by the whole key, a longer key of the same directory |
| RulesStore.NestedPathMissing | pkg/rules/rules.go:257 | for a longest stored group key, that doubled key is missing (answered "Key not found", or "Not a directory" when a stored file lies on its path), or is a directory whose value is "" |
| RulesStore.EmptyTextRefused | pkg/rules/encoding.go:27-61 | with a decoder that refuses "" or reads it as the zero group, the empty text never gives a valid group |
| RulesStore.RulesStore.DeepestKeyLoads | pkg/rules/rules.go:257-265 | a longest listed key is fetched and validated only when the empty text decodes to a valid group |
| RulesStore.RulesStore.ListingLoads | pkg/rules/rules.go:253-265 | if every key of a non-empty listing fetches a valid group, so does the empty text |
| RulesStore.Unresolved | pkg/rules/rules.go:104-108 | the intended reference check: a reference naming no listed group, or none exactly when every reference is named |
| RulesStore.UnresolvedFirst | pkg/rules/rules.go:104-106 | the reference it reports is the first in rule order that no listed group answers |
| RulesStore.ReferenceCheckFinding | pkg/rules/rules.go:105 | the check as written rejects a reference that the intended check accepts |
| RulesStore.IdsOf | pkg/rules/rules.go:229 | the ID each listed key names, its last element |
| RulesStore.IdsOfListing | pkg/rules/rules.go:241 | the IDs of a listing are the IDs of its set of keys |
| RulesStore.RuleEdgesAppend | pkg/rules/rules.go:271-281 | a group rule adds one edge from the group to the referenced ID; other rules add none |
| RulesStore.RuleEdgesAreReferences | pkg/rules/rules.go:271-281 | the edges of a group are one per reference |
| RulesStore.GroupEdgesUpdate | pkg/rules/rules.go:285 | caching a group adds the edges of its references |
| RulesStore.ReferenceStops | pkg/rules/rules.go:271-282 | the reference loop as written stops the sync exactly when the group holds a group rule |
| RulesStore.LinkReferences | pkg/rules/rules.go:271-282 | the inner loop of a sync: fails on the first reference outside the listed IDs, otherwise connects every reference |
| RulesStore.RulesStore.constructor | pkg/rules/rules.go:55-59 | a store starts with an empty cache, an empty graph and no listeners |
| RulesStore.RulesStore.Get | pkg/rules/rules.go:179-197 | the group decoded from the cleaned key of the ID; a missing key is the backend's error for it ("Key not found", or "Not a directory" below a stored file) |
| RulesStore.RulesStore.ListGroups | pkg/rules/rules.go:200-212 | every leaf under the groups directory once, or the backend's error for the directory when it is missing |
| RulesStore.RulesStore.Store | pkg/rules/rules.go:110-131 | encodes and writes the group at the cleaned key of its ID, then caches it and makes it a node; the key is then a listed file when the ID has an element; a failed encoding or write changes nothing |
| RulesStore.RulesStore.Add | pkg/rules/rules.go:89-132 | invalid groups, a missing directory and any reference are refused with nothing changed; otherwise the group is written, cached and made a node, and reads back when the codec round-trips |
| RulesStore.RulesStore.AddIntended | pkg/rules/rules.go:103-108 | as Add, but it succeeds exactly when every reference names a listed group |
| RulesStore.RulesStore.Delete | pkg/rules/rules.go:136-165 | fails for a group that is not a node; succeeds exactly when every group its edges lead to loads and references it; changes nothing |
| RulesStore.RulesStore.CheckReferences | pkg/rules/rules.go:150-160 | the loop over the edges of Delete: passes exactly when every target loads and holds a reference to the group |
| RulesStore.RulesStore.Flush | pkg/rules/rules.go:168-175 | succeeds and changes nothing |
| RulesStore.RulesStore.IsGroup | pkg/rules/rules.go:216-234 | an empty ID is an error; otherwise true exactly when some stored group key ends in the ID |
| RulesStore.EndsIn | pkg/rules/rules.go:228-233 | the loop of IsGroup: true exactly when some listed key has the ID as its last element |
| RulesStore.RulesStore.SyncStep | pkg/rules/rules.go:256-282 | one pass of the loop: a failed fetch and an invalid group stop with their errors; a reference stops with the nil error; otherwise the group is a new node |
| RulesStore.RulesStore.LoadListed | pkg/rules/rules.go:253-286 | the loop over the listing: a stop is a load failure or an invalid group naming a listed key, or nil; with no stop every listed key holds a valid group and is cached and a node, with no edges |
| RulesStore.RulesStore.LoadAndSwap | pkg/rules/rules.go:253-293 | loads the listing and swaps in the new cache and graph only when every listed key is accepted; a failure names a listed key and changes nothing |
| RulesStore.RulesStore.Sync | pkg/rules/rules.go:237-294 | a missing directory is the backend's error for it; with no stored group it swaps in an empty cache and graph; with groups stored it keeps the old cache and graph unless the empty text decodes to a valid group; a failure or the nil of a reference keeps them; a swap holds every listed key with its group |
| RulesStore.RulesStore.CacheLoadedStep | pkg/rules/rules.go:285 | adding a loaded group keeps every cached group equal to its stored copy |
| RulesStore.RulesStore.LoadOne | pkg/rules/rules.go:256-282 | one intended pass: succeeds exactly when the group loads, is valid and references only listed IDs, then adds its node and its reference edges |
| RulesStore.RulesStore.LoadAll | pkg/rules/rules.go:253-286 | the intended loop: succeeds exactly when every listed group loads, giving a cache of exactly those groups with a matching graph |
| RulesStore.RulesStore.LoadableListing | pkg/rules/rules.go:241-253 | loading by listing position is loading every stored key |
| RulesStore.RulesStore.SyncIntended | pkg/rules/rules.go:237-294 | succeeds exactly when every stored group loads, then swaps in a cache of all stored groups by ID and the graph of their references; a failure keeps the old cache and graph |
| RulesStore.RulesStore.AddListener | pkg/rules/events.go:24-33 | a nil channel is an error with the set unchanged; another is added with set semantics |
| RulesStore.RulesStore.DeleteListener | pkg/rules/events.go:37-42 | removes only that channel, a no-op when absent |
| RulesStore.RulesStore.Listeners | pkg/rules/events.go:45-53 | each listener exactly once and nothing else |
| StoreEvents.FileIsNotDirectory | pkg/store/event.go:40-46 | IsFile is the negation of IsDirectory |
| StoreEvents.ActionKinds | pkg/store/event.go:26-72 | ActionType names changed, deleted and added exactly when the matching predicate holds, "unknown" otherwise, and at most one predicate holds |
| EtcdTree.PathElements | pkg/store/etcd.go:212 | the elements of a key are non-empty and contain no slash |
| EtcdTree.PathElementsAround | pkg/store/etcd.go:212 | the elements of two paths joined by a slash are those of the first, then those of the second |
| EtcdTree.CleanKey | pkg/store/etcd.go:212 | the key the server acts on is canonical, and is the root exactly when the requested key has no element |
| EtcdTree.CleanCanonical | pkg/store/etcd.go:212 | cleaning leaves a canonical key as it is, so the keys the server lists are used unchanged |
| EtcdTree.CleanName | pkg/store/etcd.go:296 | a name without slashes is cleaned to that name under the root |
| EtcdTree.CleanAround | pkg/rules/namespace.go:23 | cleaning a key with a further path: the cleaned key, then each further element after a slash |
| EtcdTree.SetKeepsTreeOk | pkg/store/etcd.go:223-232 | a write keeps the tree well formed |
| EtcdTree.CreateDirKeepsTreeOk | pkg/store/etcd.go:158 | creating a directory keeps the tree well formed |
| EtcdTree.DeleteKeepsTreeOk | pkg/store/etcd.go:239 | a deletion keeps the tree well formed |
| EtcdTree.GetAfterSet | pkg/store/etcd.go:210-232 | a key reads back what was written; a missing key below the new file is now answered "Not a directory"; other keys read as before |
| EtcdTree.BelowFileNotADirectory | pkg/store/etcd.go:284-288 | reading or deleting a key below a stored file is answered "Not a directory", the error that Exists passes on |
| EtcdTree.LeavesAfterSet | pkg/store/etcd.go:325-338 | a write adds its key to the leaves of every directory above it and no others |
| EtcdTree.LeafCountAfterSet | pkg/store/etcd_test.go:100-119 | writing a new leaf below a directory raises its recursive listing by one |
| EtcdTree.DeleteRemovesSubtree | pkg/store/etcd.go:237-241 | a deletion removes the key and everything below it and keeps the rest |
| EtcdTree.DeleteFile | pkg/store/etcd.go:266 | deleting a file removes only that key |
| EtcdTree.LeavesByChildren | pkg/store/etcd.go:325-338 | the leaves of a directory are the contributions of its children |
| EtcdStore.ActionOf | pkg/store/etcd.go:373-378 | "delete" gives DELETED and every other action CHANGED |
| EtcdStore.EventOf | pkg/store/etcd.go:369-378 | the event carries the node's key, value and directory flag and is never an added event |
| EtcdStore.IsValidKey | pkg/store/etcd.go:348-353 | a key is valid exactly when it starts with "/" |
| EtcdStore.EtcdStoreAgent.NewEtcdStore | pkg/store/etcd.go:69-71 | the agent starts with its prefix, no watched keys and no listener |
| EtcdStore.EtcdStoreAgent.Get | pkg/store/etcd.go:210-218 | the value at the cleaned key, or the server's error with an empty value |
| EtcdStore.EtcdStoreAgent.Set | pkg/store/etcd.go:223-232 | the write at the cleaned key, tried up to three times, succeeds exactly when it is possible and some attempt reaches the server; a failure changes nothing |
| EtcdStore.EtcdStoreAgent.Delete | pkg/store/etcd.go:237-241 | the server's deletion of the cleaned key, which changes nothing when it fails |
| EtcdStore.EtcdStoreAgent.Exists | pkg/store/etcd.go:282-291 | true exactly when the cleaned key exists; "Key not found" is not an error, while a stored file on the key's path gives (false, "Not a directory") |
| EtcdStore.EtcdStoreAgent.IsDirectory | pkg/store/etcd.go:340-346 | whether the cleaned key is a directory; a missing key is the server's error, "Not a directory" when a file lies on its path and "Key not found" otherwise |
| EtcdStore.EtcdStoreAgent.Mkdir | pkg/store/etcd.go:156-172 | the root is read-only; succeeds unchanged on an existing directory, fails unchanged on an existing file, otherwise creates the directory |
| EtcdStore.EtcdStoreAgent.List | pkg/store/etcd.go:177-206 | recursive: every leaf below the cleaned path once; otherwise the file children of a directory, failing on a file or a missing path |
| EtcdStore.EtcdStoreAgent.FilesIn | pkg/store/etcd.go:198-203 | the loop of a plain listing: each file child of the directory once, skipping directories |
| EtcdStore.EtcdStoreAgent.ListUnder | pkg/store/etcd.go:330-337 | appends every leaf below the key once after what was collected, keeping that |
| EtcdStore.EtcdStoreAgent.ListChild | pkg/store/etcd.go:330-336 | one child of the recursive walk appends exactly the leaves it contributes |
| EtcdStore.EtcdStoreAgent.RecursiveList | pkg/store/etcd.go:325-338 | appends every leaf below an existing path once, keeping what was collected; a missing path is the server's error for it |
| EtcdStore.EtcdStoreAgent.DeleteAll | pkg/store/etcd.go:245-271 | a missing path fails unchanged with the server's error for it, from Exists or isDirectory; a file fails unchanged; a directory loses exactly its file children |
| EtcdStore.EtcdStoreAgent.DeleteFiles | pkg/store/etcd.go:265-269 | deleting listed files removes exactly those keys and nothing else |
| EtcdStore.EtcdStoreAgent.Flush | pkg/store/etcd.go:294-301 | deletes the cleaned prefix and everything below it, changing nothing when that fails |
| EtcdStore.FlushNamedNamespace | pkg/store/etcd.go:296 | a namespace without slashes, such as the default "flare", names "/flare": the deletion succeeds exactly when that key is stored |
| EtcdStore.EtcdStoreAgent.Watch | pkg/store/etcd.go:305-316 | an invalid key fails with the watched keys unchanged; a valid one is added and nothing else changes |
| EtcdStore.EtcdStoreAgent.AddListener | pkg/store/etcd.go:318-323 | sets the listener channel and nothing else |
| EtcdStore.EtcdStoreAgent.ProcessNodeChange | pkg/store/etcd.go:355-384 | emits one event exactly when a listener is set and some watched key prefixes the changed key, and it is the event of the response |
| Config.ConfigOptions.constructor | pkg/config/config.go:137-141 | a new option set is empty |
| Config.ConfigOptions.Get | pkg/config/config.go:146-153 | the stored value of a key, or the default when it has none |
| Config.ConfigOptions.Set | pkg/config/config.go:157-164 | succeeds exactly when the text holds one "=", storing the text after it under the text before it; otherwise nothing changes |
| Config.ConfigOptions.Add | pkg/config/config.go:169-173 | stores the value under the key, replacing it, and changes no other key |
| Config.OptionsGet | pkg/config/config_test.go:35-40 | a stored 12 comes back, and a missing key gives its default |
| Config.OptionsSet | pkg/config/config_test.go:42-52 | "test1=1" and "cacert=/var/log/cert.crt" are stored and read back, and a bare "cacert" is refused |
| Config.CheckEncoding | pkg/config/config.go:82-86 | passes exactly when the lower-cased encoding is "json" or "yaml"; the error names the lower-cased encoding |
| Config.CheckHost | pkg/config/config.go:88-102 | passes exactly when the docker interface is listed and a named bootstrap file exists; a failed interface listing is its own error |
| Config.CheckCase | pkg/config/config.go:104-113 | passes exactly when the upper-cased level and policy are allowed; a level error names the upper-cased level |
| Config.IsValid | pkg/config/config.go:66-115 | passes exactly when every check is acceptable; the missing-prefix error comes exactly when the URLs pass and the prefix is empty; an encoding error names the lower-cased encoding |
| Config.CaseDoesNotMatter | pkg/config/config.go:83-106 | the encoding, level and policy are judged only after case normalisation, on a copy of the configuration |
| Config.DefaultConfig | pkg/config/config.go:180-196 | the defaults, the zero metrics URL, metrics port and store arguments, and two distinct new empty option sets |
| Config.DefaultCase | pkg/config/config.go:184-190 | the default encoding, level and policy are already in normal case |
| Config.DefaultsValid | pkg/config/config_test.go:22-28 | the defaults pass on a host with docker0 where the store URL parses, and fail for want of a prefix once it is cleared |
| GoStrings.SplitInTwo | pkg/config/config.go:158-159 | splitting on "=" gives two parts exactly when the text holds one "=", and they are the texts around it |
| ServiceEvent.ContainerEvent.constructor | pkg/service/docker.go:163 | a new container event has an empty ID and status |
| ServiceEvent.ContainerEvent.ContainerID | pkg/service/event.go:16-19 | sets the ID, keeps the status and returns the same event |
| ServiceEvent.ContainerEvent.SetStatus | pkg/service/event.go:21-24 | sets the status, keeps the ID and returns the same event |
| ServiceEvent.ContainerEvent.StartOrDestroy | pkg/service/event.go:26-38 | no event has both started and been destroyed, and a "die" event is neither |
| ServiceDocker.EnvironmentKeys | pkg/service/docker.go:114-122 | the environment's keys are the keys of the assignment entries |
| ServiceDocker.EnvironmentLast | pkg/service/docker.go:115-118 | a key takes the value of its last assignment |
| ServiceDocker.EnvironmentSkips | pkg/service/docker.go:119-121 | an entry that is not an assignment leaves the environment unchanged |
| ServiceDocker.EnvironmentExample | pkg/service/docker.go:117-118 | a value may hold "=": only the first one separates the key |
| ServiceDocker.Exists | pkg/service/docker.go:129-137 | as written: an inspection error is read as a missing container exactly when "No such container" starts with the error text |
| ServiceDocker.ExistsMissesMissingContainer | pkg/service/docker.go:131 | docker's error for a missing container is passed on as an error by Exists, though the intended check reads it as a missing container |
| ServiceDocker.ExistsIntended | pkg/service/docker.go:130-134 | an error starting with "No such container" means a missing container; any other error is passed on |
| ServiceDocker.EveryEventSkipped | pkg/service/docker.go:158-161 | the filter as written skips every status |
| ServiceDocker.RelevantEvents | pkg/service/docker.go:157-158 | the intended filter passes exactly the start and destroy events |
| ServiceDocker.Docker.constructor | pkg/service/docker.go:55 | the service starts with no listeners |
| ServiceDocker.Docker.AddListener | pkg/service/docker.go:182-188 | always succeeds and adds the channel to the set |
| ServiceDocker.Docker.Environment | pkg/service/docker.go:98-125 | the error of a failed existence check, a missing container or a failed inspection; otherwise the environment the entries define |
| ServiceDocker.Docker.RelayIntended | pkg/service/docker.go:155-167 | with the intended filter: a new event with the docker ID and status exactly for start and destroy events |

## Left out

- Concurrency is left out and the model is sequential. This covers every
  `sync.RWMutex`, the goroutine-per-send `pushNotification` of the rules store
  and the docker service, the event processor loops of both, and the etcd
  watch goroutine with its wait index.
- The etcd client, its TLS set-up and `Close` are left out: the server is an
  in-memory key tree (`EtcdTree`).
- RulesStore `New` and `Close`, `pkg/service/flare.go`, the processor, the
  commands and the discovery package are wiring and stubs outside the core.
- JSON and YAML encoding are library code. They are an abstract codec, and
  only the choice between them is modelled.
- Parsing IPs and URLs, listing interfaces and checking files are oracles:
  `ipValid` and `Host`.
- The docker client calls `List`, `Get` and the inspections are left out;
  their answers are parameters of `Environment`.
- `RandomUUID`, `RandomInt`, `Timed`, the empty `Try` and the `String`
  formatters are randomness, clocks, stubs and text formatting.
- Error messages are modelled as error constructors carrying the values the
  messages name, except where the docker service and the option set build
  the text themselves.
- Upper- and lower-casing are modelled on ASCII letters only.
- `CONTAINER_STARTED` and `CONTAINER_DIED` are both `0 << iota`, that is 0,
  and nothing uses them.
- RulesStore.RulesStore.Add: the loop over the references is modelled only
  at its first check, which never succeeds, so the later checks cannot run.
- RulesStore.RulesStore.Delete: `RemoveGroup` edits a freshly decoded copy
  that is never written back. The model checks that it would succeed and
  changes nothing.
- RulesStore.RulesStore.SyncStep: the `Connect` call after the reference
  check can never run and is not modelled.
- RulesStore.RulesStore.Sync: the failing key is stated to be some listed
  key, not the first, because the order of an etcd listing is not modelled.
  For the same reason it does not say which stop a non-empty listing meets,
  only that it meets one.
- RulesStore.RulesStore.Sync: the codecs are abstract, so the promise that a
  non-empty listing swaps nothing in holds for every codec under which the
  empty text does not decode to a valid group. `EmptyTextRefused` shows that
  the JSON and YAML behaviours satisfy it: JSON refuses "" and YAML reads it as
  the zero group, whose ID is empty.
- RulesStore.RulesStore.LoadListed: names some listed key in its error, not
  the first, for the same reason.
- RulesStore.RulesStore.ListGroups: states the set of keys, not their order.
- EtcdStore.EtcdStoreAgent.List: states the set of keys, not their order.
- EtcdStore.EtcdStoreAgent.RecursiveList: states the set of keys it
  appends, not their order.
- RulesStore.RulesStore.AddIntended: reports an unresolved reference but
  does not state that it is the first in rule order; `UnresolvedFirst` proves
  that of the check it uses.
- RulesStore.RulesStore.SyncIntended: on failure it does not state which
  error is returned.
- The cache holds group values: the Go cache holds references shared with the
  caller, and that aliasing is not modelled.
- ServiceDocker.Docker.RelayIntended: requires an ID of at least twelve
  characters, because the log line before the filter slices `ID[:12]` and
  panics on a shorter one.
- EtcdStore.EtcdStoreAgent.DeleteAll: the error built for a missing path is
  dropped by the source. The model reports the error that `Exists` passes on
  ("Not a directory") or, failing that, the not-found error that
  `isDirectory` then returns.
- EtcdStore.EtcdStoreAgent.Exists: is always answered by the server. The
  same holds for Get, IsDirectory, Mkdir, List, RecursiveList, Delete,
  DeleteAll and Flush. The model has no unreachable cluster for them, so a
  transport error never reaches the error return at pkg/store/etcd.go:288;
  that return is reached only by the server's "Not a directory" answer for a
  key below a stored file. Only Set has a `reachable` oracle, because only
  Set retries.
- Hidden keys are not modelled. The etcd server leaves out of every
  directory listing, recursive or not, a node whose name starts with "_",
  and everything below such a directory. The model's listings (`Children`,
  `FileChildren` and `Leaves`) include them. The members below state their
  listings over every stored key, so each of them says more than etcd
  answers for a tree holding a "_" name, and is exact for every other tree.
  Such a name reaches the store only through a group ID or a namespace with
  an element that starts with "_".
- RulesStore.StoredGroupListed: a stored group with a "_" ID, or with a "_"
  element in its ID, is a leaf of the groups directory in the model, but
  etcd does not list it (hidden keys).
- RulesStore.RulesStore.Store: the written key is stated to be listed even
  for a "_" ID that etcd does not list (hidden keys).
- RulesStore.RulesStore.ListGroups: lists hidden "_" group keys, which etcd
  leaves out (hidden keys).
- RulesStore.RulesStore.AddIntended: accepts a reference to a hidden "_"
  group, whose key etcd's listing leaves out, so the source would refuse it
  (hidden keys).
- RulesStore.RulesStore.IsGroup: answers true for a hidden "_" ID, where the
  etcd listing leaves its key out and the source answers false (hidden keys).
- RulesStore.RulesStore.Sync: "no stored group" and the keys it loads count
  hidden "_" keys, which etcd does not list (hidden keys).
- RulesStore.RulesStore.SyncIntended: its cache holds hidden "_" groups too,
  which the etcd listing leaves out (hidden keys).
- EtcdStore.EtcdStoreAgent.List: includes hidden "_" keys in both modes
  (hidden keys).
- EtcdStore.EtcdStoreAgent.FilesIn: walks every child, hidden "_" files
  included (hidden keys).
- EtcdStore.EtcdStoreAgent.ListUnder: appends hidden "_" files and the
  leaves under hidden directories (hidden keys).
- EtcdStore.EtcdStoreAgent.ListChild: appends the contribution of a hidden
  "_" child (hidden keys).
- EtcdStore.EtcdStoreAgent.RecursiveList: appends every leaf, hidden
  subtrees included (hidden keys).
- EtcdStore.EtcdStoreAgent.DeleteAll: deletes hidden "_" files too, which
  the source never sees in its listing and so keeps (hidden keys).
- EtcdTree.CleanKey: does not resolve "." and ".." elements, which
  `path.Clean` does; the model treats them as ordinary names.
- The metrics URL and port are not checked by `IsValid` and are only fields.

## Findings

| source | as written | input that shows it | evidently intended | confidence | as-written member | corrected member |
|---|---|---|---|---|---|---|
| pkg/rules/rules.go:105 | `IsValidArgument(reference, group_list)` passes the listing slice as one variadic value, so no reference ever matches | a valid group with a group rule "web" while "/flare/groups/web" is stored: Add refuses it | accept a reference when some listed key ends in it | high; not executed | RulesStore.ReferenceCheckFinding | RulesStore.RulesStore.AddIntended |
| pkg/rules/rules.go:257 | Sync fetches each listed key with `Get`, which prefixes the groups directory again | the stored key "/flare/groups/web" is fetched as "/flare/groups/flare/groups/web", which is not stored unless a group with ID "flare/groups/web" is; a longest stored key never finds its group | fetch the group named by the last element of the key | high; not executed | RulesStore.NestedPathMissing | RulesStore.RulesStore.SyncIntended |
| pkg/rules/rules.go:277 | an unmatched reference returns `err`, which is nil after the successful fetch | groups "a" and "flare/groups/a" stored, the second valid with a group rule: the listed key "/flare/groups/a" fetches the second group, and the sync returns nil and swaps nothing in | return an error naming the reference | high; not executed | RulesStore.RulesStore.SyncStep | RulesStore.RulesStore.LoadOne |
| pkg/api/rule.go:92-95 | group rules compare equal when their IDs differ | two group rules with ID "a" compare unequal | equal exactly when the IDs are equal | high; not executed | ApiRule.CompareGroupNotReflexive | ApiRule.CompareIntendedEquivalence |
| pkg/service/docker.go:158 | `Status != DESTROY \|\| Status != START` holds for every status | a "start" event is skipped | `&&`: skip all but start and destroy | high; not executed | ServiceDocker.EveryEventSkipped | ServiceDocker.Docker.RelayIntended |
| pkg/service/docker.go:131 | `HasPrefix("No such container", err.Error())` has its arguments reversed | the error "No such container: 5f3c" is returned as an error instead of "not found" | `HasPrefix(err.Error(), "No such container")` | medium; not executed | ServiceDocker.ExistsMissesMissingContainer | ServiceDocker.ExistsIntended |
