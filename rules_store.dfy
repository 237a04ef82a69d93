/** The rules store: rule groups kept encoded in the etcd backend at the
    cleaned form of "/<namespace>/groups/<id>", a cache of the groups added or
    synced, the dependency graph between groups, and the registry of channels
    listening for rule events. The JSON and YAML codecs are abstract
    encode/decode pairs, and the address check is the `ipValid` oracle. */
module RulesStore {
  import opened Common
  import opened GoStrings
  import opened Validation
  import ApiRule
  import opened ApiGroup
  import opened RulesNamespace
  import opened RulesDependency
  import opened EtcdTree
  import opened EtcdStore

  const NAMESPACE_GROUPS: string := "groups"
  const NAMESPACE_FLARE: string := "nodes"

  /** An encoding of groups as text: encoding and decoding may each fail. */
  datatype Codec = Codec(encode: Group -> Result<string, string>, decode: string -> Result<Group, string>)

  /** The store encoding option picks the codec: "json" selects JSON, anything else YAML. */
  function CodecFor(encoding: string, json: Codec, yaml: Codec): (c: Codec)
    ensures encoding == "json" ==> c == json
    ensures encoding != "json" ==> c == yaml
  {
    if encoding == "json" then json else yaml
  }

  /** The codec gives back what it encoded. */
  predicate RoundTrips(codec: Codec, group: Group)
  {
    codec.encode(group).Ok? && codec.decode(codec.encode(group).value) == Ok(group)
  }

  datatype RulesError =
    | Invalid(cause: GroupError)
    | Backend(storeError: StoreError)
    | MissingReference(reference: string)
    | Encoding(message: string)
    | Decoding(message: string)
    | Dependency(message: string)
    | NotReferenced(group: string, reference: string)
    | LoadFailed(name: string)
    | InvalidGroup(name: string, violation: GroupError)
    | NoGroupId
    | NoChannel

  /** The directory the groups are stored in, as the server names it once the
      client has cleaned the key built for it. */
  function GroupsDir(storeNamespace: string): string
  {
    CleanKey(Namespace(storeNamespace, [NAMESPACE_GROUPS]))
  }

  /** The key a group is stored at, as the server names it: the groups directory
      followed by each element of the ID after one slash (GroupPathClean shows it is
      the cleaned form of the key built for the group). */
  function GroupPath(storeNamespace: string, id: string): (key: string)
    ensures WellFormedKey(key)
  {
    GroupsDirKey(storeNamespace);
    CleanAround(Namespace(storeNamespace, [NAMESPACE_GROUPS]), id);
    GroupsDir(storeNamespace) + JoinKey(PathElements(id))
  }

  /** The key built for the groups directory, and the directory the server sees: a
      canonical key other than the root. */
  lemma GroupsDirKey(storeNamespace: string)
    ensures Namespace(storeNamespace, [NAMESPACE_GROUPS]) == "/" + storeNamespace + "/" + NAMESPACE_GROUPS
    ensures PathElements(Namespace(storeNamespace, [NAMESPACE_GROUPS])) != []
    ensures WellFormedKey(GroupsDir(storeNamespace))
  {
    RulesNamespace.GroupKey(storeNamespace, "x");
    SectionsInOrder(storeNamespace, [], NAMESPACE_GROUPS);
    assert [] + [NAMESPACE_GROUPS] == [NAMESPACE_GROUPS];
    PathElementsAround("/" + storeNamespace, NAMESPACE_GROUPS);
    NameElements(NAMESPACE_GROUPS);
  }

  /** The key built for a group, once cleaned, is the group's key; an ID without
      elements (such as "" or "/") names the groups directory itself. */
  lemma GroupPathClean(storeNamespace: string, id: string)
    ensures CleanKey(Namespace(storeNamespace, [NAMESPACE_GROUPS, id])) == GroupPath(storeNamespace, id)
    ensures PathElements(id) == [] ==> GroupPath(storeNamespace, id) == GroupsDir(storeNamespace)
  {
    GroupsDirKey(storeNamespace);
    if id == "" {
      SkipsEmptyKey(storeNamespace, [NAMESPACE_GROUPS], []);
      assert [NAMESPACE_GROUPS] + [""] + [] == [NAMESPACE_GROUPS, id];
      assert [NAMESPACE_GROUPS] + [] == [NAMESPACE_GROUPS];
      NameElements(id);
    } else {
      SectionsInOrder(storeNamespace, [NAMESPACE_GROUPS], id);
      assert [NAMESPACE_GROUPS] + [id] == [NAMESPACE_GROUPS, id];
      CleanAround(Namespace(storeNamespace, [NAMESPACE_GROUPS]), id);
    }
  }

  /** An ID with an element is stored in the groups directory; a plain name is the
      last element of its key, right after the directory and a slash. */
  lemma GroupPathListed(storeNamespace: string, id: string)
    ensures PathElements(id) != [] ==> Below(GroupsDir(storeNamespace), GroupPath(storeNamespace, id))
    ensures id != "" && '/' !in id ==>
      GroupPath(storeNamespace, id) == GroupsDir(storeNamespace) + "/" + id && Base(GroupPath(storeNamespace, id)) == id
  {
    GroupsDirKey(storeNamespace);
    var dir := GroupsDir(storeNamespace);
    if PathElements(id) != [] {
      AppendedBelow(dir, PathElements(id));
    }
    if id != "" && '/' !in id {
      NameElements(id);
      AppendedName(dir, id);
    }
  }

  /** Elements appended to a canonical directory key give a key below it. */
  lemma AppendedBelow(dir: string, es: seq<string>)
    requires WellFormedKey(dir) && es != []
    ensures Below(dir, dir + JoinKey(es))
  {
    assert JoinKey(es) == "/" + es[0] + JoinKey(es[1..]);
    assert (dir + JoinKey(es))[..|dir| + 1] == dir + "/";
  }

  /** One plain name appended to a directory key is its last element. */
  lemma AppendedName(dir: string, name: string)
    requires name != "" && '/' !in name
    ensures dir + JoinKey([name]) == dir + "/" + name && Base(dir + "/" + name) == name
  {
    assert JoinKey([name]) == "/" + name + JoinKey([]);
    BaseOfKey(dir, name);
  }

  /** A group written to the backend reads back what was written, and is a file of
      the groups directory when its ID has an element. */
  lemma StoredGroupListed(t: Tree, storeNamespace: string, id: string, content: string)
    requires SetTree(t, GroupPath(storeNamespace, id), content).Ok?
    ensures PathElements(id) != [] ==>
      GroupPath(storeNamespace, id) in Leaves(SetTree(t, GroupPath(storeNamespace, id), content).value, GroupsDir(storeNamespace))
    ensures GetTree(SetTree(t, GroupPath(storeNamespace, id), content).value, GroupPath(storeNamespace, id)) == Ok(content)
  {
    GroupPathListed(storeNamespace, id);
    GetAfterSet(t, GroupPath(storeNamespace, id), content, GroupPath(storeNamespace, id));
  }

  /** Fetching a listed key as if it were an ID doubles the namespace: the server sees
      the groups directory followed by the whole listed key, a longer key of the
      same directory. */
  lemma DoubledKey(storeNamespace: string, name: string)
    requires WellFormedKey(name)
    ensures GroupPath(storeNamespace, name) == GroupsDir(storeNamespace) + name
    ensures Below(GroupsDir(storeNamespace), GroupPath(storeNamespace, name))
    ensures |GroupPath(storeNamespace, name)| > |name|
  {
    CleanCanonical(name);
    GroupPathClean(storeNamespace, name);
    GroupPathListed(storeNamespace, name);
    GroupsDirKey(storeNamespace);
  }

  /** The index of a longest text of a non-empty listing. */
  function Longest(listing: seq<string>): (m: nat)
    requires listing != []
    ensures m < |listing| && forall j :: 0 <= j < |listing| ==> |listing[j]| <= |listing[m]|
  {
    if |listing| == 1 then 0
    else
      var m := Longest(listing[1..]);
      assert forall j :: 1 <= j < |listing| ==> listing[j] == listing[1..][j - 1];
      if |listing[0]| >= |listing[m + 1]| then 0 else m + 1
  }

  /** The doubled key of a longest stored group key is never a stored file: it would
      be a longer file of the same directory. So the server answers that it is
      missing ("Key not found", or "Not a directory" when a file lies on its path),
      or with the empty value of a directory. */
  lemma NestedPathMissing(t: Tree, storeNamespace: string, name: string)
    requires TreeOk(t) && name in Leaves(t, GroupsDir(storeNamespace))
    requires forall k :: k in Leaves(t, GroupsDir(storeNamespace)) ==> |k| <= |name|
    ensures GetTree(t, GroupPath(storeNamespace, name)) == Err(Missing(t, GroupPath(storeNamespace, name)))
         || GetTree(t, GroupPath(storeNamespace, name)) == Ok("")
  {
    DoubledKey(storeNamespace, name);
    var key := GroupPath(storeNamespace, name);
    assert key !in Leaves(t, GroupsDir(storeNamespace));
  }

  /** Decoding the empty text gives a valid group: what fetching a directory needs
      in order to load. */
  predicate EmptyTextLoads(codec: Codec, ipValid: string -> bool)
  {
    codec.decode("").Ok? && IsValid(codec.decode("").value, ipValid).Pass?
  }

  /** The JSON decoder refuses the empty text, and the YAML decoder gives the zero
      group, whose ID is empty: with either, the empty text does not load. */
  lemma EmptyTextRefused(codec: Codec, ipValid: string -> bool)
    requires codec.decode("").Err? || codec.decode("") == Ok(Group("", "", false, None))
    ensures !EmptyTextLoads(codec, ipValid)
  {
  }

  /** The check Add as written makes of a reference: the listing passed as one
      variadic element. */
  predicate ListedAsWritten(reference: string, listing: seq<string>)
  {
    IsValidArgument(Str(reference), [Strings(listing)])
  }

  /** Some listed key names the group `id` by its last element. */
  predicate Named(id: string, listing: seq<string>)
  {
    exists k :: k in listing && Base(k) == id
  }

  /** The first reference with no listed group of that ID, as the check evidently
      intends: a listed key names a group by its last element. */
  function Unresolved(references: seq<string>, listing: seq<string>): (r: Option<string>)
    ensures r.None? <==> forall i :: 0 <= i < |references| ==> Named(references[i], listing)
    ensures r.Some? ==> r.value in references && !Named(r.value, listing)
  {
    if references == [] then None
    else if Named(references[0], listing) then
      assert forall i :: 1 <= i < |references| ==> references[i] == references[1..][i - 1];
      Unresolved(references[1..], listing)
    else Some(references[0])
  }

  /** The unresolved reference reported is the first: every earlier one is named. */
  lemma {:induction false} UnresolvedFirst(references: seq<string>, listing: seq<string>)
    requires Unresolved(references, listing).Some?
    ensures exists i ::
      && 0 <= i < |references| && references[i] == Unresolved(references, listing).value
      && forall j :: 0 <= j < i ==> Named(references[j], listing)
  {
    if Named(references[0], listing) {
      var rest := references[1..];
      UnresolvedFirst(rest, listing);
      var i :| 0 <= i < |rest| && rest[i] == Unresolved(rest, listing).value &&
        forall j :: 0 <= j < i ==> Named(rest[j], listing);
      assert references[i + 1] == rest[i];
      assert forall j :: 1 <= j < i + 1 ==> references[j] == rest[j - 1];
    } else {
      assert references[0] == Unresolved(references, listing).value;
    }
  }

  /** Every listed group that references only listed groups passes the intended check,
      while the check as written fails it as soon as it makes any reference. */
  lemma ReferenceCheckFinding(id: string, listing: seq<string>)
    requires '/' !in id && id != ""
    ensures !ListedAsWritten(id, listing)
    ensures Unresolved([id], listing + ["/flare/groups/" + id]).None?
  {
    SliceArgumentNeverMatches(id, listing);
    var key := "/flare/groups/" + id;
    assert key == "/flare/groups" + "/" + id;
    BaseOfKey("/flare/groups", id);
    assert key in listing + [key];
    assert [id][1..] == [];
  }

  /** The IDs the listed keys name, in listing order. */
  function IdsOf(listing: seq<string>): (ids: seq<string>)
    ensures |ids| == |listing|
    ensures forall i :: 0 <= i < |listing| ==> ids[i] == Base(listing[i])
  {
    seq(|listing|, i requires 0 <= i < |listing| => Base(listing[i]))
  }

  /** The IDs a set of keys names. */
  function IdsOfKeys(keys: set<string>): set<string>
  {
    set k | k in keys :: Base(k)
  }

  /** The listed IDs are exactly the IDs the listed keys name. */
  lemma IdsOfListing(listing: seq<string>)
    ensures (set x | x in IdsOf(listing)) == IdsOfKeys(Elements(listing))
  {
    var ids := IdsOf(listing);
    forall id | id in IdsOfKeys(Elements(listing))
      ensures id in ids
    {
      var k :| k in Elements(listing) && Base(k) == id;
      var m :| 0 <= m < |listing| && listing[m] == k;
      assert ids[m] == id;
    }
  }

  /** The edges from `id` to each of `refs`. */
  function EdgesFrom(id: string, refs: seq<string>): set<(string, string)>
  {
    set b | b in refs :: (id, b)
  }

  /** The edges from `id` to the ID of each group-type rule among `rules`. */
  function RuleEdges(id: string, rules: seq<ApiRule.Rule>): set<(string, string)>
  {
    set m | 0 <= m < |rules| && rules[m].ruleType == ApiRule.TYPE_GROUP :: (id, rules[m].id)
  }

  lemma RuleEdgesAppend(id: string, rules: seq<ApiRule.Rule>, rule: ApiRule.Rule)
    ensures RuleEdges(id, rules + [rule]) ==
      RuleEdges(id, rules) + (if rule.ruleType == ApiRule.TYPE_GROUP then {(id, rule.id)} else {})
  {
    var all := rules + [rule];
    assert forall m :: 0 <= m < |rules| ==> all[m] == rules[m];
    assert all[|rules|] == rule;
  }

  /** The edges of the group-type rules are the edges to the references. */
  lemma RuleEdgesAreReferences(id: string, rules: seq<ApiRule.Rule>)
    ensures RuleEdges(id, rules) == EdgesFrom(id, ReferencesOf(rules))
  {
    forall b | b in ReferencesOf(rules)
      ensures (id, b) in RuleEdges(id, rules)
    {
      ReferencesMembers(rules, b);
      var m :| 0 <= m < |rules| && rules[m].ruleType == ApiRule.TYPE_GROUP && rules[m].id == b;
      assert (id, rules[m].id) in RuleEdges(id, rules);
    }
    forall m | 0 <= m < |rules| && rules[m].ruleType == ApiRule.TYPE_GROUP
      ensures (id, rules[m].id) in EdgesFrom(id, ReferencesOf(rules))
    {
      ReferencesMembers(rules, rules[m].id);
    }
  }

  /** The dependency edges of a cache: one from each group to each group it references. */
  function GroupEdges(cache: map<string, Group>): set<(string, string)>
  {
    set a, b | a in cache && b in ReferencesOf(RulesOf(cache[a])) :: (a, b)
  }

  /** Caching `group` under `id` (again, or for the first time) adds exactly its edges. */
  lemma GroupEdgesUpdate(cache: map<string, Group>, id: string, group: Group)
    requires id in cache ==> cache[id] == group
    ensures GroupEdges(cache[id := group]) == GroupEdges(cache) + EdgesFrom(id, ReferencesOf(RulesOf(group)))
  {
  }

  /** Caching the next listed ID keeps every ID listed so far cached. */
  lemma CachedPrefix(cache: map<string, Group>, ids: seq<string>, i: nat, group: Group)
    requires i < |ids| && forall m :: 0 <= m < i ==> ids[m] in cache
    ensures forall m :: 0 <= m < i + 1 ==> ids[m] in cache[ids[i] := group]
  {
  }

  /** The reference loop of a sync as written: the first group-type rule among
      `rules` stops it, because its check against the listing, passed as one
      variadic element, never succeeds. */
  method ReferenceStops(rules: seq<ApiRule.Rule>, listing: seq<string>) returns (stops: bool)
    ensures stops <==> ReferencesOf(rules) != []
  {
    var j := 0;
    while j < |rules|
      invariant 0 <= j <= |rules|
      invariant forall m :: 0 <= m < j ==> rules[m].ruleType != ApiRule.TYPE_GROUP
    {
      if rules[j].ruleType == ApiRule.TYPE_GROUP {
        SliceArgumentNeverMatches(rules[j].id, listing);
        if !IsValidArgument(Str(rules[j].id), [Strings(listing)]) {
          ReferencesMembers(rules, rules[j].id);
          return true;
        }
      }
      j := j + 1;
    }
    if ReferencesOf(rules) != [] {
      ReferencesMembers(rules, ReferencesOf(rules)[0]);
    }
    stops := false;
  }

  /** The reference loop of a sync, as evidently intended: connects `id` to each group
      that a group-type rule among `rules` references, stopping at the first such
      reference that is not among `ids`. */
  method LinkReferences(depends: DependencyGraph, id: string, rules: seq<ApiRule.Rule>, ids: seq<string>)
    returns (missing: Option<string>)
    requires depends.Valid()
    modifies depends
    ensures depends.Valid()
    ensures old(depends.nodes) <= depends.nodes
    ensures forall x :: x in depends.nodes ==> x in old(depends.nodes) || x == id || x in ids
    ensures missing.None? <==> forall b :: b in ReferencesOf(rules) ==> b in ids
    ensures missing.Some? ==> missing.value in ReferencesOf(rules) && missing.value !in ids
    ensures missing.None? ==> depends.edges == old(depends.edges) + EdgesFrom(id, ReferencesOf(rules))
  {
    var j := 0;
    while j < |rules|
      invariant 0 <= j <= |rules|
      invariant depends.Valid()
      invariant old(depends.nodes) <= depends.nodes
      invariant forall x :: x in depends.nodes ==> x in old(depends.nodes) || x == id || x in ids
      invariant depends.edges == old(depends.edges) + RuleEdges(id, rules[..j])
      invariant forall m :: 0 <= m < j && rules[m].ruleType == ApiRule.TYPE_GROUP ==> rules[m].id in ids
    {
      RuleEdgesStep(id, rules, j);
      if rules[j].ruleType == ApiRule.TYPE_GROUP {
        if rules[j].id !in ids {
          ReferencesMembers(rules, rules[j].id);
          return Some(rules[j].id);
        }
        var _ := depends.Connect(id, rules[j].id);
      }
      j := j + 1;
    }
    ReferencesListed(rules, ids);
    assert rules[..|rules|] == rules;
    RuleEdgesAreReferences(id, rules);
    missing := None;
  }

  /** The edges of the first `j + 1` rules: those of the first `j`, and one more
      when rule `j` is a group rule. */
  lemma RuleEdgesStep(id: string, rules: seq<ApiRule.Rule>, j: nat)
    requires j < |rules|
    ensures RuleEdges(id, rules[..j + 1]) ==
      RuleEdges(id, rules[..j]) + (if rules[j].ruleType == ApiRule.TYPE_GROUP then {(id, rules[j].id)} else {})
  {
    assert rules[..j + 1] == rules[..j] + [rules[j]];
    RuleEdgesAppend(id, rules[..j], rules[j]);
  }

  /** When every group rule names one of `ids`, so does every reference. */
  lemma ReferencesListed(rules: seq<ApiRule.Rule>, ids: seq<string>)
    requires forall m :: 0 <= m < |rules| && rules[m].ruleType == ApiRule.TYPE_GROUP ==> rules[m].id in ids
    ensures forall b :: b in ReferencesOf(rules) ==> b in ids
  {
    forall b | b in ReferencesOf(rules)
      ensures b in ids
    {
      ReferencesMembers(rules, b);
    }
  }

  /** The loop of IsGroup: whether some key of `keys` has `id` as its last element. */
  method EndsIn(keys: seq<string>, id: string) returns (found: bool)
    ensures found <==> exists k :: k in keys && Base(k) == id
  {
    var i := 0;
    while i < |keys|
      invariant 0 <= i <= |keys|
      invariant forall j :: 0 <= j < i ==> Base(keys[j]) != id
    {
      if Base(keys[i]) == id {
        return true;
      }
      i := i + 1;
    }
    found := false;
  }

  class RulesStore {
    const backend: EtcdStoreAgent
    const storeNamespace: string
    const codec: Codec
    const ipValid: string -> bool
    /** The groups added or loaded, by name. */
    var groups: map<string, Group>
    var dependencies: DependencyGraph
    var listeners: set<Chan>

    predicate Valid()
      reads this, backend, dependencies
    {
      backend.Valid() && dependencies.Valid()
    }

    /** A store over `backend` with an empty cache, an empty graph and no listeners. */
    constructor (backend: EtcdStoreAgent, storeNamespace: string, codec: Codec, ipValid: string -> bool)
      requires backend.Valid()
      ensures Valid()
      ensures this.backend == backend && this.storeNamespace == storeNamespace
      ensures this.codec == codec && this.ipValid == ipValid
      ensures groups == map[] && listeners == {}
      ensures fresh(dependencies) && dependencies.nodes == {} && dependencies.edges == {}
    {
      this.backend := backend;
      this.storeNamespace := storeNamespace;
      this.codec := codec;
      this.ipValid := ipValid;
      groups := map[];
      dependencies := new DependencyGraph.NewDependencies();
      listeners := {};
    }

    /** What fetching the group `name` yields: the text at its key, decoded. */
    function Fetch(name: string): Result<Group, RulesError>
      reads backend
    {
      match GetTree(backend.nodes, GroupPath(storeNamespace, name))
      case Err(e) => Err(Backend(e))
      case Ok(content) =>
        match codec.decode(content)
        case Err(m) => Err(Decoding(m))
        case Ok(group) => Ok(group)
    }

    /** Get: reads the group's key and decodes it. */
    method Get(name: string) returns (r: Result<Group, RulesError>)
      ensures r == Fetch(name)
      ensures r.Ok? ==> (GetTree(backend.nodes, GroupPath(storeNamespace, name)).Ok? &&
        codec.decode(GetTree(backend.nodes, GroupPath(storeNamespace, name)).value) == Ok(r.value))
      ensures !ExistsAt(backend.nodes, GroupPath(storeNamespace, name)) ==>
        r == Err(Backend(Missing(backend.nodes, GroupPath(storeNamespace, name))))
    {
      var key := GetNamespace(storeNamespace, [NAMESPACE_GROUPS, name]);
      GroupPathClean(storeNamespace, name);
      var content, err := backend.Get(key);
      if err.Fail? {
        return Err(Backend(err.error));
      }
      match codec.decode(content)
      case Err(m) =>
        r := Err(Decoding(m));
      case Ok(group) =>
        r := Ok(group);
    }

    /** ListGroups: every key stored anywhere under the groups directory. */
    method ListGroups() returns (list: seq<string>, err: Outcome<RulesError>)
      requires Valid()
      ensures err.Pass? <==> ExistsAt(backend.nodes, GroupsDir(storeNamespace))
      ensures err.Fail? ==> list == [] && err == Fail(Backend(Missing(backend.nodes, GroupsDir(storeNamespace))))
      ensures err.Pass? ==> Elements(list) == Leaves(backend.nodes, GroupsDir(storeNamespace)) && Distinct(list)
    {
      var namespace := GetNamespace(storeNamespace, [NAMESPACE_GROUPS]);
      var groupList, e := backend.List(namespace, true);
      if e.Fail? {
        return [], Fail(Backend(e.error));
      }
      list, err := groupList, Pass;
    }

    /** The write half of Add: encodes the group, writes it under its key, then caches
        it and makes its ID a graph node. A failed encoding or write changes nothing. */
    method Store(group: Group, reachable: nat -> bool) returns (r: Outcome<RulesError>)
      requires Valid()
      modifies this, backend, dependencies
      ensures Valid()
      ensures dependencies == old(dependencies) && listeners == old(listeners)
      ensures r.Pass? <==>
        && codec.encode(group).Ok?
        && SetTree(old(backend.nodes), GroupPath(storeNamespace, group.id), codec.encode(group).value).Ok?
        && exists i :: 0 <= i < 3 && reachable(i)
      ensures r.Pass? ==>
        && backend.nodes == SetTree(old(backend.nodes), GroupPath(storeNamespace, group.id), codec.encode(group).value).value
        && groups == old(groups)[group.id := group]
        && dependencies.nodes == old(dependencies.nodes) + {group.id}
        && dependencies.edges == old(dependencies.edges)
      ensures r.Pass? && PathElements(group.id) != [] ==>
        GroupPath(storeNamespace, group.id) in Leaves(backend.nodes, GroupsDir(storeNamespace))
      ensures r.Pass? && RoundTrips(codec, group) ==> Fetch(group.id) == Ok(group)
      ensures r.Fail? ==>
        && backend.nodes == old(backend.nodes) && groups == old(groups)
        && dependencies.nodes == old(dependencies.nodes) && dependencies.edges == old(dependencies.edges)
      ensures r.Fail? ==> r.error.Encoding? || r.error.Backend?
    {
      var content := codec.encode(group);
      if content.Err? {
        return Fail(Encoding(content.error));
      }
      var namespace := GetNamespace(storeNamespace, [NAMESPACE_GROUPS, group.id]);
      GroupPathClean(storeNamespace, group.id);
      ghost var before := backend.nodes;
      var e := backend.Set(namespace, content.value, reachable);
      if e.Fail? {
        return Fail(Backend(e.error));
      }
      StoredGroupListed(before, storeNamespace, group.id, content.value);
      groups := groups[group.id := group];
      dependencies.Add(group.id);
      r := Pass;
    }

    /** Add as written: validates the group, rejects it when a reference check fails,
        then stores it. The reference check never succeeds, so a group that references
        another group is always rejected. */
    method Add(group: Group, reachable: nat -> bool) returns (r: Outcome<RulesError>)
      requires Valid()
      modifies this, backend, dependencies
      ensures Valid()
      ensures dependencies == old(dependencies) && listeners == old(listeners)
      ensures IsValid(group, ipValid).Fail? ==> r == Fail(Invalid(IsValid(group, ipValid).error))
      ensures IsValid(group, ipValid).Pass? && !ExistsAt(old(backend.nodes), GroupsDir(storeNamespace)) ==>
        r == Fail(Backend(Missing(old(backend.nodes), GroupsDir(storeNamespace))))
      ensures (IsValid(group, ipValid).Pass? && ExistsAt(old(backend.nodes), GroupsDir(storeNamespace)) &&
        ReferencesOf(RulesOf(group)) != []) ==> r == Fail(MissingReference(ReferencesOf(RulesOf(group))[0]))
      ensures r.Pass? <==>
        && IsValid(group, ipValid).Pass?
        && ExistsAt(old(backend.nodes), GroupsDir(storeNamespace))
        && ReferencesOf(RulesOf(group)) == []
        && codec.encode(group).Ok?
        && SetTree(old(backend.nodes), GroupPath(storeNamespace, group.id), codec.encode(group).value).Ok?
        && exists i :: 0 <= i < 3 && reachable(i)
      ensures r.Pass? ==>
        && backend.nodes == SetTree(old(backend.nodes), GroupPath(storeNamespace, group.id), codec.encode(group).value).value
        && groups == old(groups)[group.id := group]
        && dependencies.nodes == old(dependencies.nodes) + {group.id}
        && dependencies.edges == old(dependencies.edges)
      ensures r.Pass? && PathElements(group.id) != [] ==>
        GroupPath(storeNamespace, group.id) in Leaves(backend.nodes, GroupsDir(storeNamespace))
      ensures r.Pass? && RoundTrips(codec, group) ==> Fetch(group.id) == Ok(group)
      ensures r.Fail? ==>
        && backend.nodes == old(backend.nodes) && groups == old(groups)
        && dependencies.nodes == old(dependencies.nodes) && dependencies.edges == old(dependencies.edges)
    {
      if IsValid(group, ipValid).Fail? {
        return Fail(Invalid(IsValid(group, ipValid).error));
      }
      var groupList, err := ListGroups();
      if err.Fail? {
        return err;
      }
      // The loop over the references returns at its first check, which never succeeds:
      // the listing is passed as one variadic element. Only that check is modelled.
      var references := ReferencesOf(RulesOf(group));
      if references != [] {
        SliceArgumentNeverMatches(references[0], groupList);
        if !IsValidArgument(Str(references[0]), [Strings(groupList)]) {
          return Fail(MissingReference(references[0]));
        }
      }
      r := Store(group, reachable);
    }

    /** Add as evidently intended: a reference must name a stored group, that is, the
        last element of some listed key; the first reference that names none is
        reported, and otherwise the group is stored. */
    method AddIntended(group: Group, reachable: nat -> bool) returns (r: Outcome<RulesError>)
      requires Valid()
      modifies this, backend, dependencies
      ensures Valid()
      ensures dependencies == old(dependencies) && listeners == old(listeners)
      ensures IsValid(group, ipValid).Fail? ==> r == Fail(Invalid(IsValid(group, ipValid).error))
      ensures IsValid(group, ipValid).Pass? && !ExistsAt(old(backend.nodes), GroupsDir(storeNamespace)) ==>
        r == Fail(Backend(Missing(old(backend.nodes), GroupsDir(storeNamespace))))
      ensures r.Fail? && r.error.MissingReference? ==>
        && r.error.reference in ReferencesOf(RulesOf(group))
        && forall k :: k in Leaves(old(backend.nodes), GroupsDir(storeNamespace)) ==> Base(k) != r.error.reference
      ensures r.Pass? <==>
        && IsValid(group, ipValid).Pass?
        && ExistsAt(old(backend.nodes), GroupsDir(storeNamespace))
        && (forall b :: b in ReferencesOf(RulesOf(group)) ==>
              exists k :: k in Leaves(old(backend.nodes), GroupsDir(storeNamespace)) && Base(k) == b)
        && codec.encode(group).Ok?
        && SetTree(old(backend.nodes), GroupPath(storeNamespace, group.id), codec.encode(group).value).Ok?
        && exists i :: 0 <= i < 3 && reachable(i)
      ensures r.Pass? ==>
        && backend.nodes == SetTree(old(backend.nodes), GroupPath(storeNamespace, group.id), codec.encode(group).value).value
        && groups == old(groups)[group.id := group]
        && dependencies.nodes == old(dependencies.nodes) + {group.id}
        && dependencies.edges == old(dependencies.edges)
      ensures r.Pass? && RoundTrips(codec, group) ==> Fetch(group.id) == Ok(group)
      ensures r.Fail? ==>
        && backend.nodes == old(backend.nodes) && groups == old(groups)
        && dependencies.nodes == old(dependencies.nodes) && dependencies.edges == old(dependencies.edges)
    {
      if IsValid(group, ipValid).Fail? {
        return Fail(Invalid(IsValid(group, ipValid).error));
      }
      var groupList, err := ListGroups();
      if err.Fail? {
        return err;
      }
      var missing := Unresolved(ReferencesOf(RulesOf(group)), groupList);
      if missing.Some? {
        return Fail(MissingReference(missing.value));
      }
      r := Store(group, reachable);
    }

    /** The group stored under `id` loads and holds a rule referencing `name`. */
    predicate Referencing(id: string, name: string)
      reads backend
    {
      Fetch(id).Ok? && FirstReference(RulesOf(Fetch(id).value), name) >= 0
    }

    /** Delete as written: `name` must be a graph node; each group its edges lead to is
        fetched and must contain a reference to `name`, which is then removed from that
        freshly decoded copy only. Nothing is written back, so nothing changes. */
    method Delete(name: string) returns (r: Outcome<RulesError>)
      requires Valid()
      ensures name !in dependencies.nodes ==> r.Fail? && r.error.Dependency?
      ensures r.Pass? <==>
        name in dependencies.nodes && forall t :: t in Targets(dependencies.edges, name) ==> Referencing(t, name)
    {
      var edges, found, err := dependencies.Edges(name);
      if err.Fail? {
        return Fail(Dependency(err.error));
      }
      if found {
        r := CheckReferences(edges, name);
        ElementsMembers(edges);
        if r.Fail? {
          return;
        }
      }
      r := Pass;
    }

    /** The loop of Delete: fetches each group in `targets` and stops at the first
        that does not load or holds no reference to `name`. */
    method CheckReferences(targets: seq<string>, name: string) returns (r: Outcome<RulesError>)
      ensures r.Pass? <==> forall t :: t in targets ==> Referencing(t, name)
    {
      var i := 0;
      while i < |targets|
        invariant 0 <= i <= |targets|
        invariant forall j :: 0 <= j < i ==> Referencing(targets[j], name)
      {
        var group := Get(targets[i]);
        if group.Err? {
          assert !Referencing(targets[i], name);
          return Fail(group.error);
        }
        // RemoveGroup on the decoded copy fails exactly when no rule references `name`.
        if FirstReference(RulesOf(group.value), name) < 0 {
          assert !Referencing(targets[i], name);
          return Fail(NotReferenced(targets[i], name));
        }
        i := i + 1;
      }
      r := Pass;
    }

    /** Flush as written: takes the lock and does nothing else. */
    method Flush() returns (r: Outcome<RulesError>)
      ensures r == Pass
    {
      r := Pass;
    }

    /** IsGroup: whether some stored group key ends in `id`; an empty ID is an error. */
    method IsGroup(id: string) returns (found: bool, err: Outcome<RulesError>)
      requires Valid()
      ensures id == "" ==> !found && err == Fail(NoGroupId)
      ensures id != "" && !ExistsAt(backend.nodes, GroupsDir(storeNamespace)) ==>
        !found && err == Fail(Backend(Missing(backend.nodes, GroupsDir(storeNamespace))))
      ensures id != "" && ExistsAt(backend.nodes, GroupsDir(storeNamespace)) ==> (err == Pass &&
        (found <==> exists k :: k in Leaves(backend.nodes, GroupsDir(storeNamespace)) && Base(k) == id))
    {
      if id == "" {
        return false, Fail(NoGroupId);
      }
      var groupList, e := ListGroups();
      if e.Fail? {
        return false, e;
      }
      found := EndsIn(groupList, id);
      ElementsMembers(groupList);
      err := Pass;
    }

    /** One pass of the loop of Sync as written: fetches the group `name`, validates
        it and makes it a node. A group-type rule stops the sync with the nil error
        of the successful fetch, because the reference check, which passes the
        listing as one variadic element, never succeeds; the call that would
        connect the reference therefore never runs and is not modelled. */
    method SyncStep(name: string, listing: seq<string>, depends: DependencyGraph)
      returns (stop: Option<Outcome<RulesError>>, group: Group)
      requires depends.Valid()
      modifies depends
      ensures depends.Valid()
      ensures Fetch(name).Err? ==> stop == Some(Fail(LoadFailed(name)))
      ensures Fetch(name).Ok? && IsValid(Fetch(name).value, ipValid).Fail? ==>
        stop == Some(Fail(InvalidGroup(name, IsValid(Fetch(name).value, ipValid).error)))
      ensures (Fetch(name).Ok? && IsValid(Fetch(name).value, ipValid).Pass? &&
               ReferencesOf(RulesOf(Fetch(name).value)) != []) ==> stop == Some(Pass)
      ensures stop.None? <==>
        Fetch(name).Ok? && IsValid(Fetch(name).value, ipValid).Pass? && ReferencesOf(RulesOf(Fetch(name).value)) == []
      ensures stop.None? ==>
        group == Fetch(name).value && depends.nodes == old(depends.nodes) + {name} && depends.edges == old(depends.edges)
      ensures stop.Some? && stop.value.Fail? ==>
        (stop.value.error.LoadFailed? || stop.value.error.InvalidGroup?) && stop.value.error.name == name
    {
      var fetched := Get(name);
      if fetched.Err? {
        return Some(Fail(LoadFailed(name))), Group("", "", false, None);
      }
      group := fetched.value;
      if IsValid(group, ipValid).Fail? {
        return Some(Fail(InvalidGroup(name, IsValid(group, ipValid).error))), group;
      }
      depends.Add(name);
      var stops := ReferenceStops(RulesOf(group), listing);
      stop := if stops then Some(Pass) else None;
    }

    /** The key `name` holds a group that decodes and is valid. */
    predicate Accepted(name: string)
      reads backend
    {
      Fetch(name).Ok? && IsValid(Fetch(name).value, ipValid).Pass?
    }

    /** The doubled key of a longest listed key is never a stored file, so that key
        is accepted only when the empty text loads. */
    lemma DeepestKeyLoads(name: string)
      requires Valid() && name in Leaves(backend.nodes, GroupsDir(storeNamespace))
      requires forall k :: k in Leaves(backend.nodes, GroupsDir(storeNamespace)) ==> |k| <= |name|
      ensures Accepted(name) ==> EmptyTextLoads(codec, ipValid)
    {
      NestedPathMissing(backend.nodes, storeNamespace, name);
    }

    /** A non-empty listing of the groups directory whose every key is accepted
        includes a longest key, whose doubled key was accepted: so the empty text loads. */
    lemma ListingLoads(listing: seq<string>)
      requires Valid() && Elements(listing) == Leaves(backend.nodes, GroupsDir(storeNamespace))
      requires listing != [] && forall n :: n in listing ==> Accepted(n)
      ensures EmptyTextLoads(codec, ipValid)
    {
      var m := Longest(listing);
      assert forall k :: k in Elements(listing) ==> exists j :: 0 <= j < |listing| && listing[j] == k;
      DeepestKeyLoads(listing[m]);
    }

    /** Every cached group is the valid group its key holds. */
    predicate CacheAccepted(cache: map<string, Group>)
      reads backend
    {
      forall n :: n in cache ==> Fetch(n) == Ok(cache[n]) && IsValid(cache[n], ipValid).Pass?
    }

    lemma CacheAcceptedStep(cache: map<string, Group>, name: string, group: Group)
      requires CacheAccepted(cache) && Fetch(name) == Ok(group) && IsValid(group, ipValid).Pass?
      ensures CacheAccepted(cache[name := group])
    {
      var updated := cache[name := group];
      forall n | n in updated
        ensures Fetch(n) == Ok(updated[n]) && IsValid(updated[n], ipValid).Pass?
      {
        if n != name {
          assert n in cache && updated[n] == cache[n];
        }
      }
    }

    /** A cache of accepted groups holding every listed key and nothing else is keyed
        by exactly the listed keys, each of them accepted. */
    lemma CacheCoversListing(listing: seq<string>, cache: map<string, Group>)
      requires forall m :: 0 <= m < |listing| ==> listing[m] in cache
      requires cache.Keys <= Elements(listing) && CacheAccepted(cache)
      ensures forall n :: n in listing ==> Accepted(n)
      ensures cache.Keys == Elements(listing)
      ensures forall n :: n in cache ==> Fetch(n) == Ok(cache[n])
    {
      ElementsMembers(listing);
    }

    /** The loop of Sync as written over the listed keys: each listed key is fetched
        by SyncStep, and the first step that stops ends the loop with its error, or
        with nil. When no step stops, every listed key holds a valid group and is
        cached with it and made a graph node, with no edges. */
    method LoadListed(listing: seq<string>)
      returns (stop: Option<Outcome<RulesError>>, cache: map<string, Group>, depends: DependencyGraph)
      ensures fresh(depends) && depends.Valid()
      ensures listing == [] ==> stop.None? && cache == map[] && depends.nodes == {} && depends.edges == {}
      ensures stop.Some? && stop.value.Fail? ==>
        (stop.value.error.LoadFailed? || stop.value.error.InvalidGroup?) && stop.value.error.name in listing
      ensures stop.None? ==>
        && (forall n :: n in listing ==> Accepted(n))
        && cache.Keys == Elements(listing)
        && (forall n :: n in cache ==> Fetch(n) == Ok(cache[n]))
        && depends.nodes == cache.Keys && depends.edges == {}
    {
      ghost var listed := Elements(listing);
      cache := map[];
      depends := new DependencyGraph.NewDependencies();
      var i := 0;
      while i < |listing|
        invariant 0 <= i <= |listing|
        invariant fresh(depends) && depends.Valid()
        invariant forall m :: 0 <= m < i ==> listing[m] in cache
        invariant cache.Keys <= listed
        invariant depends.nodes == cache.Keys && depends.edges == {}
        invariant CacheAccepted(cache)
        modifies depends
      {
        var name := listing[i];
        var stop, group := SyncStep(name, listing, depends);
        if stop.Some? {
          return stop, cache, depends;
        }
        assert name in listed;
        CacheAcceptedStep(cache, name, group);
        CachedPrefix(cache, listing, i, group);
        cache := cache[name := group];
        i := i + 1;
      }
      CacheCoversListing(listing, cache);
      stop := None;
    }

    /** The end of Sync as written, over the keys `listing` that the groups
        directory lists: runs the loop over them and swaps in the cache and graph it
        built only when no step stopped. */
    method LoadAndSwap(listing: seq<string>) returns (r: Outcome<RulesError>)
      requires Valid()
      modifies this
      ensures Valid()
      ensures listeners == old(listeners)
      ensures listing == [] ==> r == Pass && groups == map[] && fresh(dependencies) && dependencies.nodes == {} && dependencies.edges == {}
      ensures (exists n :: n in listing && !Accepted(n)) ==> groups == old(groups) && dependencies == old(dependencies)
      ensures r.Fail? ==>
        && groups == old(groups) && dependencies == old(dependencies)
        && (r.error.LoadFailed? || r.error.InvalidGroup?) && r.error.name in listing
      ensures !fresh(dependencies) ==> groups == old(groups) && dependencies == old(dependencies)
      ensures fresh(dependencies) ==>
        && r == Pass
        && (forall n :: n in listing ==> Accepted(n))
        && groups.Keys == Elements(listing)
        && (forall n :: n in groups ==> Fetch(n) == Ok(groups[n]))
        && dependencies.nodes == groups.Keys && dependencies.edges == {}
    {
      var stop, cache, depends := LoadListed(listing);
      if stop.Some? {
        return stop.value;
      }
      groups := cache;
      dependencies := depends;
      r := Pass;
    }

    /** Sync as written: lists the groups directory and runs the loop over the listed
        keys, swapping in the cache and graph it built only when no step stopped. A
        failure or the nil of a reference leaves the cache and the graph as they were;
        so does every non-empty listing, unless the empty text decodes to a valid
        group. */
    method Sync() returns (r: Outcome<RulesError>)
      requires Valid()
      modifies this
      ensures Valid()
      ensures listeners == old(listeners)
      ensures !ExistsAt(backend.nodes, GroupsDir(storeNamespace)) ==>
        r == Fail(Backend(Missing(backend.nodes, GroupsDir(storeNamespace)))) &&
        groups == old(groups) && dependencies == old(dependencies)
      ensures ExistsAt(backend.nodes, GroupsDir(storeNamespace)) && Leaves(backend.nodes, GroupsDir(storeNamespace)) == {} ==>
        r == Pass && groups == map[] && fresh(dependencies) && dependencies.nodes == {} && dependencies.edges == {}
      ensures Leaves(backend.nodes, GroupsDir(storeNamespace)) != {} && !EmptyTextLoads(codec, ipValid) ==>
        groups == old(groups) && dependencies == old(dependencies)
      ensures r.Fail? ==>
        && groups == old(groups) && dependencies == old(dependencies)
        && (r.error.Backend? ||
            ((r.error.LoadFailed? || r.error.InvalidGroup?) && r.error.name in Leaves(backend.nodes, GroupsDir(storeNamespace))))
      ensures !fresh(dependencies) ==> groups == old(groups) && dependencies == old(dependencies)
      ensures fresh(dependencies) ==>
        && r == Pass
        && groups.Keys == Leaves(backend.nodes, GroupsDir(storeNamespace))
        && (forall n :: n in groups ==> Fetch(n) == Ok(groups[n]))
        && dependencies.nodes == groups.Keys && dependencies.edges == {}
    {
      var namespace := GetNamespace(storeNamespace, [NAMESPACE_GROUPS]);
      var listing, err := backend.List(namespace, true);
      if err.Fail? {
        return Fail(Backend(err.error));
      }
      ElementsEmpty(listing);
      if listing != [] && forall n :: n in listing ==> Accepted(n) {
        ListingLoads(listing);
      }
      r := LoadAndSwap(listing);
    }

    /** A group that would load: its key holds a valid group that references only
        IDs among `ids`. */
    predicate Loadable(id: string, ids: set<string>)
      reads backend
    {
      && Fetch(id).Ok?
      && IsValid(Fetch(id).value, ipValid).Pass?
      && forall b :: b in ReferencesOf(RulesOf(Fetch(id).value)) ==> b in ids
    }

    /** Every cached group is the one its key holds, and would load. */
    ghost predicate CacheLoaded(cache: map<string, Group>, ids: set<string>)
      reads backend
    {
      forall id :: id in cache ==> Fetch(id) == Ok(cache[id]) && Loadable(id, ids)
    }

    lemma CacheLoadedStep(cache: map<string, Group>, id: string, group: Group, ids: set<string>)
      requires CacheLoaded(cache, ids) && Fetch(id) == Ok(group) && Loadable(id, ids)
      ensures CacheLoaded(cache[id := group], ids)
      ensures id in cache ==> cache[id] == group
    {
      var updated := cache[id := group];
      forall x | x in updated
        ensures Fetch(x) == Ok(updated[x]) && Loadable(x, ids)
      {
        if x != id {
          assert x in cache && updated[x] == cache[x];
        }
      }
    }

    /** One step of the load loop of a sync, as evidently intended: loads the group
        `id` that the listed key `name` names, makes it a node and links its
        references, failing when it does not load, is invalid or references an ID
        that is not among `ids`. */
    method LoadOne(name: string, id: string, ids: seq<string>, depends: DependencyGraph)
      returns (r: Outcome<RulesError>, group: Group)
      requires depends.Valid()
      modifies depends
      ensures depends.Valid()
      ensures old(depends.nodes) <= depends.nodes
      ensures forall x :: x in depends.nodes ==> x in old(depends.nodes) || x == id || x in ids
      ensures r.Pass? <==> Loadable(id, set x | x in ids)
      ensures r.Pass? ==> Fetch(id) == Ok(group) && id in depends.nodes
      ensures r.Pass? ==> depends.edges == old(depends.edges) + EdgesFrom(id, ReferencesOf(RulesOf(group)))
    {
      var fetched := Get(id);
      if fetched.Err? {
        return Fail(LoadFailed(name)), Group("", "", false, None);
      }
      group := fetched.value;
      if IsValid(group, ipValid).Fail? {
        return Fail(InvalidGroup(name, IsValid(group, ipValid).error)), group;
      }
      depends.Add(id);
      var missing := LinkReferences(depends, id, RulesOf(group), ids);
      if missing.Some? {
        return Fail(MissingReference(missing.value)), group;
      }
      r := Pass;
    }

    /** The load loop of a sync, as evidently intended: loads the group `ids[i]` that
        each listed key `listing[i]` names and stops at the first that fails. */
    method LoadAll(listing: seq<string>, ids: seq<string>)
      returns (r: Outcome<RulesError>, cache: map<string, Group>, depends: DependencyGraph)
      requires |ids| == |listing|
      ensures fresh(depends) && depends.Valid()
      ensures r.Pass? <==> forall m :: 0 <= m < |ids| ==> Loadable(ids[m], set x | x in ids)
      ensures r.Pass? ==>
        && cache.Keys == (set x | x in ids)
        && (forall id :: id in cache ==> Fetch(id) == Ok(cache[id]))
        && depends.nodes == cache.Keys
        && depends.edges == GroupEdges(cache)
    {
      ghost var listed := set x | x in ids;
      cache := map[];
      depends := new DependencyGraph.NewDependencies();
      var i := 0;
      while i < |listing|
        invariant 0 <= i <= |listing|
        invariant fresh(depends) && depends.Valid()
        invariant forall m :: 0 <= m < i ==> ids[m] in cache
        invariant cache.Keys <= depends.nodes <= listed
        invariant depends.edges == GroupEdges(cache)
        invariant CacheLoaded(cache, listed)
      {
        var id := ids[i];
        var loaded, group := LoadOne(listing[i], id, ids, depends);
        if loaded.Fail? {
          return loaded, cache, depends;
        }
        CacheLoadedStep(cache, id, group, listed);
        GroupEdgesUpdate(cache, id, group);
        CachedPrefix(cache, ids, i, group);
        cache := cache[id := group];
        i := i + 1;
      }
      r := Pass;
    }

    /** Every listed ID loads exactly when the ID of every key of the listing does. */
    lemma LoadableListing(listing: seq<string>, keys: set<string>)
      requires Elements(listing) == keys
      ensures (set x | x in IdsOf(listing)) == IdsOfKeys(keys)
      ensures (forall m :: 0 <= m < |listing| ==> Loadable(IdsOf(listing)[m], IdsOfKeys(keys))) <==>
        (forall k :: k in keys ==> Loadable(Base(k), IdsOfKeys(keys)))
    {
      IdsOfListing(listing);
      var ids := IdsOf(listing);
      if forall m :: 0 <= m < |listing| ==> Loadable(ids[m], IdsOfKeys(keys)) {
        forall k | k in keys
          ensures Loadable(Base(k), IdsOfKeys(keys))
        {
          var m :| 0 <= m < |listing| && listing[m] == k;
          assert ids[m] == Base(k);
        }
      } else {
        var m :| 0 <= m < |listing| && !Loadable(ids[m], IdsOfKeys(keys));
        assert listing[m] in Elements(listing);
      }
    }

    /** Sync as evidently intended: each listed key is fetched by the ID it names, and a
        reference must name a listed group. It succeeds exactly when every listed group
        loads, is valid and references only listed groups; it then swaps in a cache of
        those groups by ID and a graph with an edge for every reference. */
    method SyncIntended() returns (r: Outcome<RulesError>)
      requires Valid()
      modifies this
      ensures Valid()
      ensures listeners == old(listeners)
      ensures r.Fail? ==> groups == old(groups) && dependencies == old(dependencies)
      ensures !ExistsAt(backend.nodes, GroupsDir(storeNamespace)) ==>
        r == Fail(Backend(Missing(backend.nodes, GroupsDir(storeNamespace))))
      ensures ExistsAt(backend.nodes, GroupsDir(storeNamespace)) ==>
        (r.Pass? <==> forall k :: k in Leaves(backend.nodes, GroupsDir(storeNamespace)) ==>
          Loadable(Base(k), IdsOfKeys(Leaves(backend.nodes, GroupsDir(storeNamespace)))))
      ensures r.Pass? ==>
        && groups.Keys == IdsOfKeys(Leaves(backend.nodes, GroupsDir(storeNamespace)))
        && (forall id :: id in groups ==> Fetch(id) == Ok(groups[id]))
        && fresh(dependencies)
        && dependencies.nodes == groups.Keys
        && dependencies.edges == GroupEdges(groups)
    {
      var namespace := GetNamespace(storeNamespace, [NAMESPACE_GROUPS]);
      var listing, err := backend.List(namespace, true);
      if err.Fail? {
        return Fail(Backend(err.error));
      }
      var ids := IdsOf(listing);
      var loaded, cache, depends := LoadAll(listing, ids);
      LoadableListing(listing, Leaves(backend.nodes, GroupsDir(storeNamespace)));
      if loaded.Fail? {
        return loaded;
      }
      groups := cache;
      dependencies := depends;
      r := Pass;
    }

    /** AddListener: registers a channel; nil is refused. */
    method AddListener(ch: Chan) returns (r: Outcome<RulesError>)
      modifies this
      ensures ch == NilChan ==> r == Fail(NoChannel) && listeners == old(listeners)
      ensures ch != NilChan ==> r == Pass && listeners == old(listeners) + {ch}
      ensures groups == old(groups) && dependencies == old(dependencies)
    {
      if ch == NilChan {
        return Fail(NoChannel);
      }
      listeners := listeners + {ch};
      r := Pass;
    }

    /** DeleteListener: unregisters a channel; an unknown channel changes nothing. */
    method DeleteListener(ch: Chan)
      modifies this
      ensures listeners == old(listeners) - {ch}
      ensures groups == old(groups) && dependencies == old(dependencies)
    {
      listeners := listeners - {ch};
    }

    /** Listeners: each registered channel once. */
    method Listeners() returns (list: seq<Chan>)
      ensures Elements(list) == listeners && Distinct(list) && |list| == |listeners|
    {
      list := ListOf(listeners);
    }
  }
}
