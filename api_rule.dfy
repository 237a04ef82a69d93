/** A single firewall rule of the api package: its constants, its
    validation, its comparison and the chained builders of FlareRule. */
module ApiRule {
  import opened Common
  import opened Validation

  const ACTION_ACCEPT: int := 0
  const ACTION_DROP: int := 1
  const TYPE_SERVICE: string := "service"
  const TYPE_ADDRESS: string := "address"
  /** The group-reference rule type, whose value is the literal "type". */
  const TYPE_GROUP: string := "type"
  const PROTOCOL_TCP: string := "tcp"
  const PROTOCOL_UDP: string := "udp"
  const PROTOCOL_ALL: string := "all"
  /** The destination DestinationAny writes. */
  const DESTINATION_ANY: string := "0.0.0.0/0"

  /** The fields of a FlareRule. A nil Ports slice and an empty one behave
      alike everywhere in the core, so both are the empty sequence. */
  datatype Rule = Rule(
    id: string,
    ruleType: string,
    description: string,
    destination: string,
    protocol: string,
    inverse: bool,
    ports: seq<int>,
    action: int)

  /** The rule NewRule returns: no ports and the DROP action, every other field empty. */
  const EmptyRule: Rule := Rule("", "", "", "", "", false, [], ACTION_DROP)

  /** Why IsValid rejected a rule, one kind per error the check chain can return. */
  datatype RuleError =
    | InvalidType(ruleType: string)
    | MissingGroupId
    | MissingDescription
    | InvalidDestination(destination: string)
    | InvalidProtocol(protocol: string)
    | NoPorts
    | InvalidPort(port: int)
    | InvalidAction(action: int)

  /** The first port of the list that is out of range, if any. */
  function FirstInvalidPort(ports: seq<int>): (r: Option<int>)
  {
    if ports == [] then None
    else if !IsPort(ports[0]) then Some(ports[0])
    else FirstInvalidPort(ports[1..])
  }

  lemma {:induction false} FirstInvalidPortSpec(ports: seq<int>)
    ensures FirstInvalidPort(ports).None? <==> forall i :: 0 <= i < |ports| ==> IsPort(ports[i])
    ensures FirstInvalidPort(ports).Some? ==>
      exists k :: 0 <= k < |ports| && ports[k] == FirstInvalidPort(ports).value && !IsPort(ports[k]) &&
        forall i :: 0 <= i < k ==> IsPort(ports[i])
  {
    if ports != [] {
      FirstInvalidPortSpec(ports[1..]);
      if IsPort(ports[0]) {
        assert forall i :: 1 <= i < |ports| ==> ports[i] == ports[1..][i - 1];
        if FirstInvalidPort(ports[1..]).Some? {
          var k :| 0 <= k < |ports[1..]| && ports[1..][k] == FirstInvalidPort(ports[1..]).value &&
            !IsPort(ports[1..][k]) && forall i :: 0 <= i < k ==> IsPort(ports[1..][i]);
          assert ports[k + 1] == ports[1..][k];
        }
      } else {
        assert ports[0] == FirstInvalidPort(ports).value;
      }
    }
  }

  /** The argument lists IsValid hands to IsValidArgument. */
  const TypeChoices: seq<Any> := [Str(TYPE_SERVICE), Str(TYPE_ADDRESS), Str(TYPE_GROUP)]
  const ProtocolChoices: seq<Any> := [Str(PROTOCOL_ALL), Str(PROTOCOL_TCP), Str(PROTOCOL_UDP)]
  const ActionChoices: seq<Any> := [Int(ACTION_ACCEPT), Int(ACTION_DROP)]

  lemma TypeChoice(t: string)
    ensures IsValidArgument(Str(t), TypeChoices) <==> t in {TYPE_SERVICE, TYPE_ADDRESS, TYPE_GROUP}
  {
    if t == TYPE_SERVICE { assert TypeChoices[0] == Str(t); }
    if t == TYPE_ADDRESS { assert TypeChoices[1] == Str(t); }
    if t == TYPE_GROUP { assert TypeChoices[2] == Str(t); }
  }

  lemma ProtocolChoice(p: string)
    ensures IsValidArgument(Str(p), ProtocolChoices) <==> p in {PROTOCOL_ALL, PROTOCOL_TCP, PROTOCOL_UDP}
  {
    if p == PROTOCOL_ALL { assert ProtocolChoices[0] == Str(p); }
    if p == PROTOCOL_TCP { assert ProtocolChoices[1] == Str(p); }
    if p == PROTOCOL_UDP { assert ProtocolChoices[2] == Str(p); }
  }

  lemma ActionChoice(a: int)
    ensures IsValidArgument(Int(a), ActionChoices) <==> a == ACTION_ACCEPT || a == ACTION_DROP
  {
    if a == ACTION_ACCEPT { assert ActionChoices[0] == Int(a); }
    if a == ACTION_DROP { assert ActionChoices[1] == Int(a); }
  }

  /** FlareRule.IsValid, with net.ParseIP's verdict handed in as `ipValid`. */
  function IsValid(rule: Rule, ipValid: string -> bool): (r: Outcome<RuleError>)
  {
    if !IsValidArgument(Str(rule.ruleType), TypeChoices) then
      Fail(InvalidType(rule.ruleType))
    else if rule.ruleType == TYPE_GROUP then
      if IsEmpty(rule.id) then Fail(MissingGroupId) else Pass
    else if IsEmpty(rule.description) then
      Fail(MissingDescription)
    else if IsEmpty(rule.destination) || !ipValid(rule.destination) then
      Fail(InvalidDestination(rule.destination))
    else if !IsValidArgument(Str(rule.protocol), ProtocolChoices) then
      Fail(InvalidProtocol(rule.protocol))
    else if |rule.ports| <= 0 then
      Fail(NoPorts)
    else if FirstInvalidPort(rule.ports).Some? then
      Fail(InvalidPort(FirstInvalidPort(rule.ports).value))
    else if !IsValidArgument(Int(rule.action), ActionChoices) then
      Fail(InvalidAction(rule.action))
    else
      Pass
  }

  /** What a valid rule is, independent of the order of the checks. */
  predicate WellFormed(rule: Rule, ipValid: string -> bool)
  {
    && rule.ruleType in {TYPE_SERVICE, TYPE_ADDRESS, TYPE_GROUP}
    && (rule.ruleType == TYPE_GROUP ==> rule.id != "")
    && (rule.ruleType != TYPE_GROUP ==>
         && rule.description != ""
         && rule.destination != "" && ipValid(rule.destination)
         && rule.protocol in {PROTOCOL_ALL, PROTOCOL_TCP, PROTOCOL_UDP}
         && |rule.ports| > 0
         && (forall i :: 0 <= i < |rule.ports| ==> 0 <= rule.ports[i] < 65536)
         && rule.action in {ACTION_ACCEPT, ACTION_DROP})
  }

  lemma IsValidMeansWellFormed(rule: Rule, ipValid: string -> bool)
    ensures IsValid(rule, ipValid).Pass? <==> WellFormed(rule, ipValid)
  {
    FirstInvalidPortSpec(rule.ports);
    TypeChoice(rule.ruleType);
    ProtocolChoice(rule.protocol);
    ActionChoice(rule.action);
  }

  /** A group reference is checked for its ID only: the other fields never matter. */
  lemma GroupRuleChecksOnlyId(rule: Rule, ipValid: string -> bool)
    requires rule.ruleType == TYPE_GROUP
    ensures IsValid(rule, ipValid) == if rule.id == "" then Fail(MissingGroupId) else Pass
  {
    TypeChoice(rule.ruleType);
  }

  /** The checks of a non-group rule run in a fixed order and the first failure is reported. */
  lemma {:induction false} FirstFailureReported(rule: Rule, ipValid: string -> bool)
    requires rule.ruleType in {TYPE_SERVICE, TYPE_ADDRESS}
    ensures rule.description == "" ==> IsValid(rule, ipValid) == Fail(MissingDescription)
    ensures rule.description != "" && (rule.destination == "" || !ipValid(rule.destination)) ==>
      IsValid(rule, ipValid) == Fail(InvalidDestination(rule.destination))
    ensures (rule.description != "" && rule.destination != "" && ipValid(rule.destination) &&
      rule.protocol !in {PROTOCOL_ALL, PROTOCOL_TCP, PROTOCOL_UDP}) ==>
      IsValid(rule, ipValid) == Fail(InvalidProtocol(rule.protocol))
    ensures (rule.description != "" && rule.destination != "" && ipValid(rule.destination) &&
      rule.protocol in {PROTOCOL_ALL, PROTOCOL_TCP, PROTOCOL_UDP} && rule.ports == []) ==>
      IsValid(rule, ipValid) == Fail(NoPorts)
    ensures IsValid(rule, ipValid).Fail? && IsValid(rule, ipValid).error.InvalidAction? ==>
      rule.action != ACTION_ACCEPT && rule.action != ACTION_DROP && |rule.ports| > 0 &&
      forall i :: 0 <= i < |rule.ports| ==> IsPort(rule.ports[i])
    ensures forall p :: IsValid(rule, ipValid) == Fail(InvalidPort(p)) ==>
      exists k :: 0 <= k < |rule.ports| && rule.ports[k] == p && !IsPort(p) &&
        forall i :: 0 <= i < k ==> IsPort(rule.ports[i])
  {
    FirstInvalidPortSpec(rule.ports);
    TypeChoice(rule.ruleType);
    ProtocolChoice(rule.protocol);
    ActionChoice(rule.action);
  }

  /** The element-wise port comparison of Compare, from index `i` on. */
  function PortsMatchFrom(a: seq<int>, b: seq<int>, i: nat): (r: bool)
    requires |a| == |b| && i <= |a|
    decreases |a| - i
  {
    if i == |a| then true
    else if a[i] != b[i] then false
    else PortsMatchFrom(a, b, i + 1)
  }

  lemma {:induction false} PortsMatchFromSpec(a: seq<int>, b: seq<int>, i: nat)
    requires |a| == |b| && i <= |a|
    ensures PortsMatchFrom(a, b, i) <==> a[i..] == b[i..]
    decreases |a| - i
  {
    if i < |a| {
      PortsMatchFromSpec(a, b, i + 1);
      assert a[i..] == [a[i]] + a[i + 1..];
      assert b[i..] == [b[i]] + b[i + 1..];
    }
  }

  /** FlareRule.Compare as written. */
  function Compare(rule: Rule, src: Rule): (r: bool)
  {
    if rule.ruleType != src.ruleType then false
    else if rule.ruleType == TYPE_GROUP then
      if rule.id == src.id then false else true
    else if rule.description != src.description then false
    else if rule.action != src.action then false
    else if rule.inverse != src.inverse then false
    else if |rule.ports| != |src.ports| then false
    else if !PortsMatchFrom(rule.ports, src.ports, 0) then false
    else if rule.destination != src.destination then false
    else if rule.protocol != src.protocol then false
    else true
  }

  lemma CompareDifferentTypes(rule: Rule, src: Rule)
    requires rule.ruleType != src.ruleType
    ensures !Compare(rule, src)
  {
  }

  /** Two non-group rules compare equal exactly when every field but the ID agrees. */
  lemma CompareNonGroup(rule: Rule, src: Rule)
    requires rule.ruleType != TYPE_GROUP
    ensures Compare(rule, src) <==> rule.(id := src.id) == src
  {
    if |rule.ports| == |src.ports| {
      PortsMatchFromSpec(rule.ports, src.ports, 0);
    }
  }

  /** As written, two group references compare equal exactly when their IDs differ. */
  lemma CompareGroupInverted(rule: Rule, src: Rule)
    requires rule.ruleType == TYPE_GROUP && src.ruleType == TYPE_GROUP
    ensures Compare(rule, src) <==> rule.id != src.id
  {
  }

  /** So a group reference is never equal to itself. */
  lemma CompareGroupNotReflexive()
    ensures !Compare(EmptyRule.(ruleType := TYPE_GROUP, id := "a"), EmptyRule.(ruleType := TYPE_GROUP, id := "a"))
  {
  }

  /** Compare with the group case as its comment intends: the IDs must be equal. */
  function CompareIntended(rule: Rule, src: Rule): (r: bool)
  {
    if rule.ruleType != src.ruleType then false
    else if rule.ruleType == TYPE_GROUP then rule.id == src.id
    else Compare(rule, src)
  }

  /** The intended comparison is an equivalence: it is reflexive and symmetric. */
  lemma CompareIntendedEquivalence(a: Rule, b: Rule)
    ensures CompareIntended(a, a)
    ensures CompareIntended(a, b) == CompareIntended(b, a)
    ensures a.ruleType == TYPE_GROUP ==> (CompareIntended(a, b) <==> b.ruleType == TYPE_GROUP && a.id == b.id)
  {
    if a.ruleType != TYPE_GROUP {
      CompareNonGroup(a, a);
      CompareNonGroup(a, b);
      if b.ruleType == a.ruleType {
        CompareNonGroup(b, a);
      }
    }
  }

  /** FlareRule.ActionType */
  function ActionType(rule: Rule): (s: string)
  {
    if rule.action == ACTION_DROP then "DROP" else "ACCEPT"
  }

  lemma ActionTypeNames(rule: Rule)
    ensures ActionType(rule) == "DROP" <==> rule.action == ACTION_DROP
    ensures ActionType(rule) == "ACCEPT" <==> rule.action != ACTION_DROP
  {
  }

  /** A rule object whose builder methods update it in place and return it for chaining. */
  class FlareRule {
    var id: string
    var ruleType: string
    var description: string
    var destination: string
    var protocol: string
    var inverse: bool
    var ports: seq<int>
    var action: int

    function Value(): Rule
      reads this
    {
      Rule(id, ruleType, description, destination, protocol, inverse, ports, action)
    }

    /** NewRule: an empty rule with no ports and the DROP action. */
    constructor NewRule()
      ensures Value() == EmptyRule
    {
      id, ruleType, description, destination, protocol := "", "", "", "", "";
      inverse, ports, action := false, [], ACTION_DROP;
    }

    method Port(port: int) returns (self: FlareRule)
      modifies this
      ensures self == this
      ensures Value() == old(Value()).(ports := old(ports) + [port])
    {
      ports := ports + [port];
      return this;
    }

    method Addr(address: string) returns (self: FlareRule)
      modifies this
      ensures self == this
      ensures Value() == old(Value()).(destination := address)
    {
      destination := address;
      return this;
    }

    method SetID(newId: string) returns (self: FlareRule)
      modifies this
      ensures self == this
      ensures Value() == old(Value()).(id := newId)
    {
      id := newId;
      return this;
    }

    method Comment(text: string) returns (self: FlareRule)
      modifies this
      ensures self == this
      ensures Value() == old(Value()).(description := text)
    {
      description := text;
      return this;
    }

    method Invert() returns (self: FlareRule)
      modifies this
      ensures self == this
      ensures Value() == old(Value()).(inverse := true)
    {
      inverse := true;
      return this;
    }

    method Group() returns (self: FlareRule)
      modifies this
      ensures self == this
      ensures Value() == old(Value()).(ruleType := TYPE_GROUP)
    {
      ruleType := TYPE_GROUP;
      return this;
    }

    method Service() returns (self: FlareRule)
      modifies this
      ensures self == this
      ensures Value() == old(Value()).(ruleType := TYPE_SERVICE)
    {
      ruleType := TYPE_SERVICE;
      return this;
    }

    method Address() returns (self: FlareRule)
      modifies this
      ensures self == this
      ensures Value() == old(Value()).(ruleType := TYPE_ADDRESS)
    {
      ruleType := TYPE_ADDRESS;
      return this;
    }

    method Drop() returns (self: FlareRule)
      modifies this
      ensures self == this
      ensures Value() == old(Value()).(action := ACTION_DROP)
    {
      action := ACTION_DROP;
      return this;
    }

    method Accept() returns (self: FlareRule)
      modifies this
      ensures self == this
      ensures Value() == old(Value()).(action := ACTION_ACCEPT)
    {
      action := ACTION_ACCEPT;
      return this;
    }

    method TCP() returns (self: FlareRule)
      modifies this
      ensures self == this
      ensures Value() == old(Value()).(protocol := PROTOCOL_TCP)
    {
      protocol := PROTOCOL_TCP;
      return this;
    }

    method UDP() returns (self: FlareRule)
      modifies this
      ensures self == this
      ensures Value() == old(Value()).(protocol := PROTOCOL_UDP)
    {
      protocol := PROTOCOL_UDP;
      return this;
    }

    method All() returns (self: FlareRule)
      modifies this
      ensures self == this
      ensures Value() == old(Value()).(protocol := PROTOCOL_ALL)
    {
      protocol := PROTOCOL_ALL;
      return this;
    }

    /** AnyAny: protocol "all" and destination "0.0.0.0/0", through All and DestinationAny. */
    method AnyAny() returns (self: FlareRule)
      modifies this
      ensures self == this
      ensures Value() == old(Value()).(protocol := PROTOCOL_ALL, destination := DESTINATION_ANY)
    {
      var r := All();
      self := r.DestinationAny();
    }

    method DestinationAny() returns (self: FlareRule)
      modifies this
      ensures self == this
      ensures Value() == old(Value()).(destination := DESTINATION_ANY)
    {
      destination := DESTINATION_ANY;
      return this;
    }
  }

  /** The steps of the rule-validation test: an address rule is rejected until it has a
      description, a port, a protocol and a destination the IP parser accepts. */
  lemma ValidationSteps(ipValid: string -> bool)
    requires ipValid("10.0.0.1") && !ipValid("90.9.9..00")
    ensures var r0 := EmptyRule.(ruleType := TYPE_ADDRESS);
      && IsValid(r0, ipValid) == Fail(MissingDescription)
      && IsValid(r0.(description := "test rule"), ipValid) == Fail(InvalidDestination(""))
      && IsValid(r0.(description := "test rule", ports := [10], protocol := PROTOCOL_TCP), ipValid)
           == Fail(InvalidDestination(""))
      && IsValid(r0.(description := "test rule", ports := [10], protocol := PROTOCOL_TCP, destination := "90.9.9..00"), ipValid)
           == Fail(InvalidDestination("90.9.9..00"))
      && IsValid(r0.(description := "test rule", ports := [10], protocol := PROTOCOL_TCP, destination := "10.0.0.1"), ipValid)
           == Pass
  {
    TypeChoice(TYPE_ADDRESS);
    ProtocolChoice(PROTOCOL_TCP);
    ActionChoice(ACTION_DROP);
    var r := EmptyRule.(ruleType := TYPE_ADDRESS, description := "test rule", ports := [10], protocol := PROTOCOL_TCP, destination := "10.0.0.1");
    assert FirstInvalidPort(r.ports) == None by {
      assert r.ports[1..] == [];
    }
  }

  /** The same steps with the address check itself: "90.9.9..00" has an empty field
      and no ':', so it is refused whatever the IPv6 reading, and "10.0.0.1" is
      accepted. */
  lemma ValidationStepsParsed(ipv6: string -> bool)
    ensures var ipValid := (a: string) => IsValidIpAddress(a, ipv6);
      var r := EmptyRule.(ruleType := TYPE_ADDRESS, description := "test rule", ports := [10], protocol := PROTOCOL_TCP);
      && IsValid(r.(destination := "90.9.9..00"), ipValid) == Fail(InvalidDestination("90.9.9..00"))
      && IsValid(r.(destination := "10.0.0.1"), ipValid) == Pass
  {
    var ipValid := (a: string) => IsValidIpAddress(a, ipv6);
    assert ipValid("10.0.0.1") && !ipValid("90.9.9..00");
    ValidationSteps(ipValid);
  }
}
