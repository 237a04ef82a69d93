/** A rule group of the api package: its validation, its comparison, the
    references it makes to other groups, and the FlareRuleGroup object whose
    methods add and remove rules in place. */
module ApiGroup {
  import opened Common
  import opened ApiRule

  /** The fields of a FlareRuleGroup. `rules` is None for a nil Rules slice,
      which only a decoded or zero-valued group can have. */
  datatype Group = Group(id: string, description: string, active: bool, rules: Option<seq<Rule>>)

  /** The rules of a group, a nil slice being read as an empty one. */
  function RulesOf(group: Group): seq<Rule>
  {
    if group.rules.Some? then group.rules.value else []
  }

  /** Why IsValid rejected a group. */
  datatype GroupError =
    | MissingId
    | NilRules(group: string)
    | InvalidRule(group: string, cause: RuleError)

  /** The error of the first rule that fails its own check, if any. */
  function FirstRuleError(rules: seq<Rule>, ipValid: string -> bool): (r: Option<RuleError>)
  {
    if rules == [] then None
    else if ApiRule.IsValid(rules[0], ipValid).Fail? then Some(ApiRule.IsValid(rules[0], ipValid).error)
    else FirstRuleError(rules[1..], ipValid)
  }

  lemma {:induction false} FirstRuleErrorSpec(rules: seq<Rule>, ipValid: string -> bool)
    ensures FirstRuleError(rules, ipValid).None? <==>
      forall i :: 0 <= i < |rules| ==> ApiRule.IsValid(rules[i], ipValid).Pass?
    ensures FirstRuleError(rules, ipValid).Some? ==>
      exists k :: 0 <= k < |rules| && ApiRule.IsValid(rules[k], ipValid) == Fail(FirstRuleError(rules, ipValid).value) &&
        forall i :: 0 <= i < k ==> ApiRule.IsValid(rules[i], ipValid).Pass?
  {
    if rules != [] {
      FirstRuleErrorSpec(rules[1..], ipValid);
      if ApiRule.IsValid(rules[0], ipValid).Pass? {
        assert forall i :: 1 <= i < |rules| ==> rules[i] == rules[1..][i - 1];
        if FirstRuleError(rules[1..], ipValid).Some? {
          var k :| 0 <= k < |rules[1..]| &&
            ApiRule.IsValid(rules[1..][k], ipValid) == Fail(FirstRuleError(rules[1..], ipValid).value) &&
            forall i :: 0 <= i < k ==> ApiRule.IsValid(rules[1..][i], ipValid).Pass?;
          assert rules[k + 1] == rules[1..][k];
        }
      }
    }
  }

  /** FlareRuleGroup.IsValid, with net.ParseIP's verdict handed in as `ipValid`. */
  function IsValid(group: Group, ipValid: string -> bool): (r: Outcome<GroupError>)
  {
    if group.id == "" then Fail(MissingId)
    else if group.rules.None? then Fail(NilRules(group.id))
    else if FirstRuleError(group.rules.value, ipValid).Some? then
      Fail(InvalidRule(group.id, FirstRuleError(group.rules.value, ipValid).value))
    else Pass
  }

  /** A group is valid exactly when it has an ID, a non-nil rule list and only valid rules;
      a failure names either the group or the first rule that fails. */
  lemma IsValidSpec(group: Group, ipValid: string -> bool)
    ensures IsValid(group, ipValid).Pass? <==>
      group.id != "" && group.rules.Some? &&
      forall i :: 0 <= i < |group.rules.value| ==> WellFormed(group.rules.value[i], ipValid)
    ensures group.id == "" ==> IsValid(group, ipValid) == Fail(MissingId)
    ensures group.id != "" && group.rules.None? ==> IsValid(group, ipValid) == Fail(NilRules(group.id))
    ensures forall e :: IsValid(group, ipValid) == Fail(InvalidRule(group.id, e)) ==>
      exists k :: 0 <= k < |RulesOf(group)| && ApiRule.IsValid(RulesOf(group)[k], ipValid) == Fail(e) &&
        forall i :: 0 <= i < k ==> ApiRule.IsValid(RulesOf(group)[i], ipValid).Pass?
  {
    if group.rules.Some? {
      var rules := group.rules.value;
      FirstRuleErrorSpec(rules, ipValid);
      assert RulesOf(group) == rules;
      forall i | 0 <= i < |rules| {
        IsValidMeansWellFormed(rules[i], ipValid);
      }
    }
  }

  /** FlareRuleGroup.Compare as written: the rule lists are compared by length only. */
  function Compare(group: Group, src: Group): (r: bool)
  {
    if group.id != src.id then false
    else if group.active != src.active then false
    else if group.description != src.description then false
    else if |RulesOf(group)| != |RulesOf(src)| then false
    else true
  }

  lemma CompareSpec(group: Group, src: Group)
    ensures Compare(group, src) <==>
      group.id == src.id && group.active == src.active && group.description == src.description &&
      |RulesOf(group)| == |RulesOf(src)|
  {
  }

  /** Replacing the rules by any others of the same number leaves the comparison true. */
  lemma CompareIgnoresRuleContents(group: Group, other: seq<Rule>)
    requires |other| == |RulesOf(group)|
    ensures Compare(group, group.(rules := Some(other)))
  {
  }

  /** The IDs of the group-type rules, in rule order. */
  function ReferencesOf(rules: seq<Rule>): (refs: seq<string>)
    ensures |refs| <= |rules|
  {
    if rules == [] then []
    else (if rules[0].ruleType == TYPE_GROUP then [rules[0].id] else []) + ReferencesOf(rules[1..])
  }

  lemma {:induction false} ReferencesAppend(rules: seq<Rule>, rule: Rule)
    ensures ReferencesOf(rules + [rule]) ==
      ReferencesOf(rules) + (if rule.ruleType == TYPE_GROUP then [rule.id] else [])
  {
    if rules != [] {
      assert (rules + [rule])[1..] == rules[1..] + [rule];
      ReferencesAppend(rules[1..], rule);
    }
  }

  /** A name is referenced exactly when some group-type rule carries it as its ID. */
  lemma {:induction false} ReferencesMembers(rules: seq<Rule>, name: string)
    ensures name in ReferencesOf(rules) <==>
      exists i :: 0 <= i < |rules| && rules[i].ruleType == TYPE_GROUP && rules[i].id == name
  {
    if rules != [] {
      ReferencesMembers(rules[1..], name);
      assert forall i :: 1 <= i < |rules| ==> rules[i] == rules[1..][i - 1];
      if exists i :: 1 <= i < |rules| && rules[i].ruleType == TYPE_GROUP && rules[i].id == name {
        var i :| 1 <= i < |rules| && rules[i].ruleType == TYPE_GROUP && rules[i].id == name;
        assert rules[1..][i - 1] == rules[i];
      }
    }
  }

  /** The index of the first group-type rule whose ID is `name`, or -1. */
  function FirstReference(rules: seq<Rule>, name: string): (k: int)
    ensures -1 <= k < |rules|
    ensures k >= 0 ==> rules[k].ruleType == TYPE_GROUP && rules[k].id == name
    ensures forall i :: 0 <= i < |rules| && (k < 0 || i < k) ==> !(rules[i].ruleType == TYPE_GROUP && rules[i].id == name)
  {
    if rules == [] then -1
    else if rules[0].ruleType == TYPE_GROUP && rules[0].id == name then 0
    else
      var k := FirstReference(rules[1..], name);
      assert forall i :: 1 <= i < |rules| ==> rules[i] == rules[1..][i - 1];
      if k < 0 then -1 else k + 1
  }

  /** The sequence without its element at index `k`. */
  function RemoveAt<T>(xs: seq<T>, k: nat): (ys: seq<T>)
    requires k < |xs|
    ensures |ys| == |xs| - 1
    ensures forall i :: 0 <= i < k ==> ys[i] == xs[i]
    ensures forall i :: k <= i < |ys| ==> ys[i] == xs[i + 1]
  {
    xs[..k] + xs[k + 1..]
  }

  /** `xs` without the first occurrence of `x` (unchanged when there is none). */
  function RemoveFirst(xs: seq<string>, x: string): seq<string>
  {
    if xs == [] then []
    else if xs[0] == x then xs[1..]
    else [xs[0]] + RemoveFirst(xs[1..], x)
  }

  /** Removing the first reference rule to `name` removes exactly the first `name`
      from the group's references: the other references keep their order. */
  lemma {:induction false} RemoveReference(rules: seq<Rule>, name: string)
    requires FirstReference(rules, name) >= 0
    ensures ReferencesOf(RemoveAt(rules, FirstReference(rules, name))) == RemoveFirst(ReferencesOf(rules), name)
  {
    var k := FirstReference(rules, name);
    if k == 0 {
      assert RemoveAt(rules, 0) == rules[1..];
    } else {
      assert rules[0].ruleType == TYPE_GROUP ==> rules[0].id != name;
      assert FirstReference(rules[1..], name) == k - 1;
      RemoveReference(rules[1..], name);
      var removed := RemoveAt(rules, k);
      assert removed[1..] == RemoveAt(rules[1..], k - 1);
      assert removed[0] == rules[0];
      var head := if rules[0].ruleType == TYPE_GROUP then [rules[0].id] else [];
      assert ReferencesOf(removed) == head + ReferencesOf(removed[1..]);
      assert ReferencesOf(rules) == head + ReferencesOf(rules[1..]);
      var tail := ReferencesOf(rules[1..]);
      assert ReferencesOf(removed) == head + RemoveFirst(tail, name);
      if head != [] {
        assert (head + tail)[0] == rules[0].id && (head + tail)[1..] == tail;
        assert RemoveFirst(head + tail, name) == head + RemoveFirst(tail, name);
      } else {
        assert head + tail == tail;
        assert head + RemoveFirst(tail, name) == RemoveFirst(tail, name);
      }
    }
  }

  /** A group object: Rule() appends a fresh rule and RemoveGroup splices one out. */
  class FlareRuleGroup {
    var id: string
    var description: string
    var active: bool
    var rules: seq<FlareRule>

    /** The current fields of the rules, in order. */
    function Values(): (vs: seq<Rule>)
      reads this, rules
      ensures |vs| == |rules|
      ensures forall i :: 0 <= i < |rules| ==> vs[i] == rules[i].Value()
    {
      seq(|rules|, i reads this, rules requires 0 <= i < |rules| => rules[i].Value())
    }

    function Value(): Group
      reads this, rules
    {
      Group(id, description, active, Some(Values()))
    }

    /** NewFlareGroup: an active group with an empty, non-nil rule list. */
    constructor NewFlareGroup()
      ensures Value() == Group("", "", true, Some([]))
      ensures rules == []
    {
      id, description, active, rules := "", "", true, [];
    }

    method SetID(newId: string) returns (self: FlareRuleGroup)
      modifies this
      ensures self == this
      ensures rules == old(rules)
      ensures Value() == old(Value()).(id := newId)
    {
      id := newId;
      assert Values() == old(Values());
      return this;
    }

    /** Rule: appends a fresh empty rule and returns it for further building. */
    method Rule() returns (rule: FlareRule)
      modifies this
      ensures fresh(rule)
      ensures rules == old(rules) + [rule]
      ensures Values() == old(Values()) + [EmptyRule]
      ensures id == old(id) && description == old(description) && active == old(active)
    {
      rule := new FlareRule.NewRule();
      rules := rules + [rule];
      assert Values()[|rules| - 1] == EmptyRule;
    }

    /** References: the IDs of the group-type rules, gathered in rule order. */
    method References() returns (list: seq<string>)
      ensures list == ReferencesOf(Values())
    {
      list := [];
      var i := 0;
      while i < |rules|
        invariant 0 <= i <= |rules|
        invariant list == ReferencesOf(Values()[..i])
      {
        assert Values()[..i + 1] == Values()[..i] + [rules[i].Value()];
        ReferencesAppend(Values()[..i], rules[i].Value());
        if rules[i].ruleType == TYPE_GROUP {
          list := list + [rules[i].id];
        }
        i := i + 1;
      }
      assert Values()[..|rules|] == Values();
    }

    /** RemoveGroup: removes the first group-type rule referring to `name` and keeps
        the others in order; fails and changes nothing when there is no such rule. */
    method RemoveGroup(name: string) returns (r: Outcome<string>)
      modifies this
      ensures id == old(id) && description == old(description) && active == old(active)
      ensures var k := FirstReference(old(Values()), name);
        if k < 0 then r.Fail? && rules == old(rules)
        else r.Pass? && rules == RemoveAt(old(rules), k) && Values() == RemoveAt(old(Values()), k)
    {
      var index := 0;
      while index < |rules|
        invariant 0 <= index <= |rules|
        invariant forall i :: 0 <= i < index ==> !(Values()[i].ruleType == TYPE_GROUP && Values()[i].id == name)
      {
        if rules[index].ruleType == TYPE_GROUP && rules[index].id == name {
          ghost var before := Values();
          assert FirstReference(before, name) == index;
          rules := rules[..index] + rules[index + 1..];
          assert Values() == RemoveAt(before, index);
          return Pass;
        }
        index := index + 1;
      }
      return Fail("failed to find the reference to group: " + name + " in group");
    }
  }
}
