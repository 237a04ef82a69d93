/** The change notifications of the rules store: the event kinds and the
    RulesEvent object whose setters mark what happened to a group. */
module RulesEvents {

  const RULES_CHANGED: int := 0
  const RULES_ADDED: int := 1
  const RULES_DELETED: int := 2

  /** The name of a notification kind. */
  function KindName(notifyType: int): (s: string)
  {
    if notifyType == RULES_CHANGED then "changed"
    else if notifyType == RULES_ADDED then "added"
    else if notifyType == RULES_DELETED then "deleted"
    else "unknown"
  }

  /** The three kinds have three different names, and every other value is "unknown". */
  lemma KindNames(notifyType: int, other: int)
    ensures KindName(notifyType) in {"changed", "added", "deleted", "unknown"}
    ensures KindName(notifyType) == "unknown" <==> notifyType !in {RULES_CHANGED, RULES_ADDED, RULES_DELETED}
    ensures KindName(notifyType) != "unknown" && KindName(notifyType) == KindName(other) ==> notifyType == other
  {
  }

  class RulesEvent {
    var id: string
    var notifyType: int

    constructor (id: string, notifyType: int)
      ensures this.id == id && this.notifyType == notifyType
    {
      this.id := id;
      this.notifyType := notifyType;
    }

    method Changed() returns (self: RulesEvent)
      modifies this
      ensures self == this
      ensures notifyType == RULES_CHANGED && id == old(id)
    {
      notifyType := RULES_CHANGED;
      return this;
    }

    method Added() returns (self: RulesEvent)
      modifies this
      ensures self == this
      ensures notifyType == RULES_ADDED && id == old(id)
    {
      notifyType := RULES_ADDED;
      return this;
    }

    method Deleted() returns (self: RulesEvent)
      modifies this
      ensures self == this
      ensures notifyType == RULES_DELETED && id == old(id)
    {
      notifyType := RULES_DELETED;
      return this;
    }

    predicate IsChanged()
      reads this
    {
      notifyType == RULES_CHANGED
    }

    predicate IsAdded()
      reads this
    {
      notifyType == RULES_ADDED
    }

    predicate IsDeleted()
      reads this
    {
      notifyType == RULES_DELETED
    }

    /** At most one kind holds, and the name tells which. */
    lemma KindsExclusive()
      ensures !(IsChanged() && IsAdded()) && !(IsChanged() && IsDeleted()) && !(IsAdded() && IsDeleted())
      ensures IsChanged() <==> NotifyTypeInString() == "changed"
      ensures IsAdded() <==> NotifyTypeInString() == "added"
      ensures IsDeleted() <==> NotifyTypeInString() == "deleted"
    {
    }

    function NotifyTypeInString(): (s: string)
      reads this
    {
      KindName(notifyType)
    }
  }
}
