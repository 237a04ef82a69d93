/** The change events the key-value backend emits. The event carries the
    directory flag that its predicates and the watch dispatch use. */
module StoreEvents {

  const CHANGED: int := 0
  const DELETED: int := 1
  const ADDED: int := 2

  datatype StoreEvent = StoreEvent(id: string, value: string, directory: bool, action: int)

  function ActionType(event: StoreEvent): (s: string)
  {
    match event.action
    case 0 => "changed"
    case 1 => "deleted"
    case 2 => "added"
    case _ => "unknown"
  }

  predicate IsDirectory(event: StoreEvent)
  {
    event.directory
  }

  predicate IsFile(event: StoreEvent)
  {
    if event.directory then false else true
  }

  predicate IsChanged(event: StoreEvent)
  {
    event.action == CHANGED
  }

  predicate IsDeleted(event: StoreEvent)
  {
    event.action == DELETED
  }

  predicate IsAdded(event: StoreEvent)
  {
    event.action == ADDED
  }

  /** An event is a file exactly when it is not a directory. */
  lemma FileIsNotDirectory(event: StoreEvent)
    ensures IsFile(event) <==> !IsDirectory(event)
  {
  }

  /** The action names, and at most one action predicate holds. */
  lemma ActionKinds(event: StoreEvent)
    ensures ActionType(event) == "changed" <==> IsChanged(event)
    ensures ActionType(event) == "deleted" <==> IsDeleted(event)
    ensures ActionType(event) == "added" <==> IsAdded(event)
    ensures ActionType(event) == "unknown" <==> event.action !in {CHANGED, DELETED, ADDED}
    ensures !(IsChanged(event) && IsDeleted(event)) && !(IsChanged(event) && IsAdded(event)) &&
      !(IsDeleted(event) && IsAdded(event))
  {
  }
}
