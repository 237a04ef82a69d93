/** The container events of the service package: what docker reports about a
    container, built with chained setters and read through two predicates. */
module ServiceEvent {

  const DOCKER_START: string := "start"
  const DOCKER_DIE: string := "die"
  const DOCKER_DESTROY: string := "destroy"

  class ContainerEvent {
    var id: string
    var status: string

    /** new(ContainerEvent): the zero event. */
    constructor ()
      ensures id == "" && status == ""
    {
      id, status := "", "";
    }

    /** ContainerID: sets the container ID and returns the same event. */
    method ContainerID(id: string) returns (self: ContainerEvent)
      modifies this
      ensures self == this
      ensures this.id == id && status == old(status)
    {
      this.id := id;
      return this;
    }

    /** SetStatus: sets the status and returns the same event. */
    method SetStatus(status: string) returns (self: ContainerEvent)
      modifies this
      ensures self == this
      ensures this.status == status && id == old(id)
    {
      this.status := status;
      return this;
    }

    predicate HasStarted()
      reads this
    {
      status == DOCKER_START
    }

    predicate HasDestroyed()
      reads this
    {
      status == DOCKER_DESTROY
    }

    /** No event is both a start and a destroy; a "die" event is neither. */
    lemma StartOrDestroy()
      ensures !(HasStarted() && HasDestroyed())
      ensures status == DOCKER_DIE ==> !HasStarted() && !HasDestroyed()
    {
    }
  }
}
