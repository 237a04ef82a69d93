/** The docker container service: the listener set, the environment of a
    container read from its inspection, the existence check and the filter the
    event processor applies to docker events. The docker client itself is not
    modelled: what its inspection answers is passed in. */
module ServiceDocker {
  import opened Common
  import opened GoStrings
  import opened ServiceEvent

  /** The pattern ^(.*)=(.*)$ of the environment loop: some "=" in a text with no
      newline, since "." does not match a newline. */
  predicate IsAssignment(kv: string)
  {
    '=' in kv && '\n' !in kv
  }

  /** The environment the loop builds from the entries: each assignment in turn maps
      the text before its first "=" to the text after it; other entries are skipped. */
  function EnvironmentOf(entries: seq<string>): map<string, string>
    decreases |entries|
  {
    if entries == [] then map[]
    else
      var env := EnvironmentOf(entries[..|entries| - 1]);
      var kv := entries[|entries| - 1];
      if IsAssignment(kv) then env[SplitFirst(kv, '=').0 := SplitFirst(kv, '=').1] else env
  }

  /** The keys of the environment are the keys of its assignment entries. */
  lemma {:induction false} EnvironmentKeys(entries: seq<string>)
    ensures EnvironmentOf(entries).Keys ==
      set i | 0 <= i < |entries| && IsAssignment(entries[i]) :: SplitFirst(entries[i], '=').0
    decreases |entries|
  {
    if entries != [] {
      var front := entries[..|entries| - 1];
      EnvironmentKeys(front);
      assert forall i :: 0 <= i < |front| ==> front[i] == entries[i];
      var kv := entries[|entries| - 1];
      if IsAssignment(kv) {
        assert SplitFirst(kv, '=').0 in
          (set i | 0 <= i < |entries| && IsAssignment(entries[i]) :: SplitFirst(entries[i], '=').0);
      }
    }
  }

  /** A key takes the value of the last assignment to it: later entries overwrite. */
  lemma {:induction false} EnvironmentLast(entries: seq<string>, i: nat)
    requires i < |entries| && IsAssignment(entries[i])
    requires forall j :: i < j < |entries| && IsAssignment(entries[j]) ==>
      SplitFirst(entries[j], '=').0 != SplitFirst(entries[i], '=').0
    ensures SplitFirst(entries[i], '=').0 in EnvironmentOf(entries)
    ensures EnvironmentOf(entries)[SplitFirst(entries[i], '=').0] == SplitFirst(entries[i], '=').1
    decreases |entries|
  {
    var front := entries[..|entries| - 1];
    if i < |entries| - 1 {
      assert front[i] == entries[i];
      assert forall j :: i < j < |front| ==> front[j] == entries[j];
      EnvironmentLast(front, i);
    }
  }

  /** An entry that is not an assignment leaves the environment as it was. */
  lemma EnvironmentSkips(entries: seq<string>, kv: string)
    requires !IsAssignment(kv)
    ensures EnvironmentOf(entries + [kv]) == EnvironmentOf(entries)
  {
    assert (entries + [kv])[..|entries|] == entries;
  }

  /** A value may itself hold "=": only the first one separates it from the key. */
  lemma EnvironmentExample()
    ensures EnvironmentOf(["A=1", "B", "A=2=3"]) == map["A" := "2=3"]
  {
    var entries := ["A=1", "B", "A=2=3"];
    assert "A=1" == "A" + ['='] + "1" && "A=2=3" == "A" + ['='] + "2=3";
    SeparatorBetween("A", "1", '=');
    SeparatorBetween("A", "2=3", '=');
    assert entries[..1] == ["A=1"] && ["A=1"][..0] == [];
    assert EnvironmentOf(entries[..1]) == map["A" := "1"];
    assert entries[..2] == ["A=1", "B"] && entries[..2][..1] == entries[..1];
    assert !IsAssignment("B");
    assert EnvironmentOf(entries[..2]) == map["A" := "1"];
  }

  /** Exists as written: an inspection error counts as "no such container" only when the
      text "No such container" starts with the error text. */
  function Exists(inspected: Outcome<string>): (r: Result<bool, string>)
    ensures inspected.Pass? ==> r == Ok(true)
    ensures inspected.Fail? ==>
      (r == Ok(false) <==> HasPrefix("No such container", inspected.error)) &&
      (r.Err? <==> !HasPrefix("No such container", inspected.error))
    ensures r.Err? ==> inspected == Fail(r.error)
  {
    match inspected
    case Pass => Ok(true)
    case Fail(message) => if HasPrefix("No such container", message) then Ok(false) else Err(message)
  }

  /** The error of docker for a missing container, "No such container: <id>", is
      longer than the text it is compared with, so Exists passes it on as an error. */
  lemma ExistsMissesMissingContainer()
    ensures Exists(Fail("No such container: 5f3c")) == Err("No such container: 5f3c")
    ensures ExistsIntended(Fail("No such container: 5f3c")) == Ok(false)
  {
    assert !HasPrefix("No such container", "No such container: 5f3c");
    assert "No such container: 5f3c"[..|"No such container"|] == "No such container";
  }

  /** Exists as evidently intended: an error whose text starts with "No such container"
      means the container does not exist; any other error is passed on. */
  function ExistsIntended(inspected: Outcome<string>): (r: Result<bool, string>)
    ensures inspected.Pass? ==> r == Ok(true)
    ensures inspected.Fail? ==> (r == Ok(false) <==> HasPrefix(inspected.error, "No such container"))
    ensures r.Err? ==> inspected == Fail(r.error) && !HasPrefix(r.error, "No such container")
  {
    match inspected
    case Pass => Ok(true)
    case Fail(message) => if HasPrefix(message, "No such container") then Ok(false) else Err(message)
  }

  /** The event filter as written: an event is skipped when its status differs from
      "destroy" or differs from "start", which every status does. */
  predicate Skipped(status: string)
  {
    status != DOCKER_DESTROY || status != DOCKER_START
  }

  lemma EveryEventSkipped(status: string)
    ensures Skipped(status)
  {
    assert DOCKER_DESTROY != DOCKER_START by {
      assert DOCKER_DESTROY[0] != DOCKER_START[0];
    }
  }

  /** The event filter as evidently intended: only start and destroy events pass. */
  predicate SkippedIntended(status: string)
  {
    status != DOCKER_DESTROY && status != DOCKER_START
  }

  lemma RelevantEvents(status: string)
    ensures !SkippedIntended(status) <==> status == DOCKER_START || status == DOCKER_DESTROY
  {
  }

  class Docker {
    var listeners: set<Chan>

    /** The service starts with no listeners. */
    constructor ()
      ensures listeners == {}
    {
      listeners := {};
    }

    /** AddListener: adds the channel, with set semantics, and never fails; unlike the
        rules store, a nil channel is accepted too. */
    method AddListener(channel: Chan) returns (r: Outcome<string>)
      modifies this
      ensures r == Pass
      ensures listeners == old(listeners) + {channel}
    {
      listeners := listeners + {channel};
      r := Pass;
    }

    /** Environment: fails when the existence check fails, when the container does not
        exist and when the inspection fails; otherwise the environment of the entries. */
    method Environment(id: string, probed: Outcome<string>, inspected: Result<seq<string>, string>)
      returns (env: map<string, string>, err: Outcome<string>)
      ensures Exists(probed).Err? ==>
        err == Fail("unable to retrieve the status of the container: " + id + ", error: " + Exists(probed).error)
      ensures Exists(probed) == Ok(false) ==> err == Fail("the container: " + id + " does not exsit")
      ensures Exists(probed) == Ok(true) && inspected.Err? ==> err == Fail(inspected.error)
      ensures err.Pass? <==> Exists(probed) == Ok(true) && inspected.Ok?
      ensures err.Pass? ==> env == EnvironmentOf(inspected.value)
      ensures err.Fail? ==> env == map[]
    {
      var found := Exists(probed);
      if found.Err? {
        return map[], Fail("unable to retrieve the status of the container: " + id + ", error: " + found.error);
      }
      if !found.value {
        return map[], Fail("the container: " + id + " does not exsit");
      }
      if inspected.Err? {
        return map[], Fail(inspected.error);
      }
      var entries := inspected.value;
      env := map[];
      var i := 0;
      while i < |entries|
        invariant 0 <= i <= |entries|
        invariant env == EnvironmentOf(entries[..i])
      {
        var kv := entries[i];
        assert entries[..i + 1][..i] == entries[..i];
        if IsAssignment(kv) {
          var elements := SplitFirst(kv, '=');
          env := env[elements.0 := elements.1];
        }
        i := i + 1;
      }
      assert entries[..|entries|] == entries;
      err := Pass;
    }

    /** One docker event through the processor loop with the intended filter: a start
        or destroy event becomes a new container event with the ID and status. (With
        the filter as written, EveryEventSkipped shows that no event gets this far.)
        The log line before the filter slices the first twelve characters of the ID,
        which panics on a shorter ID. */
    method RelayIntended(eventID: string, status: string) returns (event: ContainerEvent?)
      requires |eventID| >= 12
      ensures event != null <==> status == DOCKER_START || status == DOCKER_DESTROY
      ensures event != null ==> fresh(event) && event.id == eventID && event.status == status
      ensures event != null ==> event.HasStarted() || event.HasDestroyed()
    {
      RelevantEvents(status);
      if SkippedIntended(status) {
        return null;
      }
      var created := new ContainerEvent();
      event := created.ContainerID(eventID);
      event := event.SetStatus(status);
    }
  }
}
