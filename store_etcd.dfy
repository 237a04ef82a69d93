/** The etcd store adapter: the backend the rules store keeps its groups in.
    The etcd client is replaced by the server's key tree itself (a `Tree`),
    which the adapter's methods read and write. Every key a method is given is
    cleaned (`CleanKey`) on its way to the server, as the client and the server
    do. Whether the cluster answers a write is an oracle handed to `Set`; every
    other request is answered. */
module EtcdStore {
  import opened Common
  import opened GoStrings
  import opened EtcdTree
  import opened StoreEvents
  import Resilience

  /** What a watch on the server reports for one change. */
  datatype Response = Response(action: string, key: string, dir: bool, value: string)

  /** The event action a watch response is reported as: "set" and "delete" are
      told apart, and any other action keeps the zero value, which reads as CHANGED. */
  function ActionOf(action: string): (a: int)
    ensures a == DELETED <==> action == "delete"
    ensures a == CHANGED <==> action != "delete"
  {
    if action == "set" then CHANGED
    else if action == "delete" then DELETED
    else 0
  }

  /** The event built from a watch response: the node's key, value and directory flag. */
  function EventOf(response: Response): (e: StoreEvent)
    ensures e.id == response.key && e.value == response.value && e.directory == response.dir
    ensures IsChanged(e) <==> response.action != "delete"
    ensures IsDeleted(e) <==> response.action == "delete"
    ensures !IsAdded(e)
  {
    StoreEvent(response.key, response.value, response.dir, ActionOf(response.action))
  }

  /** isValidKey: a key to watch must be absolute. */
  function IsValidKey(key: string): (r: bool)
    ensures r <==> |key| > 0 && key[0] == '/'
  {
    HasPrefix(key, "/")
  }

  /** The error of a server answer, as the `error` return of the adapter. */
  function OutcomeOf<T>(r: Result<T, StoreError>): (o: Outcome<StoreError>)
    ensures o.Pass? <==> r.Ok?
    ensures r.Err? ==> o == Fail(r.error)
  {
    match r
    case Ok(_) => Pass
    case Err(e) => Fail(e)
  }

  /** Flush on a namespace named without slashes, such as the default "flare":
      the request deletes the directory "/" + namespace when it is stored, and is
      answered "Key not found" for that key otherwise. */
  lemma FlushNamedNamespace(t: Tree, namespace: string)
    requires namespace != "" && '/' !in namespace
    ensures CleanKey(namespace) == "/" + namespace
    ensures DeleteTree(t, CleanKey(namespace), true).Ok? <==> "/" + namespace in t
    ensures "/" + namespace !in t ==> DeleteTree(t, CleanKey(namespace), true) == Err(KeyNotFound("/" + namespace))
  {
    CleanName(namespace);
  }

  class EtcdStoreAgent {
    /** The base key of the namespace. */
    const prefix: string
    /** The server's key tree. */
    var nodes: Tree
    /** The keys being watched. */
    var watchedKeys: set<string>
    /** The channel events are sent on. */
    var eventsChannel: Chan

    predicate Valid()
      reads this
    {
      TreeOk(nodes)
    }

    /** NewEtcdStore: an adapter on `namespace` for a server holding `server`,
        with no watches and no listener. */
    constructor NewEtcdStore(namespace: string, server: Tree)
      requires TreeOk(server)
      ensures Valid()
      ensures prefix == namespace && nodes == server
      ensures watchedKeys == {} && eventsChannel == NilChan
    {
      prefix := namespace;
      nodes := server;
      watchedKeys := {};
      eventsChannel := NilChan;
    }

    /** Get: the value stored at a key; a missing key is an error. The key is
        cleaned before it reaches the server. */
    method Get(id: string) returns (value: string, err: Outcome<StoreError>)
      ensures GetTree(nodes, CleanKey(id)).Ok? ==> value == GetTree(nodes, CleanKey(id)).value && err == Pass
      ensures GetTree(nodes, CleanKey(id)).Err? ==> value == "" && err == Fail(GetTree(nodes, CleanKey(id)).error)
      ensures err.Pass? <==> ExistsAt(nodes, CleanKey(id))
    {
      match GetTree(nodes, CleanKey(id))
      case Ok(v) =>
        value, err := v, Pass;
      case Err(e) =>
        value, err := "", Fail(e);
    }

    /** Set: writes a file at the cleaned key, retrying up to three times while the
        cluster does not answer; `reachable(i)` tells whether the (i+1)-th request is
        answered. A request that is answered gets the server's answer, so the write
        happens at most once and the error returned is the last request's. */
    method Set(id: string, value: string, reachable: nat -> bool) returns (r: Outcome<StoreError>)
      requires Valid()
      modifies this
      ensures Valid()
      ensures r.Pass? <==> SetTree(old(nodes), CleanKey(id), value).Ok? && exists i :: 0 <= i < 3 && reachable(i)
      ensures r.Pass? ==> nodes == SetTree(old(nodes), CleanKey(id), value).value
      ensures r.Fail? ==> nodes == old(nodes)
      ensures r.Fail? && !reachable(2) ==> r == Fail(Unreachable(id))
      ensures r.Fail? && reachable(2) ==> r == OutcomeOf(SetTree(old(nodes), CleanKey(id), value))
      ensures watchedKeys == old(watchedKeys) && eventsChannel == old(eventsChannel)
    {
      var key := CleanKey(id);
      var answer := SetTree(nodes, key, value);
      var call := (i: nat) => if reachable(i) then OutcomeOf(answer) else Fail(Unreachable(id));
      var calls;
      r, calls := Resilience.Attempt(3, call);
      if r.Pass? {
        assert r == (if reachable(calls - 1) then OutcomeOf(answer) else Fail(Unreachable(id)));
        SetKeepsTreeOk(nodes, key, value);
        nodes := answer.value;
      } else {
        forall i | 0 <= i < 3
          ensures !reachable(i) || answer.Err?
        {
          assert call(i).Fail?;
        }
      }
    }

    /** Delete: removes the cleaned key; a directory needs `recursive` and goes with
        everything under it. */
    method Delete(path: string, recursive: bool) returns (r: Outcome<StoreError>)
      requires Valid()
      modifies this
      ensures Valid()
      ensures r == OutcomeOf(DeleteTree(old(nodes), CleanKey(path), recursive))
      ensures r.Pass? ==> nodes == DeleteTree(old(nodes), CleanKey(path), recursive).value
      ensures r.Fail? ==> nodes == old(nodes)
      ensures watchedKeys == old(watchedKeys) && eventsChannel == old(eventsChannel)
    {
      var key := CleanKey(path);
      var answer := DeleteTree(nodes, key, recursive);
      r := OutcomeOf(answer);
      if answer.Ok? {
        DeleteKeepsTreeOk(nodes, key, recursive);
        nodes := answer.value;
      }
    }

    /** Exists: whether the cleaned key is stored; "Key not found" is an answer, not
        an error, while "Not a directory" (a stored file on the key's path) is
        passed on as one. */
    method Exists(id: string) returns (found: bool, err: Outcome<StoreError>)
      ensures found <==> ExistsAt(nodes, CleanKey(id))
      ensures err.Fail? <==> !ExistsAt(nodes, CleanKey(id)) && AncestorIsFile(nodes, CleanKey(id))
      ensures err.Fail? ==> err == Fail(NotADirectory(CleanKey(id)))
    {
      match GetTree(nodes, CleanKey(id))
      case Ok(_) =>
        found, err := true, Pass;
      case Err(e) =>
        if e.KeyNotFound? {
          found, err := false, Pass;
        } else {
          found, err := false, Fail(e);
        }
    }

    /** isDirectory: whether the cleaned key is a directory; a missing key is the
        server's error. */
    method IsDirectory(path: string) returns (dir: bool, err: Outcome<StoreError>)
      ensures err.Fail? <==> !ExistsAt(nodes, CleanKey(path))
      ensures err.Fail? ==> err == Fail(Missing(nodes, CleanKey(path))) && !dir
      ensures err.Pass? ==> (dir <==> IsDirAt(nodes, CleanKey(path)))
    {
      var key := CleanKey(path);
      if !ExistsAt(nodes, key) {
        return false, Fail(Missing(nodes, key));
      }
      dir := IsDirAt(nodes, key);
      err := Pass;
    }

    /** Mkdir: creates a directory and its parents. The root is read-only; a
        directory that is already there is success, any other node already there
        is an error. */
    method Mkdir(path: string) returns (r: Outcome<StoreError>)
      requires Valid()
      modifies this
      ensures Valid()
      ensures CleanKey(path) == "/" ==> r == Fail(RootReadOnly("/")) && nodes == old(nodes)
      ensures CleanKey(path) != "/" && IsDirAt(old(nodes), CleanKey(path)) ==> r == Pass && nodes == old(nodes)
      ensures ExistsAt(old(nodes), CleanKey(path)) && !IsDirAt(old(nodes), CleanKey(path)) ==>
        r == Fail(NonDirectoryExists(path)) && nodes == old(nodes)
      ensures !ExistsAt(old(nodes), CleanKey(path)) ==> r == OutcomeOf(CreateDirTree(old(nodes), CleanKey(path)))
      ensures r.Pass? ==> IsDirAt(nodes, CleanKey(path))
      ensures r.Fail? ==> nodes == old(nodes)
      ensures watchedKeys == old(watchedKeys) && eventsChannel == old(eventsChannel)
    {
      var key := CleanKey(path);
      var answer := CreateDirTree(nodes, key);
      if answer.Ok? {
        CreateDirKeepsTreeOk(nodes, key);
        nodes := answer.value;
        return Pass;
      }
      if answer.error.KeyExists? {
        if !ExistsAt(nodes, key) {
          return Fail(KeyNotFound(key));
        } else if !IsDirAt(nodes, key) {
          return Fail(NonDirectoryExists(path));
        }
        return Pass;
      }
      r := Fail(answer.error);
    }

    /** List: with `recursive`, every file anywhere under the cleaned path; otherwise
        the files directly in the directory, which must be one. Each key once, as the
        server names it; the order is not modelled. */
    method List(path: string, recursive: bool) returns (list: seq<string>, err: Outcome<StoreError>)
      requires Valid()
      ensures Distinct(list)
      ensures err.Fail? ==> list == []
      ensures recursive ==> (err.Pass? <==> ExistsAt(nodes, CleanKey(path)))
      ensures recursive && err.Pass? ==> Elements(list) == Leaves(nodes, CleanKey(path))
      ensures recursive && err.Fail? ==> err == Fail(Missing(nodes, CleanKey(path)))
      ensures !recursive ==> (err.Pass? <==> IsDirAt(nodes, CleanKey(path)))
      ensures !recursive && err.Pass? ==> Elements(list) == FileChildren(nodes, CleanKey(path))
      ensures !recursive && !ExistsAt(nodes, CleanKey(path)) ==> err == Fail(Missing(nodes, CleanKey(path)))
      ensures !recursive && ExistsAt(nodes, CleanKey(path)) && !IsDirAt(nodes, CleanKey(path)) ==>
        err == Fail(PathIsFile(path))
    {
      if recursive {
        list, err := RecursiveList(path, []);
        if err.Fail? {
          return [], err;
        }
        assert list[0..] == list;
        return list, err;
      }
      var key := CleanKey(path);
      list := [];
      if !ExistsAt(nodes, key) {
        return list, Fail(Missing(nodes, key));
      }
      if !IsDirAt(nodes, key) {
        return list, Fail(PathIsFile(path));
      }
      list := FilesIn(key);
      err := Pass;
    }

    /** The loop of a non-recursive List: the files among the children of `key`,
        each once. */
    method FilesIn(key: string) returns (list: seq<string>)
      ensures Distinct(list) && Elements(list) == FileChildren(nodes, key)
    {
      var children := ListOf(Children(nodes, key));
      list := [];
      var i := 0;
      while i < |children|
        invariant 0 <= i <= |children|
        invariant Distinct(list)
        invariant Elements(list) == FileChildren(nodes, key) * Elements(children[..i])
      {
        var child := children[i];
        assert child in Elements(children);
        assert Elements(children[..i + 1]) == Elements(children[..i]) + {child} by {
          assert children[..i + 1] == children[..i] + [child];
          ElementsAppend(children[..i], child);
        }
        if nodes[child].File? {
          DistinctNotBefore(children, i);
          ElementsAppend(list, child);
          list := list + [child];
        }
        i := i + 1;
      }
      assert children[..i] == children;
    }

    /** One child met while listing the directory `dir`: a directory is listed
        recursively after `list`, a file is appended to it. */
    method ListChild(dir: string, child: string, list: seq<string>) returns (next: seq<string>)
      requires Valid() && child in Children(nodes, dir) && child in nodes
      ensures |list| <= |next| && next[..|list|] == list
      ensures Elements(next[|list|..]) == Contribution(nodes, child) && Distinct(next[|list|..])
      decreases |Subtree(nodes, dir)|, 0
    {
      if nodes[child].Dir? {
        CleanCanonical(child);
        assert |Subtree(nodes, CleanKey(child))| < |Subtree(nodes, dir)| by {
          SubtreeShrinks(nodes, dir, child);
        }
        var e;
        next, e := RecursiveList(child, list);
        assert e.Pass?;
      } else {
        next := list + [child];
        assert next[|list|..] == [child];
        assert Elements([child]) == {child} by {
          assert [child][0] == child;
        }
      }
    }

    /** recursiveList: appends to `paths` every file anywhere under the cleaned
        `path`. A missing path is an error; a file has no children and adds nothing.
        The answer of a descent into a child directory is not checked. */
    method RecursiveList(path: string, paths: seq<string>) returns (list: seq<string>, err: Outcome<StoreError>)
      requires Valid()
      ensures err.Pass? <==> ExistsAt(nodes, CleanKey(path))
      ensures err.Fail? ==> list == [] && err == Fail(Missing(nodes, CleanKey(path)))
      ensures err.Pass? ==> |paths| <= |list| && list[..|paths|] == paths
      ensures err.Pass? ==> Elements(list[|paths|..]) == Leaves(nodes, CleanKey(path)) && Distinct(list[|paths|..])
      decreases |Subtree(nodes, CleanKey(path))|, 2
    {
      var key := CleanKey(path);
      if !ExistsAt(nodes, key) {
        return [], Fail(Missing(nodes, key));
      }
      list := ListUnder(key, paths);
      err := Pass;
    }

    /** The loop of recursiveList over the children of the stored key `key`: appends
        to `paths` every file anywhere under it. */
    method ListUnder(key: string, paths: seq<string>) returns (list: seq<string>)
      requires Valid()
      ensures |paths| <= |list| && list[..|paths|] == paths
      ensures Elements(list[|paths|..]) == Leaves(nodes, key) && Distinct(list[|paths|..])
      decreases |Subtree(nodes, key)|, 1
    {
      var children := ListOf(Children(nodes, key));
      GatherStart(nodes, key, children);
      list := paths;
      ghost var found: seq<string> := [];
      var i := 0;
      while i < |children|
        invariant i <= |children|
        invariant list == paths + found
        invariant Gathered(nodes, children, i, found)
      {
        var next := ListChild(key, children[i], list);
        GatherNext(nodes, key, children, i, paths, found, next);
        found := found + next[|list|..];
        list := next;
        i := i + 1;
      }
      GatheredAll(nodes, key, children, paths, found);
    }

    /** DeleteAll: deletes the files directly in a directory, keeping its
        subdirectories. A missing path or a path that is not a directory is an error. */
    method DeleteAll(path: string) returns (r: Outcome<StoreError>)
      requires Valid()
      modifies this
      ensures Valid()
      ensures !ExistsAt(old(nodes), CleanKey(path)) ==>
        r == Fail(Missing(old(nodes), CleanKey(path))) && nodes == old(nodes)
      ensures ExistsAt(old(nodes), CleanKey(path)) && !IsDirAt(old(nodes), CleanKey(path)) ==>
        r == Fail(PathIsFile(path)) && nodes == old(nodes)
      ensures IsDirAt(old(nodes), CleanKey(path)) ==>
        r == Pass && nodes == old(nodes) - FileChildren(old(nodes), CleanKey(path))
      ensures watchedKeys == old(watchedKeys) && eventsChannel == old(eventsChannel)
    {
      var found, e := Exists(path);
      if e.Fail? {
        return e;
      }
      var isDirectory, e2 := IsDirectory(path);
      if e2.Fail? {
        return e2;
      } else if !isDirectory {
        return Fail(PathIsFile(path));
      }
      var listings, e3 := List(path, false);
      if e3.Fail? {
        return e3;
      }
      DeleteFiles(listings);
      r := Pass;
    }

    /** The loop of DeleteAll: deletes each of the distinct stored files `files`.
        Every one of them is a stored file when its turn comes, so no delete can
        fail and the loop never stops early with an error. */
    method DeleteFiles(files: seq<string>)
      requires Valid() && Distinct(files)
      requires forall f :: f in Elements(files) ==> f in nodes && nodes[f].File?
      modifies this
      ensures Valid()
      ensures nodes == old(nodes) - Elements(files)
      ensures watchedKeys == old(watchedKeys) && eventsChannel == old(eventsChannel)
    {
      var i := 0;
      while i < |files|
        invariant 0 <= i <= |files|
        invariant TreeOk(nodes)
        invariant nodes == old(nodes) - Elements(files[..i])
        invariant watchedKeys == old(watchedKeys) && eventsChannel == old(eventsChannel)
      {
        var file := files[i];
        assert file in Elements(files);
        DistinctNotBefore(files, i);
        DeleteFile(nodes, file, true);
        assert CleanKey(file) == file by {
          assert WellFormedKey(file);
          CleanCanonical(file);
        }
        var d := Delete(file, true);
        ElementsPrefix(files, i);
        i := i + 1;
      }
      assert files[..i] == files;
    }

    /** Flush: deletes the whole namespace, recursively. */
    method Flush() returns (r: Outcome<StoreError>)
      requires Valid()
      modifies this
      ensures Valid()
      ensures r == OutcomeOf(DeleteTree(old(nodes), CleanKey(prefix), true))
      ensures r.Pass? ==> Subtree(nodes, CleanKey(prefix)) == {} && CleanKey(prefix) !in nodes
      ensures r.Fail? ==> nodes == old(nodes)
    {
      ghost var before := nodes;
      r := Delete(prefix, true);
      if r.Pass? {
        DeleteRemovesSubtree(before, CleanKey(prefix), true);
      }
    }

    /** Watch: adds an absolute key to the watched keys; any other key is refused. */
    method Watch(key: string) returns (r: Outcome<string>)
      modifies this
      ensures r.Fail? <==> !IsValidKey(key)
      ensures r.Fail? ==> watchedKeys == old(watchedKeys)
      ensures r.Pass? ==> watchedKeys == old(watchedKeys) + {key}
      ensures nodes == old(nodes) && eventsChannel == old(eventsChannel)
    {
      if !IsValidKey(key) {
        return Fail("invalid key: " + key);
      }
      watchedKeys := watchedKeys + {key};
      r := Pass;
    }

    /** AddListener: the channel events go to from now on, replacing any earlier one. */
    method AddListener(ch: Chan)
      modifies this
      ensures eventsChannel == ch
      ensures nodes == old(nodes) && watchedKeys == old(watchedKeys)
    {
      eventsChannel := ch;
    }

    /** processNodeChange: the event sent for a change, if any. Nothing is sent
        without a listener or when no watched key is a prefix of the changed key;
        otherwise exactly one event is sent, however many watched keys match. */
    method ProcessNodeChange(response: Response) returns (event: Option<StoreEvent>)
      ensures event.Some? <==>
        eventsChannel != NilChan && exists w :: w in watchedKeys && HasPrefix(response.key, w)
      ensures event.Some? ==> event.value == EventOf(response)
    {
      if |watchedKeys| <= 0 || eventsChannel == NilChan {
        return None;
      }
      var keys := ListOf(watchedKeys);
      var i := 0;
      while i < |keys|
        invariant 0 <= i <= |keys|
        invariant forall j :: 0 <= j < i ==> !HasPrefix(response.key, keys[j])
      {
        if HasPrefix(response.key, keys[i]) {
          assert keys[i] in Elements(keys);
          return Some(EventOf(response));
        }
        i := i + 1;
      }
      assert forall w :: w in watchedKeys ==> w in Elements(keys);
      event := None;
    }
  }
}
