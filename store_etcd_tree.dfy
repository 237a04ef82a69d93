/** The hierarchical key space of an etcd (version 2) server, as the etcd
    store adapter sees it through its client: a map from full key paths to
    directory or file nodes. The root directory ("/", also reached as "")
    always exists and is not stored in the map. Writing a key creates its
    missing parent directories; a file cannot have children. The server acts
    on a requested key only once it has been cleaned (`CleanKey`), so the
    writing operations take canonical keys. */
module EtcdTree {
  import opened Common
  import opened GoStrings

  datatype Node = Dir | File(value: string)

  type Tree = map<string, Node>

  /** The errors the etcd server answers with, the client's error when no
      member of the cluster answers, and the adapter's own refusals: a
      non-directory where it creates a directory (`NonDirectoryExists`) and a
      file where it needs a directory to list or empty (`PathIsFile`). */
  datatype StoreError =
    | KeyNotFound(key: string)
    | NotAFile(key: string)
    | NotADirectory(key: string)
    | RootReadOnly(key: string)
    | KeyExists(key: string)
    | NonDirectoryExists(key: string)
    | PathIsFile(key: string)
    | Unreachable(key: string)

  predicate IsRoot(path: string)
  {
    path == "" || path == "/"
  }

  /** The text a child key of `path` starts with, before its "/". */
  function DirKey(path: string): string
  {
    if IsRoot(path) then "" else path
  }

  /** `k` lies somewhere under the directory `d`. */
  predicate Below(d: string, k: string)
  {
    HasPrefix(k, DirKey(d) + "/")
  }

  /** `k` is an immediate child of the directory `d`. */
  predicate ChildOf(d: string, k: string)
  {
    Below(d, k) && |k| > |DirKey(d)| + 1 && '/' !in k[|DirKey(d)| + 1..]
  }

  /** A key in canonical form: "/" followed by non-empty segments separated by single slashes. */
  predicate WellFormedKey(k: string)
  {
    && |k| >= 2 && k[0] == '/' && k[|k| - 1] != '/'
    && forall i :: 0 <= i < |k| - 1 && k[i] == '/' ==> k[i + 1] != '/'
  }

  /** The root, or a key in canonical form: the keys the server answers for. */
  predicate Canonical(k: string)
  {
    k == "/" || WellFormedKey(k)
  }

  // ----- the key the server sees -----

  /** The parts of `parts` that are not empty, in order. */
  function NonEmpty(parts: seq<string>): (r: seq<string>)
    ensures forall i :: 0 <= i < |r| ==> r[i] != "" && r[i] in parts
  {
    if parts == [] then []
    else (if parts[0] == "" then [] else [parts[0]]) + NonEmpty(parts[1..])
  }

  lemma {:induction false} NonEmptyAppend(x: seq<string>, y: seq<string>)
    ensures NonEmpty(x + y) == NonEmpty(x) + NonEmpty(y)
  {
    if x != [] {
      assert (x + y)[0] == x[0] && (x + y)[1..] == x[1..] + y;
      NonEmptyAppend(x[1..], y);
    } else {
      assert x + y == y;
    }
  }

  /** The elements of a path: the non-empty texts between its slashes. */
  function PathElements(k: string): (es: seq<string>)
    ensures forall i :: 0 <= i < |es| ==> es[i] != "" && '/' !in es[i]
  {
    SplitPiecesFree(k, '/');
    NonEmpty(Split(k, '/'))
  }

  /** The elements of two paths joined by a slash are those of the first, then those of the second. */
  lemma PathElementsAround(a: string, b: string)
    ensures PathElements(a + "/" + b) == PathElements(a) + PathElements(b)
  {
    SplitAround(a, b, '/');
    NonEmptyAppend(Split(a, '/'), Split(b, '/'));
  }

  /** A text with no slash is one element, or none when it is empty. */
  lemma NameElements(name: string)
    requires '/' !in name
    ensures PathElements(name) == if name == "" then [] else [name]
  {
    assert Split(name, '/') == [name];
    assert [name][1..] == [];
    assert NonEmpty([name]) == (if name == "" then [] else [name]) + NonEmpty([]);
  }

  /** Each element after a slash. */
  function JoinKey(es: seq<string>): string
  {
    if es == [] then "" else "/" + es[0] + JoinKey(es[1..])
  }

  lemma {:induction false} JoinKeyAppend(x: seq<string>, y: seq<string>)
    ensures JoinKey(x + y) == JoinKey(x) + JoinKey(y)
  {
    if x != [] {
      assert (x + y)[0] == x[0] && (x + y)[1..] == x[1..] + y;
      JoinKeyAppend(x[1..], y);
    } else {
      assert x + y == y;
    }
  }

  /** Non-empty elements without slashes, each after one slash, make a canonical key. */
  lemma {:induction false} JoinWellFormed(es: seq<string>)
    requires es != [] && forall i :: 0 <= i < |es| ==> es[i] != "" && '/' !in es[i]
    ensures WellFormedKey(JoinKey(es))
  {
    var head, rest := "/" + es[0], JoinKey(es[1..]);
    if es[1..] != [] {
      assert forall i :: 0 <= i < |es[1..]| ==> es[1..][i] == es[i + 1];
      JoinWellFormed(es[1..]);
    }
    var k := head + rest;
    assert k[0] == '/';
    assert k[|k| - 1] != '/' by {
      if rest == "" {
        assert k[|k| - 1] == es[0][|es[0]| - 1];
      } else {
        assert k[|k| - 1] == rest[|rest| - 1];
      }
    }
    forall i | 0 <= i < |k| - 1 && k[i] == '/'
      ensures k[i + 1] != '/'
    {
      if i == 0 {
        assert k[1] == es[0][0];
      } else if |head| <= i {
        assert k[i] == rest[i - |head|] && k[i + 1] == rest[i + 1 - |head|];
      }
    }
  }

  /** The key the server acts on for a requested key: the client joins the key onto
      its "keys" endpoint with path.Join and the server cleans it again, so what is
      left is each element of the key after one slash, or the root "/" when the key
      has no element. */
  function CleanKey(k: string): (c: string)
    ensures Canonical(c)
    ensures c == "/" <==> PathElements(k) == []
  {
    var es := PathElements(k);
    if es == [] then "/"
    else
      JoinWellFormed(es);
      JoinKey(es)
  }

  /** A text that is not empty, neither starts nor ends with a slash and has no
      two slashes in a row: a canonical key without its leading slash. */
  predicate Tight(s: string)
  {
    && s != "" && s[0] != '/' && s[|s| - 1] != '/'
    && forall i :: 0 <= i < |s| - 1 && s[i] == '/' ==> s[i + 1] != '/'
  }

  /** A text with no two slashes in a row keeps that property past any prefix. */
  lemma NoDoubleSlashAfter(s: string, d: nat)
    requires d <= |s| && forall i :: 0 <= i < |s| - 1 && s[i] == '/' ==> s[i + 1] != '/'
    ensures forall j :: 0 <= j < |s[d..]| - 1 && s[d..][j] == '/' ==> s[d..][j + 1] != '/'
  {
    var rest := s[d..];
    forall j | 0 <= j < |rest| - 1 && rest[j] == '/'
      ensures rest[j + 1] != '/'
    {
      assert rest[j] == s[d + j];
      assert rest[j + 1] == s[d + j + 1];
    }
  }

  /** Cut at its first slash, a tight text is a non-empty name, the slash, and a tight rest. */
  lemma TightSplit(s: string, i: nat)
    requires Tight(s) && '/' in s && i == IndexOf(s, '/')
    ensures 0 < i < |s| - 1 && s == s[..i] + "/" + s[i + 1..]
    ensures s[..i] != "" && '/' !in s[..i] && Tight(s[i + 1..])
  {
    AroundIndex(s, i);
    assert 0 < i < |s| - 1;
    TightAfterSlash(s, i);
  }

  /** What follows an inner slash of a tight text is tight. */
  lemma TightAfterSlash(s: string, i: nat)
    requires Tight(s) && 0 < i < |s| - 1 && s[i] == '/'
    ensures Tight(s[i + 1..])
  {
    var rest := s[i + 1..];
    assert s[i + 1] != '/';
    assert rest[0] == s[i + 1];
    assert rest[|rest| - 1] == s[|s| - 1];
    NoDoubleSlashAfter(s, i + 1);
  }

  /** A canonical key other than the root is a slash followed by a tight text. */
  lemma CanonicalTight(k: string)
    requires WellFormedKey(k)
    ensures k == "" + "/" + k[1..] && Tight(k[1..])
  {
    var s := k[1..];
    assert forall j :: 0 <= j < |s| ==> s[j] == k[j + 1];
  }

  lemma {:induction false} TightElements(s: string)
    requires Tight(s)
    ensures PathElements(s) != [] && JoinKey(PathElements(s)) == "/" + s
    decreases |s|
  {
    if '/' !in s {
      NameElements(s);
      assert JoinKey([s]) == "/" + s + JoinKey([]);
    } else {
      var i := IndexOf(s, '/');
      TightSplit(s, i);
      var front, rest := s[..i], s[i + 1..];
      assert s == front + "/" + rest;
      TightElements(rest);
      var tail := PathElements(rest);
      var es := [front] + tail;
      assert PathElements(s) == es by {
        NameElements(front);
        PathElementsAround(front, rest);
      }
      assert es[0] == front && es[1..] == tail;
      calc {
        JoinKey(es);
        "/" + front + JoinKey(tail);
        "/" + front + ("/" + rest);
        { ConcatAssoc("/" + front, "/", rest); }
        "/" + front + "/" + rest;
        { ConcatAssoc("/", front, "/"); ConcatAssoc("/", front + "/", rest); }
        "/" + (front + "/" + rest);
      }
    }
  }

  /** A canonical key is left as it is. */
  lemma CleanCanonical(k: string)
    requires Canonical(k)
    ensures CleanKey(k) == k
  {
    if k == "/" {
      assert "/" == "" + "/" + "";
      PathElementsAround("", "");
      NameElements("");
    } else {
      var s := k[1..];
      CanonicalTight(k);
      TightElements(s);
      PathElementsAround("", s);
      NameElements("");
      assert PathElements(k) == PathElements(s);
      assert "/" + s == k;
    }
  }

  /** Cleaning a key with a further path after a slash: the cleaned key, then each
      further element after a slash. */
  lemma CleanAround(a: string, b: string)
    requires PathElements(a) != []
    ensures CleanKey(a + "/" + b) == CleanKey(a) + JoinKey(PathElements(b))
  {
    PathElementsAround(a, b);
    JoinKeyAppend(PathElements(a), PathElements(b));
  }

  /** A name with no slash becomes that name under the root. */
  lemma CleanName(name: string)
    requires name != "" && '/' !in name
    ensures CleanKey(name) == "/" + name
  {
    NameElements(name);
    assert JoinKey([name]) == "/" + name + JoinKey([]);
  }

  /** The parent directories a key implies: every prefix ending just before a "/". */
  function Ancestors(k: string): set<string>
  {
    set i | 0 < i < |k| && k[i] == '/' :: k[..i]
  }

  /** The tree invariant: every stored key is canonical, and every parent directory it
      implies is stored too, as a directory. */
  predicate TreeOk(t: Tree)
  {
    && (forall k :: k in t ==> WellFormedKey(k))
    && forall k, i :: k in t && 0 < i < |k| && k[i] == '/' ==> k[..i] in t && t[k[..i]].Dir?
  }

  predicate ExistsAt(t: Tree, path: string)
  {
    IsRoot(path) || path in t
  }

  predicate IsDirAt(t: Tree, path: string)
  {
    IsRoot(path) || (path in t && t[path].Dir?)
  }

  function Children(t: Tree, d: string): set<string>
  {
    set k | k in t && ChildOf(d, k)
  }

  function FileChildren(t: Tree, d: string): set<string>
  {
    set k | k in t && t[k].File? && ChildOf(d, k)
  }

  /** Every file anywhere under `d`. */
  function Leaves(t: Tree, d: string): set<string>
  {
    set k | k in t && t[k].File? && Below(d, k)
  }

  /** Every key anywhere under `d`. */
  function Subtree(t: Tree, d: string): set<string>
  {
    set k | k in t && Below(d, k)
  }

  // ----- reading -----

  /** The server's answer for a key that is not stored. It walks down the key's
      elements from the root: meeting a stored file on the way is "Not a
      directory", and otherwise the walk ends at a missing element, "Key not found". */
  function Missing(t: Tree, k: string): StoreError
  {
    if AncestorIsFile(t, k) then NotADirectory(k) else KeyNotFound(k)
  }

  /** The value of a key: a file's text, "" for a directory. */
  function GetTree(t: Tree, k: string): Result<string, StoreError>
  {
    if IsRoot(k) then Ok("")
    else if k !in t then Err(Missing(t, k))
    else if t[k].File? then Ok(t[k].value)
    else Ok("")
  }

  // ----- writing -----

  /** Some parent directory the key implies is stored as a file. */
  predicate AncestorIsFile(t: Tree, k: string)
  {
    exists a :: a in Ancestors(k) && a in t && t[a].File?
  }

  /** The tree with the missing parent directories of `k` added. */
  function WithAncestors(t: Tree, k: string): Tree
  {
    t + map a | a in Ancestors(k) && a !in t :: Dir
  }

  /** etcd's set of a cleaned key: writes a file, creating its parent directories. */
  function SetTree(t: Tree, k: string, value: string): Result<Tree, StoreError>
    requires Canonical(k)
  {
    if IsRoot(k) then Err(RootReadOnly(k))
    else if k in t && t[k].Dir? then Err(NotAFile(k))
    else if AncestorIsFile(t, k) then Err(NotADirectory(k))
    else Ok(WithAncestors(t, k)[k := File(value)])
  }

  /** etcd's create-directory of a cleaned key: the root is read-only, an existing
      key fails with "Key already exists", and otherwise the directory is created
      with its parents. */
  function CreateDirTree(t: Tree, k: string): Result<Tree, StoreError>
    requires Canonical(k)
  {
    if IsRoot(k) then Err(RootReadOnly(k))
    else if k in t then Err(KeyExists(k))
    else if AncestorIsFile(t, k) then Err(NotADirectory(k))
    else Ok(WithAncestors(t, k)[k := Dir])
  }

  /** etcd's delete: a directory needs the recursive flag; it goes with everything under it. */
  function DeleteTree(t: Tree, k: string, recursive: bool): Result<Tree, StoreError>
  {
    if IsRoot(k) then Err(RootReadOnly(k))
    else if k !in t then Err(Missing(t, k))
    else if t[k].Dir? && !recursive then Err(NotAFile(k))
    else Ok(map x | x in t && x != k && !Below(k, x) :: t[x])
  }

  // ----- the shape of keys -----

  /** `k` is `c` itself or lies under it; then `k` starts with `c` and, if longer, with `c` + "/". */
  lemma PrefixedBy(c: string, k: string)
    requires !IsRoot(c)
    requires k == c || Below(c, k)
    ensures |c| <= |k| && k[..|c|] == c
    ensures |k| > |c| ==> k[|c|] == '/'
  {
    if k != c {
      assert k[..|c| + 1] == c + "/";
      assert k[..|c| + 1][..|c|] == k[..|c|];
      assert k[|c|] == k[..|c| + 1][|c|];
    }
  }

  /** A child is never the root, so its own children start with the child's key. */
  lemma ChildIsNotRoot(d: string, c: string)
    requires ChildOf(d, c)
    ensures !IsRoot(c) && DirKey(c) == c
  {
  }

  /** Under a key that is under `d` is under `d`. */
  lemma {:induction false} BelowTransitive(d: string, c: string, k: string)
    requires Below(d, c) && !IsRoot(c) && Below(c, k)
    ensures Below(d, k)
  {
    var n := |DirKey(d)| + 1;
    PrefixedBy(c, k);
    assert k[..n] == k[..|c|][..n];
  }

  /** A prefix of a canonical key that ends before one of its slashes is canonical. */
  lemma WellFormedPrefix(k: string, i: nat)
    requires WellFormedKey(k) && 0 < i < |k| && k[i] == '/'
    ensures WellFormedKey(k[..i])
  {
    assert k[i - 1] != '/';
    assert i >= 2 by {
      if i == 1 { assert k[0] == '/'; }
    }
  }

  /** The prefix of `k` up to a slash after the part `d` fixes, with no slash in between,
      is a child directory of `d` that `k` lies under. */
  lemma ChildPrefix(t: Tree, d: string, k: string, j: nat)
    requires TreeOk(t) && k in t && Below(d, k)
    requires |DirKey(d)| + 1 < j < |k| && k[j] == '/' && '/' !in k[|DirKey(d)| + 1..j]
    ensures k[..j] in Children(t, d) && t[k[..j]].Dir? && Below(k[..j], k)
  {
    var n := |DirKey(d)| + 1;
    var c := k[..j];
    assert c in t && t[c].Dir?;
    assert c[..n] == k[..n];
    assert c[n..] == k[n..j];
    assert ChildOf(d, c);
    assert k[..j + 1] == c + "/";
  }

  /** A key below `d` that is not one of its children is below one of its child directories. */
  lemma {:induction false} BelowSomeChild(t: Tree, d: string, k: string) returns (c: string)
    requires TreeOk(t) && k in t && Below(d, k) && !ChildOf(d, k)
    ensures c in Children(t, d) && t[c].Dir? && Below(c, k)
  {
    var n := |DirKey(d)| + 1;
    assert k[..n] == DirKey(d) + "/";
    assert k[n - 1] == '/';
    assert WellFormedKey(k);
    assert |k| > n;
    var j := n + IndexOf(k[n..], '/');
    assert k[j] == '/';
    assert k[n] != '/';
    assert k[n..j] == k[n..][..j - n];
    ChildPrefix(t, d, k, j);
    c := k[..j];
  }

  /** A stored key with something stored under it is a directory. */
  lemma BelowDirectory(t: Tree, d: string, k: string)
    requires TreeOk(t) && d in t && k in t
    ensures Below(d, k) ==> t[d].Dir?
  {
    if Below(d, k) {
      assert WellFormedKey(d);
      PrefixedBy(d, k);
      assert k[..|d|] == d && k[|d|] == '/';
    }
  }

  /** A file has nothing under it. */
  lemma FileIsLeaf(t: Tree, f: string)
    requires TreeOk(t) && f in t && t[f].File?
    ensures Subtree(t, f) == {}
  {
    forall k | k in t
      ensures !Below(f, k)
    {
      BelowDirectory(t, f, k);
    }
  }

  /** A key under a stored file is never stored, and the server's walk meets the
      file: reading or deleting the key is answered "Not a directory". */
  lemma BelowFileNotADirectory(t: Tree, f: string, k: string, recursive: bool)
    requires TreeOk(t) && f in t && t[f].File? && Below(f, k)
    ensures GetTree(t, k) == Err(NotADirectory(k))
    ensures DeleteTree(t, k, recursive) == Err(NotADirectory(k))
  {
    FileIsLeaf(t, f);
    assert k !in Subtree(t, f);
    assert f[0] == '/';
    assert k[..|f|] == f && k[|f|] == '/' by {
      assert k[..|f| + 1] == f + "/";
      assert k[..|f|] == k[..|f| + 1][..|f|];
    }
    assert f in Ancestors(k);
  }

  /** What one child contributes to the leaves of its parent: itself if a file,
      the files under it if a directory. */
  function Contribution(t: Tree, c: string): set<string>
    requires c in t
  {
    if t[c].File? then {c} else Leaves(t, c)
  }

  /** The leaves under `d` are exactly what its children contribute. */
  lemma LeavesByChildren(t: Tree, d: string, k: string)
    requires TreeOk(t)
    ensures k in Leaves(t, d) <==> exists c :: c in Children(t, d) && k in Contribution(t, c)
  {
    if k in Leaves(t, d) {
      if ChildOf(d, k) {
        assert k in Children(t, d) && k in Contribution(t, k);
      } else {
        var c := BelowSomeChild(t, d, k);
        assert k in Contribution(t, c);
      }
    }
    if c :| c in Children(t, d) && k in Contribution(t, c) {
      if t[c].Dir? {
        ChildIsNotRoot(d, c);
        BelowTransitive(d, c, k);
      }
    }
  }

  /** Two different children of a directory contribute disjoint sets of keys. */
  lemma ContributionsDisjoint(t: Tree, d: string, c1: string, c2: string, k: string)
    requires c1 in Children(t, d) && c2 in Children(t, d) && c1 != c2
    ensures !(k in Contribution(t, c1) && k in Contribution(t, c2))
  {
    if k in Contribution(t, c1) && k in Contribution(t, c2) {
      ChildIsNotRoot(d, c1);
      ChildIsNotRoot(d, c2);
      PrefixedBy(c1, k);
      PrefixedBy(c2, k);
    }
  }

  /** A child directory has strictly fewer keys under it than its parent. */
  lemma SubtreeShrinks(t: Tree, d: string, c: string)
    requires c in Children(t, d)
    ensures Subtree(t, c) < Subtree(t, d)
    ensures |Subtree(t, c)| < |Subtree(t, d)|
  {
    ChildIsNotRoot(d, c);
    forall k | k in Subtree(t, c)
      ensures k in Subtree(t, d)
    {
      BelowTransitive(d, c, k);
    }
    assert c in Subtree(t, d);
    var rest := Subtree(t, d) - Subtree(t, c);
    assert c in rest;
    assert Subtree(t, d) == Subtree(t, c) + rest;
  }

  /** What the children in `cs` contribute together. */
  function Covered(t: Tree, cs: seq<string>): set<string>
    requires forall j :: 0 <= j < |cs| ==> cs[j] in t
  {
    if cs == [] then {} else Covered(t, cs[..|cs| - 1]) + Contribution(t, cs[|cs| - 1])
  }

  lemma {:induction false} CoveredMembers(t: Tree, cs: seq<string>, k: string)
    requires forall j :: 0 <= j < |cs| ==> cs[j] in t
    ensures k in Covered(t, cs) <==> exists j :: 0 <= j < |cs| && k in Contribution(t, cs[j])
  {
    if cs != [] {
      var front := cs[..|cs| - 1];
      CoveredMembers(t, front, k);
      if j :| 0 <= j < |front| && k in Contribution(t, front[j]) {
        assert cs[j] == front[j];
      }
      if j :| 0 <= j < |cs| - 1 && k in Contribution(t, cs[j]) {
        assert front[j] == cs[j];
      }
    }
  }

  /** Children not yet listed contribute nothing already covered. */
  lemma CoveredDisjoint(t: Tree, d: string, cs: seq<string>, c: string)
    requires forall j :: 0 <= j < |cs| ==> cs[j] in Children(t, d)
    requires c in Children(t, d) && c !in cs
    ensures Covered(t, cs) !! Contribution(t, c)
  {
    forall k | k in Covered(t, cs)
      ensures k !in Contribution(t, c)
    {
      CoveredMembers(t, cs, k);
      var j :| 0 <= j < |cs| && k in Contribution(t, cs[j]);
      ContributionsDisjoint(t, d, cs[j], c, k);
    }
  }

  /** Once every child has been visited, the leaves of the directory are covered. */
  lemma CoveredAll(t: Tree, d: string, cs: seq<string>)
    requires TreeOk(t) && Elements(cs) == Children(t, d)
    ensures forall j :: 0 <= j < |cs| ==> cs[j] in t
    ensures Covered(t, cs) == Leaves(t, d)
  {
    assert forall j :: 0 <= j < |cs| ==> cs[j] in Elements(cs);
    forall k
      ensures k in Covered(t, cs) <==> k in Leaves(t, d)
    {
      CoveredMembers(t, cs, k);
      LeavesByChildren(t, d, k);
      if c :| c in Children(t, d) && k in Contribution(t, c) {
        assert c in Elements(cs);
      }
    }
  }

  /** After visiting the first `i` children in `cs`, `found` holds each covered key once. */
  ghost predicate Gathered(t: Tree, cs: seq<string>, i: nat, found: seq<string>)
  {
    && i <= |cs|
    && (forall j :: 0 <= j < |cs| ==> cs[j] in t)
    && Elements(found) == Covered(t, cs[..i])
    && Distinct(found)
  }

  /** One more child visited: what it contributes joins what was covered, with no key twice. */
  lemma CoverStep(t: Tree, d: string, cs: seq<string>, i: nat, found: seq<string>, added: seq<string>)
    requires forall j :: 0 <= j < |cs| ==> cs[j] in Children(t, d)
    requires Distinct(cs) && i < |cs|
    requires Gathered(t, cs, i, found)
    requires Elements(added) == Contribution(t, cs[i]) && Distinct(added)
    ensures Gathered(t, cs, i + 1, found + added)
  {
    assert cs[..i + 1][..i] == cs[..i];
    DistinctNotBefore(cs, i);
    assert cs[i] !in cs[..i] by {
      assert forall m :: 0 <= m < i ==> cs[..i][m] in Elements(cs[..i]);
    }
    CoveredDisjoint(t, d, cs[..i], cs[i]);
    ElementsConcat(found, added);
    DistinctAppend(found, added);
  }

  /** Before the walk over the children `cs` of `d`: each is a stored child and
      nothing is covered yet. */
  lemma GatherStart(t: Tree, d: string, cs: seq<string>)
    requires TreeOk(t) && Elements(cs) == Children(t, d)
    ensures forall j :: 0 <= j < |cs| ==> cs[j] in Children(t, d)
    ensures Gathered(t, cs, 0, [])
  {
    assert forall j :: 0 <= j < |cs| ==> cs[j] in Elements(cs);
    CoveredAll(t, d, cs);
    assert cs[..0] == [];
  }

  /** One step of the walk: `next` extends `paths + found` by what child `i`
      contributes, and is `paths` followed by the longer gathered list. */
  lemma GatherNext(t: Tree, d: string, cs: seq<string>, i: nat, paths: seq<string>, found: seq<string>, next: seq<string>)
    requires forall j :: 0 <= j < |cs| ==> cs[j] in Children(t, d)
    requires Distinct(cs) && i < |cs|
    requires Gathered(t, cs, i, found)
    requires |paths + found| <= |next| && next[..|paths + found|] == paths + found
    requires Elements(next[|paths + found|..]) == Contribution(t, cs[i]) && Distinct(next[|paths + found|..])
    ensures next == paths + (found + next[|paths + found|..])
    ensures Gathered(t, cs, i + 1, found + next[|paths + found|..])
  {
    var added := next[|paths + found|..];
    SplitAfter(next, paths + found);
    CoverStep(t, d, cs, i, found, added);
    ConcatAssoc(paths, found, added);
  }

  /** Once every child has been visited, the keys gathered after `paths` are each leaf
      of the directory once. */
  lemma GatheredAll(t: Tree, d: string, cs: seq<string>, paths: seq<string>, found: seq<string>)
    requires TreeOk(t) && Elements(cs) == Children(t, d)
    requires Gathered(t, cs, |cs|, found)
    ensures |paths| <= |paths + found| && (paths + found)[..|paths|] == paths
    ensures Elements((paths + found)[|paths|..]) == Leaves(t, d) && Distinct((paths + found)[|paths|..])
  {
    assert cs[..|cs|] == cs;
    CoveredAll(t, d, cs);
    SlicesOfConcat(paths, found);
  }

  // ----- what the writes do to the tree -----

  /** The parents of a parent of `k` are parents of `k`. */
  lemma AncestorOfAncestor(k: string, a: string, i: nat)
    requires a in Ancestors(k) && 0 < i < |a| && a[i] == '/'
    ensures a[..i] in Ancestors(k)
  {
    var m :| 0 < m < |k| && k[m] == '/' && k[..m] == a;
    assert k[i] == a[i];
    assert k[..i] == a[..i];
  }

  /** Writing `node` at `k` together with its missing parents keeps the tree invariant,
      provided `k` is canonical, no parent is a file, and `k` is not a directory with
      children being replaced. */
  lemma {:induction false} WriteKeepsTreeOk(t: Tree, k: string, node: Node)
    requires TreeOk(t) && WellFormedKey(k) && !AncestorIsFile(t, k)
    requires k in t ==> t[k].Dir? == node.Dir? || Subtree(t, k) == {}
    requires k in t && t[k].Dir? ==> node.Dir?
    ensures TreeOk(WithAncestors(t, k)[k := node])
  {
    var t2 := WithAncestors(t, k)[k := node];
    forall x | x in t2
      ensures WellFormedKey(x)
    {
      if x != k && x !in t {
        var m :| 0 < m < |k| && k[m] == '/' && k[..m] == x;
        WellFormedPrefix(k, m);
      }
    }
    forall x, i | x in t2 && 0 < i < |x| && x[i] == '/'
      ensures x[..i] in t2 && t2[x[..i]].Dir?
    {
      var p := x[..i];
      if x == k {
        assert p in Ancestors(k);
        if p in t {
          assert t[p].Dir?;
        }
      } else if x in t {
        assert p in t && t[p].Dir?;
      } else {
        assert x in Ancestors(k);
        AncestorOfAncestor(k, x, i);
        if p in t {
          assert t[p].Dir?;
        }
      }
    }
  }

  /** A successful set keeps the tree invariant. */
  lemma SetKeepsTreeOk(t: Tree, k: string, value: string)
    requires TreeOk(t) && Canonical(k) && SetTree(t, k, value).Ok?
    ensures TreeOk(SetTree(t, k, value).value)
  {
    if k in t {
      FileIsLeaf(t, k);
    }
    WriteKeepsTreeOk(t, k, File(value));
  }

  /** A successful directory creation keeps the tree invariant. */
  lemma CreateDirKeepsTreeOk(t: Tree, k: string)
    requires TreeOk(t) && Canonical(k) && CreateDirTree(t, k).Ok?
    ensures TreeOk(CreateDirTree(t, k).value)
  {
    WriteKeepsTreeOk(t, k, Dir);
  }

  /** Reading a key back after setting it gives the value written; a missing key
      under the new file now meets a file on its path; every other key, apart from
      the new parent directories, reads as before. */
  lemma GetAfterSet(t: Tree, k: string, value: string, other: string)
    requires Canonical(k) && SetTree(t, k, value).Ok?
    ensures GetTree(SetTree(t, k, value).value, k) == Ok(value)
    ensures other !in t && k in Ancestors(other) ==>
      GetTree(SetTree(t, k, value).value, other) == Err(NotADirectory(other))
    ensures other != k && (other in t || (other !in Ancestors(k) && k !in Ancestors(other))) ==>
      GetTree(SetTree(t, k, value).value, other) == GetTree(t, other)
  {
    var t2 := SetTree(t, k, value).value;
    if other !in t && k in Ancestors(other) {
      assert |k| < |other|;
      assert other !in Ancestors(k);
      assert AncestorIsFile(t2, other);
    }
    if other != k && other !in t && other !in Ancestors(k) && k !in Ancestors(other) {
      assert other !in t2;
      assert AncestorIsFile(t2, other) <==> AncestorIsFile(t, other) by {
        if AncestorIsFile(t2, other) {
          var a :| a in Ancestors(other) && a in t2 && t2[a].File?;
          assert a != k && a in t;
        }
        if AncestorIsFile(t, other) {
          var a :| a in Ancestors(other) && a in t && t[a].File?;
          assert a != k;
          assert a in t2 && t2[a].File?;
        }
      }
    }
  }

  /** Setting a key adds it, and nothing else, to the files under every directory it lies under. */
  lemma LeavesAfterSet(t: Tree, k: string, value: string, d: string)
    requires Canonical(k) && SetTree(t, k, value).Ok?
    ensures Leaves(SetTree(t, k, value).value, d) == Leaves(t, d) + (if Below(d, k) then {k} else {})
  {
    var t2 := SetTree(t, k, value).value;
    forall x | x in Leaves(t2, d)
      ensures x in Leaves(t, d) || (x == k && Below(d, k))
    {
      if x != k {
        assert x in t;
      }
    }
  }

  /** Setting a new file under `d` adds exactly one to the number of files under `d`. */
  lemma LeafCountAfterSet(t: Tree, k: string, value: string, d: string)
    requires Canonical(k) && SetTree(t, k, value).Ok? && Below(d, k) && k !in Leaves(t, d)
    ensures |Leaves(SetTree(t, k, value).value, d)| == |Leaves(t, d)| + 1
  {
    LeavesAfterSet(t, k, value, d);
  }

  /** A key that extends `p` by a slash lies under `k` whenever `p` is `k` or lies under it. */
  lemma ExtensionBelow(k: string, p: string, x: string)
    requires !IsRoot(k) && |x| > |p| && x[..|p| + 1] == p + "/"
    ensures p == k || Below(k, p) ==> Below(k, x)
  {
    if Below(k, p) {
      PrefixedBy(k, p);
      assert x[..|k| + 1] == x[..|p| + 1][..|k| + 1];
    }
  }

  /** A successful delete keeps the tree invariant. */
  lemma {:induction false} DeleteKeepsTreeOk(t: Tree, k: string, recursive: bool)
    requires TreeOk(t) && DeleteTree(t, k, recursive).Ok?
    ensures TreeOk(DeleteTree(t, k, recursive).value)
  {
    var t2 := DeleteTree(t, k, recursive).value;
    forall x, i | x in t2 && 0 < i < |x| && x[i] == '/'
      ensures x[..i] in t2 && t2[x[..i]].Dir?
    {
      var p := x[..i];
      assert p in t && t[p].Dir?;
      assert x[..i + 1] == p + "/";
      ExtensionBelow(k, p, x);
    }
  }

  /** After a successful delete the key and everything under it are gone and every
      other key is kept with its node. */
  lemma DeleteRemovesSubtree(t: Tree, k: string, recursive: bool)
    requires DeleteTree(t, k, recursive).Ok?
    ensures k !in DeleteTree(t, k, recursive).value
    ensures Subtree(DeleteTree(t, k, recursive).value, k) == {}
    ensures forall x :: x in t && x != k && !Below(k, x) ==>
      x in DeleteTree(t, k, recursive).value && DeleteTree(t, k, recursive).value[x] == t[x]
  {
  }

  /** Deleting a file, recursively or not, removes just that file. */
  lemma DeleteFile(t: Tree, f: string, recursive: bool)
    requires TreeOk(t) && f in t && t[f].File?
    ensures DeleteTree(t, f, recursive) == Ok(t - {f})
  {
    FileIsLeaf(t, f);
    forall x | x in t && x != f
      ensures !Below(f, x)
    {
      assert x !in Subtree(t, f);
    }
    var t2 := map x | x in t && x != f && !Below(f, x) :: t[x];
    assert t2.Keys == (t - {f}).Keys;
    assert t2 == t - {f};
  }
}
