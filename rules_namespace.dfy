/** The key builder of the rules store: a path made of the store namespace
    followed by the non-empty key sections. */
module RulesNamespace {

  /** The path suffix the key sections contribute: "/" + key for every non-empty key, in order. */
  function Sections(keys: seq<string>): string
  {
    if keys == [] then ""
    else Sections(keys[..|keys| - 1]) + (if keys[|keys| - 1] != "" then "/" + keys[|keys| - 1] else "")
  }

  /** The key getNamespace builds for `keys` under the store namespace `storeNamespace`. */
  function Namespace(storeNamespace: string, keys: seq<string>): string
  {
    "/" + storeNamespace + Sections(keys)
  }

  /** getNamespace: writes "/" + the store namespace, then "/" + key for each non-empty key. */
  method GetNamespace(storeNamespace: string, keys: seq<string>) returns (namespace: string)
    ensures namespace == Namespace(storeNamespace, keys)
  {
    namespace := "/" + storeNamespace;
    var i := 0;
    while i < |keys|
      invariant 0 <= i <= |keys|
      invariant namespace == "/" + storeNamespace + Sections(keys[..i])
    {
      assert keys[..i + 1][..i] == keys[..i];
      if keys[i] != "" {
        namespace := namespace + "/" + keys[i];
      }
      i := i + 1;
    }
    assert keys[..|keys|] == keys;
  }

  lemma {:induction false} SectionsAppend(a: seq<string>, b: seq<string>)
    ensures Sections(a + b) == Sections(a) + Sections(b)
    decreases |b|
  {
    if b == [] {
      assert a + b == a;
    } else {
      var c := b[..|b| - 1];
      assert (a + b)[..|a + b| - 1] == a + c;
      SectionsAppend(a, c);
    }
  }

  /** Every key starts with "/" followed by the store namespace. */
  lemma NamespacePrefix(storeNamespace: string, keys: seq<string>)
    ensures |Namespace(storeNamespace, keys)| >= 1 + |storeNamespace|
    ensures Namespace(storeNamespace, keys)[..1 + |storeNamespace|] == "/" + storeNamespace
  {
  }

  /** Empty sections are skipped: they change nothing in the key. */
  lemma SkipsEmptyKey(storeNamespace: string, front: seq<string>, back: seq<string>)
    ensures Namespace(storeNamespace, front + [""] + back) == Namespace(storeNamespace, front + back)
  {
    SectionsAppend(front + [""], back);
    SectionsAppend(front, [""]);
    assert [""][..0] == [];
    SectionsAppend(front, back);
  }

  /** Non-empty sections follow each other in argument order. */
  lemma SectionsInOrder(storeNamespace: string, front: seq<string>, key: string)
    requires key != ""
    ensures Namespace(storeNamespace, front + [key]) == Namespace(storeNamespace, front) + "/" + key
  {
    assert (front + [key])[..|front|] == front;
  }

  /** With no sections the key is the namespace itself; a group's key is
      "/<namespace>/groups/<id>". */
  lemma GroupKey(storeNamespace: string, id: string)
    requires id != ""
    ensures Namespace(storeNamespace, []) == "/" + storeNamespace
    ensures Namespace(storeNamespace, ["groups", id]) == "/" + storeNamespace + "/groups/" + id
  {
    assert ["groups", id][..1] == ["groups"];
    assert ["groups"][..0] == [];
    assert Sections(["groups"]) == "/groups";
    assert Sections(["groups", id]) == "/groups" + "/" + id;
    assert "/groups" + "/" == "/groups/";
  }
}
