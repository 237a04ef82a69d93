/** The few Go standard-library string functions that the core's logic
    depends on: strings.Split with a one-character separator,
    strings.SplitN(s, sep, 2), strings.HasPrefix, filepath.Base, and
    strings.ToLower / strings.ToUpper restricted to ASCII letters. */
module GoStrings {

  /** Number of occurrences of `c` in `s`. */
  function Count(s: string, c: char): nat
  {
    if s == [] then 0 else (if s[0] == c then 1 else 0) + Count(s[1..], c)
  }

  lemma {:induction false} CountZero(s: string, c: char)
    ensures Count(s, c) == 0 <==> c !in s
  {
    if s != [] {
      CountZero(s[1..], c);
      assert s == [s[0]] + s[1..];
    }
  }

  /** Index of the first occurrence of `c` in `s`. */
  function IndexOf(s: string, c: char): (i: nat)
    requires c in s
    ensures i < |s| && s[i] == c && c !in s[..i]
  {
    if s[0] == c then 0 else 1 + IndexOf(s[1..], c)
  }

  /** The first occurrence of `c` is the one with no `c` before it. */
  lemma IndexOfAt(s: string, c: char, i: nat)
    requires i < |s| && s[i] == c && c !in s[..i]
    ensures IndexOf(s, c) == i
  {
  }

  /** strings.Split(s, string(sep)): the pieces of `s` between occurrences of `sep`. */
  function Split(s: string, sep: char): (parts: seq<string>)
    ensures |parts| >= 1
    decreases |s|
  {
    if sep !in s then [s]
    else
      var i := IndexOf(s, sep);
      [s[..i]] + Split(s[i + 1..], sep)
  }

  /** Joins `parts` with `sep` between consecutive parts (strings.Join). */
  function Join(parts: seq<string>, sep: char): string
    requires |parts| >= 1
  {
    if |parts| == 1 then parts[0] else parts[0] + [sep] + Join(parts[1..], sep)
  }

  lemma {:induction false} CountSplitAt(s: string, c: char, i: nat)
    requires i < |s| && s[i] == c && c !in s[..i]
    ensures Count(s, c) == 1 + Count(s[i + 1..], c)
  {
    if i == 0 {
      assert s[1..] == s[i + 1..];
    } else {
      assert s[1..][..i - 1] == s[1..i];
      assert c !in s[1..][..i - 1];
      CountSplitAt(s[1..], c, i - 1);
      assert s[1..][i..] == s[i + 1..];
    }
  }

  /** Split yields one more piece than there are separators. */
  lemma {:induction false} SplitLength(s: string, sep: char)
    ensures |Split(s, sep)| == Count(s, sep) + 1
    decreases |s|
  {
    if sep !in s {
      CountZero(s, sep);
    } else {
      var i := IndexOf(s, sep);
      CountSplitAt(s, sep, i);
      SplitLength(s[i + 1..], sep);
    }
  }

  /** No piece of a Split contains the separator. */
  lemma {:induction false} SplitPiecesFree(s: string, sep: char)
    ensures forall k :: 0 <= k < |Split(s, sep)| ==> sep !in Split(s, sep)[k]
    decreases |s|
  {
    if sep in s {
      var i := IndexOf(s, sep);
      var rest := s[i + 1..];
      SplitPiecesFree(rest, sep);
      var parts := Split(s, sep);
      assert parts == [s[..i]] + Split(rest, sep);
      forall k | 0 <= k < |parts|
        ensures sep !in parts[k]
      {
        if k > 0 {
          assert parts[k] == Split(rest, sep)[k - 1];
        }
      }
    }
  }

  /** The first piece of a Split ends at the first separator. */
  lemma SplitAt(s: string, sep: char, i: nat)
    requires i < |s| && s[i] == sep && sep !in s[..i]
    ensures Split(s, sep) == [s[..i]] + Split(s[i + 1..], sep)
  {
    IndexOfAt(s, sep, i);
  }

  /** SplitAround when `a` holds no separator: `a` is the first piece. */
  lemma SplitAroundFree(a: string, b: string, sep: char)
    requires sep !in a
    ensures Split(a + [sep] + b, sep) == Split(a, sep) + Split(b, sep)
  {
    var s := a + [sep] + b;
    assert s[..|a|] == a && s[|a| + 1..] == b;
    SplitAt(s, sep, |a|);
  }

  /** SplitAround when the separator first occurs at `i` in `a`, given SplitAround
      for the rest of `a`. */
  lemma SplitAroundStep(a: string, b: string, sep: char, i: nat)
    requires i < |a| && a[i] == sep && sep !in a[..i]
    requires Split(a[i + 1..] + [sep] + b, sep) == Split(a[i + 1..], sep) + Split(b, sep)
    ensures Split(a + [sep] + b, sep) == Split(a, sep) + Split(b, sep)
  {
    var head, rest := a[..i], a[i + 1..];
    SplitJoinedAt(a, b, sep, i);
    SplitAt(a, sep, i);
    ConsAppend(Split(a + [sep] + b, sep), Split(a, sep), Split(b, sep), head, Split(rest + [sep] + b, sep), Split(rest, sep));
  }

  /** The first separator of `a` is also the first of `a` joined to `b`. */
  lemma SplitJoinedAt(a: string, b: string, sep: char, i: nat)
    requires i < |a| && a[i] == sep && sep !in a[..i]
    ensures Split(a + [sep] + b, sep) == [a[..i]] + Split(a[i + 1..] + [sep] + b, sep)
  {
    var s := a + [sep] + b;
    assert s[..i] == a[..i] && s[i + 1..] == a[i + 1..] + [sep] + b;
    SplitAt(s, sep, i);
  }

  /** Regrouping a list that starts with `h`: the step SplitAroundStep needs, stated
      apart from Split. */
  lemma ConsAppend<T>(x: seq<T>, y: seq<T>, z: seq<T>, h: T, r: seq<T>, w: seq<T>)
    requires x == [h] + r && y == [h] + w && r == w + z
    ensures x == y + z
  {
    assert [h] + (w + z) == ([h] + w) + z;
  }

  /** Splitting two texts joined by the separator gives the pieces of the first
      followed by the pieces of the second. */
  lemma {:induction false} SplitAround(a: string, b: string, sep: char)
    ensures Split(a + [sep] + b, sep) == Split(a, sep) + Split(b, sep)
    decreases |a|
  {
    if sep !in a {
      SplitAroundFree(a, b, sep);
    } else {
      var i := IndexOf(a, sep);
      SplitAround(a[i + 1..], b, sep);
      SplitAroundStep(a, b, sep, i);
    }
  }

  /** A string is the text before index `i`, the character there, and the text after. */
  lemma AroundIndex(s: string, i: nat)
    requires i < |s|
    ensures s == s[..i] + [s[i]] + s[i + 1..]
  {
    assert s[i..] == [s[i]] + s[i + 1..];
    assert s == s[..i] + s[i..];
  }

  lemma JoinCons(head: string, tail: seq<string>, sep: char)
    requires |tail| >= 1
    ensures Join([head] + tail, sep) == head + [sep] + Join(tail, sep)
  {
    var parts := [head] + tail;
    assert parts[0] == head && parts[1..] == tail;
  }

  /** Joining the pieces of a Split back with the separator gives `s`. */
  lemma {:induction false} SplitJoin(s: string, sep: char)
    ensures Join(Split(s, sep), sep) == s
    decreases |s|
  {
    if sep in s {
      var i := IndexOf(s, sep);
      var head, rest := s[..i], s[i + 1..];
      assert Split(s, sep) == [head] + Split(rest, sep);
      calc {
        Join(Split(s, sep), sep);
        == { JoinCons(head, Split(rest, sep), sep); }
        head + [sep] + Join(Split(rest, sep), sep);
        == { SplitJoin(rest, sep); }
        head + [sep] + rest;
        == { AroundIndex(s, i); }
        s;
      }
    }
  }

  /** strings.Split(s, "=") has exactly two pieces exactly when `s` holds one "=",
      and then they are the text before and after it. */
  lemma SplitInTwo(s: string, sep: char)
    ensures |Split(s, sep)| == 2 <==> Count(s, sep) == 1
    ensures |Split(s, sep)| == 2 ==>
      sep in s &&
      Split(s, sep)[0] == s[..IndexOf(s, sep)] &&
      Split(s, sep)[1] == s[IndexOf(s, sep) + 1..]
  {
    SplitLength(s, sep);
    if sep in s {
      var i := IndexOf(s, sep);
      SplitLength(s[i + 1..], sep);
      CountZero(s[i + 1..], sep);
    } else {
      CountZero(s, sep);
    }
  }

  /** strings.SplitN(s, string(sep), 2) for an `s` that contains `sep`:
      the text before the first `sep` and everything after it. */
  function SplitFirst(s: string, sep: char): (kv: (string, string))
    requires sep in s
    ensures sep !in kv.0
    ensures s == kv.0 + [sep] + kv.1
  {
    var i := IndexOf(s, sep);
    AroundIndex(s, i);
    (s[..i], s[i + 1..])
  }

  /** A key and a value joined by a separator the key does not contain: SplitN cuts
      the two back apart, and the separator is counted once when the value lacks it. */
  lemma SeparatorBetween(key: string, value: string, sep: char)
    requires sep !in key
    ensures SplitFirst(key + [sep] + value, sep) == (key, value)
    ensures sep !in value ==> Count(key + [sep] + value, sep) == 1
  {
    var s := key + [sep] + value;
    var i := |key|;
    assert s[..i] == key && s[i + 1..] == value;
    CountSplitAt(s, sep, i);
    CountZero(value, sep);
  }

  /** strings.HasPrefix */
  predicate HasPrefix(s: string, prefix: string)
  {
    |prefix| <= |s| && s[..|prefix|] == prefix
  }

  /** Index of the last occurrence of `c` in `s`, or -1. */
  function LastIndex(s: string, c: char): (i: int)
    ensures -1 <= i < |s|
    ensures i >= 0 ==> s[i] == c
    ensures forall j :: i < j < |s| ==> s[j] != c
  {
    if s == [] then -1
    else if s[|s| - 1] == c then |s| - 1
    else LastIndex(s[..|s| - 1], c)
  }

  /** `s` without its trailing slashes. */
  function TrimTrailingSlashes(s: string): (t: string)
    ensures |t| <= |s| && t == s[..|t|]
    ensures t == [] || t[|t| - 1] != '/'
    ensures forall j :: |t| <= j < |s| ==> s[j] == '/'
  {
    if s != [] && s[|s| - 1] == '/' then TrimTrailingSlashes(s[..|s| - 1]) else s
  }

  /** filepath.Base: the last element of a slash-separated path; "." for the
      empty path and "/" for a path made only of slashes. */
  function Base(path: string): (b: string)
    ensures path != [] && '/' !in path ==> b == path
  {
    if path == [] then "."
    else
      var t := TrimTrailingSlashes(path);
      if t == [] then "/"
      else t[LastIndex(t, '/') + 1..]
  }

  /** The last element of a path with no trailing slash is the text after its last slash. */
  lemma BaseOfKey(prefix: string, name: string)
    requires name != [] && '/' !in name
    ensures Base(prefix + "/" + name) == name
  {
    var p := prefix + "/" + name;
    assert p[|p| - 1] == name[|name| - 1];
    assert TrimTrailingSlashes(p) == p;
    var i := LastIndex(p, '/');
    assert p[|prefix|] == '/';
    assert forall j :: |prefix| < j < |p| ==> p[j] == name[j - |prefix| - 1];
    assert p[|prefix| + 1..] == name;
  }

  function LowerChar(c: char): char
  {
    if 'A' <= c <= 'Z' then (c as int + 32) as char else c
  }

  function UpperChar(c: char): char
  {
    if 'a' <= c <= 'z' then (c as int - 32) as char else c
  }

  /** strings.ToLower on ASCII letters. */
  function ToLower(s: string): (r: string)
    ensures |r| == |s| && forall i :: 0 <= i < |s| ==> r[i] == LowerChar(s[i])
  {
    if s == [] then [] else [LowerChar(s[0])] + ToLower(s[1..])
  }

  /** strings.ToUpper on ASCII letters. */
  function ToUpper(s: string): (r: string)
    ensures |r| == |s| && forall i :: 0 <= i < |s| ==> r[i] == UpperChar(s[i])
  {
    if s == [] then [] else [UpperChar(s[0])] + ToUpper(s[1..])
  }

  /** A string with no upper-case ASCII letter is its own lower-case form. */
  lemma LowerStable(s: string)
    requires forall i :: 0 <= i < |s| ==> !('A' <= s[i] <= 'Z')
    ensures ToLower(s) == s
  {
  }

  /** A string with no lower-case ASCII letter is its own upper-case form. */
  lemma UpperStable(s: string)
    requires forall i :: 0 <= i < |s| ==> !('a' <= s[i] <= 'z')
    ensures ToUpper(s) == s
  {
  }
}
