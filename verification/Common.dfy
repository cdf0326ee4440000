/** Vocabulary that several models share. */
module Common {

  /** A value that may be absent. */
  datatype Option<+T> = None | Some(value: T)

  newtype Byte = x: int | 0 <= x < 256

  function Flatten<T>(parts: seq<seq<T>>): seq<T> {
    if parts == [] then [] else parts[0] + Flatten(parts[1..])
  }

  lemma {:induction false} FlattenAppend<T>(parts: seq<seq<T>>, part: seq<T>)
    ensures Flatten(parts + [part]) == Flatten(parts) + part
    decreases |parts|
  {
    if parts == [] {
      assert parts + [part] == [part] && Flatten([part][1..]) == [];
    } else {
      assert (parts + [part])[1..] == parts[1..] + [part];
      FlattenAppend(parts[1..], part);
    }
  }

  lemma {:induction false} FlattenHas<T>(parts: seq<seq<T>>, x: T)
    ensures x in Flatten(parts) <==> exists k :: 0 <= k < |parts| && x in parts[k]
    decreases |parts|
  {
    if parts != [] {
      var rest := parts[1..];
      FlattenHas(rest, x);
      assert forall k :: 0 <= k < |rest| ==> rest[k] == parts[k + 1];
      assert forall k :: 0 < k < |parts| ==> parts[k] == rest[k - 1];
    }
  }

  /** Counting from the end counts the indices: one more when the last one counts. */
  lemma CountLast(before: set<nat>, all: set<nat>, n: nat, counts: bool)
    requires n !in before && all == if counts then before + {n} else before
    ensures |all| == |before| + if counts then 1 else 0
  {
  }

  function CountIf<T>(s: seq<T>, f: T -> bool): nat {
    if s == [] then 0 else CountIf(s[..|s| - 1], f) + if f(s[|s| - 1]) then 1 else 0
  }

  function IndicesIf<T>(s: seq<T>, f: T -> bool): set<nat> {
    set i: nat | i < |s| && f(s[i])
  }

  lemma {:induction false} CountIfIsSize<T>(s: seq<T>, f: T -> bool)
    ensures CountIf(s, f) == |IndicesIf(s, f)|
  {
    if s != [] {
      var n := |s| - 1;
      CountIfIsSize(s[..n], f);
      assert forall i: nat :: i < n ==> s[..n][i] == s[i];
      CountLast(IndicesIf(s[..n], f), IndicesIf(s, f), n, f(s[n]));
    }
  }

  ghost predicate AnyIf<T>(s: seq<T>, f: T -> bool) {
    exists i :: 0 <= i < |s| && f(s[i])
  }

  lemma AnyIfLast<T>(s: seq<T>, f: T -> bool)
    requires s != []
    ensures AnyIf(s, f) <==> AnyIf(s[..|s| - 1], f) || f(s[|s| - 1])
  {
    var before := s[..|s| - 1];
    assert forall i :: 0 <= i < |before| ==> before[i] == s[i];
  }

  lemma PrefixNext<T>(s: seq<T>, n: nat)
    requires n < |s|
    ensures s[..n + 1] == s[..n] + [s[n]]
  {
  }

  lemma SomeMember<T>(s: set<T>) returns (x: T)
    requires s != {}
    ensures x in s
  {
    x :| x in s;
  }
}
