/** Definitions shared by both versions of the game backend: the HTTP status a
    handler answers with, and the operations every handler performs on its Go
    slices — a `range` search for a matching element, the deletion of one
    element by re-slicing, and the uniqueness of ids. */
module Common {

  /** The status codes the handlers write. */
  datatype Status = OK | BadRequest | NotFound

  datatype Option<T> = None | Some(value: T)

  /** Go's `append(s[:i], s[i+1:]...)`: element i is dropped and the others
      keep their relative order. */
  function Removed<T>(s: seq<T>, i: nat): (r: seq<T>)
    requires i < |s|
    ensures |r| == |s| - 1
    ensures forall j :: 0 <= j < i ==> r[j] == s[j]
    ensures forall j :: i <= j < |r| ==> r[j] == s[j + 1]
    ensures multiset(r) + multiset{s[i]} == multiset(s)
  {
    assert s == s[..i] + [s[i]] + s[i + 1..];
    s[..i] + s[i + 1..]
  }

  /** The index at which a `range` loop that returns on the first element
      satisfying p stops, or None when the loop runs to its end. */
  function FirstWhere<T>(s: seq<T>, p: T -> bool): (r: Option<nat>)
    ensures r.None? <==> forall j :: 0 <= j < |s| ==> !p(s[j])
    ensures r.Some? ==> r.value < |s| && p(s[r.value])
    ensures r.Some? ==> forall j :: 0 <= j < r.value ==> !p(s[j])
    decreases |s|
  {
    if |s| == 0 then None
    else if p(s[0]) then Some(0)
    else
      match FirstWhere(s[1..], p)
      case None => None
      case Some(k) => Some(k + 1)
  }

  /** The index of the element a `range` loop without a `break` assigns last
      when it keeps every element satisfying p, or None when none does. */
  function LastWhere<T>(s: seq<T>, p: T -> bool): (r: Option<nat>)
    ensures r.None? <==> forall j :: 0 <= j < |s| ==> !p(s[j])
    ensures r.Some? ==> r.value < |s| && p(s[r.value])
    ensures r.Some? ==> forall j :: r.value < j < |s| ==> !p(s[j])
    decreases |s|
  {
    if |s| == 0 then None
    else if p(s[|s| - 1]) then Some(|s| - 1)
    else LastWhere(s[..|s| - 1], p)
  }

  /** No two elements of s share a key. */
  predicate Distinct<T>(s: seq<T>, key: T -> string)
  {
    forall i, j :: 0 <= i < j < |s| ==> key(s[i]) != key(s[j])
  }

  /** When at most one element satisfies p, searching from the front and
      keeping the last match find the same element. */
  lemma FirstIsLastWhenUnique<T>(s: seq<T>, p: T -> bool)
    requires forall i, j :: 0 <= i < j < |s| && p(s[i]) ==> !p(s[j])
    ensures FirstWhere(s, p) == LastWhere(s, p)
  {
  }

  /** Appending an element whose key is new keeps the keys distinct. */
  lemma AppendedKeepsDistinct<T>(s: seq<T>, key: T -> string, x: T)
    requires Distinct(s, key)
    requires forall j :: 0 <= j < |s| ==> key(s[j]) != key(x)
    ensures Distinct(s + [x], key)
  {
  }

  /** Deleting element i keeps the keys distinct, and no remaining element
      carries the deleted element's key. */
  lemma RemovedKeepsDistinct<T>(s: seq<T>, key: T -> string, i: nat)
    requires i < |s|
    requires Distinct(s, key)
    ensures Distinct(Removed(s, i), key)
    ensures forall j :: 0 <= j < |s| - 1 ==> key(Removed(s, i)[j]) != key(s[i])
  {
  }

  /** Writing back, into slot i, an element with the same key keeps the keys
      distinct. */
  lemma ReplacedKeepsDistinct<T>(s: seq<T>, key: T -> string, i: nat, x: T)
    requires i < |s|
    requires Distinct(s, key)
    requires key(x) == key(s[i])
    ensures Distinct(s[i := x], key)
  {
  }
}
