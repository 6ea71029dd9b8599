/** Sequence-level specification shared by both linked-list containers: the
    abstract forward order of a list is a sequence, and every pointer
    operation on the lists is specified as one of the functions below. */
module ListSpec {

  /** Which guard rejected a call. Each constructor stands for one of the
      error messages the containers write to standard error before returning
      false. */
  datatype ListError =
    | NullAnchor       // "curNode is null for non-empty list"
    | NullNewNode      // "newNode is null"
    | SelfInsertion    // "newNode cannot be the same as curNode"
    | AlreadyLinked    // "newNode is already linked"
    | AnchorNotInList  // "curNode not in this list" (membership-check builds)
    | NullTarget       // "target is null"
    | EmptyList        // "list is empty"
    | TargetNotInList  // "target not in this list" (membership-check builds)

  /** The bool each mutating operation returns, refined by the guard that fired. */
  datatype Outcome = Ok | Err(error: ListError)

  /** No element occurs twice: a node is reachable at most once from the head. */
  ghost predicate Distinct<T>(s: seq<T>) {
    forall i, j :: 0 <= i < j < |s| ==> s[i] != s[j]
  }

  function Elems<T>(s: seq<T>): set<T> {
    set x | x in s
  }

  /** Position of the first occurrence of `x` in `s`. */
  function IndexOf<T(==)>(s: seq<T>, x: T): (k: nat)
    requires x in s
    ensures k < |s| && s[k] == x && x !in s[..k]
  {
    if s[0] == x then 0
    else
      assert x in s[1..] by { var j :| 0 <= j < |s| && s[j] == x; assert s[1..][j - 1] == x; }
      var k := 1 + IndexOf(s[1..], x);
      assert s[..k] == [s[0]] + s[1..][..k - 1];
      k
  }

  /** `x` placed at position `k`, everything at or after `k` moved one right. */
  function InsertAt<T>(s: seq<T>, k: nat, x: T): (r: seq<T>)
    requires k <= |s|
  {
    s[..k] + [x] + s[k..]
  }

  /** The element at position `k` dropped, the others kept in order. */
  function RemoveAt<T>(s: seq<T>, k: nat): (r: seq<T>)
    requires k < |s|
  {
    s[..k] + s[k + 1..]
  }

  /** The order seen when walking a list backwards from its tail. */
  function Reversed<T>(s: seq<T>): (r: seq<T>)
  {
    seq(|s|, i requires 0 <= i < |s| => s[|s| - 1 - i])
  }

  /** `f` applied to every element, order kept. */
  function Map<A, B>(f: A -> B, s: seq<A>): (r: seq<B>)
  {
    seq(|s|, i requires 0 <= i < |s| => f(s[i]))
  }

  lemma InsertAtProperties<T>(s: seq<T>, k: nat, x: T)
    requires k <= |s|
    ensures |InsertAt(s, k, x)| == |s| + 1
    ensures InsertAt(s, k, x)[k] == x
    ensures forall i :: 0 <= i < k ==> InsertAt(s, k, x)[i] == s[i]
    ensures forall i :: k < i <= |s| ==> InsertAt(s, k, x)[i] == s[i - 1]
    ensures multiset(InsertAt(s, k, x)) == multiset(s) + multiset{x}
  {
    assert s == s[..k] + s[k..];
  }

  lemma RemoveAtProperties<T>(s: seq<T>, k: nat)
    requires k < |s|
    ensures |RemoveAt(s, k)| == |s| - 1
    ensures forall i :: 0 <= i < k ==> RemoveAt(s, k)[i] == s[i]
    ensures forall i :: k <= i < |s| - 1 ==> RemoveAt(s, k)[i] == s[i + 1]
    ensures multiset(RemoveAt(s, k)) + multiset{s[k]} == multiset(s)
  {
    assert s == s[..k] + [s[k]] + s[k + 1..];
  }

  /** Detaching the node just inserted gives back the list it was inserted into. */
  lemma RemoveInsertedIsIdentity<T>(s: seq<T>, k: nat, x: T)
    requires k <= |s|
    ensures RemoveAt(InsertAt(s, k, x), k) == s
  {
    InsertAtProperties(s, k, x);
    RemoveAtProperties(InsertAt(s, k, x), k);
  }

  /** Reinserting a detached element where it was restores the list. */
  lemma InsertRemovedIsIdentity<T>(s: seq<T>, k: nat)
    requires k < |s|
    ensures InsertAt(RemoveAt(s, k), k, s[k]) == s
  {
    RemoveAtProperties(s, k);
    InsertAtProperties(RemoveAt(s, k), k, s[k]);
  }

  lemma InsertAtKeepsDistinct<T>(s: seq<T>, k: nat, x: T)
    requires k <= |s| && Distinct(s) && x !in s
    ensures Distinct(InsertAt(s, k, x))
  {
    InsertAtProperties(s, k, x);
  }

  lemma RemoveAtKeepsDistinct<T>(s: seq<T>, k: nat)
    requires k < |s| && Distinct(s)
    ensures Distinct(RemoveAt(s, k)) && s[k] !in RemoveAt(s, k)
  {
    RemoveAtProperties(s, k);
  }

  /** In a sequence without repetitions, the position of an element is its index. */
  lemma IndexOfDistinct<T>(s: seq<T>, k: nat)
    requires Distinct(s) && k < |s|
    ensures IndexOf(s, s[k]) == k
  {
  }

  lemma MapAt<A, B>(f: A -> B, s: seq<A>, i: nat)
    requires i < |s|
    ensures |Map(f, s)| == |s| && Map(f, s)[i] == f(s[i])
  {
  }

  lemma MapInsertAt<A, B>(f: A -> B, s: seq<A>, k: nat, x: A)
    requires k <= |s|
    ensures Map(f, InsertAt(s, k, x)) == InsertAt(Map(f, s), k, f(x))
  {
    InsertAtProperties(s, k, x);
    InsertAtProperties(Map(f, s), k, f(x));
  }

  lemma MapRemoveAt<A, B>(f: A -> B, s: seq<A>, k: nat)
    requires k < |s|
    ensures Map(f, RemoveAt(s, k)) == RemoveAt(Map(f, s), k)
  {
    RemoveAtProperties(s, k);
    RemoveAtProperties(Map(f, s), k);
  }

  /** Walking backwards twice is walking forwards. */
  lemma ReversedInvolution<T>(s: seq<T>)
    ensures Reversed(Reversed(s)) == s
  {
  }
}
