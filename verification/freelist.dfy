/** The free lists, as sequences of page indices. The intrusive list of the
    C code becomes a sequence: list_add is prepend, `head.next` is element 0
    and list_del is removal of the page from the sequence. */
module FreeList {

  /** An intrusive list holds each node at most once. */
  predicate NoDup(xs: seq<nat>) {
    forall i, j :: 0 <= i < j < |xs| ==> xs[i] != xs[j]
  }

  /** list_del: unlink the node of page v. */
  function Remove(xs: seq<nat>, v: nat): (r: seq<nat>)
    ensures v !in xs ==> r == xs
    ensures v in xs ==> |r| == |xs| - 1
    ensures multiset(r) == multiset(xs) - multiset{v}
    ensures forall y :: y in r ==> y in xs
  {
    if xs == [] then []
    else
      assert xs == [xs[0]] + xs[1..];
      if xs[0] == v then xs[1..]
      else [xs[0]] + Remove(xs[1..], v)
  }

  /** On a list without duplicates, removal takes out exactly v and keeps the rest distinct. */
  lemma {:induction false} RemoveDistinct(xs: seq<nat>, v: nat)
    requires NoDup(xs)
    ensures NoDup(Remove(xs, v))
    ensures forall y :: y in Remove(xs, v) <==> y in xs && y != v
  {
    if xs != [] {
      assert NoDup(xs[1..]);
      if xs[0] == v {
        assert v !in xs[1..];
      } else {
        RemoveDistinct(xs[1..], v);
        var r := Remove(xs[1..], v);
        assert xs[0] !in xs[1..];
        assert Remove(xs, v) == [xs[0]] + r;
      }
    }
  }

  lemma NoDupTail(xs: seq<nat>)
    requires NoDup(xs) && xs != []
    ensures NoDup(xs[1..]) && xs[0] !in xs[1..]
    ensures forall y :: y in xs[1..] <==> y in xs && y != xs[0]
  {
  }

  lemma NoDupPrepend(v: nat, xs: seq<nat>)
    requires NoDup(xs) && v !in xs
    ensures NoDup([v] + xs)
  {
  }

  /** The first two entries of a list without duplicates differ. */
  lemma NoDupFirstTwo(xs: seq<nat>)
    requires NoDup(xs)
    ensures |xs| > 1 ==> xs[0] != xs[1]
  {
  }
}
