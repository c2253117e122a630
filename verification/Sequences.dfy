/** Facts about sequences that the proofs of the other modules share. */
module Sequences {

  lemma TailOfAppend<T>(a: seq<T>, b: seq<T>)
    ensures a == [] ==> a + b == b
    ensures a != [] ==> (a + b)[0] == a[0] && (a + b)[1..] == a[1..] + b
  {
  }

  lemma UpdateTwice<T>(s: seq<T>, i: nat, x: T, y: T)
    requires i < |s|
    ensures s[i := x][i := y] == s[i := y]
  {
  }

  lemma SplitLast<T>(s: seq<T>)
    requires s != []
    ensures s == s[..|s| - 1] + [s[|s| - 1]]
  {
  }

  lemma AppendAssociative<T>(a: seq<T>, b: seq<T>, c: seq<T>)
    ensures a + (b + c) == a + b + c
  {
  }

  /** Dropping `k` and then the last element, in either order. */
  lemma SplitLastFrom<T>(s: seq<T>, k: nat)
    requires k < |s|
    ensures s[k..] == s[k..|s| - 1] + [s[|s| - 1]]
    ensures s[..|s| - 1][k..] == s[k..|s| - 1]
    ensures s[..|s| - 1][..k] == s[..k]
  {
  }

  lemma TakeOneMore<T>(s: seq<T>, i: nat)
    requires i < |s|
    ensures s[..i + 1] == s[..i] + [s[i]]
    ensures i + 1 == |s| ==> s[..i + 1] == s
  {
  }

  lemma SplitAt<T>(s: seq<T>, i: nat)
    requires i < |s|
    ensures s == s[..i] + s[i..] && s[i..] == [s[i]] + s[i + 1..] && s[i..][1..] == s[i + 1..]
  {
  }

  /** The last `n` elements, or all if there are fewer. */
  function Last<T>(s: seq<T>, n: nat): (r: seq<T>)
    ensures |r| == if |s| <= n then |s| else n
  {
    if |s| <= n then s else s[|s| - n..]
  }

  lemma LastMeaning<T>(s: seq<T>, n: nat)
    ensures forall i :: 0 <= i < |Last(s, n)| ==> Last(s, n)[i] == s[|s| - |Last(s, n)| + i]
  {
  }

  function Reverse<T>(s: seq<T>): seq<T>
  {
    if s == [] then [] else Reverse(s[1..]) + [s[0]]
  }

  lemma {:induction false} ReverseSnoc<T>(s: seq<T>, x: T)
    ensures Reverse(s + [x]) == [x] + Reverse(s)
  {
    TailOfAppend(s, [x]);
    if s != [] {
      ReverseSnoc(s[1..], x);
    }
  }

  lemma LastAlone<T>(s: seq<T>)
    requires s != []
    ensures s[|s| - 1..] == [s[|s| - 1]] && Reverse([s[|s| - 1]]) == [s[|s| - 1]]
  {
    assert Reverse([s[|s| - 1]]) == Reverse([]) + [s[|s| - 1]];
  }

  lemma {:induction false} ReverseTwice<T>(s: seq<T>)
    ensures Reverse(Reverse(s)) == s
  {
    if s != [] {
      ReverseTwice(s[1..]);
      ReverseSnoc(Reverse(s[1..]), s[0]);
    }
  }

  /** All pieces of a list, one after another. */
  function Flatten<T>(pieces: seq<seq<T>>): (s: seq<T>)
  {
    if pieces == [] then [] else pieces[0] + Flatten(pieces[1..])
  }

  lemma {:induction false} FlattenAppend<T>(a: seq<seq<T>>, b: seq<seq<T>>)
    ensures Flatten(a + b) == Flatten(a) + Flatten(b)
  {
    TailOfAppend(a, b);
    if a != [] {
      FlattenAppend(a[1..], b);
      AppendAssociative(a[0], Flatten(a[1..]), Flatten(b));
    }
  }

  lemma FlattenSnoc<T>(a: seq<seq<T>>, x: seq<T>)
    ensures Flatten(a + [x]) == Flatten(a) + x
  {
    FlattenAppend(a, [x]);
    assert Flatten([x]) == x + Flatten<T>([]);
  }
}
