/**
 * The document is stored as an ordered list of chunks; its logical view is the
 * concatenation of the chunks' line lists. `Flatten` is that concatenation.
 */
module Flat {

  function Flatten<T>(ss: seq<seq<T>>): seq<T> {
    if ss == [] then [] else ss[0] + Flatten(ss[1..])
  }

  /** Number of elements in the first `k` inner sequences. */
  function Before<T>(ss: seq<seq<T>>, k: nat): nat
    requires k <= |ss|
  {
    |Flatten(ss[..k])|
  }

  lemma {:induction false} FlattenConcat<T>(a: seq<seq<T>>, b: seq<seq<T>>)
    ensures Flatten(a + b) == Flatten(a) + Flatten(b)
  {
    if a == [] {
      assert a + b == b;
    } else {
      assert (a + b)[1..] == a[1..] + b;
      FlattenConcat(a[1..], b);
    }
  }

  /** The flattened view around inner sequence `k`. */
  lemma FlattenSplit<T>(ss: seq<seq<T>>, k: nat)
    requires k < |ss|
    ensures Flatten(ss) == Flatten(ss[..k]) + ss[k] + Flatten(ss[k+1..])
  {
    assert ss == ss[..k + 1] + ss[k+1..];
    FlattenConcat(ss[..k + 1], ss[k+1..]);
    BeforeStep(ss, k);
  }

  /** Adding one more inner sequence to a prefix. */
  lemma BeforeStep<T>(ss: seq<seq<T>>, k: nat)
    requires k < |ss|
    ensures Before(ss, k + 1) == Before(ss, k) + |ss[k]|
    ensures Flatten(ss[..k + 1]) == Flatten(ss[..k]) + ss[k]
  {
    assert ss[..k + 1] == ss[..k] + [ss[k]];
    FlattenConcat(ss[..k], [ss[k]]);
    assert [ss[k]][1..] == [];
  }

  /** Element `i` of inner sequence `k` sits at `Before(ss, k) + i` of the flattened view. */
  lemma FlattenIndex<T>(ss: seq<seq<T>>, k: nat, i: nat)
    requires k < |ss| && i < |ss[k]|
    ensures Before(ss, k) + i < |Flatten(ss)|
    ensures Flatten(ss)[Before(ss, k) + i] == ss[k][i]
  {
    FlattenSplit(ss, k);
  }

  /** Replacing inner sequence `k` replaces its stretch of the flattened view. */
  lemma FlattenUpdate<T>(ss: seq<seq<T>>, k: nat, x: seq<T>)
    requires k < |ss|
    ensures Flatten(ss[k := x]) == Flatten(ss[..k]) + x + Flatten(ss[k+1..])
  {
    FlattenSplit(ss[k := x], k);
    assert ss[k := x][..k] == ss[..k];
    assert ss[k := x][k+1..] == ss[k+1..];
  }

  /** Appending an inner sequence appends to the flattened view. */
  lemma FlattenSnoc<T>(ss: seq<seq<T>>, x: seq<T>)
    ensures Flatten(ss + [x]) == Flatten(ss) + x
  {
    FlattenConcat(ss, [x]);
    assert [x][1..] == [];
  }

  /** Two lists whose inner sequences agree in length have flattened prefixes of equal length. */
  lemma {:induction false} BeforeSameShape<T, U>(a: seq<seq<T>>, b: seq<seq<U>>, k: nat)
    requires |a| == |b| && k <= |a|
    requires forall j :: 0 <= j < |a| ==> |a[j]| == |b[j]|
    ensures Before(a, k) == Before(b, k)
  {
    if k > 0 {
      BeforeSameShape(a, b, k - 1);
      BeforeStep(a, k - 1);
      BeforeStep(b, k - 1);
    }
  }

  /** The flattened view is as long as all inner sequences together. */
  lemma BeforeAll<T>(ss: seq<seq<T>>)
    ensures Before(ss, |ss|) == |Flatten(ss)|
  {
    assert ss[..|ss|] == ss;
  }

  /** The flattened view cut at element `i` of inner sequence `k`. */
  lemma FlattenPrefix<T>(ss: seq<seq<T>>, k: nat, i: nat)
    requires k < |ss| && i <= |ss[k]|
    ensures Before(ss, k) + i <= |Flatten(ss)|
    ensures Flatten(ss)[..Before(ss, k) + i] == Flatten(ss[..k]) + ss[k][..i]
    ensures Flatten(ss)[Before(ss, k) + i..] == ss[k][i..] + Flatten(ss[k + 1..])
  {
    FlattenSplit(ss, k);
    var a, c := Flatten(ss[..k]), Flatten(ss[k + 1..]);
    assert Flatten(ss) == a + (ss[k][..i] + ss[k][i..]) + c;
  }

  /** Replacing element `i` of inner sequence `k` replaces its element of the flattened view. */
  lemma FlattenUpdateAt<T>(ss: seq<seq<T>>, k: nat, i: nat, x: T)
    requires k < |ss| && i < |ss[k]|
    ensures Before(ss, k) + i < |Flatten(ss)|
    ensures Flatten(ss[k := ss[k][i := x]]) == Flatten(ss)[Before(ss, k) + i := x]
  {
    FlattenSplit(ss, k);
    FlattenUpdate(ss, k, ss[k][i := x]);
  }

  /** Inserting into inner sequence `k` inserts into the flattened view. */
  lemma FlattenInsertAt<T>(ss: seq<seq<T>>, k: nat, i: nat, x: T)
    requires k < |ss| && i <= |ss[k]|
    ensures Before(ss, k) + i <= |Flatten(ss)|
    ensures Flatten(ss[k := ss[k][..i] + [x] + ss[k][i..]]) ==
            Flatten(ss)[..Before(ss, k) + i] + [x] + Flatten(ss)[Before(ss, k) + i..]
  {
    FlattenPrefix(ss, k, i);
    FlattenUpdate(ss, k, ss[k][..i] + [x] + ss[k][i..]);
  }

  /** Removing from inner sequence `k` removes from the flattened view. */
  lemma FlattenRemoveAt<T>(ss: seq<seq<T>>, k: nat, i: nat)
    requires k < |ss| && i < |ss[k]|
    ensures Before(ss, k) + i < |Flatten(ss)|
    ensures Flatten(ss[k := ss[k][..i] + ss[k][i + 1..]]) ==
            Flatten(ss)[..Before(ss, k) + i] + Flatten(ss)[Before(ss, k) + i + 1..]
  {
    FlattenPrefix(ss, k, i);
    FlattenPrefix(ss, k, i + 1);
    FlattenUpdate(ss, k, ss[k][..i] + ss[k][i + 1..]);
  }

  /** Appending to the last inner sequence appends to the flattened view. */
  lemma FlattenAppendLast<T>(ss: seq<seq<T>>, x: T)
    requires ss != []
    ensures Flatten(ss[|ss| - 1 := ss[|ss| - 1] + [x]]) == Flatten(ss) + [x]
  {
    var k := |ss| - 1;
    FlattenSplit(ss, k);
    FlattenUpdate(ss, k, ss[k] + [x]);
    assert ss[k + 1..] == [];
  }
}
