/** `Array.prototype.flat()` (depth one) and `filter((x) => !!x)` on sequences. */
module Collections {
  import opened Wrappers

  /** Concatenation of the inner sequences, outer order first, inner order kept. */
  function Flatten<T>(ss: seq<seq<T>>): (r: seq<T>)
    ensures |r| == TotalLength(ss)
  {
    if ss == [] then [] else ss[0] + Flatten(ss[1..])
  }

  /** Sum of the lengths of the inner sequences. */
  function TotalLength<T>(ss: seq<seq<T>>): nat
  {
    if ss == [] then 0 else |ss[0]| + TotalLength(ss[1..])
  }

  /** Flattening distributes over concatenation of the outer sequence. */
  lemma {:induction false} FlattenAppend<T>(a: seq<seq<T>>, b: seq<seq<T>>)
    ensures Flatten(a + b) == Flatten(a) + Flatten(b)
  {
    if a == [] {
      assert a + b == b;
    } else {
      assert (a + b)[1..] == a[1..] + b;
      FlattenAppend(a[1..], b);
    }
  }

  /** Adding one more inner sequence at the end appends exactly its elements. */
  lemma FlattenSnoc<T>(ss: seq<seq<T>>, s: seq<T>)
    ensures Flatten(ss + [s]) == Flatten(ss) + s
  {
    FlattenAppend(ss, [s]);
    assert Flatten([s]) == s + Flatten([s][1..]);
  }

  /** The length of a flattening grows by the length of the sequence added at the end. */
  lemma TotalLengthSnoc<T>(ss: seq<seq<T>>, s: seq<T>)
    ensures TotalLength(ss + [s]) == TotalLength(ss) + |s|
  {
    FlattenSnoc(ss, s);
  }

  /**
   * Positional collection: element `j` of inner sequence `k` sits after all
   * elements of the inner sequences before `k`.
   */
  lemma {:induction false} FlattenAt<T>(ss: seq<seq<T>>, k: nat, j: nat)
    requires k < |ss| && j < |ss[k]|
    ensures TotalLength(ss[..k]) + j < |Flatten(ss)|
    ensures Flatten(ss)[TotalLength(ss[..k]) + j] == ss[k][j]
  {
    if k == 0 {
      assert ss[..k] == [];
    } else {
      FlattenAt(ss[1..], k - 1, j);
      assert ss[..k] == [ss[0]] + ss[1..][..k - 1];
      assert ss[..k][1..] == ss[1..][..k - 1];
    }
  }

  /** Flattening one-element sequences gives back the elements one for one. */
  lemma {:induction false} FlattenSingletons<T>(s: seq<T>)
    ensures Flatten(seq(|s|, i requires 0 <= i < |s| => [s[i]])) == s
  {
    var ss := seq(|s|, i requires 0 <= i < |s| => [s[i]]);
    if s != [] {
      var tail := seq(|s| - 1, i requires 0 <= i < |s| - 1 => [s[1..][i]]);
      assert ss[1..] == tail;
      FlattenSingletons(s[1..]);
      assert s == [s[0]] + s[1..];
    }
  }

  /** An element of the flattened sequence comes from one of the inner ones, and vice versa. */
  lemma {:induction false} FlattenMembership<T>(ss: seq<seq<T>>, x: T)
    ensures x in Flatten(ss) <==> exists k :: 0 <= k < |ss| && x in ss[k]
  {
    if ss != [] {
      FlattenMembership(ss[1..], x);
      if x in Flatten(ss[1..]) {
        var k :| 0 <= k < |ss[1..]| && x in ss[1..][k];
        assert x in ss[k + 1];
      }
      if exists k :: 0 <= k < |ss| && x in ss[k] {
        var k :| 0 <= k < |ss| && x in ss[k];
        if k > 0 {
          assert x in ss[1..][k - 1];
        }
      }
    }
  }

  /** Keeps the present entries in order: `filter((x) => !!x)` over objects-or-null. */
  function Compact<T>(xs: seq<Option<T>>): (r: seq<T>)
    ensures |r| <= |xs|
    ensures |r| == |xs| - NullCount(xs)
  {
    if xs == [] then []
    else if xs[0].Some? then [xs[0].value] + Compact(xs[1..])
    else Compact(xs[1..])
  }

  /** Number of `null` entries. */
  function NullCount<T>(xs: seq<Option<T>>): (n: nat)
    ensures n <= |xs|
  {
    if xs == [] then 0 else (if xs[0].None? then 1 else 0) + NullCount(xs[1..])
  }

  /** Compacting distributes over concatenation. */
  lemma {:induction false} CompactAppend<T>(a: seq<Option<T>>, b: seq<Option<T>>)
    ensures Compact(a + b) == Compact(a) + Compact(b)
  {
    if a == [] {
      assert a + b == b;
    } else {
      assert (a + b)[1..] == a[1..] + b;
      CompactAppend(a[1..], b);
    }
  }

  /** A record survives compacting exactly when it was present as an entry. */
  lemma {:induction false} CompactMembership<T>(xs: seq<Option<T>>, x: T)
    ensures x in Compact(xs) <==> Some(x) in xs
  {
    if xs != [] {
      CompactMembership(xs[1..], x);
      assert xs == [xs[0]] + xs[1..];
    }
  }

  /** With no `null` entry, compacting only unwraps: same length, same order. */
  lemma {:induction false} CompactNoNulls<T>(xs: seq<Option<T>>)
    requires forall i :: 0 <= i < |xs| ==> xs[i].Some?
    ensures |Compact(xs)| == |xs|
    ensures forall i :: 0 <= i < |xs| ==> Compact(xs)[i] == xs[i].value
  {
    if xs != [] {
      CompactNoNulls(xs[1..]);
    }
  }
}
