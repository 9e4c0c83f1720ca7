/** First-match searches: Python's `next((i for ... if ...), None)` over a
    sequence, and `re.search`'s leftmost match position over a string. */
module Search {
  import opened Results

  /** The first index at or after `from` whose element satisfies `p`. */
  function FirstIndex<T>(xs: seq<T>, from: nat, p: T -> bool): (r: Option<nat>)
    ensures r.Some? ==> from <= r.value < |xs| && p(xs[r.value])
    ensures r.Some? ==> forall i :: from <= i < r.value ==> !p(xs[i])
    ensures r.None? ==> forall i :: from <= i < |xs| ==> !p(xs[i])
    decreases |xs| - from
  {
    if from >= |xs| then None
    else if p(xs[from]) then Some(from)
    else FirstIndex(xs, from + 1, p)
  }

  /** The leftmost position `q >= from` at which the anchored matcher `m`
      accepts `s[q..]`, with what it matched. */
  function FirstMatch<T>(s: string, from: nat, m: string -> Option<T>): (r: Option<(nat, T)>)
    requires from <= |s|
    ensures r.Some? ==> from <= r.value.0 <= |s| && m(s[r.value.0..]) == Some(r.value.1)
    ensures r.Some? ==> forall q :: from <= q < r.value.0 ==> m(s[q..]).None?
    ensures r.None? ==> forall q :: from <= q <= |s| ==> m(s[q..]).None?
    decreases |s| - from
  {
    match m(s[from..])
    case Some(v) => Some((from, v))
    case None => if from == |s| then None else FirstMatch(s, from + 1, m)
  }

  /** No match of `m` starts at or after `from` and before `to`. */
  predicate NoMatchBetween<T>(s: string, from: nat, to: nat, m: string -> Option<T>) {
    forall q :: from <= q < to && q <= |s| ==> m(s[q..]).None?
  }

  /** `re.findall`'s scan from `from` on: the leftmost match, then the next
      one from where it ends (a match spans `width` of what it matched,
      never nothing), and so on. */
  function FindAll<T>(s: string, from: nat, m: string -> Option<T>, width: T -> nat): seq<(nat, T)>
    requires from <= |s|
    requires forall u :: m(u).Some? ==> 0 < width(m(u).value) <= |u|
    decreases |s| - from
  {
    match FirstMatch(s, from, m)
    case None => []
    case Some((q, v)) => [(q, v)] + FindAll(s, q + width(v), m, width)
  }

  /** Every reported match is a match of `m` where it is reported, from
      `from` on, and each ends before the next begins. */
  lemma {:induction false} FindAllOccur<T>(s: string, from: nat, m: string -> Option<T>, width: T -> nat)
    requires from <= |s|
    requires forall u :: m(u).Some? ==> 0 < width(m(u).value) <= |u|
    ensures forall k :: 0 <= k < |FindAll(s, from, m, width)| ==>
              from <= FindAll(s, from, m, width)[k].0 <= |s| && m(s[FindAll(s, from, m, width)[k].0..]) == Some(FindAll(s, from, m, width)[k].1)
    ensures forall k :: 0 <= k < |FindAll(s, from, m, width)| - 1 ==> FindAll(s, from, m, width)[k].0 + width(FindAll(s, from, m, width)[k].1) <= FindAll(s, from, m, width)[k + 1].0
    decreases |s| - from
  {
    match FirstMatch(s, from, m)
    case None =>
    case Some((q, v)) =>
      var e := q + width(v);
      FindAllOccur(s, e, m, width);
      var tail := FindAll(s, e, m, width);
      var r := FindAll(s, from, m, width);
      assert r == [(q, v)] + tail;
      assert r[0] == (q, v) && m(s[q..]) == Some(v);
      assert forall k :: 1 <= k < |r| ==> r[k] == tail[k - 1];
  }

  /** Nothing is reported exactly when no match starts anywhere from `from`
      on; otherwise no match starts before the first reported one, in a gap
      between two, or after the last. */
  lemma {:induction false} FindAllGaps<T>(s: string, from: nat, m: string -> Option<T>, width: T -> nat)
    requires from <= |s|
    requires forall u :: m(u).Some? ==> 0 < width(m(u).value) <= |u|
    ensures FindAll(s, from, m, width) == [] <==> NoMatchBetween(s, from, |s| + 1, m)
    ensures FindAll(s, from, m, width) != [] ==> NoMatchBetween(s, from, FindAll(s, from, m, width)[0].0, m)
    ensures forall k :: 0 <= k < |FindAll(s, from, m, width)| - 1 ==> NoMatchBetween(s, FindAll(s, from, m, width)[k].0 + width(FindAll(s, from, m, width)[k].1), FindAll(s, from, m, width)[k + 1].0, m)
    ensures FindAll(s, from, m, width) != [] ==> NoMatchBetween(s, FindAll(s, from, m, width)[|FindAll(s, from, m, width)| - 1].0 + width(FindAll(s, from, m, width)[|FindAll(s, from, m, width)| - 1].1), |s| + 1, m)
    decreases |s| - from
  {
    match FirstMatch(s, from, m)
    case None =>
    case Some((q, v)) =>
      var e := q + width(v);
      FindAllGaps(s, e, m, width);
      var tail := FindAll(s, e, m, width);
      var r := FindAll(s, from, m, width);
      assert r == [(q, v)] + tail;
      assert forall k :: 1 <= k < |r| ==> r[k] == tail[k - 1];
      assert !NoMatchBetween(s, from, |s| + 1, m) by {
        assert m(s[q..]).Some?;
      }
  }

  // ---------------------------------------------------------------------------
  // Keeping some elements in order
  // ---------------------------------------------------------------------------

  /** `idx` lists the positions of `xs` whose element satisfies `keep`:
      each once, in increasing order, and no other position. */
  predicate Picks<T>(idx: seq<nat>, xs: seq<T>, keep: T -> bool) {
    && (forall k :: 0 <= k < |idx| ==> idx[k] < |xs| && keep(xs[idx[k]]))
    && (forall k, l :: 0 <= k < l < |idx| ==> idx[k] < idx[l])
    && (forall i :: 0 <= i < |xs| && keep(xs[i]) ==> i in idx)
  }

  /** Every position moved one place on. */
  function Shift(idx: seq<nat>): (r: seq<nat>)
    ensures |r| == |idx| && forall k :: 0 <= k < |idx| ==> r[k] == idx[k] + 1
  {
    seq(|idx|, k requires 0 <= k < |idx| => idx[k] + 1)
  }

  /** The positions of `xs` that `keep` keeps, in order (`PickIndicesPicks`). */
  function PickIndices<T>(xs: seq<T>, keep: T -> bool): (idx: seq<nat>)
    ensures forall k :: 0 <= k < |idx| ==> idx[k] < |xs|
    decreases |xs|
  {
    if xs == [] then []
    else
      var rest := PickIndices(xs[1..], keep);
      if keep(xs[0]) then [0] + Shift(rest) else Shift(rest)
  }

  /** `PickIndices` lists exactly the kept positions, in increasing order. */
  lemma {:induction false} PickIndicesPicks<T>(xs: seq<T>, keep: T -> bool)
    ensures Picks(PickIndices(xs, keep), xs, keep)
    decreases |xs|
  {
    if xs != [] {
      PickIndicesPicks(xs[1..], keep);
      PicksCons(xs, keep, PickIndices(xs[1..], keep));
    }
  }

  /** The picks of `xs` from those of its tail. */
  lemma PicksCons<T>(xs: seq<T>, keep: T -> bool, rest: seq<nat>)
    requires xs != [] && Picks(rest, xs[1..], keep)
    ensures Picks(if keep(xs[0]) then [0] + Shift(rest) else Shift(rest), xs, keep)
  {
    ShiftKept(xs, keep, rest);
    ShiftComplete(xs, keep, rest);
    ShiftIncreasing(rest);
    if keep(xs[0]) {
      PicksTake(xs, keep, Shift(rest));
    }
  }

  /** Moving every position one place on keeps them increasing. */
  lemma ShiftIncreasing(rest: seq<nat>)
    requires forall k, l :: 0 <= k < l < |rest| ==> rest[k] < rest[l]
    ensures forall k, l :: 0 <= k < l < |Shift(rest)| ==> Shift(rest)[k] < Shift(rest)[l]
  {
  }

  /** A kept head goes in front of the shifted picks of the tail. */
  lemma PicksTake<T>(xs: seq<T>, keep: T -> bool, sh: seq<nat>)
    requires xs != [] && keep(xs[0])
    requires forall k :: 0 <= k < |sh| ==> 1 <= sh[k] < |xs| && keep(xs[sh[k]])
    requires forall k, l :: 0 <= k < l < |sh| ==> sh[k] < sh[l]
    requires forall i :: 1 <= i < |xs| && keep(xs[i]) ==> i in sh
    ensures Picks([0] + sh, xs, keep)
  {
    var idx := [0] + sh;
    assert forall k :: 1 <= k < |idx| ==> idx[k] == sh[k - 1];
    assert idx[0] == 0;
  }

  /** Shifted, the picks of the tail are kept positions of `xs` after its head. */
  lemma ShiftKept<T>(xs: seq<T>, keep: T -> bool, rest: seq<nat>)
    requires xs != [] && Picks(rest, xs[1..], keep)
    ensures forall k :: 0 <= k < |Shift(rest)| ==> 1 <= Shift(rest)[k] < |xs| && keep(xs[Shift(rest)[k]])
  {
    var sh := Shift(rest);
    forall k | 0 <= k < |sh|
      ensures 1 <= sh[k] < |xs| && keep(xs[sh[k]])
    {
      assert xs[sh[k]] == xs[1..][rest[k]];
    }
  }

  /** Shifted, the picks of the tail hold every kept position after the head. */
  lemma ShiftComplete<T>(xs: seq<T>, keep: T -> bool, rest: seq<nat>)
    requires xs != [] && Picks(rest, xs[1..], keep)
    ensures forall i :: 1 <= i < |xs| && keep(xs[i]) ==> i in Shift(rest)
  {
    var sh := Shift(rest);
    forall i | 1 <= i < |xs| && keep(xs[i])
      ensures i in sh
    {
      assert xs[1..][i - 1] == xs[i];
      var k :| 0 <= k < |rest| && rest[k] == i - 1;
      assert sh[k] == i;
    }
  }

  /** Two increasing position lists with the same members are equal. */
  lemma {:induction false} IncreasingSameMembers(a: seq<nat>, b: seq<nat>)
    requires forall k, l :: 0 <= k < l < |a| ==> a[k] < a[l]
    requires forall k, l :: 0 <= k < l < |b| ==> b[k] < b[l]
    requires forall x :: x in a <==> x in b
    ensures a == b
    decreases |a|
  {
    assert |b| == 0 || b[0] in b;
    if a != [] {
      assert a[0] in b && b != [] && b[0] in a;
      assert a[0] == b[0];
      forall x
        ensures x in a[1..] <==> x in b[1..]
      {
        if x in a[1..] {
          var k :| 0 <= k < |a[1..]| && a[1..][k] == x;
          assert a[k + 1] == x && x in b && x != b[0];
          var l :| 0 <= l < |b| && b[l] == x;
          assert b[1..][l - 1] == x;
        }
        if x in b[1..] {
          var k :| 0 <= k < |b[1..]| && b[1..][k] == x;
          assert b[k + 1] == x && x in a && x != a[0];
          var l :| 0 <= l < |a| && a[l] == x;
          assert a[1..][l - 1] == x;
        }
      }
      IncreasingSameMembers(a[1..], b[1..]);
      assert a == [a[0]] + a[1..] && b == [b[0]] + b[1..];
    }
  }

  /** The positions kept are determined: any list satisfying `Picks` is
      the one `PickIndices` computes. */
  lemma PicksUnique<T>(idx: seq<nat>, xs: seq<T>, keep: T -> bool)
    requires Picks(idx, xs, keep)
    ensures idx == PickIndices(xs, keep)
  {
    var p := PickIndices(xs, keep);
    PickIndicesPicks(xs, keep);
    forall x
      ensures x in idx <==> x in p
    {
      if x in idx {
        var k :| 0 <= k < |idx| && idx[k] == x;
      }
      if x in p {
        var k :| 0 <= k < |p| && p[k] == x;
      }
    }
    IncreasingSameMembers(idx, p);
  }

  /** `r` holds, in order, the images under `f` of the elements of `xs`
      that `keep` keeps: a list comprehension with a filter. */
  predicate Images<T, U(==)>(r: seq<U>, xs: seq<T>, keep: T -> bool, f: T -> U) {
    var idx := PickIndices(xs, keep);
    |r| == |idx| && forall k :: 0 <= k < |r| ==> r[k] == f(xs[idx[k]])
  }

  /** Taking the head into account: its image goes first when it is kept. */
  lemma ImagesCons<T, U>(r: seq<U>, xs: seq<T>, keep: T -> bool, f: T -> U)
    requires xs != [] && Images(r, xs[1..], keep, f)
    ensures Images(if keep(xs[0]) then [f(xs[0])] + r else r, xs, keep, f)
  {
    ImagesShift(r, xs, keep, f);
    if keep(xs[0]) {
      ImagesTake(r, xs, keep, f);
    } else {
      ImagesSkip(r, xs, keep, f);
    }
  }

  /** A head that is not kept adds nothing. */
  lemma ImagesSkip<T, U>(r: seq<U>, xs: seq<T>, keep: T -> bool, f: T -> U)
    requires xs != [] && !keep(xs[0])
    requires var sh := Shift(PickIndices(xs[1..], keep));
             |r| == |sh| && forall k :: 0 <= k < |r| ==> sh[k] < |xs| && r[k] == f(xs[sh[k]])
    ensures Images(r, xs, keep, f)
  {
    assert PickIndices(xs, keep) == Shift(PickIndices(xs[1..], keep));
  }

  /** A kept head's image goes in front. */
  lemma ImagesTake<T, U>(r: seq<U>, xs: seq<T>, keep: T -> bool, f: T -> U)
    requires xs != [] && keep(xs[0])
    requires var sh := Shift(PickIndices(xs[1..], keep));
             |r| == |sh| && forall k :: 0 <= k < |r| ==> sh[k] < |xs| && r[k] == f(xs[sh[k]])
    ensures Images([f(xs[0])] + r, xs, keep, f)
  {
    var sh := Shift(PickIndices(xs[1..], keep));
    var idx := [0] + sh;
    assert PickIndices(xs, keep) == idx;
    var out := [f(xs[0])] + r;
    forall k | 0 <= k < |out|
      ensures out[k] == f(xs[idx[k]])
    {
      if k > 0 {
        assert out[k] == r[k - 1] && idx[k] == sh[k - 1];
      }
    }
  }

  /** The images of the tail's picks, as positions of `xs`. */
  lemma ImagesShift<T, U>(r: seq<U>, xs: seq<T>, keep: T -> bool, f: T -> U)
    requires xs != [] && Images(r, xs[1..], keep, f)
    ensures var sh := Shift(PickIndices(xs[1..], keep));
            |r| == |sh| && forall k :: 0 <= k < |r| ==> sh[k] < |xs| && r[k] == f(xs[sh[k]])
  {
    var rest := PickIndices(xs[1..], keep);
    var sh := Shift(rest);
    PickIndicesPicks(xs[1..], keep);
    forall k | 0 <= k < |r|
      ensures sh[k] < |xs| && r[k] == f(xs[sh[k]])
    {
      assert xs[sh[k]] == xs[1..][rest[k]];
    }
  }

  /** What the images are, element by element: each is the image of a kept
      element, and every kept element's image is among them. */
  lemma ImagesMembers<T, U>(r: seq<U>, xs: seq<T>, keep: T -> bool, f: T -> U)
    requires Images(r, xs, keep, f)
    ensures forall y :: y in r ==> exists i :: 0 <= i < |xs| && keep(xs[i]) && y == f(xs[i])
    ensures forall i :: 0 <= i < |xs| && keep(xs[i]) ==> f(xs[i]) in r
  {
    ImagesSound(r, xs, keep, f);
    ImagesComplete(r, xs, keep, f);
  }

  lemma ImagesSound<T, U>(r: seq<U>, xs: seq<T>, keep: T -> bool, f: T -> U)
    requires Images(r, xs, keep, f)
    ensures forall y :: y in r ==> exists i :: 0 <= i < |xs| && keep(xs[i]) && y == f(xs[i])
  {
    var idx := PickIndices(xs, keep);
    PickIndicesPicks(xs, keep);
    forall y | y in r
      ensures exists i :: 0 <= i < |xs| && keep(xs[i]) && y == f(xs[i])
    {
      var k :| 0 <= k < |r| && r[k] == y;
      var i := idx[k];
      assert i < |xs| && keep(xs[i]);
      assert y == f(xs[i]);
    }
  }

  lemma ImagesComplete<T, U>(r: seq<U>, xs: seq<T>, keep: T -> bool, f: T -> U)
    requires Images(r, xs, keep, f)
    ensures forall i :: 0 <= i < |xs| && keep(xs[i]) ==> f(xs[i]) in r
  {
    var idx := PickIndices(xs, keep);
    PickIndicesPicks(xs, keep);
    forall i | 0 <= i < |xs| && keep(xs[i])
      ensures f(xs[i]) in r
    {
      var k :| 0 <= k < |idx| && idx[k] == i;
      assert r[k] == f(xs[i]);
    }
  }
}
