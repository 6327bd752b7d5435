/** Line wrapping of one tag value inside a node label.

    The source walks `i` over `range(35, len(original), 35)` and, at each `i`,
    splices a `\` marker into the value AS IT HAS GROWN SO FAR.  The positions
    come from the original length while the string gets longer, so the first
    chunk has 35 characters and every later full chunk only 34; the number of
    markers is the length of that range. */
module Wrapping {

  /** Step (and first position) of the `range` that drives the wrapping. */
  const Width: nat := 35

  /** The line-break marker written into the label; it is expanded into an
      XML entity when the document is written out. */
  const Marker: char := '\\'

  /** Number of markers inserted into a value of length `n`:
      the length of Python's `range(35, n, 35)`. */
  function InsertCount(n: nat): (k: nat)
    ensures k == 0 <==> n <= Width
    ensures k > 0 ==> Width * k < n <= Width * (k + 1)
  {
    if n <= Width then 0 else (n - 1) / Width
  }

  /** `k` markers fit into a value of length `n`: the k-th one goes at
      position 35*k, which the range reaches only while it stays below `n`. */
  predicate Fits(n: nat, k: nat)
  {
    k == 0 || Width * k < n
  }

  /** Position `j` of the wrapped string holds one of the first `k` inserted
      markers: those sit at 35, 70, ..., 35*k. */
  predicate IsMarkerAt(j: nat, k: nat)
  {
    j % Width == 0 && 1 <= j / Width <= k
  }

  /** How many of the first `k` markers lie before position `j`. */
  function MarkersBefore(j: nat, k: nat): nat
  {
    if j / Width < k then j / Width else k
  }

  /** Closed form of the value after the first `k` steps of the wrap loop:
      markers at 35*t for 1 <= t <= k, and every other position holds the
      original character shifted by the markers before it. */
  function Wrapped(v: string, k: nat): (w: string)
    requires Fits(|v|, k)
    ensures |w| == |v| + k
  {
    seq(|v| + k, j requires 0 <= j < |v| + k =>
      if IsMarkerAt(j, k) then Marker
      else assert j - MarkersBefore(j, k) < |v| by { WrappedIndex(|v|, k, j); }
           v[j - MarkersBefore(j, k)])
  }

  lemma WrappedIndex(n: nat, k: nat, j: nat)
    requires Fits(n, k) && j < n + k && !IsMarkerAt(j, k)
    ensures MarkersBefore(j, k) <= j && j - MarkersBefore(j, k) < n
  {
  }

  /** The fully wrapped value, as the source leaves `tag_value` after its loop. */
  function Wrap(v: string): (w: string)
    ensures |w| == |v| + InsertCount(|v|)
    ensures |v| <= Width ==> w == v
  {
    Wrapped(v, InsertCount(|v|))
  }

  /** One iteration of the loop: the k-th marker is spliced in at
      position 35*k of the string built so far. */
  lemma InsertStep(v: string, k: nat)
    requires 1 <= k && Fits(|v|, k)
    ensures Wrapped(v, k) == Wrapped(v, k - 1)[..Width * k] + [Marker] + Wrapped(v, k - 1)[Width * k..]
  {
    var i := Width * k;
    var w, w' := Wrapped(v, k - 1), Wrapped(v, k);
    var r := w[..i] + [Marker] + w[i..];
    assert |r| == |w'|;
    forall j | 0 <= j < |w'|
      ensures w'[j] == r[j]
    {
      if j < i {
        SameBefore(v, k, j);
        assert r[j] == w[j];
      } else if j > i {
        SameAfter(v, k, j);
        assert r[j] == w[j - 1];
      } else {
        MarkerAt(v, k, k);
      }
    }
  }

  /** Before the k-th marker nothing changes. */
  lemma SameBefore(v: string, k: nat, j: nat)
    requires 1 <= k && Fits(|v|, k) && j < Width * k
    ensures Wrapped(v, k)[j] == Wrapped(v, k - 1)[j]
  {
    assert j / Width < k;
    assert IsMarkerAt(j, k) == IsMarkerAt(j, k - 1);
    assert MarkersBefore(j, k) == MarkersBefore(j, k - 1);
  }

  /** After the k-th marker everything moves up by one. */
  lemma SameAfter(v: string, k: nat, j: nat)
    requires 1 <= k && Fits(|v|, k) && Width * k < j < |v| + k
    ensures Wrapped(v, k)[j] == Wrapped(v, k - 1)[j - 1]
  {
    assert j / Width >= k && (j - 1) / Width >= k;
    assert !IsMarkerAt(j, k) && !IsMarkerAt(j - 1, k - 1);
    assert MarkersBefore(j, k) == k && MarkersBefore(j - 1, k - 1) == k - 1;
  }

  /** The string the loop has built after `k` splices, one splice at a time. */
  function Spliced(v: string, k: nat): (w: string)
    requires Fits(|v|, k)
    ensures |w| == |v| + k
    decreases k
  {
    if k == 0 then v
    else
      var p := Spliced(v, k - 1);
      p[..Width * k] + [Marker] + p[Width * k..]
  }

  /** Splicing the markers in one at a time builds the closed form. */
  lemma {:induction false} SplicedIsWrapped(v: string, k: nat)
    requires Fits(|v|, k)
    ensures Spliced(v, k) == Wrapped(v, k)
    decreases k
  {
    if k > 0 {
      SplicedIsWrapped(v, k - 1);
      InsertStep(v, k);
    }
  }

  /** The wrap loop of the source: `for i in range(35, len(v), 35)` splices a
      marker into the growing string at each `i`. */
  method WrapValue(value: string) returns (w: string)
    ensures w == Wrap(value)
  {
    w := value;
    var i := Width;
    ghost var k: nat := 0;
    while i < |value|
      invariant i == Width * (k + 1)
      invariant Fits(|value|, k)
      invariant w == Spliced(value, k)
      decreases |value| - i
    {
      w := w[..i] + [Marker] + w[i..];
      i := i + Width;
      k := k + 1;
    }
    LoopCount(|value|, k);
    SplicedIsWrapped(value, k);
  }

  /** The loop stops after exactly `InsertCount(n)` steps. */
  lemma LoopCount(n: nat, k: nat)
    requires Fits(n, k) && n <= Width * (k + 1)
    ensures k == InsertCount(n)
  {
  }

  /** Deletes the markers at 35*k, ..., 70, 35 (highest first, so the lower
      positions do not move): the inverse of the wrap loop. */
  function Unwrap(w: string, k: nat): string
    requires Fits(|w|, k)
  {
    if k == 0 then w else Unwrap(w[..Width * k] + w[Width * k + 1..], k - 1)
  }

  /** Deleting exactly the inserted positions gives back the original value. */
  lemma {:induction false} UnwrapWrapped(v: string, k: nat)
    requires Fits(|v|, k)
    ensures Unwrap(Wrapped(v, k), k) == v
  {
    if k > 0 {
      InsertStep(v, k);
      var w := Wrapped(v, k - 1);
      var i := Width * k;
      assert (w[..i] + [Marker] + w[i..])[..i] + (w[..i] + [Marker] + w[i..])[i + 1..] == w;
      UnwrapWrapped(v, k - 1);
    }
  }

  /** Round trip for the wrap the source applies to every tag value. */
  lemma UnwrapWrap(v: string)
    ensures Unwrap(Wrap(v), InsertCount(|v|)) == v
  {
    UnwrapWrapped(v, InsertCount(|v|));
  }

  /** The chunks between markers, as written: the first chunk is the first 35
      characters, every middle chunk 34, and the last chunk is the rest; a
      marker sits at each 35*t and neither at the start nor at the end. */
  lemma WrapChunks(v: string)
    requires |v| > Width
    ensures var w, m := Wrap(v), InsertCount(|v|);
      && w[..Width] == v[..Width]
      && (forall t :: 1 <= t <= m ==> w[Width * t] == Marker)
      && (forall t :: 1 <= t < m ==>
            w[Width * t + 1 .. Width * (t + 1)] == v[(Width - 1) * t + 1 .. (Width - 1) * t + Width])
      && w[Width * m + 1..] == v[(Width - 1) * m + 1..]
      && w[0] == v[0] && w[|w| - 1] == v[|v| - 1]
  {
    var w, m := Wrap(v), InsertCount(|v|);
    FirstChunk(v, m);
    Markers(v, m);
    MiddleChunks(v, m);
    LastChunk(v, m);
    Ends(v, w, Width * m + 1, (Width - 1) * m + 1);
  }

  /** The first and last characters of `w` are those of `v` when `w` starts
      with the first `Width` characters of `v` and ends with a tail of `v`. */
  lemma Ends(v: string, w: string, p: nat, q: nat)
    requires Width <= |v| && Width <= |w| && w[..Width] == v[..Width]
    requires p < |w| && q < |v| && w[p..] == v[q..]
    ensures w[0] == v[0] && w[|w| - 1] == v[|v| - 1]
  {
    assert w[0] == w[..Width][0] && v[0] == v[..Width][0];
    assert w[|w| - 1] == w[p..][|w| - 1 - p];
    assert v[|v| - 1] == v[q..][|v| - 1 - q];
  }

  lemma FirstChunk(v: string, k: nat)
    requires Fits(|v|, k) && |v| > Width
    ensures Wrapped(v, k)[..Width] == v[..Width]
  {
    var w := Wrapped(v, k);
    forall j | 0 <= j < Width ensures w[j] == v[j] {
      assert j / Width == 0;
    }
  }

  lemma Markers(v: string, k: nat)
    requires Fits(|v|, k)
    ensures forall t :: 1 <= t <= k ==> Width * t < |Wrapped(v, k)| && Wrapped(v, k)[Width * t] == Marker
  {
    forall t | 1 <= t <= k
      ensures Width * t < |Wrapped(v, k)| && Wrapped(v, k)[Width * t] == Marker
    {
      MarkerAt(v, k, t);
    }
  }

  lemma MarkerAt(v: string, k: nat, t: nat)
    requires Fits(|v|, k) && 1 <= t <= k
    ensures Width * t < |Wrapped(v, k)| && Wrapped(v, k)[Width * t] == Marker
  {
    assert (Width * t) % Width == 0 && (Width * t) / Width == t;
  }

  lemma MiddleChunks(v: string, k: nat)
    requires Fits(|v|, k)
    ensures forall t :: 1 <= t < k ==>
      Wrapped(v, k)[Width * t + 1 .. Width * (t + 1)] == v[(Width - 1) * t + 1 .. (Width - 1) * t + Width]
  {
    forall t | 1 <= t < k
      ensures Wrapped(v, k)[Width * t + 1 .. Width * (t + 1)] == v[(Width - 1) * t + 1 .. (Width - 1) * t + Width]
    {
      MiddleChunk(v, k, t);
    }
  }

  lemma MiddleChunk(v: string, k: nat, t: nat)
    requires Fits(|v|, k) && 1 <= t < k
    ensures Wrapped(v, k)[Width * t + 1 .. Width * (t + 1)] == v[(Width - 1) * t + 1 .. (Width - 1) * t + Width]
  {
    var w := Wrapped(v, k);
    forall j | Width * t + 1 <= j < Width * (t + 1)
      ensures w[j] == v[j - t]
    {
      assert j / Width == t;
      assert j % Width != 0;
    }
  }

  lemma LastChunk(v: string, k: nat)
    requires Fits(|v|, k) && k > 0 && |v| <= Width * (k + 1)
    ensures Wrapped(v, k)[Width * k + 1..] == v[(Width - 1) * k + 1..]
  {
    var w := Wrapped(v, k);
    forall j | Width * k + 1 <= j < |w|
      ensures w[j] == v[j - k]
    {
      assert j / Width >= k;
      assert !IsMarkerAt(j, k);
    }
  }

  /** Because the marker positions come from the original length, the final
      chunk is not bounded by 35: a 105-character value is cut 35, 34, 36. */
  lemma LastChunkCanExceedWidth(v: string)
    requires |v| == 105
    ensures InsertCount(|v|) == 2
    ensures Wrap(v) == v[..35] + [Marker] + v[35..69] + [Marker] + v[69..]
    ensures |v[69..]| == 36
  {
    var w := Wrap(v);
    WrapChunks(v);
    assert w[..35] == v[..35];
    assert w[36..70] == v[35..69];
    assert w[71..] == v[69..];
    assert w == w[..35] + [w[35]] + w[36..70] + [w[70]] + w[71..];
  }
}
