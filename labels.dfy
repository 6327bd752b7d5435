/** The label the filter writes into each node's `id` attribute: the values of
    the node's recognised tags, in the order of a fixed key list, each wrapped
    (module Wrapping) and joined with the marker. */
module Labels {
  import opened Wrapping

  /** One `<tag k=… v=…/>` child of a node. */
  datatype Tag = Tag(k: string, v: string)

  /** The recognised keys, in the order their values appear in the label. */
  const TagOrder: seq<string> := ["amenity", "shop", "website", "opening_hours"]

  /** Python's `xs.index(x)`, with `|xs|` standing for "absent". */
  function IndexOf(xs: seq<string>, x: string): nat
  {
    if xs == [] then 0
    else if xs[0] == x then 0
    else 1 + IndexOf(xs[1..], x)
  }

  /** `IndexOf` finds the first position holding `x`, and gives the length
      exactly when `x` is absent. */
  lemma {:induction false} IndexOfFinds(xs: seq<string>, x: string)
    ensures IndexOf(xs, x) <= |xs|
    ensures IndexOf(xs, x) < |xs| ==> xs[IndexOf(xs, x)] == x
    ensures forall p :: 0 <= p < IndexOf(xs, x) && p < |xs| ==> xs[p] != x
    ensures IndexOf(xs, x) == |xs| <==> x !in xs
  {
    if xs != [] && xs[0] != x {
      IndexOfFinds(xs[1..], x);
      assert xs == [xs[0]] + xs[1..];
      var r := IndexOf(xs[1..], x);
      if r < |xs[1..]| {
        assert xs[..r + 1] == [xs[0]] + xs[1..][..r];
      }
    }
  }

  /** No key occurs twice in a key order. */
  predicate Distinct(order: seq<string>)
  {
    forall i, j :: 0 <= i < j < |order| ==> Differ(order, i, j)
  }

  /** Positions `i` and `j` of `order` hold different keys. */
  predicate Differ(order: seq<string>, i: nat, j: nat)
    requires i < |order| && j < |order|
  {
    order[i] != order[j]
  }

  lemma TagOrderDistinct()
    ensures Distinct(TagOrder)
  {
  }

  /** The sort key of a tag: `order.index(t.k)`. */
  function Rank(order: seq<string>, t: Tag): nat
  {
    IndexOf(order, t.k)
  }

  /** In a key order without repetitions each key has its own position as rank. */
  lemma RankOfOrder(order: seq<string>, q: nat, t: Tag)
    requires Distinct(order) && q < |order| && t.k == order[q]
    ensures Rank(order, t) == q
  {
    IndexOfFinds(order, t.k);
    assert t.k in order;
    var r := Rank(order, t);
    assert order[r] == order[q];
    assert r < q ==> Differ(order, r, q);
    assert forall p :: 0 <= p < r ==> order[p] != t.k;
  }

  /** The list comprehension: the tags whose key is in `order`, in source order. */
  function Whitelisted(tags: seq<Tag>, order: seq<string>): (r: seq<Tag>)
    ensures forall i :: 0 <= i < |r| ==> r[i].k in order
    ensures |r| <= |tags|
  {
    if tags == [] then []
    else (if tags[0].k in order then [tags[0]] else []) + Whitelisted(tags[1..], order)
  }

  /** Inserts `t` into a rank-sorted list in front of the first tag whose rank
      is not smaller, so that equal ranks keep their arrival order. */
  function InsertByRank(order: seq<string>, t: Tag, s: seq<Tag>): seq<Tag>
  {
    if s == [] || Rank(order, t) <= Rank(order, s[0]) then [t] + s
    else [s[0]] + InsertByRank(order, t, s[1..])
  }

  /** `tags.sort(key=lambda tag: tag_order.index(tag.get("k")))`, a stable
      sort by rank (Python's sort is stable); modelled as insertion sort. */
  function SortByRank(order: seq<string>, tags: seq<Tag>): seq<Tag>
  {
    if tags == [] then []
    else InsertByRank(order, tags[0], SortByRank(order, tags[1..]))
  }

  /** The tags whose values make up the label, in label order. */
  function SelectTags(tags: seq<Tag>): seq<Tag>
  {
    SortByRank(TagOrder, Whitelisted(tags, TagOrder))
  }

  /** The tags with key `key`, in source order. */
  function Bucket(tags: seq<Tag>, key: string): (r: seq<Tag>)
    ensures forall i :: 0 <= i < |r| ==> r[i].k == key
    ensures |r| <= |tags|
  {
    if tags == [] then []
    else (if tags[0].k == key then [tags[0]] else []) + Bucket(tags[1..], key)
  }

  /** Reference order: all tags with the key `order[q]`, then all with
      `order[q + 1]`, and so on, each group in source order. */
  function BucketsFrom(order: seq<string>, tags: seq<Tag>, q: nat): (r: seq<Tag>)
    requires q <= |order|
    decreases |order| - q
  {
    if q == |order| then []
    else Bucket(tags, order[q]) + BucketsFrom(order, tags, q + 1)
  }

  /** Every tag of `s` has a key in `order`, at position `q` or later. */
  predicate RanksWithin(order: seq<string>, s: seq<Tag>, q: nat)
  {
    forall i :: 0 <= i < |s| ==> q <= Rank(order, s[i]) < |order|
  }

  /** The ranks of `s` never decrease. */
  predicate SortedByRank(order: seq<string>, s: seq<Tag>)
  {
    forall i, j :: 0 <= i < j < |s| ==> Rank(order, s[i]) <= Rank(order, s[j])
  }

  /** The groups from `q` on hold only tags whose rank is at least `q`. */
  lemma {:induction false} BucketsRank(order: seq<string>, tags: seq<Tag>, q: nat)
    requires Distinct(order) && q <= |order|
    ensures RanksWithin(order, BucketsFrom(order, tags, q), q)
    decreases |order| - q
  {
    if q < |order| {
      BucketsRank(order, tags, q + 1);
      BucketRank(order, tags, q);
      ConcatRanks(order, Bucket(tags, order[q]), BucketsFrom(order, tags, q + 1), q);
    }
  }

  lemma ConcatRanks(order: seq<string>, b: seq<Tag>, x: seq<Tag>, q: nat)
    requires q < |order|
    requires forall i :: 0 <= i < |b| ==> Rank(order, b[i]) == q
    requires RanksWithin(order, x, q + 1)
    ensures RanksWithin(order, b + x, q)
  {
    var r := b + x;
    forall i | 0 <= i < |r| ensures q <= Rank(order, r[i]) < |order| {
      if i < |b| {
        assert r[i] == b[i];
      } else {
        assert r[i] == x[i - |b|];
      }
    }
  }

  lemma {:induction false} BucketOfConcat(a: seq<Tag>, b: seq<Tag>, key: string)
    ensures Bucket(a + b, key) == Bucket(a, key) + Bucket(b, key)
  {
    if a != [] {
      var head := if a[0].k == key then [a[0]] else [];
      calc {
        Bucket(a + b, key);
        { assert (a + b)[0] == a[0]; assert (a + b)[1..] == a[1..] + b; }
        head + Bucket(a[1..] + b, key);
        { BucketOfConcat(a[1..], b, key); }
        head + (Bucket(a[1..], key) + Bucket(b, key));
        (head + Bucket(a[1..], key)) + Bucket(b, key);
      }
    } else {
      assert a + b == b;
    }
  }

  /** Inserting a tag skips a prefix whose ranks are all below its own. */
  lemma {:induction false} InsertSkips(order: seq<string>, t: Tag, b: seq<Tag>, x: seq<Tag>)
    requires forall i :: 0 <= i < |b| ==> Rank(order, b[i]) < Rank(order, t)
    ensures InsertByRank(order, t, b + x) == b + InsertByRank(order, t, x)
  {
    if b != [] {
      InsertSkips(order, t, b[1..], x);
      calc {
        InsertByRank(order, t, b + x);
        { assert (b + x)[0] == b[0] && (b + x)[1..] == b[1..] + x; }
        [b[0]] + InsertByRank(order, t, b[1..] + x);
        [b[0]] + (b[1..] + InsertByRank(order, t, x));
        { assert b == [b[0]] + b[1..]; }
        b + InsertByRank(order, t, x);
      }
    } else {
      assert b + x == x;
    }
  }

  /** A tag of rank below `q` takes no part in the groups from `q` on. */
  lemma {:induction false} BucketsSkip(order: seq<string>, t: Tag, rest: seq<Tag>, q: nat)
    requires Distinct(order) && Rank(order, t) < q <= |order|
    ensures BucketsFrom(order, [t] + rest, q) == BucketsFrom(order, rest, q)
    decreases |order| - q
  {
    if q < |order| {
      RankBelow(order, t, q);
      BucketOfOther(t, rest, order[q]);
      BucketsSkip(order, t, rest, q + 1);
    }
  }

  /** A tag ranked before position `q` does not have the key at `q`. */
  lemma RankBelow(order: seq<string>, t: Tag, q: nat)
    requires Distinct(order) && Rank(order, t) < q < |order|
    ensures t.k != order[q]
  {
    IndexOfFinds(order, t.k);
    var r := Rank(order, t);
    assert order[r] == t.k;
    assert Differ(order, r, q);
  }

  lemma BucketOfOther(t: Tag, rest: seq<Tag>, key: string)
    requires t.k != key
    ensures Bucket([t] + rest, key) == Bucket(rest, key)
  {
    assert ([t] + rest)[0] == t && ([t] + rest)[1..] == rest;
  }

  /** Inserting a recognised tag into the grouped form of `rest` gives the
      grouped form of `[t] + rest`. */
  lemma {:induction false} InsertIntoBuckets(order: seq<string>, t: Tag, rest: seq<Tag>, q: nat)
    requires Distinct(order) && q <= Rank(order, t) < |order|
    ensures InsertByRank(order, t, BucketsFrom(order, rest, q)) == BucketsFrom(order, [t] + rest, q)
    decreases |order| - q, 1
  {
    if q < Rank(order, t) {
      InsertPastGroup(order, t, rest, q);
    } else {
      InsertAtGroup(order, t, rest, q);
    }
  }

  /** A tag of a later group passes over the group of `order[q]`. */
  lemma InsertPastGroup(order: seq<string>, t: Tag, rest: seq<Tag>, q: nat)
    requires Distinct(order) && q < Rank(order, t) < |order|
    ensures InsertByRank(order, t, BucketsFrom(order, rest, q)) == BucketsFrom(order, [t] + rest, q)
    decreases |order| - q, 0
  {
    InsertIntoBuckets(order, t, rest, q + 1);
    var b := Bucket(rest, order[q]);
    var x := BucketsFrom(order, rest, q + 1);
    var all := [t] + rest;
    assert all[0] == t && all[1..] == rest;
    assert t.k != order[q] by {
      if t.k == order[q] { RankOfOrder(order, q, t); }
    }
    assert Bucket(all, order[q]) == b;
    forall i | 0 <= i < |b| ensures Rank(order, b[i]) < Rank(order, t) {
      RankOfOrder(order, q, b[i]);
    }
    InsertSkips(order, t, b, x);
  }

  /** A tag of the group of `order[q]` goes in front of that group, which
      holds the later tags of the same key. */
  lemma InsertAtGroup(order: seq<string>, t: Tag, rest: seq<Tag>, q: nat)
    requires Distinct(order) && q == Rank(order, t) < |order|
    ensures InsertByRank(order, t, BucketsFrom(order, rest, q)) == BucketsFrom(order, [t] + rest, q)
  {
    var b := Bucket(rest, order[q]);
    var x := BucketsFrom(order, rest, q + 1);
    var all := [t] + rest;
    assert all[0] == t && all[1..] == rest;
    var bx := b + x;
    assert BucketsFrom(order, rest, q) == bx;
    IndexOfFinds(order, t.k);
    assert t.k == order[q];
    assert Bucket(all, order[q]) == [t] + b;
    BucketsSkip(order, t, rest, q + 1);
    assert BucketsFrom(order, all, q) == ([t] + b) + x;
    assert [t] + bx == ([t] + b) + x;
    BucketsRank(order, rest, q);
    if bx != [] {
      assert RanksWithin(order, bx, q);
      assert Rank(order, t) <= Rank(order, bx[0]);
    }
    assert InsertByRank(order, t, bx) == [t] + bx;
  }

  lemma {:induction false} BucketsOfEmpty(order: seq<string>, q: nat)
    requires q <= |order|
    ensures BucketsFrom(order, [], q) == []
    decreases |order| - q
  {
    if q < |order| { BucketsOfEmpty(order, q + 1); }
  }

  /** The stable sort of recognised tags is exactly the grouped order. */
  lemma {:induction false} SortIsBuckets(order: seq<string>, tags: seq<Tag>)
    requires Distinct(order)
    requires forall i :: 0 <= i < |tags| ==> tags[i].k in order
    ensures SortByRank(order, tags) == BucketsFrom(order, tags, 0)
  {
    if tags == [] {
      BucketsOfEmpty(order, 0);
    } else {
      var t, rest := tags[0], tags[1..];
      assert tags == [t] + rest;
      SortIsBuckets(order, rest);
      IndexOfFinds(order, t.k);
      InsertIntoBuckets(order, t, rest, 0);
    }
  }

  /** Dropping the tags whose key is not in `order` does not change any group. */
  lemma {:induction false} BucketOfWhitelisted(tags: seq<Tag>, order: seq<string>, key: string)
    requires key in order
    ensures Bucket(Whitelisted(tags, order), key) == Bucket(tags, key)
  {
    if tags != [] {
      var head := if tags[0].k in order then [tags[0]] else [];
      BucketOfConcat(head, Whitelisted(tags[1..], order), key);
      BucketOfWhitelisted(tags[1..], order, key);
    }
  }

  lemma {:induction false} BucketsOfWhitelisted(order: seq<string>, tags: seq<Tag>, q: nat)
    requires q <= |order|
    ensures BucketsFrom(order, Whitelisted(tags, order), q) == BucketsFrom(order, tags, q)
    decreases |order| - q
  {
    if q < |order| {
      BucketOfWhitelisted(tags, order, order[q]);
      BucketsOfWhitelisted(order, tags, q + 1);
    }
  }

  /** Filtering plus stable sort by key position, for any key order without
      repetitions: the tags of the first key, then those of the second, and
      so on, each group in source order. */
  lemma SelectByOrderIsGrouped(order: seq<string>, tags: seq<Tag>)
    requires Distinct(order)
    ensures SortByRank(order, Whitelisted(tags, order)) == BucketsFrom(order, tags, 0)
  {
    SortIsBuckets(order, Whitelisted(tags, order));
    BucketsOfWhitelisted(order, tags, 0);
  }

  /** The selected tags are the "amenity" tags, then the "shop" tags, then
      the "website" tags, then the "opening_hours" tags, each group in source
      order. */
  lemma SelectTagsIsGrouped(tags: seq<Tag>)
    ensures SelectTags(tags) ==
            Bucket(tags, "amenity") + Bucket(tags, "shop")
            + Bucket(tags, "website") + Bucket(tags, "opening_hours")
  {
    TagOrderDistinct();
    SelectByOrderIsGrouped(TagOrder, tags);
    FourBuckets(TagOrder, tags);
  }

  lemma FourBuckets(order: seq<string>, tags: seq<Tag>)
    requires |order| == 4
    ensures BucketsFrom(order, tags, 0) ==
            Bucket(tags, order[0]) + Bucket(tags, order[1]) + Bucket(tags, order[2]) + Bucket(tags, order[3])
  {
    var b0, b1, b2, b3 := Bucket(tags, order[0]), Bucket(tags, order[1]), Bucket(tags, order[2]), Bucket(tags, order[3]);
    assert BucketsFrom(order, tags, 4) == [];
    assert BucketsFrom(order, tags, 3) == b3;
    assert BucketsFrom(order, tags, 2) == b2 + b3;
    assert BucketsFrom(order, tags, 1) == b1 + (b2 + b3);
    assert BucketsFrom(order, tags, 0) == b0 + (b1 + (b2 + b3));
  }

  lemma {:induction false} BucketsSorted(order: seq<string>, tags: seq<Tag>, q: nat)
    requires Distinct(order) && q <= |order|
    ensures SortedByRank(order, BucketsFrom(order, tags, q))
    decreases |order| - q
  {
    if q < |order| {
      BucketsSorted(order, tags, q + 1);
      BucketsRank(order, tags, q + 1);
      BucketRank(order, tags, q);
      ConcatSorted(order, Bucket(tags, order[q]), BucketsFrom(order, tags, q + 1), q);
    }
  }

  /** Every tag of the group at `q` has rank `q`. */
  lemma BucketRank(order: seq<string>, tags: seq<Tag>, q: nat)
    requires Distinct(order) && q < |order|
    ensures forall i :: 0 <= i < |Bucket(tags, order[q])| ==> Rank(order, Bucket(tags, order[q])[i]) == q
  {
    var b := Bucket(tags, order[q]);
    forall i | 0 <= i < |b| ensures Rank(order, b[i]) == q {
      RankOfOrder(order, q, b[i]);
    }
  }

  /** A group of rank `q` followed by a sorted list of higher ranks is sorted. */
  lemma ConcatSorted(order: seq<string>, b: seq<Tag>, x: seq<Tag>, q: nat)
    requires forall i :: 0 <= i < |b| ==> Rank(order, b[i]) == q
    requires RanksWithin(order, x, q + 1) && SortedByRank(order, x)
    ensures SortedByRank(order, b + x)
  {
    var s := b + x;
    forall i, j | 0 <= i < j < |s| ensures Rank(order, s[i]) <= Rank(order, s[j]) {
      if j < |b| {
        assert s[i] == b[i] && s[j] == b[j];
      } else if i < |b| {
        assert s[i] == b[i] && s[j] == x[j - |b|];
      } else {
        assert s[i] == x[i - |b|] && s[j] == x[j - |b|];
      }
    }
  }

  /** Every selected tag has a recognised key, and the keys appear in
      `TagOrder` order. */
  lemma SelectTagsOrdered(tags: seq<Tag>)
    ensures var s := SelectTags(tags);
      && (forall i :: 0 <= i < |s| ==> s[i].k in TagOrder)
      && (forall i, j :: 0 <= i < j < |s| ==> Rank(TagOrder, s[i]) <= Rank(TagOrder, s[j]))
  {
    TagOrderDistinct();
    SelectByOrderIsGrouped(TagOrder, tags);
    BucketsSorted(TagOrder, tags, 0);
    BucketsRank(TagOrder, tags, 0);
  }

  lemma {:induction false} BucketOfGroup(tags: seq<Tag>, key': string, key: string)
    ensures Bucket(Bucket(tags, key'), key) == if key == key' then Bucket(tags, key) else []
  {
    if tags != [] {
      var head := if tags[0].k == key' then [tags[0]] else [];
      BucketOfConcat(head, Bucket(tags[1..], key'), key);
      BucketOfGroup(tags[1..], key', key);
    }
  }

  lemma {:induction false} BucketOfBuckets(order: seq<string>, tags: seq<Tag>, q: nat, key: string)
    requires Distinct(order) && q <= |order|
    ensures Bucket(BucketsFrom(order, tags, q), key) == if key in order[q..] then Bucket(tags, key) else []
    decreases |order| - q
  {
    if q < |order| {
      BucketOfConcat(Bucket(tags, order[q]), BucketsFrom(order, tags, q + 1), key);
      BucketOfGroup(tags, order[q], key);
      BucketOfBuckets(order, tags, q + 1, key);
      assert order[q..] == [order[q]] + order[q + 1..];
      if key == order[q] {
        assert key !in order[q + 1..] by {
          forall j | q + 1 <= j < |order| ensures order[j] != key { assert Differ(order, q, j); }
        }
        assert Bucket(BucketsFrom(order, tags, q + 1), key) == [];
      }
    }
  }

  /** Stability and completeness: the selected tags with a given key are all
      the node's tags with that key, in source order; an unrecognised key
      contributes nothing. */
  lemma SelectTagsStable(tags: seq<Tag>, key: string)
    ensures Bucket(SelectTags(tags), key) == if key in TagOrder then Bucket(tags, key) else []
  {
    TagOrderDistinct();
    SelectByOrderIsGrouped(TagOrder, tags);
    BucketOfBuckets(TagOrder, tags, 0, key);
    assert TagOrder[0..] == TagOrder;
  }

  lemma {:induction false} InsertByRankPermutes(order: seq<string>, t: Tag, s: seq<Tag>)
    ensures multiset(InsertByRank(order, t, s)) == multiset(s) + multiset{t}
  {
    if s != [] && Rank(order, t) > Rank(order, s[0]) {
      assert s == [s[0]] + s[1..];
      InsertByRankPermutes(order, t, s[1..]);
    }
  }

  lemma {:induction false} SortByRankPermutes(order: seq<string>, tags: seq<Tag>)
    ensures multiset(SortByRank(order, tags)) == multiset(tags)
  {
    if tags != [] {
      assert tags == [tags[0]] + tags[1..];
      SortByRankPermutes(order, tags[1..]);
      InsertByRankPermutes(order, tags[0], SortByRank(order, tags[1..]));
    }
  }

  /** The selected tags are a rearrangement of the recognised ones. */
  lemma SelectTagsPermutation(tags: seq<Tag>)
    ensures multiset(SelectTags(tags)) == multiset(Whitelisted(tags, TagOrder))
  {
    SortByRankPermutes(TagOrder, Whitelisted(tags, TagOrder));
  }

  /** `"\\".join(values)`. */
  function Join(values: seq<string>): (r: string)
    ensures |values| == 0 ==> r == ""
    ensures |values| > 0 ==> |r| == TotalLength(values) + |values| - 1
  {
    if |values| == 0 then ""
    else if |values| == 1 then values[0]
    else values[0] + [Marker] + Join(values[1..])
  }

  function TotalLength(values: seq<string>): nat
  {
    if values == [] then 0 else |values[0]| + TotalLength(values[1..])
  }

  lemma {:induction false} TotalLengthZero(values: seq<string>)
    ensures TotalLength(values) == 0 <==> forall i :: 0 <= i < |values| ==> values[i] == ""
  {
    if values != [] {
      TotalLengthZero(values[1..]);
      assert forall i :: 1 <= i < |values| ==> values[i] == values[1..][i - 1];
    }
  }

  /** Where value `i` starts in the joined string, counted over the values
      before it. */
  function Start(values: seq<string>, i: nat): nat
    requires i <= |values|
  {
    if i == 0 then 0 else |values[0]| + 1 + Start(values[1..], i - 1)
  }

  /** Value `i` starts after the `i` values before it and one marker after
      each of them. */
  lemma {:induction false} StartCounts(values: seq<string>, i: nat)
    requires i <= |values|
    ensures Start(values, i) == TotalLength(values[..i]) + i
  {
    if i > 0 {
      StartCounts(values[1..], i - 1);
      assert values[..i] == [values[0]] + values[1..][..i - 1];
      assert TotalLength(values[..i]) == |values[0]| + TotalLength(values[1..][..i - 1]);
    }
  }

  /** Where each value sits in the joined string: value `i` starts after
      the `i` values before it and one marker after each of them, and it is
      preceded by a marker unless it is the first. */
  lemma JoinPlaces(values: seq<string>, i: nat)
    requires i < |values|
    ensures var o := TotalLength(values[..i]) + i;
      && o + |values[i]| <= |Join(values)|
      && Join(values)[o .. o + |values[i]|] == values[i]
      && (i > 0 ==> Join(values)[o - 1] == Marker)
  {
    StartCounts(values, i);
    JoinAt(values, i);
  }

  lemma {:induction false} JoinAt(values: seq<string>, i: nat)
    requires i < |values|
    ensures Start(values, i) + |values[i]| <= |Join(values)|
    ensures Join(values)[Start(values, i) .. Start(values, i) + |values[i]|] == values[i]
    ensures i > 0 ==> Join(values)[Start(values, i) - 1] == Marker
  {
    if i > 0 {
      var rest := values[1..];
      JoinAt(rest, i - 1);
      assert rest[i - 1] == values[i];
      PlaceAfter(values[0] + [Marker], Join(rest), Join(values), Start(rest, i - 1), Start(values, i), values[i]);
    } else if |values| > 1 {
      assert Join(values) == values[0] + ([Marker] + Join(values[1..]));
      assert Join(values)[0 .. |values[0]|] == values[0];
    }
  }

  /** A value placed at `o'` in `b`, with a marker before it, is placed at
      `o = |a| + o'` in `c = a + b` when `a` ends with a marker. */
  lemma PlaceAfter(a: string, b: string, c: string, o': nat, o: nat, v: string)
    requires a != [] && a[|a| - 1] == Marker && c == a + b && o == |a| + o'
    requires o' + |v| <= |b| && b[o' .. o' + |v|] == v
    requires o' > 0 ==> b[o' - 1] == Marker
    ensures o + |v| <= |c| && c[o .. o + |v|] == v && c[o - 1] == Marker
  {
    assert c[o .. o + |v|] == b[o' .. o' + |v|];
  }

  /** The wrapped value of each selected tag. */
  function WrapAll(tags: seq<Tag>): seq<string>
  {
    seq(|tags|, i requires 0 <= i < |tags| => Wrap(tags[i].v))
  }

  /** The label the source writes into the node's `id`. */
  function Label(tags: seq<Tag>): string
  {
    Join(WrapAll(SelectTags(tags)))
  }

  /** Each selected tag's value can be read back from the label: its wrapped
      form sits at its offset, after a marker unless it is the first, and
      deleting the wrap markers from that slice gives the value. */
  lemma LabelPlaces(tags: seq<Tag>, i: nat)
    requires i < |SelectTags(tags)|
    ensures var sel := SelectTags(tags);
      var ws := WrapAll(sel);
      var o := TotalLength(ws[..i]) + i;
      && o + |ws[i]| <= |Label(tags)|
      && Label(tags)[o .. o + |ws[i]|] == Wrap(sel[i].v)
      && Unwrap(Label(tags)[o .. o + |ws[i]|], InsertCount(|sel[i].v|)) == sel[i].v
      && (i > 0 ==> Label(tags)[o - 1] == Marker)
  {
    var sel := SelectTags(tags);
    JoinPlaces(WrapAll(sel), i);
    UnwrapWrap(sel[i].v);
  }

  /** The label is empty exactly when no tag is selected, or only one whose
      value is empty; in particular a node without recognised tags gets "". */
  lemma LabelEmpty(tags: seq<Tag>)
    ensures var s := SelectTags(tags);
      Label(tags) == "" <==> (|s| == 0 || (|s| == 1 && s[0].v == ""))
  {
    var s := SelectTags(tags);
    var ws := WrapAll(s);
    TotalLengthZero(ws);
    if |s| == 1 {
      assert Wrap(s[0].v) == "" <==> s[0].v == "";
    }
  }

  lemma LabelWithoutRecognisedTags(tags: seq<Tag>)
    requires forall i :: 0 <= i < |tags| ==> tags[i].k !in TagOrder
    ensures Label(tags) == ""
  {
    NoneWhitelisted(tags);
  }

  lemma {:induction false} NoneWhitelisted(tags: seq<Tag>)
    requires forall i :: 0 <= i < |tags| ==> tags[i].k !in TagOrder
    ensures Whitelisted(tags, TagOrder) == []
  {
    if tags != [] {
      assert forall i :: 0 <= i < |tags[1..]| ==> tags[1..][i] == tags[i + 1];
      NoneWhitelisted(tags[1..]);
    }
  }

  /** The label depends only on the recognised tags of each key, in source
      order: two tag lists that agree on those get the same label. */
  lemma LabelDependsOnRecognisedTags(a: seq<Tag>, b: seq<Tag>)
    requires forall key :: key in TagOrder ==> Bucket(a, key) == Bucket(b, key)
    ensures Label(a) == Label(b)
  {
    SelectTagsIsGrouped(a);
    SelectTagsIsGrouped(b);
    assert "amenity" in TagOrder && "shop" in TagOrder;
    assert "website" in TagOrder && "opening_hours" in TagOrder;
  }

  /** Composes the label as the source's loop does: wrap each selected value
      (the inner `for i in range(…)` loop), append it, then join. */
  method ComposeLabel(tags: seq<Tag>) returns (composed: string)
    ensures composed == Label(tags)
  {
    var values := WrapValues(SelectTags(tags));
    composed := Join(values);
  }

  /** Wraps the value of each tag, one tag after the other. */
  method WrapValues(selected: seq<Tag>) returns (values: seq<string>)
    ensures values == WrapAll(selected)
  {
    values := [];
    var i := 0;
    while i < |selected|
      invariant 0 <= i <= |selected|
      invariant |values| == i
      invariant forall j :: 0 <= j < i ==> values[j] == Wrap(selected[j].v)
    {
      var value := WrapValue(selected[i].v);
      values := values + [value];
      i := i + 1;
    }
  }
}
