/**
 * The grouping of skipped records by reason for the report: a Python dict
 * from `reason_skipped` to the records carrying it, filled in one pass. The
 * dict is modelled as the sequence of its keys in insertion order together
 * with a map from key to list.
 */
module SkipGroups {
  import opened Wrappers
  import opened Extractor

  type Key = Option<Reason>

  predicate Distinct<T(==)>(s: seq<T>)
  {
    forall a, b :: 0 <= a < b < |s| ==> s[a] != s[b]
  }

  /** The index of the first occurrence of x in s. */
  function IndexOf<T(==)>(s: seq<T>, x: T): (i: nat)
    requires x in s
    ensures i < |s| && s[i] == x && x !in s[..i]
  {
    if s[0] == x then 0 else 1 + IndexOf(s[1..], x)
  }

  /** The reason of each record, in order. */
  function ReasonsOf(xs: seq<Instance>): (r: seq<Key>)
    ensures |r| == |xs|
  {
    seq(|xs|, k requires 0 <= k < |xs| => xs[k].reasonSkipped)
  }

  /** The distinct elements of s, each where it first occurs: a dict's insertion order. */
  function FirstOccurrences<T(==)>(s: seq<T>): (d: seq<T>)
  {
    if s == [] then []
    else
      var d := FirstOccurrences(s[..|s| - 1]);
      if s[|s| - 1] in d then d else d + [s[|s| - 1]]
  }

  /** The records with reason `key`, in their original order. */
  function Group(xs: seq<Instance>, key: Key): seq<Instance>
  {
    if xs == [] then []
    else Group(xs[..|xs| - 1], key) + (if xs[|xs| - 1].reasonSkipped == key then [xs[|xs| - 1]] else [])
  }

  /**
   * The key order of the dict lists each reason once, lists exactly the
   * reasons that occur, and lists them in the order of their first occurrence.
   */
  lemma {:induction false} FirstOccurrencesOrder<T>(s: seq<T>)
    ensures var d := FirstOccurrences(s);
      && Distinct(d)
      && (forall x :: x in d <==> x in s)
      && (forall a, b :: 0 <= a < b < |d| ==> IndexOf(s, d[a]) < IndexOf(s, d[b]))
  {
    if s != [] {
      var init, last := s[..|s| - 1], s[|s| - 1];
      FirstOccurrencesOrder(init);
      var d0 := FirstOccurrences(init);
      assert s == init + [last];
      forall x | x in init
        ensures IndexOf(s, x) == IndexOf(init, x)
      {
        IndexPrefix(init, last, x);
      }
      if last !in d0 {
        assert last !in init;
        IndexLast(init, last);
      }
    }
  }

  lemma {:induction false} IndexPrefix<T>(init: seq<T>, last: T, x: T)
    requires x in init
    ensures IndexOf(init + [last], x) == IndexOf(init, x)
  {
    if init[0] != x {
      assert (init + [last])[1..] == init[1..] + [last];
      IndexPrefix(init[1..], last, x);
    }
  }

  lemma {:induction false} IndexLast<T>(init: seq<T>, last: T)
    requires last !in init
    ensures IndexOf(init + [last], last) == |init|
  {
    if init != [] {
      assert (init + [last])[1..] == init[1..] + [last];
      IndexLast(init[1..], last);
    }
  }

  /** The indices of the records with reason `key`, in increasing order. */
  function GroupIndices(xs: seq<Instance>, key: Key): (idx: seq<nat>)
    ensures forall j :: 0 <= j < |idx| ==> idx[j] < |xs|
  {
    if xs == [] then []
    else
      var init := GroupIndices(xs[..|xs| - 1], key);
      if xs[|xs| - 1].reasonSkipped == key then init + [|xs| - 1] else init
  }

  /**
   * GroupIndices picks out, at increasing indices, exactly the positions of
   * the records with that reason.
   */
  lemma {:induction false} GroupIndicesExact(xs: seq<Instance>, key: Key)
    ensures var idx := GroupIndices(xs, key);
      && (forall j :: 0 <= j < |idx| ==> idx[j] < |xs| && xs[idx[j]].reasonSkipped == key)
      && (forall a, b :: 0 <= a < b < |idx| ==> idx[a] < idx[b])
      && (forall p :: 0 <= p < |xs| && xs[p].reasonSkipped == key ==> p in idx)
  {
    if xs != [] {
      var init := xs[..|xs| - 1];
      GroupIndicesExact(init, key);
    }
  }

  /**
   * A group keeps the original relative order: it is exactly the records
   * with its reason, picked out of the list at increasing indices.
   */
  lemma {:induction false} GroupKeepsOrder(xs: seq<Instance>, key: Key)
    ensures var idx := GroupIndices(xs, key);
      && |Group(xs, key)| == |idx|
      && forall j :: 0 <= j < |idx| ==> Group(xs, key)[j] == xs[idx[j]]
  {
    if xs != [] {
      var init := xs[..|xs| - 1];
      GroupKeepsOrder(init, key);
      GroupIndicesExact(init, key);
      var idx0 := GroupIndices(init, key);
      assert forall j :: 0 <= j < |idx0| ==> xs[idx0[j]] == init[idx0[j]];
    }
  }

  /** The sum of the sizes of the groups of `keys`. */
  function GroupSizes(xs: seq<Instance>, keys: seq<Key>): nat
  {
    if keys == [] then 0 else |Group(xs, keys[0])| + GroupSizes(xs, keys[1..])
  }

  lemma {:induction false} GroupSizesEmpty(keys: seq<Key>)
    ensures GroupSizes([], keys) == 0
  {
    if keys != [] {
      GroupSizesEmpty(keys[1..]);
    }
  }

  lemma {:induction false} GroupSizesAppend(xs: seq<Instance>, x: Instance, keys: seq<Key>)
    requires Distinct(keys)
    ensures GroupSizes(xs + [x], keys) == GroupSizes(xs, keys) + (if x.reasonSkipped in keys then 1 else 0)
  {
    if keys != [] {
      assert (xs + [x])[..|xs + [x]| - 1] == xs;
      GroupSizesAppend(xs, x, keys[1..]);
      assert x.reasonSkipped == keys[0] ==> x.reasonSkipped !in keys[1..];
    }
  }

  /** Groups over distinct keys that cover every reason have sizes summing to the number of records. */
  lemma {:induction false} GroupSizesPartition(xs: seq<Instance>, keys: seq<Key>)
    requires Distinct(keys)
    requires forall k :: 0 <= k < |xs| ==> xs[k].reasonSkipped in keys
    ensures GroupSizes(xs, keys) == |xs|
  {
    if xs == [] {
      GroupSizesEmpty(keys);
    } else {
      var init := xs[..|xs| - 1];
      GroupSizesPartition(init, keys);
      assert xs == init + [xs[|xs| - 1]];
      GroupSizesAppend(init, xs[|xs| - 1], keys);
    }
  }

  /** A reason that never occurs has an empty group. */
  lemma {:induction false} GroupOfAbsentKey(xs: seq<Instance>, key: Key)
    requires key !in ReasonsOf(xs)
    ensures Group(xs, key) == []
  {
    if xs != [] {
      var init := xs[..|xs| - 1];
      assert ReasonsOf(xs) == ReasonsOf(init) + [xs[|xs| - 1].reasonSkipped];
      GroupOfAbsentKey(init, key);
    }
  }

  /** Appending one record extends the reasons, the key order and its own group only. */
  lemma AppendOne(xs: seq<Instance>, x: Instance)
    ensures (xs + [x])[..|xs|] == xs
    ensures ReasonsOf(xs + [x]) == ReasonsOf(xs) + [x.reasonSkipped]
    ensures FirstOccurrences(ReasonsOf(xs + [x])) ==
      if x.reasonSkipped in FirstOccurrences(ReasonsOf(xs)) then FirstOccurrences(ReasonsOf(xs))
      else FirstOccurrences(ReasonsOf(xs)) + [x.reasonSkipped]
    ensures forall k :: Group(xs + [x], k) == Group(xs, k) + (if x.reasonSkipped == k then [x] else [])
  {
    assert (xs + [x])[..|xs|] == xs;
    assert ReasonsOf(xs + [x])[..|xs|] == ReasonsOf(xs);
  }

  /** `order` and `groups` are the dict built from the records xs. */
  ghost predicate Grouped(xs: seq<Instance>, order: seq<Key>, groups: map<Key, seq<Instance>>)
  {
    && order == FirstOccurrences(ReasonsOf(xs))
    && (forall k :: k in groups <==> k in order)
    && forall k :: k in groups ==> groups[k] == Group(xs, k)
  }

  lemma StepOrder(xs: seq<Instance>, x: Instance, order: seq<Key>, groups: map<Key, seq<Instance>>)
    requires Grouped(xs, order, groups)
    ensures var r := x.reasonSkipped;
      (if r in groups then order else order + [r]) == FirstOccurrences(ReasonsOf(xs + [x]))
  {
    AppendOne(xs, x);
    FirstOccurrencesOrder(ReasonsOf(xs));
  }

  lemma StepKeys(xs: seq<Instance>, x: Instance, order: seq<Key>, groups: map<Key, seq<Instance>>)
    requires Grouped(xs, order, groups)
    ensures var r := x.reasonSkipped;
      var o := if r in groups then order else order + [r];
      var g := groups[r := (if r in groups then groups[r] else []) + [x]];
      forall k :: k in g <==> k in o
  {
  }

  lemma StepGroups(xs: seq<Instance>, x: Instance, order: seq<Key>, groups: map<Key, seq<Instance>>)
    requires Grouped(xs, order, groups)
    ensures var r := x.reasonSkipped;
      var g := groups[r := (if r in groups then groups[r] else []) + [x]];
      forall k :: k in g ==> g[k] == Group(xs + [x], k)
  {
    AppendOne(xs, x);
    FirstOccurrencesOrder(ReasonsOf(xs));
    if x.reasonSkipped !in groups {
      GroupOfAbsentKey(xs, x.reasonSkipped);
    }
  }

  /** One iteration of the grouping loop keeps the dict equal to the grouping of the records seen. */
  lemma GroupedStep(xs: seq<Instance>, x: Instance, order: seq<Key>, groups: map<Key, seq<Instance>>)
    requires Grouped(xs, order, groups)
    ensures var r := x.reasonSkipped;
      Grouped(xs + [x],
              if r in groups then order else order + [r],
              groups[r := (if r in groups then groups[r] else []) + [x]])
  {
    StepOrder(xs, x, order, groups);
    StepKeys(xs, x, order, groups);
    StepGroups(xs, x, order, groups);
  }

  /**
   * The grouping loop of the report: for each skipped record, create its
   * reason's list on first sight and append the record to it.
   */
  method GroupByReason(skipped: seq<Instance>) returns (order: seq<Key>, groups: map<Key, seq<Instance>>)
    ensures order == FirstOccurrences(ReasonsOf(skipped))
    ensures forall k :: k in groups <==> k in order
    ensures forall k :: k in groups ==> groups[k] == Group(skipped, k)
  {
    order, groups := [], map[];
    var i := 0;
    while i < |skipped|
      invariant i <= |skipped|
      invariant Grouped(skipped[..i], order, groups)
    {
      var instance := skipped[i];
      var reason := instance.reasonSkipped;
      ghost var done, order0, groups0 := skipped[..i], order, groups;
      GroupedStep(done, instance, order0, groups0);
      if reason !in groups {
        groups := groups[reason := []];
        order := order + [reason];
      }
      groups := groups[reason := groups[reason] + [instance]];
      assert groups == groups0[reason := (if reason in groups0 then groups0[reason] else []) + [instance]];
      assert skipped[..i + 1] == done + [instance];
      i := i + 1;
    }
    assert skipped[..i] == skipped;
  }

  /**
   * The key order of the dict lists each reason once, lists exactly the
   * reasons that occur, and lists them in the order of their first occurrence.
   */
  lemma KeyOrder(skipped: seq<Instance>, order: seq<Key>)
    requires order == FirstOccurrences(ReasonsOf(skipped))
    ensures Distinct(order)
    ensures forall k :: 0 <= k < |skipped| ==> skipped[k].reasonSkipped in order
    ensures forall r :: r in order ==> exists k :: 0 <= k < |skipped| && skipped[k].reasonSkipped == r
    ensures forall r :: r in order <==> r in ReasonsOf(skipped)
    ensures forall a, b :: 0 <= a < b < |order| ==>
      IndexOf(ReasonsOf(skipped), order[a]) < IndexOf(ReasonsOf(skipped), order[b])
  {
    var rs := ReasonsOf(skipped);
    FirstOccurrencesOrder(rs);
    forall k | 0 <= k < |skipped|
      ensures skipped[k].reasonSkipped in order
    {
      assert rs[k] == skipped[k].reasonSkipped;
    }
    forall r | r in order
      ensures exists k :: 0 <= k < |skipped| && skipped[k].reasonSkipped == r
    {
      var k := IndexOf(rs, r);
      assert skipped[k].reasonSkipped == r;
    }
  }

  /**
   * Every skipped record lands in exactly one group: the group sizes sum to
   * the number of skipped records.
   */
  lemma GroupsPartition(skipped: seq<Instance>, order: seq<Key>)
    requires order == FirstOccurrences(ReasonsOf(skipped))
    ensures GroupSizes(skipped, order) == |skipped|
  {
    KeyOrder(skipped, order);
    GroupSizesPartition(skipped, order);
  }

  /**
   * Each group of the dict is non-empty and as long as the list of
   * positions of its reason's records.
   */
  lemma GroupsExact(skipped: seq<Instance>, order: seq<Key>, groups: map<Key, seq<Instance>>)
    requires order == FirstOccurrences(ReasonsOf(skipped))
    requires forall k :: k in groups <==> k in order
    requires forall k :: k in groups ==> groups[k] == Group(skipped, k)
    ensures forall k :: k in groups ==> groups[k] != [] && |groups[k]| == |GroupIndices(skipped, k)|
  {
    KeyOrder(skipped, order);
    forall k | k in groups
      ensures groups[k] != [] && |groups[k]| == |GroupIndices(skipped, k)|
    {
      GroupKeepsOrder(skipped, k);
      GroupIndicesExact(skipped, k);
      var p :| 0 <= p < |skipped| && skipped[p].reasonSkipped == k;
      assert p in GroupIndices(skipped, k);
    }
  }
}
