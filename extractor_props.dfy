/**
 * What the marker-scan-and-classify pass promises, proved about `ScanPrefix`
 * and `Extract` (and so, through its postcondition, about `ExtractAndClassify`).
 *
 * `Expected` is a reference definition of the outcome of a single marker
 * block, decided from the blocks alone: a content is a duplicate when some
 * EARLIER marker block offers the same content, with no mention of the seen
 * set. The lemmas show that the pass produces exactly one record per marker
 * block, in block order, each one the reference record of its block.
 */
module ExtractorProperties {
  import opened Wrappers
  import opened Text
  import opened Extractor

  /** The number of marker blocks among blocks[..n]. */
  function MarkerCount(blocks: seq<Block>, phrase: string, n: nat): (c: nat)
    requires n <= |blocks|
    ensures c <= n
  {
    if n == 0 then 0
    else MarkerCount(blocks, phrase, n - 1) + (if IsMarker(blocks[n - 1], phrase) then 1 else 0)
  }

  /** The marker block j finds content c in block j-1 (empty or not). */
  ghost predicate Offers(blocks: seq<Block>, phrase: string, j: nat, c: string)
    requires j < |blocks|
  {
    var p := ProbePrevious(blocks, j);
    IsMarker(blocks[j], phrase) && p.Found? && p.content == c
  }

  /** Some marker block before index i offers content c. */
  ghost predicate OfferedBefore(blocks: seq<Block>, phrase: string, i: nat, c: string)
    requires i <= |blocks|
  {
    exists j :: 0 <= j < i && Offers(blocks, phrase, j, c)
  }

  /** Reference definition of the outcome of the marker at i. */
  ghost function Expected(blocks: seq<Block>, phrase: string, i: nat): Outcome
    requires i < |blocks|
  {
    match ProbePrevious(blocks, i)
    case NoPrevious => Skipped(NoPreviousMessage)
    case Malformed => Skipped(InvalidPreviousStructure)
    case Found(a, c) =>
      if c == "" then Skipped(EmptyPreviousContent)
      else if OfferedBefore(blocks, phrase, i, c) then Skipped(DuplicateContent)
      else Kept(a, c)
  }

  /** Memory m, with its entry t of `target_instances`, is the reference record of its marker block. */
  ghost predicate KeptMatches(blocks: seq<Block>, phrase: string, m: Memory, t: Instance)
  {
    && m.position < |blocks|
    && IsMarker(blocks[m.position], phrase)
    && Expected(blocks, phrase, m.position) == Kept(m.author, m.content)
    && t == Probed(blocks, m.position)
  }

  /** Skipped record x is the reference record of its marker block. */
  ghost predicate SkipMatches(blocks: seq<Block>, phrase: string, x: Instance)
  {
    && x.position < |blocks|
    && IsMarker(blocks[x.position], phrase)
    && x.reasonSkipped.Some?
    && Expected(blocks, phrase, x.position) == Skipped(x.reasonSkipped.value)
    && x == Probed(blocks, x.position).(reasonSkipped := x.reasonSkipped)
  }

  ghost predicate MatchesReference(blocks: seq<Block>, phrase: string, s: Scan)
  {
    && |s.targets| == |s.extracted|
    && (forall k :: 0 <= k < |s.extracted| ==> KeptMatches(blocks, phrase, s.extracted[k], s.targets[k]))
    && (forall k :: 0 <= k < |s.skipped| ==> SkipMatches(blocks, phrase, s.skipped[k]))
  }

  /** Every memory is at a position below n, in strictly increasing position order. */
  ghost predicate MemoriesOrderedBelow(ms: seq<Memory>, n: nat)
  {
    && (forall k :: 0 <= k < |ms| ==> ms[k].position < n)
    && (forall a, b :: 0 <= a < b < |ms| ==> ms[a].position < ms[b].position)
  }

  /** Every instance is at a position below n, in strictly increasing position order. */
  ghost predicate InstancesOrderedBelow(xs: seq<Instance>, n: nat)
  {
    && (forall k :: 0 <= k < |xs| ==> xs[k].position < n)
    && (forall a, b :: 0 <= a < b < |xs| ==> xs[a].position < xs[b].position)
  }

  ghost predicate OrderedBelow(s: Scan, n: nat)
  {
    MemoriesOrderedBelow(s.extracted, n) && InstancesOrderedBelow(s.skipped, n)
  }

  /** Content c is the content of a memory in s at a position below p. */
  ghost predicate ExtractedBefore(s: Scan, p: nat, c: string)
  {
    exists e :: 0 <= e < |s.extracted| && s.extracted[e].position < p && s.extracted[e].content == c
  }

  ghost predicate InExtracted(s: Scan, j: nat)
  {
    exists k :: 0 <= k < |s.extracted| && s.extracted[k].position == j
  }

  ghost predicate InSkipped(s: Scan, j: nat)
  {
    exists k :: 0 <= k < |s.skipped| && s.skipped[k].position == j
  }

  lemma OfferedBeforeNext(blocks: seq<Block>, phrase: string, i: nat, c: string)
    requires i < |blocks|
    ensures OfferedBefore(blocks, phrase, i + 1, c) <==> OfferedBefore(blocks, phrase, i, c) || Offers(blocks, phrase, i, c)
  {
    if OfferedBefore(blocks, phrase, i + 1, c) && !Offers(blocks, phrase, i, c) {
      var j :| 0 <= j < i + 1 && Offers(blocks, phrase, j, c);
      assert j < i;
    }
  }

  lemma ContentsAppend(ms: seq<Memory>, m: Memory)
    ensures Contents(ms + [m]) == Contents(ms) + {m.content}
  {
    assert forall x :: x in ms + [m] <==> x in ms || x == m;
  }

  /** One step appends at most one record to each list, and that record is at position i. */
  lemma StepAppendsAt(s: Scan, blocks: seq<Block>, phrase: string, i: nat)
    requires i < |blocks|
    ensures var t := Step(s, blocks, phrase, i);
      && (t.extracted == s.extracted || (t.extracted == s.extracted + [t.extracted[|s.extracted|]] && t.extracted[|s.extracted|].position == i))
      && (t.skipped == s.skipped || (t.skipped == s.skipped + [t.skipped[|s.skipped|]] && t.skipped[|s.skipped|].position == i))
      && s.targets <= t.targets
  {
  }

  /** Every step only appends to the three lists. */
  lemma {:induction false} ScanPrefixGrows(blocks: seq<Block>, phrase: string, n: nat, m: nat)
    requires n <= m <= |blocks|
    ensures ScanPrefix(blocks, phrase, n).targets <= ScanPrefix(blocks, phrase, m).targets
    ensures ScanPrefix(blocks, phrase, n).skipped <= ScanPrefix(blocks, phrase, m).skipped
    ensures ScanPrefix(blocks, phrase, n).extracted <= ScanPrefix(blocks, phrase, m).extracted
    decreases m - n
  {
    if n < m {
      ScanPrefixGrows(blocks, phrase, n, m - 1);
    }
  }

  /**
   * The seen set is exactly the set of non-empty contents offered by earlier
   * marker blocks: a content is in it if and only if some marker block before
   * n offered it.
   */
  lemma {:induction false} ContentsAreOffered(blocks: seq<Block>, phrase: string, n: nat)
    requires n <= |blocks|
    ensures forall c :: c in Contents(ScanPrefix(blocks, phrase, n).extracted) <==> c != "" && OfferedBefore(blocks, phrase, n, c)
  {
    if n > 0 {
      ContentsAreOffered(blocks, phrase, n - 1);
      var s := ScanPrefix(blocks, phrase, n - 1);
      var t := ScanPrefix(blocks, phrase, n);
      assert t == Step(s, blocks, phrase, n - 1);
      var p := ProbePrevious(blocks, n - 1);
      if IsMarker(blocks[n - 1], phrase) && p.Found? && p.content != "" && p.content !in Contents(s.extracted) {
        ContentsAppend(s.extracted, Memory(p.author, p.content, n - 1));
      } else {
        assert t.extracted == s.extracted;
      }
      forall c
        ensures c in Contents(t.extracted) <==> c != "" && OfferedBefore(blocks, phrase, n, c)
      {
        OfferedBeforeNext(blocks, phrase, n - 1, c);
      }
    }
  }

  /** The source's seen-set test decides exactly as the reference definition does. */
  lemma ClassifyIsExpected(blocks: seq<Block>, phrase: string, i: nat)
    requires i < |blocks|
    ensures Classify(blocks, i, ScanPrefix(blocks, phrase, i).extracted) == Expected(blocks, phrase, i)
  {
    ContentsAreOffered(blocks, phrase, i);
  }

  /**
   * Every record of the pass is the reference record of its marker block:
   * extracted memories, target instances and skipped instances alike, and
   * `target_instances` runs in step with `extracted_messages`.
   */
  lemma {:induction false} RecordsMatchReference(blocks: seq<Block>, phrase: string, n: nat)
    requires n <= |blocks|
    ensures MatchesReference(blocks, phrase, ScanPrefix(blocks, phrase, n))
  {
    if n > 0 {
      RecordsMatchReference(blocks, phrase, n - 1);
      ClassifyIsExpected(blocks, phrase, n - 1);
    }
  }

  lemma AppendMemoryOrdered(ms: seq<Memory>, m: Memory, n: nat)
    requires MemoriesOrderedBelow(ms, n) && m.position == n
    ensures MemoriesOrderedBelow(ms + [m], n + 1)
  {
  }

  lemma AppendInstanceOrdered(xs: seq<Instance>, x: Instance, n: nat)
    requires InstancesOrderedBelow(xs, n) && x.position == n
    ensures InstancesOrderedBelow(xs + [x], n + 1)
  {
  }

  /** Both output lists are in strictly increasing block order, below n. */
  lemma {:induction false} PositionsIncrease(blocks: seq<Block>, phrase: string, n: nat)
    requires n <= |blocks|
    ensures OrderedBelow(ScanPrefix(blocks, phrase, n), n)
  {
    if n > 0 {
      PositionsIncrease(blocks, phrase, n - 1);
      var s, t := ScanPrefix(blocks, phrase, n - 1), ScanPrefix(blocks, phrase, n);
      StepAppendsAt(s, blocks, phrase, n - 1);
      if t.extracted == s.extracted {
        assert MemoriesOrderedBelow(t.extracted, n);
      } else {
        AppendMemoryOrdered(s.extracted, t.extracted[|s.extracted|], n - 1);
      }
      if t.skipped == s.skipped {
        assert InstancesOrderedBelow(t.skipped, n);
      } else {
        AppendInstanceOrdered(s.skipped, t.skipped[|s.skipped|], n - 1);
      }
    }
  }

  /** The record counts: one record per marker block among blocks[..n]. */
  lemma {:induction false} RecordCounts(blocks: seq<Block>, phrase: string, n: nat)
    requires n <= |blocks|
    ensures |ScanPrefix(blocks, phrase, n).targets| == |ScanPrefix(blocks, phrase, n).extracted|
    ensures |ScanPrefix(blocks, phrase, n).targets| + |ScanPrefix(blocks, phrase, n).skipped| == MarkerCount(blocks, phrase, n)
  {
    if n > 0 {
      RecordCounts(blocks, phrase, n - 1);
    }
  }

  /** Every marker block among blocks[..n] has a record. */
  lemma {:induction false} MarkersCovered(blocks: seq<Block>, phrase: string, n: nat)
    requires n <= |blocks|
    ensures forall j :: 0 <= j < n && IsMarker(blocks[j], phrase) ==>
      InExtracted(ScanPrefix(blocks, phrase, n), j) || InSkipped(ScanPrefix(blocks, phrase, n), j)
  {
    if n > 0 {
      MarkersCovered(blocks, phrase, n - 1);
      var s, t := ScanPrefix(blocks, phrase, n - 1), ScanPrefix(blocks, phrase, n);
      StepAppendsAt(s, blocks, phrase, n - 1);
      forall j | 0 <= j < n && IsMarker(blocks[j], phrase)
        ensures InExtracted(t, j) || InSkipped(t, j)
      {
        if j < n - 1 {
          if InExtracted(s, j) {
            var k :| 0 <= k < |s.extracted| && s.extracted[k].position == j;
            assert t.extracted[k] == s.extracted[k];
          } else {
            var k :| 0 <= k < |s.skipped| && s.skipped[k].position == j;
            assert t.skipped[k] == s.skipped[k];
          }
        } else if |t.extracted| > |s.extracted| {
          assert t.extracted[|s.extracted|].position == j;
        } else {
          assert t.skipped[|s.skipped|].position == j;
        }
      }
    }
  }

  /**
   * Exactly one record per marker block and none for any other block:
   * "Total memories found" is the number of marker blocks and equals the
   * extracted count plus the skipped count.
   */
  lemma ExactlyOneRecordPerMarker(blocks: seq<Block>, phrase: string)
    ensures |Extract(blocks, phrase).targets| == |Extract(blocks, phrase).extracted|
    ensures |Extract(blocks, phrase).extracted| + |Extract(blocks, phrase).skipped| == MarkerCount(blocks, phrase, |blocks|)
    ensures forall j :: 0 <= j < |blocks| ==>
      (IsMarker(blocks[j], phrase) <==> InExtracted(Extract(blocks, phrase), j) || InSkipped(Extract(blocks, phrase), j))
    ensures forall j :: !(InExtracted(Extract(blocks, phrase), j) && InSkipped(Extract(blocks, phrase), j))
    ensures OrderedBelow(Extract(blocks, phrase), |blocks|)
  {
    var n := |blocks|;
    var r := Extract(blocks, phrase);
    RecordCounts(blocks, phrase, n);
    MarkersCovered(blocks, phrase, n);
    RecordsMatchReference(blocks, phrase, n);
    PositionsIncrease(blocks, phrase, n);
    forall j | 0 <= j < n && (InExtracted(r, j) || InSkipped(r, j))
      ensures IsMarker(blocks[j], phrase)
    {
      if InExtracted(r, j) {
        var k :| 0 <= k < |r.extracted| && r.extracted[k].position == j;
        assert KeptMatches(blocks, phrase, r.extracted[k], r.targets[k]);
      } else {
        var k :| 0 <= k < |r.skipped| && r.skipped[k].position == j;
        assert SkipMatches(blocks, phrase, r.skipped[k]);
      }
    }
    forall a, b | 0 <= a < |r.extracted| && 0 <= b < |r.skipped|
      ensures r.extracted[a].position != r.skipped[b].position
    {
      assert KeptMatches(blocks, phrase, r.extracted[a], r.targets[a]);
      assert SkipMatches(blocks, phrase, r.skipped[b]);
    }
  }

  /**
   * Each target instance sits at the position of the memory it was recorded
   * with, so `target_instances` is in strictly increasing position order too.
   */
  lemma TargetsOrdered(blocks: seq<Block>, phrase: string)
    ensures |Extract(blocks, phrase).targets| == |Extract(blocks, phrase).extracted|
    ensures forall k :: 0 <= k < |Extract(blocks, phrase).targets| ==>
      Extract(blocks, phrase).targets[k].position == Extract(blocks, phrase).extracted[k].position
    ensures InstancesOrderedBelow(Extract(blocks, phrase).targets, |blocks|)
  {
    var r := Extract(blocks, phrase);
    RecordsMatchReference(blocks, phrase, |blocks|);
    PositionsIncrease(blocks, phrase, |blocks|);
    forall k | 0 <= k < |r.targets|
      ensures r.targets[k].position == r.extracted[k].position
    {
      assert KeptMatches(blocks, phrase, r.extracted[k], r.targets[k]);
    }
  }

  /** A marker block at position 0 is always skipped as "No previous message", with no content. */
  lemma FirstMarkerHasNoPrevious(blocks: seq<Block>, phrase: string)
    requires |blocks| > 0 && IsMarker(blocks[0], phrase)
    ensures |Extract(blocks, phrase).skipped| > 0
    ensures Extract(blocks, phrase).skipped[0].position == 0
    ensures Extract(blocks, phrase).skipped[0].reasonSkipped == Some(NoPreviousMessage)
    ensures Extract(blocks, phrase).skipped[0].previousContent == None
    ensures !InExtracted(Extract(blocks, phrase), 0)
  {
    var r := Extract(blocks, phrase);
    ExactlyOneRecordPerMarker(blocks, phrase);
    RecordsMatchReference(blocks, phrase, |blocks|);
    forall k | 0 <= k < |r.extracted|
      ensures r.extracted[k].position != 0
    {
      assert KeptMatches(blocks, phrase, r.extracted[k], r.targets[k]);
    }
    var k :| 0 <= k < |r.skipped| && r.skipped[k].position == 0;
    assert r.skipped[0].position <= r.skipped[k].position;
    assert SkipMatches(blocks, phrase, r.skipped[0]);
  }

  /**
   * Each skip reason on its own terms: "No previous message" exactly at
   * position 0; "Invalid previous block structure" exactly when block i-1 has
   * no author div or fewer than two divs; "Empty previous content" exactly
   * when the second div is empty; "Duplicate content" exactly when the second
   * div is non-empty and already offered by an earlier marker block. The
   * `previous_content` of each is None, None, "" and that content.
   */
  ghost predicate SkipReasonHolds(blocks: seq<Block>, phrase: string, x: Instance)
  {
    var i := x.position;
    && 0 <= i < |blocks|
    && x.reasonSkipped.Some?
    && (x.reasonSkipped == Some(NoPreviousMessage) <==> i == 0)
    && (x.reasonSkipped == Some(InvalidPreviousStructure) <==>
          i > 0 && (blocks[i - 1].author.None? || |blocks[i - 1].divTexts| < 2))
    && (x.reasonSkipped == Some(EmptyPreviousContent) <==>
          i > 0 && blocks[i - 1].author.Some? && |blocks[i - 1].divTexts| >= 2 && blocks[i - 1].divTexts[1] == "")
    && (x.reasonSkipped == Some(DuplicateContent) <==>
          i > 0 && blocks[i - 1].author.Some? && |blocks[i - 1].divTexts| >= 2 && blocks[i - 1].divTexts[1] != ""
          && OfferedBefore(blocks, phrase, i, blocks[i - 1].divTexts[1]))
    && (x.reasonSkipped == Some(NoPreviousMessage) || x.reasonSkipped == Some(InvalidPreviousStructure) ==> x.previousContent == None)
    && (x.reasonSkipped == Some(EmptyPreviousContent) ==> x.previousContent == Some(""))
    && (x.reasonSkipped == Some(DuplicateContent) ==> x.previousContent == Some(blocks[i - 1].divTexts[1]))
  }

  lemma SkipReasons(blocks: seq<Block>, phrase: string)
    ensures forall k :: 0 <= k < |Extract(blocks, phrase).skipped| ==>
      SkipReasonHolds(blocks, phrase, Extract(blocks, phrase).skipped[k])
  {
    var r := Extract(blocks, phrase);
    RecordsMatchReference(blocks, phrase, |blocks|);
    forall k | 0 <= k < |r.skipped|
      ensures SkipReasonHolds(blocks, phrase, r.skipped[k])
    {
      assert SkipMatches(blocks, phrase, r.skipped[k]);
    }
  }

  /**
   * Extracted contents are non-empty and pairwise distinct; each one is the
   * second div of the block before its marker, and the author is that block's
   * stripped author text.
   */
  ghost predicate FromPreviousBlock(blocks: seq<Block>, m: Memory)
  {
    && 0 < m.position < |blocks|
    && m.content != ""
    && blocks[m.position - 1].author.Some?
    && |blocks[m.position - 1].divTexts| >= 2
    && m.content == blocks[m.position - 1].divTexts[1]
    && m.author == blocks[m.position - 1].author.value.strippedText
  }

  lemma ExtractedContents(blocks: seq<Block>, phrase: string)
    ensures forall k :: 0 <= k < |Extract(blocks, phrase).extracted| ==>
      FromPreviousBlock(blocks, Extract(blocks, phrase).extracted[k])
    ensures forall a, b :: 0 <= a < b < |Extract(blocks, phrase).extracted| ==>
      Extract(blocks, phrase).extracted[a].content != Extract(blocks, phrase).extracted[b].content
  {
    var r := Extract(blocks, phrase);
    RecordsMatchReference(blocks, phrase, |blocks|);
    PositionsIncrease(blocks, phrase, |blocks|);
    forall k | 0 <= k < |r.extracted|
      ensures FromPreviousBlock(blocks, r.extracted[k])
    {
      assert KeptMatches(blocks, phrase, r.extracted[k], r.targets[k]);
    }
    forall a, b | 0 <= a < b < |r.extracted|
      ensures r.extracted[a].content != r.extracted[b].content
    {
      assert KeptMatches(blocks, phrase, r.extracted[a], r.targets[a]);
      assert KeptMatches(blocks, phrase, r.extracted[b], r.targets[b]);
      var pa, pb := r.extracted[a].position, r.extracted[b].position;
      assert Offers(blocks, phrase, pa, r.extracted[a].content);
      assert OfferedBefore(blocks, phrase, pb, r.extracted[a].content);
    }
  }

  /**
   * First occurrence wins: when two marker blocks i < j offer the same
   * non-empty content, the later one is skipped as "Duplicate content" with
   * that content as `previous_content`, never extracted.
   */
  lemma FirstWins(blocks: seq<Block>, phrase: string, i: nat, j: nat, c: string)
    requires i < j < |blocks|
    requires c != "" && Offers(blocks, phrase, i, c) && Offers(blocks, phrase, j, c)
    ensures !InExtracted(Extract(blocks, phrase), j)
    ensures exists k :: (0 <= k < |Extract(blocks, phrase).skipped| &&
      Extract(blocks, phrase).skipped[k].position == j &&
      Extract(blocks, phrase).skipped[k].reasonSkipped == Some(DuplicateContent) &&
      Extract(blocks, phrase).skipped[k].previousContent == Some(c))
  {
    var r := Extract(blocks, phrase);
    assert OfferedBefore(blocks, phrase, j, c);
    assert Expected(blocks, phrase, j) == Skipped(DuplicateContent);
    ExactlyOneRecordPerMarker(blocks, phrase);
    RecordsMatchReference(blocks, phrase, |blocks|);
    forall k | 0 <= k < |r.extracted|
      ensures r.extracted[k].position != j
    {
      assert KeptMatches(blocks, phrase, r.extracted[k], r.targets[k]);
    }
    var k :| 0 <= k < |r.skipped| && r.skipped[k].position == j;
    assert SkipMatches(blocks, phrase, r.skipped[k]);
  }

  /** The first marker block to offer a non-empty content extracts it. */
  lemma FirstOfferIsExtracted(blocks: seq<Block>, phrase: string, i: nat, c: string)
    requires i < |blocks|
    requires c != "" && Offers(blocks, phrase, i, c) && !OfferedBefore(blocks, phrase, i, c)
    ensures exists k :: (0 <= k < |Extract(blocks, phrase).extracted| &&
      Extract(blocks, phrase).extracted[k].position == i &&
      Extract(blocks, phrase).extracted[k].content == c)
  {
    var r := Extract(blocks, phrase);
    assert Expected(blocks, phrase, i) == Kept(ProbePrevious(blocks, i).author, c);
    ExactlyOneRecordPerMarker(blocks, phrase);
    RecordsMatchReference(blocks, phrase, |blocks|);
    forall k | 0 <= k < |r.skipped|
      ensures r.skipped[k].position != i
    {
      assert SkipMatches(blocks, phrase, r.skipped[k]);
    }
    var k :| 0 <= k < |r.extracted| && r.extracted[k].position == i;
    assert KeptMatches(blocks, phrase, r.extracted[k], r.targets[k]);
  }

  /**
   * Every "Duplicate content" record has its original among the extracted
   * memories, at an earlier position.
   */
  lemma DuplicateHasEarlierOriginal(blocks: seq<Block>, phrase: string, k: nat)
    requires k < |Extract(blocks, phrase).skipped|
    requires Extract(blocks, phrase).skipped[k].reasonSkipped == Some(DuplicateContent)
    ensures Extract(blocks, phrase).skipped[k].previousContent.Some?
    ensures ExtractedBefore(Extract(blocks, phrase), Extract(blocks, phrase).skipped[k].position,
                            Extract(blocks, phrase).skipped[k].previousContent.value)
  {
    var r := Extract(blocks, phrase);
    RecordsMatchReference(blocks, phrase, |blocks|);
    assert SkipMatches(blocks, phrase, r.skipped[k]);
    var p := r.skipped[k].position;
    var c := r.skipped[k].previousContent.value;
    assert c != "" && OfferedBefore(blocks, phrase, p, c);
    OfferedIsExtractedBefore(blocks, phrase, p, c);
  }

  /** An offered non-empty content was extracted by a marker block before p. */
  lemma OfferedIsExtractedBefore(blocks: seq<Block>, phrase: string, p: nat, c: string)
    requires p <= |blocks|
    requires c != "" && OfferedBefore(blocks, phrase, p, c)
    ensures ExtractedBefore(Extract(blocks, phrase), p, c)
  {
    ContentsAreOffered(blocks, phrase, p);
    PositionsIncrease(blocks, phrase, p);
    ScanPrefixGrows(blocks, phrase, p, |blocks|);
    var before := ScanPrefix(blocks, phrase, p).extracted;
    var m :| m in before && m.content == c;
    var e :| 0 <= e < |before| && before[e] == m;
    assert Extract(blocks, phrase).extracted[e] == m;
  }
}
