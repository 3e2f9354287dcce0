/**
 * The count lines of the report header: "Total memories found",
 * "Successfully extracted memories" and "Skipped memory records". The rest of
 * the report is text formatting and file output.
 */
module Report {
  import opened Extractor
  import opened ExtractorProperties
  import opened SkipGroups

  datatype HeaderCounts = HeaderCounts(totalFound: nat, extracted: nat, skipped: nat)

  /** The three numbers as the header computes them from the lists. */
  function Counts(s: Scan): HeaderCounts
  {
    HeaderCounts(|s.targets| + |s.skipped|, |s.extracted|, |s.skipped|)
  }

  /**
   * "Total memories found" is the number of marker blocks in the document,
   * and it is the sum of the other two counts.
   */
  lemma CountsAgree(blocks: seq<Block>, phrase: string)
    ensures var c := Counts(Extract(blocks, phrase));
      && c.totalFound == MarkerCount(blocks, phrase, |blocks|)
      && c.totalFound == c.extracted + c.skipped
  {
    ExactlyOneRecordPerMarker(blocks, phrase);
  }

  /**
   * Every key of the skip-reason dict built from the pass's skipped list is a
   * real reason, so the per-group header line always has a reason to print.
   */
  lemma GroupKeysAreReasons(blocks: seq<Block>, phrase: string, order: seq<Key>)
    requires order == FirstOccurrences(ReasonsOf(Extract(blocks, phrase).skipped))
    ensures forall r :: r in order ==> r.Some?
  {
    var skipped := Extract(blocks, phrase).skipped;
    KeyOrder(skipped, order);
    SkipReasons(blocks, phrase);
    forall r | r in order
      ensures r.Some?
    {
      var k :| 0 <= k < |skipped| && skipped[k].reasonSkipped == r;
      assert SkipReasonHolds(blocks, phrase, skipped[k]);
    }
  }
}
