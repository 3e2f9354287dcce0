/**
 * The marker-scan-and-classify pass of `extract_and_debug_paragraphs`.
 *
 * The parsed document is a sequence of message blocks (the `<pre class="message">`
 * elements in document order). A block is a marker block when its text contains
 * the target phrase case-insensitively and its `div.author` text contains
 * "ChatGPT". Each marker block at index i yields exactly one record: either the
 * memory stored in block i-1 is extracted, or the marker is skipped with one of
 * four reasons.
 *
 * `Step` and `ScanPrefix` state the pass one block at a time; the method
 * `ExtractAndClassify` is the loop of the source, proved equal to them.
 */
module Extractor {
  import opened Wrappers
  import opened Text

  /** The literal that the author div of a marker block must contain. */
  const AssistantName: string := "ChatGPT"

  /**
   * A block's `div.author` element: its raw `get_text()` (used for the
   * assistant test) and its `get_text(strip=True)` (recorded as the author).
   */
  datatype AuthorDiv = AuthorDiv(text: string, strippedText: string)

  /**
   * A parsed message block: its full text, its author div if it has one, and
   * the `get_text(strip=True)` of every `div` inside it, in document order
   * (the author div is among them).
   */
  datatype Block = Block(text: string, author: Option<AuthorDiv>, divTexts: seq<string>)

  datatype Reason = NoPreviousMessage | InvalidPreviousStructure | EmptyPreviousContent | DuplicateContent

  /** The `reason_skipped` string the report prints for each reason. */
  function ReasonText(r: Reason): string
  {
    match r
    case NoPreviousMessage => "No previous message (first in conversation)"
    case InvalidPreviousStructure => "Invalid previous block structure"
    case EmptyPreviousContent => "Empty previous content"
    case DuplicateContent => "Duplicate content"
  }

  /**
   * The dict of the report is keyed by these strings; distinct reasons have
   * distinct strings, so grouping by reason and by string agree.
   */
  lemma ReasonTextInjective(a: Reason, b: Reason)
    ensures ReasonText(a) == ReasonText(b) ==> a == b
  {
  }

  /**
   * The `instance_info` record of one marker block. `previousAuthor` is None
   * when the source never sets the `previous_author` key.
   */
  datatype Instance = Instance(
    position: nat,
    blockIndex: nat,
    hasPrevious: bool,
    previousContent: Option<string>,
    previousAuthor: Option<string>,
    reasonSkipped: Option<Reason>,
    blockTextPreview: string)

  /** The `message_info` record of one extracted memory. */
  datatype Memory = Memory(author: string, content: string, position: nat)

  /** The three lists the pass builds: `target_instances`, `skipped_instances`, `extracted_messages`. */
  datatype Scan = Scan(targets: seq<Instance>, skipped: seq<Instance>, extracted: seq<Memory>)

  predicate IsMarker(b: Block, phrase: string)
  {
    && Contains(Lower(b.text), Lower(phrase))
    && b.author.Some?
    && Contains(b.author.value.text, AssistantName)
  }

  /** What inspecting block i-1 on behalf of the marker at i finds. */
  datatype Probe = NoPrevious | Malformed | Found(author: string, content: string)

  function ProbePrevious(blocks: seq<Block>, i: nat): (p: Probe)
    requires i < |blocks|
    ensures p.NoPrevious? <==> i == 0
    ensures p.Malformed? <==> i > 0 && (blocks[i - 1].author.None? || |blocks[i - 1].divTexts| < 2)
    ensures p.Found? ==> p.author == blocks[i - 1].author.value.strippedText && p.content == blocks[i - 1].divTexts[1]
  {
    if i == 0 then NoPrevious
    else
      var prev := blocks[i - 1];
      if prev.author.Some? && |prev.divTexts| >= 2 then Found(prev.author.value.strippedText, prev.divTexts[1])
      else Malformed
  }

  /**
   * The `instance_info` record of the marker at i once block i-1 has been
   * inspected: `previous_content` and `previous_author` are filled in exactly
   * when block i-1 has an author div and at least two divs.
   */
  function Probed(blocks: seq<Block>, i: nat): (x: Instance)
    requires i < |blocks|
    ensures x.position == x.blockIndex == i && x.hasPrevious == (i > 0) && x.reasonSkipped == None
    ensures x.blockTextPreview == Preview(blocks[i].text)
    ensures x.previousContent.Some? <==> ProbePrevious(blocks, i).Found?
    ensures x.previousContent.Some? ==>
      x.previousContent.value == ProbePrevious(blocks, i).content && x.previousAuthor == Some(ProbePrevious(blocks, i).author)
    ensures x.previousContent.None? ==> x.previousAuthor.None?
  {
    var info := Instance(i, i, i > 0, None, None, None, Preview(blocks[i].text));
    match ProbePrevious(blocks, i)
    case Found(author, content) => info.(previousContent := Some(content), previousAuthor := Some(author))
    case _ => info
  }

  /** The contents of a list of extracted memories, as a set. */
  ghost function Contents(ms: seq<Memory>): set<string>
  {
    set m | m in ms :: m.content
  }

  /** What happens to a marker block: its memory is kept, or it is skipped for a reason. */
  datatype Outcome = Kept(author: string, content: string) | Skipped(reason: Reason)

  /**
   * The nested tests of the source for the marker at i, given the memories
   * extracted so far (whose contents are the seen set).
   */
  ghost function Classify(blocks: seq<Block>, i: nat, extracted: seq<Memory>): Outcome
    requires i < |blocks|
  {
    match ProbePrevious(blocks, i)
    case NoPrevious => Skipped(NoPreviousMessage)
    case Malformed => Skipped(InvalidPreviousStructure)
    case Found(author, content) =>
      if content == "" then Skipped(EmptyPreviousContent)
      else if content in Contents(extracted) then Skipped(DuplicateContent)
      else Kept(author, content)
  }

  /** One iteration of the source's loop, on block i. */
  ghost function Step(s: Scan, blocks: seq<Block>, phrase: string, i: nat): Scan
    requires i < |blocks|
  {
    if !IsMarker(blocks[i], phrase) then s
    else
      var info := Probed(blocks, i);
      match Classify(blocks, i, s.extracted)
      case Kept(author, content) => Scan(s.targets + [info], s.skipped, s.extracted + [Memory(author, content, i)])
      case Skipped(reason) => s.(skipped := s.skipped + [info.(reasonSkipped := Some(reason))])
  }

  /** The three lists after the loop has seen blocks[..n]. */
  ghost function ScanPrefix(blocks: seq<Block>, phrase: string, n: nat): Scan
    requires n <= |blocks|
  {
    if n == 0 then Scan([], [], [])
    else Step(ScanPrefix(blocks, phrase, n - 1), blocks, phrase, n - 1)
  }

  /** The three lists after the whole pass. */
  ghost function Extract(blocks: seq<Block>, phrase: string): Scan
  {
    ScanPrefix(blocks, phrase, |blocks|)
  }

  /**
   * The loop of `extract_and_debug_paragraphs`. `seen` is `seen_content`: it
   * stays equal to the set of extracted contents, and those stay pairwise
   * distinct.
   */
  method ExtractAndClassify(blocks: seq<Block>, phrase: string)
    returns (targets: seq<Instance>, skipped: seq<Instance>, extracted: seq<Memory>)
    ensures Scan(targets, skipped, extracted) == Extract(blocks, phrase)
    ensures forall a, b :: 0 <= a < b < |extracted| ==> extracted[a].content != extracted[b].content
  {
    targets, skipped, extracted := [], [], [];
    var seen: set<string> := {};
    var i := 0;
    while i < |blocks|
      invariant i <= |blocks|
      invariant Scan(targets, skipped, extracted) == ScanPrefix(blocks, phrase, i)
      invariant seen == Contents(extracted)
      invariant forall a, b :: 0 <= a < b < |extracted| ==> extracted[a].content != extracted[b].content
    {
      var block := blocks[i];
      var blockText := block.text;
      if Contains(Lower(blockText), Lower(phrase)) {
        var authorDiv := block.author;
        if authorDiv.Some? && Contains(authorDiv.value.text, AssistantName) {
          var info := Instance(i, i, i > 0, None, None, None, Preview(blockText));
          if i > 0 {
            var prevBlock := blocks[i - 1];
            var prevAuthorDiv := prevBlock.author;
            var prevContentDivs := prevBlock.divTexts;
            if prevAuthorDiv.Some? && |prevContentDivs| >= 2 {
              var author := prevAuthorDiv.value.strippedText;
              var content := prevContentDivs[1];
              info := info.(previousContent := Some(content), previousAuthor := Some(author));
              if content != "" {
                if content in seen {
                  info := info.(reasonSkipped := Some(DuplicateContent));
                  skipped := skipped + [info];
                } else {
                  var m := Memory(author, content, i);
                  assert Contents(extracted + [m]) == Contents(extracted) + {content};
                  extracted := extracted + [m];
                  seen := seen + {content};
                  targets := targets + [info];
                }
              } else {
                info := info.(reasonSkipped := Some(EmptyPreviousContent));
                skipped := skipped + [info];
              }
            } else {
              info := info.(reasonSkipped := Some(InvalidPreviousStructure));
              skipped := skipped + [info];
            }
          } else {
            info := info.(reasonSkipped := Some(NoPreviousMessage));
            skipped := skipped + [info];
          }
        }
      }
      i := i + 1;
    }
  }
}
