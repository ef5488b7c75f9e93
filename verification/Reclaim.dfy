/**
 Reclaim: a module over its allocation runs its registered pipeline over its elastic text, one
 guarded step at a time, until the text fits what the protected chunks leave.
 */
module Reclaim {
  import opened Basics
  import opened Texts
  import opened TextPasses
  import opened Counting
  import opened Truncation
  import opened Layout

  // ----- Content -----

  /** Chunk content: text, JSON null, or any other JSON value given by its serialisation. */
  datatype Content = Str(text: Text) | Null | Json(serialized: Text)

  const NULL_TEXT: Text := [Letter(0x6E, WordChar), Letter(0x75, WordChar), Letter(0x6C, WordChar),
                            Letter(0x6C, WordChar)]

  function Render(c: Content): Text {
    match c
    case Str(text) => text
    case Null => NULL_TEXT
    case Json(serialized) => serialized
  }

  function CountContent(c: Content, counts: Calibrated): nat {
    match c
    case Str(text) => counts.CountText(text)
    case Null => 0
    case Json(serialized) => counts.CountText(serialized)
  }

  datatype ChunkId = Named(name: Text) | Compressed(owner: ModuleId)

  /** `sources` is the provenance a compressed chunk carries in its metadata. */
  datatype Chunk = Chunk(id: ChunkId, content: Content, fixed: bool, pinned: bool,
                         requiredTerms: set<Text>, sources: seq<ChunkId>)

  function CountChunks(chunks: seq<Chunk>, counts: Calibrated): nat {
    if chunks == [] then 0 else CountContent(chunks[0].content, counts) + CountChunks(chunks[1..], counts)
  }

  function Rendered(chunks: seq<Chunk>): seq<Text> {
    seq(|chunks|, i requires 0 <= i < |chunks| => Render(chunks[i].content))
  }

  function Ids(chunks: seq<Chunk>): seq<ChunkId> {
    seq(|chunks|, i requires 0 <= i < |chunks| => chunks[i].id)
  }

  predicate IsProtected(m: ModuleDefinition, c: Chunk) {
    c.fixed || m.pinned || c.pinned
  }

  function Protected(m: ModuleDefinition, chunks: seq<Chunk>): seq<Chunk> {
    if chunks == [] then []
    else (if IsProtected(m, chunks[0]) then [chunks[0]] else []) + Protected(m, chunks[1..])
  }

  function Elastic(m: ModuleDefinition, chunks: seq<Chunk>): seq<Chunk> {
    if chunks == [] then []
    else (if IsProtected(m, chunks[0]) then [] else [chunks[0]]) + Elastic(m, chunks[1..])
  }

  function RequiredTerms(elastic: seq<Chunk>): set<Text> {
    set c, t | c in elastic && t in c.requiredTerms :: t
  }

  // ----- Semantic requests -----

  /** A request id fingerprints everything the request says; the digest is taken as injective. */
  datatype RequestId = RequestId(owner: ModuleId, algorithm: Algorithm, provider: Text,
                                 target: int, required: set<Text>, source: Text)

  datatype SemanticRequest = SemanticRequest(id: RequestId, options: Step)

  type SemanticResults = map<RequestId, Text>

  datatype ReclaimError =
    | ProtectedExceedsAllocation
    | NoElasticContent
    | NoProviders
    | SemanticResultMissingOrInvalid
    | TargetUnmet

  /** What stays fixed while a pipeline runs. */
  datatype Task = Task(owner: ModuleId, target: int, required: set<Text>, counts: Calibrated)

  function TrimmedNonEmpty(names: seq<Text>): seq<Text> {
    if names == [] then []
    else (if Trim(names[0]) == [] then [] else [Trim(names[0])]) + TrimmedNonEmpty(names[1..])
  }

  function ProvidersOf(step: Step): seq<Text> {
    if step.algorithm == SemanticPortfolioV1 then TrimmedNonEmpty(step.providers)
    else if step.provider.Some? then TrimmedNonEmpty([step.provider.value])
    else []
  }

  function RequestsForStep(step: Step, source: Text, task: Task): Result<seq<SemanticRequest>, ReclaimError> {
    var providers := ProvidersOf(step);
    if providers == [] then Err(NoProviders)
    else Ok(seq(|providers|, i requires 0 <= i < |providers| =>
      SemanticRequest(RequestId(task.owner, step.algorithm, providers[i], task.target, task.required, source), step)))
  }

  /** Accepted in place of `text`: not blank, not larger, and keeping every required term. */
  predicate Acceptable(candidate: Text, text: Text, task: Task) {
    && Trim(candidate) != []
    && task.counts.CountText(candidate) <= task.counts.CountText(text)
    && ContainsAll(candidate, task.required)
  }

  function Candidates(requests: seq<SemanticRequest>, results: SemanticResults, text: Text, task: Task): seq<Text> {
    if requests == [] then []
    else
      (if requests[0].id in results && Acceptable(results[requests[0].id], text, task)
       then [results[requests[0].id]] else [])
      + Candidates(requests[1..], results, text, task)
  }

  /** The first candidate of the least count. */
  function Smallest(candidates: seq<Text>, counts: Calibrated): (c: Text)
    requires candidates != []
    ensures c in candidates && forall x | x in candidates :: counts.CountText(c) <= counts.CountText(x)
  {
    if |candidates| == 1 then candidates[0]
    else
      var rest := Smallest(candidates[1..], counts);
      if counts.CountText(candidates[0]) <= counts.CountText(rest) then candidates[0] else rest
  }

  /** On ties the provider listed first wins. */
  lemma {:induction false} SmallestIsFirst(candidates: seq<Text>, counts: Calibrated) returns (k: nat)
    requires candidates != []
    ensures k < |candidates| && candidates[k] == Smallest(candidates, counts)
    ensures forall j | 0 <= j < k :: counts.CountText(candidates[j]) > counts.CountText(candidates[k])
  {
    k := 0;
    if |candidates| > 1 {
      var rest := Smallest(candidates[1..], counts);
      if counts.CountText(candidates[0]) > counts.CountText(rest) {
        var i := SmallestIsFirst(candidates[1..], counts);
        k := i + 1;
        assert forall j | 0 < j < k :: candidates[j] == candidates[1..][j - 1];
      }
    }
  }

  // ----- The deterministic passes -----

  function CompressText(algorithm: Algorithm, text: Text, target: int, counts: Calibrated): Text {
    match algorithm
    case NormalizeWhitespaceV1 => NormalizeWhitespace(text)
    case DeduplicateBlocksV1 => DeduplicateBlocks(text)
    case ExtractiveSentenceRankV1 => SelectedSentences(text, target, counts)
    case BoundaryTruncateV1 => Truncated(text, target, counts)
    case _ => text
  }

  method ApplyPass(algorithm: Algorithm, text: Text, target: int, counts: Calibrated) returns (r: Text)
    ensures r == CompressText(algorithm, text, target, counts)
  {
    match algorithm
    case NormalizeWhitespaceV1 => r := NormalizeWhitespace(text);
    case DeduplicateBlocksV1 => r := DeduplicateBlocks(text);
    case ExtractiveSentenceRankV1 => r := SelectSentences(text, target, counts);
    case BoundaryTruncateV1 => r := Truncate(text, target, counts);
    case _ => r := text;
  }

  /** A prefix cut where the next character would not have fitted, less the blanks at its end. */
  ghost predicate IsLongestFit(text: Text, target: int, counts: Calibrated, r: Text) {
    if target <= 0 then r == [] else exists k: nat :: StopsAt(text, target, counts, k) && IsTrimmedTo(text, k, r)
  }

  /** Every prefix up to `k` characters fits, and the next does not. */
  ghost predicate StopsAt(text: Text, target: int, counts: Calibrated, k: nat) {
    && k <= |text| && (forall j | 0 < j <= k :: counts.CountText(text[..j]) <= target)
    && (k < |text| ==> counts.CountText(text[..k + 1]) > target)
  }

  ghost predicate IsTrimmedTo(text: Text, k: nat, r: Text) {
    && |r| <= k <= |text| && r == text[..|r|] && AllBlank(text[|r|..k]) && (r != [] ==> !IsBlank(r[|r| - 1]))
  }

  lemma TruncatedIsLongestFit(text: Text, target: int, counts: Calibrated)
    requires !counts.CountsCharacters()
    ensures IsLongestFit(text, target, counts, Truncated(text, target, counts))
  {
    hide Counter.CountText;
    if target > 0 {
      var k := FitLength(text, target, counts, 0);
      var r := TrimEnd(text[..k]);
      assert text[..k][|r|..] == text[|r|..k];
      assert StopsAt(text, target, counts, k) && IsTrimmedTo(text, k, r);
    }
  }

  /**
   What each algorithm does to a text, whatever its name: one space between the fields; the first
   block of each kind; the leading sentences or a cut; the longest prefix that fits; nothing at all.
   */
  lemma PassesMean(text: Text, target: int, counts: Calibrated)
    ensures var r := CompressText(NormalizeWhitespaceV1, text, target, counts);
            Fields(r) == Fields(text) && |r| == Lengths(Fields(text)) + Max(0, |Fields(text)| - 1)
    ensures var kept := Blocks(CompressText(DeduplicateBlocksV1, text, target, counts));
            && (forall i, j | 0 <= i < j < |kept| :: Trim(kept[i]) != Trim(kept[j]))
            && (forall b | b in kept :: IsFirst(Blocks(text), b))
            && (forall b | b in Blocks(text) :: exists c :: c in kept && Trim(c) == Trim(b))
    ensures !counts.CountsCharacters() ==>
              IsLongestFit(text, target, counts, CompressText(BoundaryTruncateV1, text, target, counts))
    ensures forall a | a !in {NormalizeWhitespaceV1, DeduplicateBlocksV1, ExtractiveSentenceRankV1,
            BoundaryTruncateV1} ::
              CompressText(a, text, target, counts) == text
  {
    hide Fields, Blocks, Trim, IsFirst, IsLongestFit, Truncated, KeepFirst;
    NormalizeIsIdempotent(text);
    LengthOfJoin(Fields(text), [SPACE]);
    DeduplicateRoundTrip(text);
    KeepFirstMeans(Blocks(text), {});
    if !counts.CountsCharacters() {
      TruncatedIsLongestFit(text, target, counts);
    }
  }

  /** The extractive pass leaves leading sentences, trimmed and spaced, or what boundary truncation leaves. */
  lemma ExtractingMeans(text: Text, target: int, counts: Calibrated) returns (k: nat)
    requires counts.external.None? && target >= 0 && VisibleTerminators(text)
    ensures k <= |Sentences(text)|
    ensures forall j: nat | j <= |Sentences(text)| ::
              counts.CountText(Lead(Sentences(text), j)) <= target <==> j <= k
    ensures CompressText(ExtractiveSentenceRankV1, text, target, counts)
            == if Lead(Sentences(text), k) == [] then CompressText(BoundaryTruncateV1, text, target, counts)
               else Lead(Sentences(text), k)
  {
    hide Sentences, Lead, Truncated, SelectedSentences;
    k := SelectedSentencesAreLeading(text, target, counts);
  }

  /** A pass's result is kept only if it is not larger and keeps every required term. */
  function Guarded(candidate: Text, text: Text, task: Task): Text {
    if task.counts.CountText(candidate) <= task.counts.CountText(text) && ContainsAll(candidate, task.required)
    then candidate else text
  }

  function StepResult(step: Step, text: Text, task: Task): Text {
    Guarded(CompressText(step.algorithm, text, task.target, task.counts), text, task)
  }

  // ----- The pipeline -----

  /** The pipeline from step `i` on. */
  function RunFrom(steps: seq<Step>, i: nat, text: Text, task: Task,
                   results: SemanticResults): Result<Text, ReclaimError>
    decreases |steps| - i
  {
    if i >= |steps| || task.counts.CountText(text) <= task.target then Ok(text)
    else if IsSemantic(steps[i].algorithm) then
      match RequestsForStep(steps[i], text, task)
      case Err(e) => Err(e)
      case Ok(requests) =>
        var candidates := Candidates(requests, results, text, task);
        if candidates == [] then Err(SemanticResultMissingOrInvalid)
        else RunFrom(steps, i + 1, Smallest(candidates, task.counts), task, results)
    else RunFrom(steps, i + 1, StepResult(steps[i], text, task), task, results)
  }

  function TaskOf(m: ModuleDefinition, chunks: seq<Chunk>, allocation: int, counts: Calibrated): Task {
    Task(m.id, allocation - CountChunks(Protected(m, chunks), counts), RequiredTerms(Elastic(m, chunks)), counts)
  }

  function ElasticText(m: ModuleDefinition, chunks: seq<Chunk>): Text {
    Join(Rendered(Elastic(m, chunks)), BREAK)
  }

  function CompressedChunk(m: ModuleDefinition, chunks: seq<Chunk>, text: Text): Chunk {
    Chunk(Compressed(m.id), Str(text), false, false, RequiredTerms(Elastic(m, chunks)), Ids(Elastic(m, chunks)))
  }

  /** The text a reclaimed module ends with, or why it cannot be reclaimed. */
  function ReclaimedText(m: ModuleDefinition, chunks: seq<Chunk>, allocation: int,
                         results: SemanticResults, counts: Calibrated): Result<Text, ReclaimError> {
    var task := TaskOf(m, chunks, allocation, counts);
    if task.target < 0 then Err(ProtectedExceedsAllocation)
    else if Elastic(m, chunks) == [] then Err(NoElasticContent)
    else
      match RunFrom(m.pipeline, 0, ElasticText(m, chunks), task, results)
      case Err(e) => Err(e)
      case Ok(text) => if counts.CountText(text) > task.target then Err(TargetUnmet) else Ok(text)
  }

  datatype Reclaimed = Reclaimed(chunks: seq<Chunk>, tokens: int)

  function ReclaimModule(m: ModuleDefinition, chunks: seq<Chunk>, allocation: int,
                         results: SemanticResults, counts: Calibrated): Result<Reclaimed, ReclaimError> {
    match ReclaimedText(m, chunks, allocation, results, counts)
    case Err(e) => Err(e)
    case Ok(text) =>
      Ok(Reclaimed(Protected(m, chunks) + [CompressedChunk(m, chunks, text)],
                   CountChunks(Protected(m, chunks), counts) + counts.CountText(text)))
  }

  method RunPipeline(steps: seq<Step>, start: Text, task: Task, results: SemanticResults)
    returns (r: Result<Text, ReclaimError>)
    ensures r == RunFrom(steps, 0, start, task, results)
  {
    hide CompressText, Candidates, RequestsForStep, ContainsAll;
    var text := start;
    for i := 0 to |steps|
      invariant RunFrom(steps, 0, start, task, results) == RunFrom(steps, i, text, task, results)
    {
      if task.counts.CountText(text) <= task.target {
        return Ok(text);
      }
      var step := steps[i];
      if IsSemantic(step.algorithm) {
        var requests := RequestsForStep(step, text, task);
        if requests.Err? {
          return Err(requests.error);
        }
        var candidates := Candidates(requests.value, results, text, task);
        if candidates == [] {
          return Err(SemanticResultMissingOrInvalid);
        }
        text := Smallest(candidates, task.counts);
      } else {
        var candidate := ApplyPass(step.algorithm, text, task.target, task.counts);
        if task.counts.CountText(candidate) <= task.counts.CountText(text) && ContainsAll(candidate, task.required) {
          text := candidate;
        }
      }
    }
    r := Ok(text);
  }

  method CompressModule(m: ModuleDefinition, chunks: seq<Chunk>, allocation: int,
                        results: SemanticResults, counts: Calibrated)
    returns (r: Result<Reclaimed, ReclaimError>)
    ensures r == ReclaimModule(m, chunks, allocation, results, counts)
  {
    hide RunFrom, Protected, Elastic, RequiredTerms, Rendered, Join;
    var pinned, elastic := Protected(m, chunks), Elastic(m, chunks);
    var pinnedTokens := CountChunks(pinned, counts);
    if pinnedTokens > allocation {
      return Err(ProtectedExceedsAllocation);
    }
    if elastic == [] {
      return Err(NoElasticContent);
    }
    var task := Task(m.id, allocation - pinnedTokens, RequiredTerms(elastic), counts);
    var text := RunPipeline(m.pipeline, Join(Rendered(elastic), BREAK), task, results);
    if text.Err? {
      return Err(text.error);
    }
    var after := counts.CountText(text.value);
    if after > task.target {
      return Err(TargetUnmet);
    }
    r := Ok(Reclaimed(pinned + [CompressedChunk(m, chunks, text.value)], pinnedTokens + after));
  }

  // ----- The reclaim contract -----

  /** Along a pipeline the count never rises, and the text is the original or keeps every term. */
  lemma {:induction false} RunKeepsContract(steps: seq<Step>, i: nat, text: Text, task: Task, results: SemanticResults)
    ensures var end := RunFrom(steps, i, text, task, results);
            end.Ok? ==>
              && task.counts.CountText(end.value) <= task.counts.CountText(text)
              && (end.value == text || ContainsAll(end.value, task.required))
    decreases |steps| - i
  {
    if i < |steps| && task.counts.CountText(text) > task.target {
      if IsSemantic(steps[i].algorithm) {
        var requests := RequestsForStep(steps[i], text, task);
        if requests.Ok? {
          var candidates := Candidates(requests.value, results, text, task);
          CandidatesAcceptable(requests.value, results, text, task);
          if candidates != [] {
            var next := Smallest(candidates, task.counts);
            assert Acceptable(next, text, task);
            RunKeepsContract(steps, i + 1, next, task, results);
          }
        }
      } else {
        RunKeepsContract(steps, i + 1, StepResult(steps[i], text, task), task, results);
      }
    }
  }

  lemma {:induction false} CandidatesAcceptable(requests: seq<SemanticRequest>, results: SemanticResults,
                                                text: Text, task: Task)
    ensures forall c | c in Candidates(requests, results, text, task) :: Acceptable(c, text, task)
  {
    if requests != [] {
      CandidatesAcceptable(requests[1..], results, text, task);
    }
  }

  lemma {:induction false} CountOfAppend(chunks: seq<Chunk>, c: Chunk, counts: Calibrated)
    ensures CountChunks(chunks + [c], counts) == CountChunks(chunks, counts) + CountContent(c.content, counts)
  {
    if chunks == [] {
      assert chunks + [c] == [c] && [c][1..] == [];
    } else {
      assert (chunks + [c])[1..] == chunks[1..] + [c];
      CountOfAppend(chunks[1..], c, counts);
    }
  }

  /** What a reclaimed module owes its caller. */
  ghost predicate Honoured(m: ModuleDefinition, chunks: seq<Chunk>, allocation: int, counts: Calibrated, r: Reclaimed) {
    var n := |Protected(m, chunks)|;
    && |r.chunks| == n + 1 && r.chunks[..n] == Protected(m, chunks)
    && r.chunks[n].id == Compressed(m.id) && r.chunks[n].sources == Ids(Elastic(m, chunks))
    && r.chunks[n].content.Str?
    && r.tokens == CountChunks(r.chunks, counts) <= allocation
    && counts.CountText(r.chunks[n].content.text) <= counts.CountText(ElasticText(m, chunks))
    && (r.chunks[n].content.text == ElasticText(m, chunks)
        || ContainsAll(r.chunks[n].content.text, RequiredTerms(Elastic(m, chunks))))
  }

  /**
   The reclaim contract: protected chunks come out verbatim and first, one compressed chunk
   follows that names every elastic chunk as its source, the reported tokens are the recount of
   what came out and fit the allocation, and the text is the plain join of the elastic chunks or
   keeps every required term.
   */
  lemma ReclaimContract(m: ModuleDefinition, chunks: seq<Chunk>, allocation: int,
                        results: SemanticResults, counts: Calibrated)
    ensures var out := ReclaimModule(m, chunks, allocation, results, counts);
            out.Ok? ==> Honoured(m, chunks, allocation, counts, out.value)
  {
    var task := TaskOf(m, chunks, allocation, counts);
    RunKeepsContract(m.pipeline, 0, ElasticText(m, chunks), task, results);
    var out := ReclaimModule(m, chunks, allocation, results, counts);
    if out.Ok? {
      CountOfAppend(Protected(m, chunks), out.value.chunks[|Protected(m, chunks)|], counts);
    }
  }

  /** Every chunk is protected or elastic, never both. */
  lemma {:induction false} PartitionIsComplete(m: ModuleDefinition, chunks: seq<Chunk>)
    ensures multiset(Protected(m, chunks)) + multiset(Elastic(m, chunks)) == multiset(chunks)
    ensures forall c | c in Protected(m, chunks) :: c.fixed || c.pinned || m.pinned
    ensures forall c | c in Elastic(m, chunks) :: !c.fixed && !c.pinned && !m.pinned
    ensures forall c :: c in chunks <==> c in Protected(m, chunks) || c in Elastic(m, chunks)
  {
    if chunks != [] {
      PartitionIsComplete(m, chunks[1..]);
      assert chunks == [chunks[0]] + chunks[1..];
    }
  }

  /** Each side of the partition keeps the order of the chunks. */
  lemma {:induction false} PartitionKeepsOrder(m: ModuleDefinition, chunks: seq<Chunk>)
    ensures IsSubsequence(Protected(m, chunks), chunks) && IsSubsequence(Elastic(m, chunks), chunks)
  {
    if chunks != [] {
      PartitionKeepsOrder(m, chunks[1..]);
      assert ([chunks[0]] + Protected(m, chunks[1..]))[1..] == Protected(m, chunks[1..]);
      assert ([chunks[0]] + Elastic(m, chunks[1..]))[1..] == Elastic(m, chunks[1..]);
      assert [] + Protected(m, chunks[1..]) == Protected(m, chunks[1..]);
      assert [] + Elastic(m, chunks[1..]) == Elastic(m, chunks[1..]);
    }
  }

  // ----- What a reclaimed module is made of -----

  /** The wanted chunks, all of them, in their order. */
  ghost predicate IsPick(picked: seq<Chunk>, chunks: seq<Chunk>, wanted: Chunk -> bool) {
    IsSubsequence(picked, chunks) && forall c :: multiset(picked)[c] == if wanted(c) then multiset(chunks)[c] else 0
  }

  function Flagged(m: ModuleDefinition): Chunk -> bool {
    (c: Chunk) => c.fixed || c.pinned || m.pinned
  }

  function Unflagged(m: ModuleDefinition): Chunk -> bool {
    (c: Chunk) => !c.fixed && !c.pinned && !m.pinned
  }

  lemma PickCons(picked: seq<Chunk>, c: Chunk, rest: seq<Chunk>, wanted: Chunk -> bool)
    requires IsPick(picked, rest, wanted)
    ensures IsPick(if wanted(c) then [c] + picked else picked, [c] + rest, wanted)
  {
    var chunks := [c] + rest;
    assert chunks[1..] == rest;
    if wanted(c) {
      assert ([c] + picked)[1..] == picked;
    }
  }

  lemma NothingToPick(wanted: Chunk -> bool)
    ensures IsPick([], [], wanted)
  {
  }

  lemma {:induction false} PartitionIsPick(m: ModuleDefinition, chunks: seq<Chunk>)
    ensures IsPick(Protected(m, chunks), chunks, Flagged(m)) && IsPick(Elastic(m, chunks), chunks, Unflagged(m))
  {
    hide IsPick;
    if chunks == [] {
      NothingToPick(Flagged(m));
      NothingToPick(Unflagged(m));
    } else {
      var c, rest := chunks[0], chunks[1..];
      PartitionIsPick(m, rest);
      assert chunks == [c] + rest;
      PickCons(Protected(m, rest), c, rest, Flagged(m));
      PickCons(Elastic(m, rest), c, rest, Unflagged(m));
      assert [] + Protected(m, rest) == Protected(m, rest) && [] + Elastic(m, rest) == Elastic(m, rest);
    }
  }

  /** The text holds the term: something before it, and something after. */
  ghost predicate Holds(text: Text, term: Text) {
    exists before: Text, after: Text :: text == before + term + after
  }

  lemma ContainsHolds(text: Text, term: Text)
    ensures Contains(text, term) <==> Holds(text, term)
  {
    if Contains(text, term) {
      var i: nat :| i <= |text| && OccursAt(text, term, i);
      assert text == text[..i] + term + text[i + |term|..];
    }
    if Holds(text, term) {
      var before: Text, after: Text :| text == before + term + after;
      assert text[|before|..|before| + |term|] == term;
      assert OccursAt(text, term, |before|);
    }
  }

  /**
   The chunks of a reclaimed module, by their flags: those fixed or pinned, or all of a pinned
   module, come out as they went in; the others became one chunk that names them all, in order,
   owes all their terms, and holds those terms unless it is their plain join.
   */
  ghost predicate Accounts(m: ModuleDefinition, chunks: seq<Chunk>, allocation: int, counts: Calibrated,
                           r: Reclaimed, kept: seq<Chunk>, cut: seq<Chunk>) {
    && IsPick(kept, chunks, Flagged(m)) && IsPick(cut, chunks, Unflagged(m)) && cut != []
    && |r.chunks| == |kept| + 1 && r.chunks[..|kept|] == kept
    && var z := r.chunks[|kept|];
       && z.id == Compressed(m.id) && !z.fixed && !z.pinned && z.content.Str?
       && |z.sources| == |cut| && (forall i | 0 <= i < |cut| :: z.sources[i] == cut[i].id)
       && (forall t :: t in z.requiredTerms <==> exists c | c in cut :: t in c.requiredTerms)
       && (z.content.text == Join(Rendered(cut), BREAK) || forall t | t in z.requiredTerms :: Holds(z.content.text, t))
       && counts.CountText(z.content.text) <= counts.CountText(Join(Rendered(cut), BREAK))
       && r.tokens == CountChunks(kept, counts) + counts.CountText(z.content.text) <= allocation
  }

  /** Every successful reclaim accounts for every chunk it was given. */
  lemma ReclaimAccounts(m: ModuleDefinition, chunks: seq<Chunk>, allocation: int,
                        results: SemanticResults, counts: Calibrated)
    returns (kept: seq<Chunk>, cut: seq<Chunk>)
    requires ReclaimModule(m, chunks, allocation, results, counts).Ok?
    ensures Accounts(m, chunks, allocation, counts, ReclaimModule(m, chunks, allocation, results, counts).value,
                     kept, cut)
  {
    kept, cut := Protected(m, chunks), Elastic(m, chunks);
    PartitionIsPick(m, chunks);
    ReclaimContract(m, chunks, allocation, results, counts);
    var r := ReclaimModule(m, chunks, allocation, results, counts).value;
    var z := r.chunks[|kept|];
    hide IsPick, Contains, RunFrom, Protected, Elastic;
    forall t | t in z.requiredTerms && Contains(z.content.text, t) ensures Holds(z.content.text, t) {
      ContainsHolds(z.content.text, t);
    }
  }

  // ----- When reclaim must succeed -----

  predicate HasTruncateStep(steps: seq<Step>, i: nat) {
    exists j | i <= j < |steps| :: steps[j].algorithm == BoundaryTruncateV1
  }

  predicate NoSemanticStep(steps: seq<Step>) {
    forall j | 0 <= j < |steps| :: !IsSemantic(steps[j].algorithm)
  }

  /** The counters whose truncation meets its target: those that recount need only count nothing as nothing. */
  predicate TruncatesToTarget(counts: Calibrated) {
    if counts.CountsCharacters() then counts.multiplier == 1.0 else counts.CountText([]) == 0
  }

  lemma TruncationMeetsTarget(t: Text, target: int, counts: Calibrated)
    requires TruncatesToTarget(counts) && target >= 0
    ensures counts.CountText(Truncated(t, target, counts)) <= target
  {
    if counts.CountsCharacters() {
      CharTruncationMeetsTarget(t, target, counts);
    } else {
      RecountMeetsTarget(t, target, counts);
    }
  }

  lemma TruncateStepReachesTarget(step: Step, text: Text, task: Task)
    requires TruncatesToTarget(task.counts) && step.algorithm == BoundaryTruncateV1
    requires task.required == {} && task.target >= 0 && task.counts.CountText(text) > task.target
    ensures task.counts.CountText(StepResult(step, text, task)) <= task.target
  {
    TruncationMeetsTarget(text, task.target, task.counts);
  }

  lemma {:induction false} RunReachesTarget(steps: seq<Step>, i: nat, text: Text, task: Task, results: SemanticResults)
    requires NoSemanticStep(steps) && TruncatesToTarget(task.counts)
    requires task.required == {} && task.target >= 0
    requires HasTruncateStep(steps, i) || task.counts.CountText(text) <= task.target
    ensures var end := RunFrom(steps, i, text, task, results);
            end.Ok? && task.counts.CountText(end.value) <= task.target
    decreases |steps| - i
  {
    hide StepResult, TruncatesToTarget;
    if i < |steps| && task.counts.CountText(text) > task.target {
      if steps[i].algorithm == BoundaryTruncateV1 {
        TruncateStepReachesTarget(steps[i], text, task);
      }
      RunReachesTarget(steps, i + 1, StepResult(steps[i], text, task), task, results);
    }
  }

  /**
   Progress: with a counter whose truncation meets its target, a deterministic pipeline that
   includes boundary truncation always succeeds, provided nothing in the text is required, the
   protected chunks fit and there is something elastic.
   */
  lemma TruncatingPipelineSucceeds(m: ModuleDefinition, chunks: seq<Chunk>, allocation: int,
                                   results: SemanticResults, counts: Calibrated)
    requires TruncatesToTarget(counts)
    requires NoSemanticStep(m.pipeline) && HasTruncateStep(m.pipeline, 0)
    requires RequiredTerms(Elastic(m, chunks)) == {}
    ensures ReclaimModule(m, chunks, allocation, results, counts).Ok?
            <==> CountChunks(Protected(m, chunks), counts) <= allocation && Elastic(m, chunks) != []
  {
    var task := TaskOf(m, chunks, allocation, counts);
    if task.target >= 0 {
      RunReachesTarget(m.pipeline, 0, ElasticText(m, chunks), task, results);
    }
  }
}
