/**
 Host-side compression in Python: the fail-open pipeline over registered algorithms, and what a set
 of algorithms must keep for every pipeline of them to keep its contract.
 */
module PythonPipeline {
  import opened Basics

  /** String-keyed values, each by its serialised form. */
  type Fields = map<string, string>

  /** What one call hands to an algorithm; the counter and the required terms are fixed by `Limits`. */
  datatype Request<+Content> = Request(content: Content, target: int, options: Fields)

  /** How the host counts, and which contents hold the required terms. */
  datatype Limits<!Content> = Limits(count: Content -> int, holdsRequired: Content -> bool)

  /** What an algorithm reports: new content, and its own token counts of before and after. */
  datatype Report<+Content> =
    Report(content: Content, before: int, after: int, status: string, lossy: bool, removed: seq<Content>, trace: Fields)

  datatype Attempt<+Content> = Raised(message: string) | Reported(report: Report<Content>)

  type Algorithm<!Content> = Request<Content> -> Attempt<Content>

  type Registry<!Content> = map<string, Algorithm<Content>>

  datatype Step = Step(id: string, options: Fields)

  /** What a pipeline has done so far. */
  datatype Progress<+Content> =
    Progress(content: Content, lossy: bool, applied: seq<string>, removed: seq<Content>, traces: seq<Fields>)

  datatype Failure = UnknownAlgorithm(id: string) | StepFailed(id: string, message: string)

  function Untouched<Content>(content: Content): Progress<Content> {
    Progress(content, false, [], [], [])
  }

  function Entry(id: string, status: string): Fields {
    map["algorithm_id" := id, "status" := status]
  }

  /** A step's request: the content so far, and the step's options over the request's own. */
  function RequestOf<Content>(r: Request<Content>, step: Step, content: Content): Request<Content> {
    Request(content, r.target, r.options + step.options)
  }

  /** A report that claims growth is turned away; any other replaces the content. */
  function Adopted<Content>(id: string, report: Report<Content>, p: Progress<Content>): Progress<Content> {
    if report.after > report.before then p.(traces := p.traces + [Entry(id, "non_monotonic_rejected")])
    else Progress(report.content, p.lossy || report.lossy, p.applied + [id], p.removed + report.removed,
                  p.traces + [Entry(id, report.status) + report.trace])
  }

  /** One step. An exception is noted and skipped when the pipeline fails open. */
  function Advanced<Content>(step: Step, registry: Registry<Content>, failOpen: bool, r: Request<Content>,
                             p: Progress<Content>): Result<Progress<Content>, Failure> {
    if step.id !in registry then Err(UnknownAlgorithm(step.id))
    else
      match registry[step.id](RequestOf(r, step, p.content))
      case Reported(report) => Ok(Adopted(step.id, report, p))
      case Raised(message) =>
        if !failOpen then Err(StepFailed(step.id, message))
        else Ok(p.(traces := p.traces + [Entry(step.id, "failed")["error" := message]]))
  }

  function PipelineFrom<Content>(steps: seq<Step>, i: nat, registry: Registry<Content>, failOpen: bool,
                                 l: Limits<Content>, r: Request<Content>, p: Progress<Content>)
    : Result<Progress<Content>, Failure>
    decreases |steps| - i
  {
    if i >= |steps| || l.count(p.content) <= r.target then Ok(p)
    else
      match Advanced(steps[i], registry, failOpen, r, p)
      case Err(e) => Err(e)
      case Ok(next) => PipelineFrom(steps, i + 1, registry, failOpen, l, r, next)
  }

  function Pipeline<Content>(steps: seq<Step>, registry: Registry<Content>, failOpen: bool, l: Limits<Content>,
                             r: Request<Content>): Result<Progress<Content>, Failure> {
    PipelineFrom(steps, 0, registry, failOpen, l, r, Untouched(r.content))
  }

  /** The pipeline's result: its progress, true counts before and after, and whether the target is met. */
  datatype Summary<+Content> = Summary(progress: Progress<Content>, before: int, after: int, status: string)

  method Execute<Content>(steps: seq<Step>, registry: Registry<Content>, failOpen: bool, l: Limits<Content>,
                          r: Request<Content>) returns (result: Result<Summary<Content>, Failure>)
    ensures match Pipeline(steps, registry, failOpen, l, r)
            case Err(e) => result == Err(e)
            case Ok(end) =>
              && result.Ok? && result.value.progress == end
              && result.value.before == l.count(r.content) && result.value.after == l.count(end.content)
              && (result.value.status == "target_met" <==> l.count(end.content) <= r.target)
              && (result.value.status == "target_unmet" <==> l.count(end.content) > r.target)
  {
    var current, before := r.content, l.count(r.content);
    var lossy: bool, applied: seq<string>, removed: seq<Content>, traces: seq<Fields> := false, [], [], [];
    var i := 0;
    while i < |steps|
      invariant 0 <= i <= |steps|
      invariant Pipeline(steps, registry, failOpen, l, r)
                == PipelineFrom(steps, i, registry, failOpen, l, r, Progress(current, lossy, applied, removed, traces))
    {
      if l.count(current) <= r.target {
        break;
      }
      var id := steps[i].id;
      if id !in registry {
        return Err(UnknownAlgorithm(id));
      }
      var attempt := registry[id](RequestOf(r, steps[i], current));
      if attempt.Raised? {
        if !failOpen {
          return Err(StepFailed(id, attempt.message));
        }
        traces := traces + [Entry(id, "failed")["error" := attempt.message]];
      } else if attempt.report.after > attempt.report.before {
        traces := traces + [Entry(id, "non_monotonic_rejected")];
      } else {
        var report := attempt.report;
        current, lossy := report.content, lossy || report.lossy;
        applied, removed := applied + [id], removed + report.removed;
        traces := traces + [Entry(id, report.status) + report.trace];
      }
      i := i + 1;
    }
    var after := l.count(current);
    result := Ok(Summary(Progress(current, lossy, applied, removed, traces), before, after,
                         if after <= r.target then "target_met" else "target_unmet"));
  }

  // ----- One step -----

  /** The request a step makes: its own options where it has them, else the caller's. */
  ghost predicate IsAskedBy<Content>(q: Request<Content>, r: Request<Content>, step: Step, content: Content) {
    && q.content == content && q.target == r.target
    && (forall key :: key in q.options <==> key in r.options || key in step.options)
    && forall key | key in q.options ::
         q.options[key] == if key in step.options then step.options[key] else r.options[key]
  }

  /** What a trace says of a step: the report's own fields, where it has them, else the id and the status. */
  ghost predicate TracesReport(trace: Fields, id: string, status: string, own: Fields) {
    && (forall key | key in own :: key in trace && trace[key] == own[key])
    && ("algorithm_id" !in own ==> "algorithm_id" in trace && trace["algorithm_id"] == id)
    && ("status" !in own ==> "status" in trace && trace["status"] == status)
  }

  /** A step's effect, told by what the algorithm does with the request it is given. */
  lemma StepMeans<Content>(step: Step, registry: Registry<Content>, failOpen: bool, r: Request<Content>,
                           p: Progress<Content>) returns (q: Request<Content>)
    requires step.id in registry
    ensures IsAskedBy(q, r, step, p.content)
    ensures var next := Advanced(step, registry, failOpen, r, p);
            match registry[step.id](q)
            case Raised(message) =>
              if !failOpen then next == Err(StepFailed(step.id, message))
              else && next.Ok? && next.value.content == p.content && next.value.lossy == p.lossy
                   && next.value.applied == p.applied && next.value.removed == p.removed
                   && |next.value.traces| == |p.traces| + 1 && p.traces <= next.value.traces
                   && TracesReport(next.value.traces[|p.traces|], step.id, "failed", map["error" := message])
            case Reported(report) =>
              && next.Ok? && |next.value.traces| == |p.traces| + 1 && p.traces <= next.value.traces
              && (report.after > report.before ==>
                    && next.value.content == p.content && next.value.lossy == p.lossy
                    && next.value.applied == p.applied && next.value.removed == p.removed
                    && TracesReport(next.value.traces[|p.traces|], step.id, "non_monotonic_rejected", map[]))
              && (report.after <= report.before ==>
                    && next.value.content == report.content && (next.value.lossy <==> p.lossy || report.lossy)
                    && |next.value.applied| == |p.applied| + 1 && p.applied <= next.value.applied
                    && next.value.applied[|p.applied|] == step.id
                    && next.value.removed == p.removed + report.removed
                    && TracesReport(next.value.traces[|p.traces|], step.id, report.status, report.trace))
  {
    q := RequestOf(r, step, p.content);
  }

  // ----- Failing open -----

  /** A pipeline that fails open stops with an error only at an id nobody registered. */
  lemma {:induction false} FailOpenNeverFails<Content>(steps: seq<Step>, i: nat, registry: Registry<Content>,
                                                       l: Limits<Content>, r: Request<Content>, p: Progress<Content>)
    ensures var end := PipelineFrom(steps, i, registry, true, l, r, p);
            end.Err? ==> end.error.UnknownAlgorithm? && end.error.id !in registry
    decreases |steps| - i
  {
    if i < |steps| && l.count(p.content) > r.target {
      var next := Advanced(steps[i], registry, true, r, p);
      if next.Ok? {
        FailOpenNeverFails(steps, i + 1, registry, l, r, next.value);
      }
    }
  }

  /** Failing closed either raises for the first failed step, or does just what failing open does. */
  lemma {:induction false} FailClosedRaisesOrAgrees<Content>(steps: seq<Step>, i: nat, registry: Registry<Content>,
                                                             l: Limits<Content>, r: Request<Content>,
                                                             p: Progress<Content>)
    ensures var closed := PipelineFrom(steps, i, registry, false, l, r, p);
            || (closed.Err? && closed.error.StepFailed?)
            || closed == PipelineFrom(steps, i, registry, true, l, r, p)
    decreases |steps| - i
  {
    if i < |steps| && l.count(p.content) > r.target {
      var next := Advanced(steps[i], registry, false, r, p);
      if next.Ok? {
        FailClosedRaisesOrAgrees(steps, i + 1, registry, l, r, next.value);
      }
    }
  }

  /** Every step reached leaves one trace; with none applied, nothing was changed, lost or removed. */
  lemma {:induction false} TracesAccount<Content>(steps: seq<Step>, i: nat, registry: Registry<Content>, failOpen: bool,
                                                  l: Limits<Content>, r: Request<Content>, p: Progress<Content>)
    requires i <= |steps| && PipelineFrom(steps, i, registry, failOpen, l, r, p).Ok?
    ensures var end := PipelineFrom(steps, i, registry, failOpen, l, r, p).value;
            && p.traces <= end.traces && p.applied <= end.applied && p.removed <= end.removed
            && |end.applied| - |p.applied| <= |end.traces| - |p.traces| <= |steps| - i
            && (|end.traces| - |p.traces| < |steps| - i ==> l.count(end.content) <= r.target)
            && (end.applied == p.applied ==> end == p.(traces := end.traces))
    decreases |steps| - i
  {
    if i < |steps| && l.count(p.content) > r.target {
      var next := Advanced(steps[i], registry, failOpen, r, p).value;
      TracesAccount(steps, i + 1, registry, failOpen, l, r, next);
    }
  }

  // ----- The contract, and which algorithms keep it -----

  /** Tokens have not risen, and the content is the one given or holds the required terms. */
  ghost predicate Kept<Content>(given: Content, content: Content, l: Limits<Content>) {
    l.count(content) <= l.count(given) && (content == given || l.holdsRequired(content))
  }

  /** Every pipeline of allowed algorithms keeps its contract, on every request. */
  ghost predicate KeepsContract<Content(!new)>(allowed: Algorithm<Content> -> bool, l: Limits<Content>) {
    forall steps: seq<Step>, registry: Registry<Content>, failOpen: bool, r: Request<Content>
      | (forall id | id in registry :: allowed(registry[id])) && Pipeline(steps, registry, failOpen, l, r).Ok? ::
      Kept(r.content, Pipeline(steps, registry, failOpen, l, r).value.content, l)
  }

  /** Asked about content over its target, a report that claims no growth tells no harm. */
  ghost predicate Harmless<Content(!new)>(algorithm: Algorithm<Content>, l: Limits<Content>) {
    forall r: Request<Content>
      | l.count(r.content) > r.target && algorithm(r).Reported? && algorithm(r).report.after
        <= algorithm(r).report.before ::
      Kept(r.content, algorithm(r).report.content, l)
  }

  lemma {:induction false} HarmlessPipeline<Content(!new)>(steps: seq<Step>, i: nat, registry: Registry<Content>,
                                                            failOpen: bool, l: Limits<Content>, r: Request<Content>,
                                                            p: Progress<Content>)
    requires forall id | id in registry :: Harmless(registry[id], l)
    requires PipelineFrom(steps, i, registry, failOpen, l, r, p).Ok?
    ensures Kept(p.content, PipelineFrom(steps, i, registry, failOpen, l, r, p).value.content, l)
    decreases |steps| - i
  {
    if i < |steps| && l.count(p.content) > r.target {
      assert Harmless(registry[steps[i].id], l);
      var asked := RequestOf(r, steps[i], p.content);
      assert asked.content == p.content && asked.target == r.target;
      var next := Advanced(steps[i], registry, failOpen, r, p).value;
      assert Kept(p.content, next.content, l);
      HarmlessPipeline(steps, i + 1, registry, failOpen, l, r, next);
    }
  }

  /** The pipeline of one step. */
  function Alone<Content>(algorithm: Algorithm<Content>): Registry<Content> {
    map["a" := algorithm]
  }

  lemma AloneAdopts<Content>(algorithm: Algorithm<Content>, l: Limits<Content>, r: Request<Content>)
    requires l.count(r.content) > r.target
    requires algorithm(r).Reported? && algorithm(r).report.after <= algorithm(r).report.before
    ensures var end := Pipeline([Step("a", map[])], Alone(algorithm), true, l, r);
            end.Ok? && end.value.content == algorithm(r).report.content
  {
    var steps := [Step("a", map[])];
    assert RequestOf(r, steps[0], r.content) == r;
    var next := Advanced(steps[0], Alone(algorithm), true, r, Untouched(r.content));
    assert PipelineFrom(steps, 1, Alone(algorithm), true, l, r, next.value) == Ok(next.value);
  }

  /** Every pipeline of a set of algorithms keeps the contract exactly when each of them is harmless. */
  lemma KeepsContractIff<Content(!new)>(allowed: Algorithm<Content> -> bool, l: Limits<Content>)
    ensures KeepsContract(allowed, l) <==> forall a: Algorithm<Content> | allowed(a) :: Harmless(a, l)
  {
    if KeepsContract(allowed, l) {
      forall a: Algorithm<Content> | allowed(a) ensures Harmless(a, l) {
        forall r: Request<Content>
          | l.count(r.content) > r.target && a(r).Reported? && a(r).report.after <= a(r).report.before
          ensures Kept(r.content, a(r).report.content, l)
        {
          AloneAdopts(a, l, r);
        }
      }
    }
    if forall a: Algorithm<Content> | allowed(a) :: Harmless(a, l) {
      forall steps: seq<Step>, registry: Registry<Content>, failOpen: bool, r: Request<Content>
        | (forall id | id in registry :: allowed(registry[id])) && Pipeline(steps, registry, failOpen, l, r).Ok?
        ensures Kept(r.content, Pipeline(steps, registry, failOpen, l, r).value.content, l)
      {
        HarmlessPipeline(steps, 0, registry, failOpen, l, r, Untouched(r.content));
      }
    }
  }

  /** An algorithm that grows its content while reporting zero and zero. */
  function Lying(): Algorithm<int> {
    (r: Request<int>) => Reported(Report(r.content + 1, 0, 0, "compressed", false, [], map[]))
  }

  const UNARY: Limits<int> := Limits((n: int) => n, (n: int) => true)

  /** It makes one token into two, past the pipeline's own check. */
  lemma MisreportsCanGrow()
    ensures !Harmless(Lying(), UNARY)
    ensures var end := Pipeline([Step("a", map[])], Alone(Lying()), true, UNARY, Request(1, 0, map[]));
            end.Ok? && end.value.content == 2
  {
    var r := Request(1, 0, map[]);
    AloneAdopts(Lying(), UNARY, r);
    assert !Kept(1, 2, UNARY);
  }

  // ----- Function algorithms -----

  /** A proposal: content, removed items and a trace; or an exception. */
  datatype Proposal<+Content> = Refused(message: string) | Proposed(content: Content, removed: seq<Content>,
                                                                    trace: Fields)

  /** The result guard: a proposal that drops a required term or grows is replaced by its input. */
  function GuardedReport<Content>(l: Limits<Content>, r: Request<Content>, proposal: Proposal<Content>,
                                  lossy: bool): Report<Content>
    requires proposal.Proposed?
  {
    var before, after := l.count(r.content), l.count(proposal.content);
    if !l.holdsRequired(proposal.content)
    then Report(r.content, before, before, "required_terms_blocked", lossy, [], proposal.trace)
    else if after > before
    then Report(r.content, before, before, "non_monotonic_rejected", lossy, [], proposal.trace)
    else Report(proposal.content, before, after, if after <= r.target then "target_met" else "compressed", lossy,
                proposal.removed, proposal.trace)
  }

  /** An algorithm made of a plain function passes its proposal through the guard. */
  function FunctionAlgorithm<Content>(l: Limits<Content>, propose: Request<Content> -> Proposal<Content>,
                                      lossy: bool): Algorithm<Content> {
    (r: Request<Content>) =>
      var proposal := propose(r);
      if proposal.Refused? then Raised(proposal.message) else Reported(GuardedReport(l, r, proposal, lossy))
  }

  /** Such an algorithm raises exactly when its function refuses, and else reports through the guard. */
  lemma FunctionAlgorithmMeans<Content>(l: Limits<Content>, propose: Request<Content> -> Proposal<Content>, lossy: bool,
                                        r: Request<Content>)
    ensures match propose(r)
            case Refused(message) => FunctionAlgorithm(l, propose, lossy)(r) == Raised(message)
            case Proposed(content, removed, trace) =>
              var attempt := FunctionAlgorithm(l, propose, lossy)(r);
              && attempt.Reported? && attempt.report.lossy == lossy && attempt.report.trace == trace
              && (attempt.report.status in {"target_met", "compressed"}
                  <==> l.holdsRequired(content) && l.count(content) <= l.count(r.content))
              && (attempt.report.status in {"target_met", "compressed"} ==>
                    attempt.report.content == content && attempt.report.removed == removed)
  {
  }

  ghost predicate IsFunctionAlgorithm<Content(!new)>(a: Algorithm<Content>, l: Limits<Content>) {
    exists propose: Request<Content> -> Proposal<Content>, lossy: bool :: a == FunctionAlgorithm(l, propose, lossy)
  }

  /** The guard's verdicts: which one it gives, and that only a kept proposal changes anything. */
  lemma GuardMeans<Content>(l: Limits<Content>, r: Request<Content>, proposal: Proposal<Content>, lossy: bool)
    requires proposal.Proposed?
    ensures var report, before, after := GuardedReport(l, r, proposal, lossy), l.count(r.content),
              l.count(proposal.content);
            && report.before == before && report.after == l.count(report.content) && report.lossy == lossy
            && report.trace == proposal.trace
            && (report.status == "required_terms_blocked" <==> !l.holdsRequired(proposal.content))
            && (report.status == "non_monotonic_rejected" <==> l.holdsRequired(proposal.content) && after > before)
            && (report.status == "target_met"
                <==> l.holdsRequired(proposal.content) && after <= before && after <= r.target)
            && (report.status == "compressed"
                <==> l.holdsRequired(proposal.content) && after <= before && after > r.target)
            && (report.status in {"required_terms_blocked", "non_monotonic_rejected"} ==>
                  report.content == r.content && report.removed == [])
            && (report.status in {"target_met", "compressed"} ==>
                  report.content == proposal.content && report.removed == proposal.removed)
  {
  }

  lemma GuardKeeps<Content>(l: Limits<Content>, r: Request<Content>, proposal: Proposal<Content>, lossy: bool)
    requires proposal.Proposed?
    ensures Kept(r.content, GuardedReport(l, r, proposal, lossy).content, l)
  {
  }

  /** Whatever their functions propose or raise, pipelines of function algorithms keep the contract. */
  lemma FunctionPipeline<Content(!new)>(l: Limits<Content>)
    ensures KeepsContract((a: Algorithm<Content>) => IsFunctionAlgorithm(a, l), l)
  {
    forall a: Algorithm<Content> | IsFunctionAlgorithm(a, l) ensures Harmless(a, l) {
      var propose: Request<Content> -> Proposal<Content>, lossy: bool :| a == FunctionAlgorithm(l, propose, lossy);
      forall r: Request<Content> | a(r).Reported? ensures Kept(r.content, a(r).report.content, l) {
        GuardKeeps(l, r, propose(r), lossy);
      }
    }
    KeepsContractIff((a: Algorithm<Content>) => IsFunctionAlgorithm(a, l), l);
  }
}
