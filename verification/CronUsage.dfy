/** Aggregation of cron run logs per job and model (scripts/cron_usage_report.ts). */
module CronUsage {
  import opened JsText
  import opened Sequences

  datatype Usage = Usage(inputTokens: Option<real>, outputTokens: Option<real>, totalTokens: Option<real>)

  datatype LogEntry = LogEntry(ts: real, jobId: Text, model: Option<Text>, usage: Option<Usage>)

  datatype Query = Query(fromMs: real, toMs: real, jobId: Text, model: Text)

  /** "<unknown>" */
  const UNKNOWN: Text := [0x3C, 0x75, 0x6E, 0x6B, 0x6E, 0x6F, 0x77, 0x6E, 0x3E]

  function ModelOf(e: LogEntry): Text {
    var t := Trim(if e.model.Some? then e.model.value else UNKNOWN);
    if t == [] then UNKNOWN else t
  }

  predicate Matches(q: Query, e: LogEntry) {
    && q.fromMs <= e.ts <= q.toMs
    && (q.jobId != [] ==> e.jobId == q.jobId)
    && (q.model != [] ==> ModelOf(e) == q.model)
  }

  datatype Counts = Counts(runs: nat, missingUsageRuns: nat, inputTokens: nat, outputTokens: nat, totalTokens: nat)

  const ZERO := Counts(0, 0, 0, 0, 0)

  function Plus(a: Counts, b: Counts): Counts {
    Counts(a.runs + b.runs, a.missingUsageRuns + b.missingUsageRuns, a.inputTokens + b.inputTokens,
           a.outputTokens + b.outputTokens, a.totalTokens + b.totalTokens)
  }

  /** `Math.max(0, Math.trunc(x))` */
  function Tokens(x: real): nat { if x < 0.0 then 0 else x.Floor }

  predicate HasUsage(e: LogEntry) {
    && e.usage.Some?
    && var u := e.usage.value; u.totalTokens.Some? || u.inputTokens.Some? || u.outputTokens.Some?
  }

  function OrZero(x: Option<real>): real { if x.Some? then x.value else 0.0 }

  /** What one entry adds. */
  function Contribution(e: LogEntry): Counts {
    if !HasUsage(e) then Counts(1, 1, 0, 0, 0)
    else
      var u := e.usage.value;
      var input, output := Tokens(OrZero(u.inputTokens)), Tokens(OrZero(u.outputTokens));
      Counts(1, 0, input, output, if u.totalTokens.Some? then Tokens(u.totalTokens.value) else input + output)
  }

  datatype JobTotals = JobTotals(counts: Counts, models: map<Text, Counts>)

  /** The sum over the matching entries of one job. */
  function JobSum(q: Query, log: seq<LogEntry>, job: Text): Counts {
    if log == [] then ZERO
    else
      var rest, e := JobSum(q, log[..|log| - 1], job), log[|log| - 1];
      if Matches(q, e) && e.jobId == job then Plus(rest, Contribution(e)) else rest
  }

  /** The sum over the matching entries of one job and model. */
  function ModelSum(q: Query, log: seq<LogEntry>, job: Text, model: Text): Counts {
    if log == [] then ZERO
    else
      var rest, e := ModelSum(q, log[..|log| - 1], job, model), log[|log| - 1];
      if Matches(q, e) && e.jobId == job && ModelOf(e) == model then Plus(rest, Contribution(e)) else rest
  }

  predicate Mentions(q: Query, log: seq<LogEntry>, job: Text) {
    exists e :: e in log && Matches(q, e) && e.jobId == job
  }

  predicate MentionsModel(q: Query, log: seq<LogEntry>, job: Text, model: Text) {
    exists e :: e in log && Matches(q, e) && e.jobId == job && ModelOf(e) == model
  }

  /** What the totals hold for one job and model. */
  ghost predicate ExactFor(q: Query, log: seq<LogEntry>, totals: map<Text, JobTotals>, job: Text, model: Text) {
    && (job in totals <==> Mentions(q, log, job))
    && (job in totals ==>
          && totals[job].counts == JobSum(q, log, job)
          && (model in totals[job].models <==> MentionsModel(q, log, job, model))
          && (model in totals[job].models ==> totals[job].models[model] == ModelSum(q, log, job, model)))
  }

  /** The totals are exactly the sums over the raw entries, for exactly the jobs and models that occur
      in matching entries. */
  ghost predicate Exact(q: Query, log: seq<LogEntry>, totals: map<Text, JobTotals>) {
    forall job, model :: ExactFor(q, log, totals, job, model)
  }

  lemma MentionsStep(q: Query, log: seq<LogEntry>, e: LogEntry, job: Text, model: Text)
    ensures Mentions(q, log + [e], job) <==> Mentions(q, log, job) || (Matches(q, e) && e.jobId == job)
    ensures MentionsModel(q, log + [e], job, model)
       <==> MentionsModel(q, log, job, model) || (Matches(q, e) && e.jobId == job && ModelOf(e) == model)
  {
    hide Matches, ModelOf;
    var all := log + [e];
    assert all[|log|] == e;
    assert forall x :: x in all <==> x in log || x == e;
    assert e in all;
  }

  lemma SumStep(q: Query, log: seq<LogEntry>, e: LogEntry, job: Text, model: Text)
    ensures JobSum(q, log + [e], job)
         == if Matches(q, e) && e.jobId == job then Plus(JobSum(q, log, job), Contribution(e))
            else JobSum(q, log, job)
    ensures ModelSum(q, log + [e], job, model)
         == if Matches(q, e) && e.jobId == job && ModelOf(e) == model
             then Plus(ModelSum(q, log, job, model), Contribution(e))
            else ModelSum(q, log, job, model)
  {
    hide Matches, ModelOf, Contribution;
    assert (log + [e])[..|log|] == log;
  }

  // ---- what one entry adds, in numbers ------------------------------------------------------------

  /** The model is the trimmed name, or "<unknown>" when there is none or a blank one. */
  lemma ModelIs(e: LogEntry)
    ensures e.model.None? || AllWhitespace(e.model.value) ==>
              ModelOf(e) == [0x3C, 0x75, 0x6E, 0x6B, 0x6E, 0x6F, 0x77, 0x6E, 0x3E]
    ensures e.model.Some? && !AllWhitespace(e.model.value) ==> ModelOf(e) == Trim(e.model.value)
  {
    UnknownIsTrimmed();
    hide AllWhitespace, Trim;
  }

  lemma UnknownIsTrimmed()
    ensures Trim(UNKNOWN) == UNKNOWN
  {
    TrimFixpoint(UNKNOWN);
    hide Trim;
    assert UNKNOWN[0] == 0x3C && UNKNOWN[8] == 0x3E;
  }

  /** The entry lies before or after the window, or another job or model was asked for. */
  predicate FilteredOut(q: Query, e: LogEntry) {
    || e.ts < q.fromMs || e.ts > q.toMs
    || (q.jobId != [] && e.jobId != q.jobId)
    || (q.model != [] && ModelOf(e) != q.model)
  }

  /** `n` is the whole part of the count; a missing or negative one counts as 0. */
  predicate WholePart(x: Option<real>, n: nat) {
    if x.None? || x.value < 1.0 then n == 0 else n as real <= x.value < n as real + 1.0
  }

  predicate NoCounts(e: LogEntry) { e.usage.None? || e.usage.value == Usage(None, None, None) }

  /** From `s` to `s'` one run is counted: as one without usage when it reports no count at all, and else
      with the whole parts of its counts, the total being the sum of the other two where it is missing. */
  predicate CountsOne(s: Counts, s': Counts, e: LogEntry) {
    && s'.runs == s.runs + 1
    && if NoCounts(e) then s' == s.(runs := s'.runs, missingUsageRuns := s.missingUsageRuns + 1)
       else
         && s'.missingUsageRuns == s.missingUsageRuns
         && s.inputTokens <= s'.inputTokens && s.outputTokens <= s'.outputTokens && s.totalTokens <= s'.totalTokens
         && var input, output := s'.inputTokens - s.inputTokens, s'.outputTokens - s.outputTokens;
            && WholePart(e.usage.value.inputTokens, input) && WholePart(e.usage.value.outputTokens, output)
            && if e.usage.value.totalTokens.Some? then
                 WholePart(e.usage.value.totalTokens, s'.totalTokens - s.totalTokens)
               else s'.totalTokens - s.totalTokens == input + output
  }

  lemma TokensAreWhole(x: Option<real>)
    ensures WholePart(x, Tokens(OrZero(x)))
  {
  }

  lemma ContributionCountsOne(s: Counts, e: LogEntry)
    ensures CountsOne(s, Plus(s, Contribution(e)), e)
  {
    if e.usage.Some? {
      TokensAreWhole(e.usage.value.inputTokens);
      TokensAreWhole(e.usage.value.outputTokens);
      TokensAreWhole(e.usage.value.totalTokens);
    }
    hide Tokens, WholePart;
  }

  /** One more entry changes nothing when it is filtered out, and is counted once for its job and once
      for its model otherwise. */
  lemma EntryCountsOnce(q: Query, log: seq<LogEntry>, e: LogEntry)
    ensures var job, model := e.jobId, ModelOf(e);
            if FilteredOut(q, e) then
              && JobSum(q, log + [e], job) == JobSum(q, log, job)
              && ModelSum(q, log + [e], job, model) == ModelSum(q, log, job, model)
            else
              && CountsOne(JobSum(q, log, job), JobSum(q, log + [e], job), e)
              && CountsOne(ModelSum(q, log, job, model), ModelSum(q, log + [e], job, model), e)
  {
    var job, model := e.jobId, ModelOf(e);
    SumStep(q, log, e, job, model);
    ContributionCountsOne(JobSum(q, log, job), e);
    ContributionCountsOne(ModelSum(q, log, job, model), e);
    hide JobSum, ModelSum, CountsOne, Contribution, Plus, ModelOf;
  }

  lemma {:induction false} UnmentionedSumIsZero(q: Query, log: seq<LogEntry>, job: Text, model: Text)
    ensures !Mentions(q, log, job) ==> JobSum(q, log, job) == ZERO
    ensures !MentionsModel(q, log, job, model) ==> ModelSum(q, log, job, model) == ZERO
  {
    hide Matches, ModelOf, Contribution;
    if log != [] {
      var rest, e := log[..|log| - 1], log[|log| - 1];
      assert log == rest + [e];
      UnmentionedSumIsZero(q, rest, job, model);
      MentionsStep(q, rest, e, job, model);
    }
  }

  /** One entry of the loop. */
  function Record(q: Query, totals: map<Text, JobTotals>, e: LogEntry): map<Text, JobTotals> {
    if !Matches(q, e) then totals
    else
      var job := if e.jobId in totals then totals[e.jobId] else JobTotals(ZERO, map[]);
      var row := if ModelOf(e) in job.models then job.models[ModelOf(e)] else ZERO;
      totals[e.jobId := JobTotals(Plus(job.counts, Contribution(e)),
          job.models[ModelOf(e) := Plus(row, Contribution(e))])]
  }

  lemma RecordExactFor(q: Query, log: seq<LogEntry>, totals: map<Text, JobTotals>, e: LogEntry, job: Text, model: Text)
    requires ExactFor(q, log, totals, job, model) && ExactFor(q, log, totals, job, ModelOf(e))
    ensures ExactFor(q, log + [e], Record(q, totals, e), job, model)
  {
    hide Matches, ModelOf, Contribution, Mentions, MentionsModel, JobSum, ModelSum;
    MentionsStep(q, log, e, job, model);
    SumStep(q, log, e, job, model);
    UnmentionedSumIsZero(q, log, job, model);
    NoJobNoModel(q, log, job, model);
  }

  lemma NoJobNoModel(q: Query, log: seq<LogEntry>, job: Text, model: Text)
    ensures MentionsModel(q, log, job, model) ==> Mentions(q, log, job)
  {
    hide Matches, ModelOf;
  }

  lemma RecordExact(q: Query, log: seq<LogEntry>, totals: map<Text, JobTotals>, e: LogEntry)
    requires Exact(q, log, totals)
    ensures Exact(q, log + [e], Record(q, totals, e))
  {
    hide ExactFor, Record, ModelOf;
    forall job, model ensures ExactFor(q, log + [e], Record(q, totals, e), job, model) {
      assert ExactFor(q, log, totals, job, model) && ExactFor(q, log, totals, job, ModelOf(e));
      RecordExactFor(q, log, totals, e, job, model);
    }
  }

  lemma NothingRecorded(q: Query)
    ensures Exact(q, [], map[])
  {
  }

  /** The loop over the entries, updating the nested totals in place. */
  method Aggregate(q: Query, log: seq<LogEntry>) returns (totalsByJob: map<Text, JobTotals>)
    ensures Exact(q, log, totalsByJob)
  {
    hide Exact, Record;
    totalsByJob := map[];
    NothingRecorded(q);
    for i := 0 to |log|
      invariant Exact(q, log[..i], totalsByJob)
    {
      assert log[..i + 1] == log[..i] + [log[i]];
      RecordExact(q, log[..i], totalsByJob, log[i]);
      totalsByJob := RecordEntry(q, totalsByJob, log[i]);
    }
    assert log[..|log|] == log;
  }

  /** The body of the loop over the log entries. */
  method RecordEntry(q: Query, totals: map<Text, JobTotals>, entry: LogEntry)
    returns (totalsByJob: map<Text, JobTotals>)
    ensures totalsByJob == Record(q, totals, entry)
  {
    totalsByJob := totals;
    RecordIs(q, totals, entry);
    hide Matches, ModelOf, Record, Contribution, Plus;
    if !Matches(q, entry) {
      return;
    }
    var model, jobId := ModelOf(entry), entry.jobId;
    var jobAgg := if jobId in totalsByJob then totalsByJob[jobId] else JobTotals(ZERO, map[]);
    var modelAgg := if model in jobAgg.models then jobAgg.models[model] else ZERO;
    var jobCounts := jobAgg.counts.(runs := jobAgg.counts.runs + 1);
    var modelCounts := modelAgg.(runs := modelAgg.runs + 1);
    if !HasUsage(entry) {
      jobCounts := jobCounts.(missingUsageRuns := jobCounts.missingUsageRuns + 1);
      modelCounts := modelCounts.(missingUsageRuns := modelCounts.missingUsageRuns + 1);
      UsageMissing(jobAgg.counts, entry);
      UsageMissing(modelAgg, entry);
    } else {
      var usage := entry.usage.value;
      var input := Tokens(OrZero(usage.inputTokens));
      var output := Tokens(OrZero(usage.outputTokens));
      var total := if usage.totalTokens.Some? then Tokens(usage.totalTokens.value) else input + output;
      UsagePresent(jobAgg.counts, entry);
      UsagePresent(modelAgg, entry);
      hide Tokens, OrZero;
      jobCounts := jobCounts.(inputTokens := jobCounts.inputTokens + input,
          outputTokens := jobCounts.outputTokens + output,
                              totalTokens := jobCounts.totalTokens + total);
      modelCounts := modelCounts.(inputTokens := modelCounts.inputTokens + input,
          outputTokens := modelCounts.outputTokens + output,
                                  totalTokens := modelCounts.totalTokens + total);
    }
    totalsByJob := totalsByJob[jobId := JobTotals(jobCounts, jobAgg.models[model := modelCounts])];
  }

  lemma RecordIs(q: Query, totals: map<Text, JobTotals>, e: LogEntry)
    ensures !Matches(q, e) ==> Record(q, totals, e) == totals
    ensures var job := if e.jobId in totals then totals[e.jobId] else JobTotals(ZERO, map[]);
            var row := if ModelOf(e) in job.models then job.models[ModelOf(e)] else ZERO;
            Matches(q, e) ==>
              Record(q, totals, e)
              == totals[e.jobId := JobTotals(Plus(job.counts, Contribution(e)),
                  job.models[ModelOf(e) := Plus(row, Contribution(e))])]
  {
    hide Matches, ModelOf, Contribution, Plus;
  }

  lemma UsageMissing(counts: Counts, e: LogEntry)
    requires !HasUsage(e)
    ensures Plus(counts, Contribution(e))
         == counts.(runs := counts.runs + 1, missingUsageRuns := counts.missingUsageRuns + 1)
  {
  }

  lemma UsagePresent(counts: Counts, e: LogEntry)
    requires HasUsage(e)
    ensures var u := e.usage.value;
            var input, output := Tokens(OrZero(u.inputTokens)), Tokens(OrZero(u.outputTokens));
            var total := if u.totalTokens.Some? then Tokens(u.totalTokens.value) else input + output;
            Plus(counts, Contribution(e))
            == counts.(runs := counts.runs + 1, inputTokens := counts.inputTokens + input,
                       outputTokens := counts.outputTokens + output, totalTokens := counts.totalTokens + total)
  {
  }

  // ---- conservation ----------------------------------------------------------------------------

  /** The sum of the rows of some models. */
  function RowSum(q: Query, log: seq<LogEntry>, job: Text, models: seq<Text>): Counts {
    if models == [] then ZERO
    else Plus(RowSum(q, log, job, models[..|models| - 1]), ModelSum(q, log, job, models[|models| - 1]))
  }

  lemma RowSnoc(q: Query, log: seq<LogEntry>, job: Text, models: seq<Text>)
    requires models != []
    ensures RowSum(q, log, job, models)
         == Plus(RowSum(q, log, job, models[..|models| - 1]), ModelSum(q, log, job, models[|models| - 1]))
  {
  }

  lemma DistinctSnoc(models: seq<Text>, m: Text)
    requires Distinct(models) && models != []
    ensures var rest, last := models[..|models| - 1], models[|models| - 1];
            Distinct(rest) && last !in rest && (m in models <==> m in rest || m == last)
  {
    assert models == models[..|models| - 1] + [models[|models| - 1]];
  }

  lemma {:induction false} RowSumStep(q: Query, log: seq<LogEntry>, e: LogEntry, job: Text, models: seq<Text>)
    requires Distinct(models)
    ensures RowSum(q, log + [e], job, models)
         == if Matches(q, e) && e.jobId == job && ModelOf(e) in models
             then Plus(RowSum(q, log, job, models), Contribution(e))
            else RowSum(q, log, job, models)
    decreases |models|
  {
    hide *;
    if models == [] {
      EmptyRow(q, log, job);
      EmptyRow(q, log + [e], job);
    } else {
      var rest, last := models[..|models| - 1], models[|models| - 1];
      DistinctSnoc(models, ModelOf(e));
      RowSumStep(q, log, e, job, rest);
      SumStep(q, log, e, job, last);
      RowSnoc(q, log, job, models);
      RowSnoc(q, log + [e], job, models);
      PlusSwaps(RowSum(q, log, job, rest), ModelSum(q, log, job, last), Contribution(e));
    }
  }

  lemma PlusSwaps(a: Counts, b: Counts, c: Counts)
    ensures Plus(Plus(a, c), b) == Plus(Plus(a, b), c) == Plus(a, Plus(b, c))
  {
  }

  lemma EmptyRow(q: Query, log: seq<LogEntry>, job: Text)
    ensures RowSum(q, log, job, []) == ZERO
  {
  }

  lemma {:induction false} EmptyRowSum(q: Query, job: Text, models: seq<Text>)
    ensures RowSum(q, [], job, models) == ZERO
    decreases |models|
  {
    hide *;
    if models == [] {
      EmptyRow(q, [], job);
    } else {
      EmptyRowSum(q, job, models[..|models| - 1]);
      RowSnoc(q, [], job, models);
      NothingSummed(q, [], job, models[|models| - 1]);
    }
  }

  lemma NothingSummed(q: Query, log: seq<LogEntry>, job: Text, model: Text)
    requires log == []
    ensures Plus(ZERO, ModelSum(q, log, job, model)) == ZERO
  {
    hide Matches, ModelOf, Contribution, Plus;
    ZeroPlus(ModelSum(q, log, job, model));
  }

  lemma ZeroPlus(a: Counts)
    ensures Plus(ZERO, a) == a
  {
  }

  /** A job's totals are the sums over its model rows, taken in any order. */
  lemma {:induction false} JobIsSumOfRows(q: Query, log: seq<LogEntry>, job: Text, models: seq<Text>)
    requires Distinct(models)
    requires forall model :: MentionsModel(q, log, job, model) ==> model in models
    ensures RowSum(q, log, job, models) == JobSum(q, log, job)
    decreases |log|
  {
    if log == [] {
      EmptyRowSum(q, job, models);
    } else {
      hide Matches, ModelOf, Contribution, RowSum, JobSum, ModelSum, MentionsModel, Mentions, Distinct;
      var rest, e := log[..|log| - 1], log[|log| - 1];
      assert log == rest + [e];
      forall model ensures MentionsModel(q, rest, job, model) ==> model in models {
        MentionsStep(q, rest, e, job, model);
      }
      JobIsSumOfRows(q, rest, job, models);
      MentionsStep(q, rest, e, job, ModelOf(e));
      SumStep(q, rest, e, job, ModelOf(e));
      RowSumStep(q, rest, e, job, models);
    }
  }

  /** In the aggregated totals every job's counts are the sum of its rows, whatever order they are
      listed in. */
  lemma TotalsConserve(q: Query, log: seq<LogEntry>, totals: map<Text, JobTotals>, job: Text, models: seq<Text>)
    requires Exact(q, log, totals) && job in totals
    requires Distinct(models) && forall model :: model in models <==> model in totals[job].models
    ensures totals[job].counts == RowSum(q, log, job, models)
    ensures forall i :: 0 <= i < |models| ==> totals[job].models[models[i]] == ModelSum(q, log, job, models[i])
  {
    hide JobSum, ModelSum, RowSum, MentionsModel, Mentions, Distinct;
    assert ExactFor(q, log, totals, job, UNKNOWN);
    forall model ensures MentionsModel(q, log, job, model) ==> model in models {
      assert ExactFor(q, log, totals, job, model);
    }
    JobIsSumOfRows(q, log, job, models);
    forall i | 0 <= i < |models| ensures totals[job].models[models[i]] == ModelSum(q, log, job, models[i]) {
      assert ExactFor(q, log, totals, job, models[i]) && models[i] in models;
    }
  }
}
