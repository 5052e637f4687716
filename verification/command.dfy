/**
 The `query_phenomizer` command (cli.py lines 43-77) as a pure function from its
 options to the trace of what it does: diagnostics on the error stream, calls to
 the service's term check and query, and the items it writes out.

 The service is not modelled: its existence check and its query are the
 parameters `valid` and `query`, so every statement below holds whatever the
 service answers.
 */
module Command {
  import opened Terms
  import opened Results

  /** The diagnostics the command writes to the error stream. */
  datatype Message =
    | Usage                           // no term given (line 45)
    | TermsUsed(terms: seq<string>)   // verbose echo of the normalised terms (line 55)
    | MissingTerm(term: string)       // a term the service does not know (line 60)
    | NoSignificantGenes(limit: real) // verbose report of an empty result (lines 76-77)

  /** One observable step of a run. */
  datatype Action =
    | Diagnostic(message: Message)
    | ValidateCall(term: string)
    | QueryCall(terms: seq<string>)
    | Output(item: Emitted)

  /** The command-line options: the repeated `-t` terms, `-c`, whether `-o` names
      a file, `-p` and `-v`. */
  datatype Options = Options(terms: seq<string>, checkTerms: bool, toFile: bool, limit: real, verbose: bool)

  /** The advisory existence check of cli.py lines 57-60: one call per term, in
      order, followed by a warning for each term the service rejects. */
  function CheckTerms(terms: seq<string>, valid: string -> bool): (checks: seq<Action>)
    ensures |terms| <= |checks| <= 2 * |terms|
    ensures forall k :: 0 <= k < |checks| ==>
              checks[k].ValidateCall? || (checks[k].Diagnostic? && checks[k].message.MissingTerm?)
  {
    if |terms| == 0 then []
    else
      [ValidateCall(terms[0])]
      + (if valid(terms[0]) then [] else [Diagnostic(MissingTerm(terms[0]))])
      + CheckTerms(terms[1..], valid)
  }

  /** The items written for the significant records, as actions. */
  function Outputs(items: seq<Emitted>): seq<Action> {
    if |items| == 0 then [] else [Output(items[0])] + Outputs(items[1..])
  }

  /** The verbose echo of the normalised terms (cli.py lines 54-55). */
  function Echo(opts: Options, hpo: seq<string>): (echo: seq<Action>)
    ensures |echo| == if opts.verbose then 1 else 0
    ensures forall k :: 0 <= k < |echo| ==> echo[k] == Diagnostic(TermsUsed(hpo))
  {
    if opts.verbose then [Diagnostic(TermsUsed(hpo))] else []
  }

  /** The existence check, run only under `-c`, on the terms as given. */
  function Checks(opts: Options, valid: string -> bool): seq<Action> {
    if opts.checkTerms then CheckTerms(opts.terms, valid) else []
  }

  /** The closing report of cli.py lines 74-77. */
  function Summary(opts: Options, kept: seq<Record>): (summary: seq<Action>)
    ensures |summary| == if kept == [] && opts.verbose then 1 else 0
    ensures forall k :: 0 <= k < |summary| ==> summary[k] == Diagnostic(NoSignificantGenes(opts.limit))
  {
    if |kept| == 0 && opts.verbose then [Diagnostic(NoSignificantGenes(opts.limit))] else []
  }

  /** The normalised terms a run sends to the service. */
  function Sent(opts: Options): seq<string> {
    Normalise(opts.terms)
  }

  /** The records of the service's answer that a run keeps. */
  function Kept(opts: Options, query: seq<string> -> seq<Record>): seq<Record> {
    Significant(query(Sent(opts)), opts.limit)
  }

  /** One run of the command. */
  function Run(opts: Options, valid: string -> bool, query: seq<string> -> seq<Record>): (trace: seq<Action>)
    ensures |opts.terms| == 0 <==> Diagnostic(Usage) in trace
  {
    if |opts.terms| == 0 then [Diagnostic(Usage)]
    else
      var kept := Kept(opts, query);
      NoUsageInChecks(opts.terms, valid);
      NoUsageInOutputs(RenderAll(kept, opts.toFile));
      Echo(opts, Sent(opts)) + Checks(opts, valid) + [QueryCall(Sent(opts))]
      + Outputs(RenderAll(kept, opts.toFile)) + Summary(opts, kept)
  }

  lemma {:induction false} NoUsageInChecks(terms: seq<string>, valid: string -> bool)
    ensures Diagnostic(Usage) !in CheckTerms(terms, valid)
    decreases |terms|
  {
    if |terms| > 0 {
      NoUsageInChecks(terms[1..], valid);
    }
  }

  lemma {:induction false} NoUsageInOutputs(items: seq<Emitted>)
    ensures Diagnostic(Usage) !in Outputs(items)
    decreases |items|
  {
    if |items| > 0 {
      NoUsageInOutputs(items[1..]);
    }
  }

  // Projections of a trace onto one kind of action.

  /** Concatenates what `pick` extracts from each action, in trace order. */
  function Select<T>(trace: seq<Action>, pick: Action -> seq<T>): seq<T> {
    if |trace| == 0 then [] else pick(trace[0]) + Select(trace[1..], pick)
  }

  function QueryOf(a: Action): seq<seq<string>> {
    if a.QueryCall? then [a.terms] else []
  }

  function ValidationOf(a: Action): seq<string> {
    if a.ValidateCall? then [a.term] else []
  }

  function OutputOf(a: Action): seq<Emitted> {
    if a.Output? then [a.item] else []
  }

  function DiagnosticOf(a: Action): seq<Message> {
    if a.Diagnostic? then [a.message] else []
  }

  /** The term lists of the queries issued, in order. */
  function Queries(trace: seq<Action>): seq<seq<string>> { Select(trace, QueryOf) }

  /** The terms handed to the existence check, in order. */
  function Validations(trace: seq<Action>): seq<string> { Select(trace, ValidationOf) }

  /** The items written out, in order. */
  function Written(trace: seq<Action>): seq<Emitted> { Select(trace, OutputOf) }

  /** The diagnostics written to the error stream, in order. */
  function Diagnostics(trace: seq<Action>): seq<Message> { Select(trace, DiagnosticOf) }

  lemma {:induction false} SelectAppend<T>(a: seq<Action>, b: seq<Action>, pick: Action -> seq<T>)
    ensures Select(a + b, pick) == Select(a, pick) + Select(b, pick)
    decreases |a|
  {
    if |a| == 0 {
      assert a + b == b;
    } else {
      assert (a + b)[0] == a[0];
      assert (a + b)[1..] == a[1..] + b;
      SelectAppend(a[1..], b, pick);
    }
  }

  lemma SelectSingle<T>(a: Action, pick: Action -> seq<T>)
    ensures Select([a], pick) == pick(a)
  {
    assert [a][1..] == [];
  }

  /** The existence check issues one call per term, in order, and no query. */
  lemma {:induction false} CheckTermsCalls(terms: seq<string>, valid: string -> bool)
    ensures Validations(CheckTerms(terms, valid)) == terms
    ensures Queries(CheckTerms(terms, valid)) == []
    ensures Written(CheckTerms(terms, valid)) == []
    decreases |terms|
  {
    if |terms| > 0 {
      var t := terms[0];
      var warn: seq<Action> := if valid(t) then [] else [Diagnostic(MissingTerm(t))];
      var rest := CheckTerms(terms[1..], valid);
      CheckTermsCalls(terms[1..], valid);
      SelectAppend([ValidateCall(t)] + warn, rest, ValidationOf);
      SelectAppend([ValidateCall(t)], warn, ValidationOf);
      SelectAppend([ValidateCall(t)] + warn, rest, QueryOf);
      SelectAppend([ValidateCall(t)], warn, QueryOf);
      SelectAppend([ValidateCall(t)] + warn, rest, OutputOf);
      SelectAppend([ValidateCall(t)], warn, OutputOf);
      SelectSingle(ValidateCall(t), ValidationOf);
      SelectSingle(ValidateCall(t), QueryOf);
      SelectSingle(ValidateCall(t), OutputOf);
      if !valid(t) {
        SelectSingle(Diagnostic(MissingTerm(t)), ValidationOf);
        SelectSingle(Diagnostic(MissingTerm(t)), QueryOf);
        SelectSingle(Diagnostic(MissingTerm(t)), OutputOf);
      }
    }
  }

  /** The existence check warns about exactly the terms the service rejects. */
  lemma {:induction false} CheckTermsWarnings(terms: seq<string>, valid: string -> bool, t: string)
    ensures MissingTerm(t) in Diagnostics(CheckTerms(terms, valid)) <==> t in terms && !valid(t)
    decreases |terms|
  {
    if |terms| > 0 {
      var u := terms[0];
      var warn: seq<Action> := if valid(u) then [] else [Diagnostic(MissingTerm(u))];
      var rest := CheckTerms(terms[1..], valid);
      CheckTermsWarnings(terms[1..], valid, t);
      SelectAppend([ValidateCall(u)] + warn, rest, DiagnosticOf);
      SelectAppend([ValidateCall(u)], warn, DiagnosticOf);
      SelectSingle(ValidateCall(u), DiagnosticOf);
      if !valid(u) {
        SelectSingle(Diagnostic(MissingTerm(u)), DiagnosticOf);
      }
      assert terms == [u] + terms[1..];
    }
  }

  /** The output actions carry the items in order, and nothing else. */
  lemma {:induction false} OutputsCarryItems(items: seq<Emitted>)
    ensures Written(Outputs(items)) == items
    ensures Queries(Outputs(items)) == []
    ensures Validations(Outputs(items)) == []
    ensures Diagnostics(Outputs(items)) == []
    decreases |items|
  {
    if |items| > 0 {
      var head := Output(items[0]);
      OutputsCarryItems(items[1..]);
      SelectAppend([head], Outputs(items[1..]), OutputOf);
      SelectAppend([head], Outputs(items[1..]), QueryOf);
      SelectAppend([head], Outputs(items[1..]), ValidationOf);
      SelectAppend([head], Outputs(items[1..]), DiagnosticOf);
      SelectSingle(head, OutputOf);
      SelectSingle(head, QueryOf);
      SelectSingle(head, ValidationOf);
      SelectSingle(head, DiagnosticOf);
      assert items == [items[0]] + items[1..];
    }
  }

  /** A projection of a run is the projections of its five stages, in order. */
  lemma RunStages<T>(opts: Options, valid: string -> bool, query: seq<string> -> seq<Record>, pick: Action -> seq<T>)
    requires |opts.terms| > 0
    ensures Select(Run(opts, valid, query), pick) ==
              Select(Echo(opts, Sent(opts)), pick) + Select(Checks(opts, valid), pick)
              + pick(QueryCall(Sent(opts))) + Select(Outputs(RenderAll(Kept(opts, query), opts.toFile)), pick)
              + Select(Summary(opts, Kept(opts, query)), pick)
  {
    var e := Echo(opts, Sent(opts));
    var c := Checks(opts, valid);
    var q := [QueryCall(Sent(opts))];
    var o := Outputs(RenderAll(Kept(opts, query), opts.toFile));
    var m := Summary(opts, Kept(opts, query));
    SelectAppend(e + c + q + o, m, pick);
    SelectAppend(e + c + q, o, pick);
    SelectAppend(e + c, q, pick);
    SelectAppend(e, c, pick);
    SelectSingle(QueryCall(Sent(opts)), pick);
  }

  /** Projections of the five stages of a run where only one stage contributes. */
  lemma OneStageContributes<T>(echo: seq<T>, checks: seq<T>, call: seq<T>, outputs: seq<T>, summary: seq<T>)
    requires echo == [] && summary == []
    ensures call == [] && outputs == [] ==> echo + checks + call + outputs + summary == checks
    ensures checks == [] && outputs == [] ==> echo + checks + call + outputs + summary == call
    ensures checks == [] && call == [] ==> echo + checks + call + outputs + summary == outputs
  {
  }

  /** Without a term the run prints the usage message and stops: no check, no
      query, nothing written (cli.py lines 44-46). */
  lemma EmptyTermsStopEarly(opts: Options, valid: string -> bool, query: seq<string> -> seq<Record>)
    requires |opts.terms| == 0
    ensures Diagnostics(Run(opts, valid, query)) == [Usage]
    ensures Validations(Run(opts, valid, query)) == []
    ensures Queries(Run(opts, valid, query)) == []
    ensures Written(Run(opts, valid, query)) == []
  {
    var a := Diagnostic(Usage);
    SelectSingle(a, DiagnosticOf);
    SelectSingle(a, ValidationOf);
    SelectSingle(a, QueryOf);
    SelectSingle(a, OutputOf);
  }

  /** With at least one term exactly one query is issued, carrying the whole
      normalised list, whatever the existence check answered (cli.py line 62). */
  lemma QueryIssuedOnce(opts: Options, valid: string -> bool, query: seq<string> -> seq<Record>)
    requires |opts.terms| > 0
    ensures Queries(Run(opts, valid, query)) == [Normalise(opts.terms)]
  {
    var items := RenderAll(Kept(opts, query), opts.toFile);
    RunStages(opts, valid, query, QueryOf);
    ReportsOnlyDiagnose(opts, Sent(opts), Kept(opts, query));
    CheckTermsCalls(opts.terms, valid);
    assert Queries(Checks(opts, valid)) == [];
    OutputsCarryItems(items);
    OneStageContributes(Queries(Echo(opts, Sent(opts))), Queries(Checks(opts, valid)),
      QueryOf(QueryCall(Sent(opts))), Queries(Outputs(items)), Queries(Summary(opts, Kept(opts, query))));
  }

  /** The echo and the closing report are diagnostics only: no check, no query,
      nothing written. */
  lemma ReportsOnlyDiagnose(opts: Options, hpo: seq<string>, kept: seq<Record>)
    ensures Written(Echo(opts, hpo)) == [] && Written(Summary(opts, kept)) == []
    ensures Queries(Echo(opts, hpo)) == [] && Queries(Summary(opts, kept)) == []
    ensures Validations(Echo(opts, hpo)) == [] && Validations(Summary(opts, kept)) == []
  {
    var echoed, summary := Diagnostic(TermsUsed(hpo)), Diagnostic(NoSignificantGenes(opts.limit));
    SelectSingle(echoed, OutputOf);
    SelectSingle(echoed, QueryOf);
    SelectSingle(echoed, ValidationOf);
    SelectSingle(summary, OutputOf);
    SelectSingle(summary, QueryOf);
    SelectSingle(summary, ValidationOf);
  }

  /** The existence check is handed the terms as the user gave them, before
      normalisation, one call each and in order, and only under `-c`
      (cli.py lines 57-59). */
  lemma ChecksUseOriginalTerms(opts: Options, valid: string -> bool, query: seq<string> -> seq<Record>)
    ensures Validations(Run(opts, valid, query)) ==
              if opts.checkTerms && |opts.terms| > 0 then opts.terms else []
  {
    if |opts.terms| == 0 {
      EmptyTermsStopEarly(opts, valid, query);
    } else {
      var items := RenderAll(Kept(opts, query), opts.toFile);
      RunStages(opts, valid, query, ValidationOf);
      ReportsOnlyDiagnose(opts, Sent(opts), Kept(opts, query));
      CheckTermsCalls(opts.terms, valid);
      OutputsCarryItems(items);
      OneStageContributes(Validations(Echo(opts, Sent(opts))), Validations(Checks(opts, valid)),
        ValidationOf(QueryCall(Sent(opts))), Validations(Outputs(items)), Validations(Summary(opts, Kept(opts, query))));
    }
  }

  /** The diagnostics of a run that got at least one term: the echo, the
      warnings of the existence check and the closing report, in that order. */
  lemma RunDiagnostics(opts: Options, valid: string -> bool, query: seq<string> -> seq<Record>)
    requires |opts.terms| > 0
    ensures Diagnostics(Run(opts, valid, query)) ==
              (if opts.verbose then [TermsUsed(Normalise(opts.terms))] else [])
              + Diagnostics(Checks(opts, valid))
              + (if opts.verbose && Written(Run(opts, valid, query)) == []
                 then [NoSignificantGenes(opts.limit)] else [])
  {
    var kept := Kept(opts, query);
    WrittenAreSignificant(opts, valid, query);
    assert Written(Run(opts, valid, query)) == [] <==> kept == [];
    DiagnosticStages(opts, valid, query);
    SelectSingle(Diagnostic(TermsUsed(Sent(opts))), DiagnosticOf);
    SelectSingle(Diagnostic(NoSignificantGenes(opts.limit)), DiagnosticOf);
  }

  /** The diagnostics of a run with terms come from its echo, its existence check
      and its closing report only. */
  lemma DiagnosticStages(opts: Options, valid: string -> bool, query: seq<string> -> seq<Record>)
    requires |opts.terms| > 0
    ensures Diagnostics(Run(opts, valid, query)) ==
              Diagnostics(Echo(opts, Sent(opts))) + Diagnostics(Checks(opts, valid))
              + Diagnostics(Summary(opts, Kept(opts, query)))
  {
    RunStages(opts, valid, query, DiagnosticOf);
    OutputsCarryItems(RenderAll(Kept(opts, query), opts.toFile));
  }

  /** A failed existence check only adds a warning naming the term as given:
      the warning appears exactly for the terms the service rejects, under `-c`
      (cli.py lines 57-60). */
  lemma MissingTermWarned(opts: Options, valid: string -> bool, query: seq<string> -> seq<Record>, t: string)
    ensures MissingTerm(t) in Diagnostics(Run(opts, valid, query)) <==>
              opts.checkTerms && t in opts.terms && !valid(t)
  {
    if |opts.terms| == 0 {
      EmptyTermsStopEarly(opts, valid, query);
    } else {
      RunDiagnostics(opts, valid, query);
      if opts.checkTerms {
        CheckTermsWarnings(opts.terms, valid, t);
      } else {
        assert Checks(opts, valid) == [];
      }
    }
  }

  /** What a run writes: one item per significant record of the answer, in
      answer order, rendered for the chosen destination (cli.py lines 64-72). */
  lemma WrittenAreSignificant(opts: Options, valid: string -> bool, query: seq<string> -> seq<Record>)
    requires |opts.terms| > 0
    ensures Written(Run(opts, valid, query)) ==
              RenderAll(Significant(query(Normalise(opts.terms)), opts.limit), opts.toFile)
  {
    var items := RenderAll(Kept(opts, query), opts.toFile);
    RunStages(opts, valid, query, OutputOf);
    ReportsOnlyDiagnose(opts, Sent(opts), Kept(opts, query));
    CheckTermsCalls(opts.terms, valid);
    assert Written(Checks(opts, valid)) == [];
    OutputsCarryItems(items);
    OneStageContributes(Written(Echo(opts, Sent(opts))), Written(Checks(opts, valid)),
      OutputOf(QueryCall(Sent(opts))), Written(Outputs(items)), Written(Summary(opts, Kept(opts, query))));
  }

  /** The "no significant genes" report appears exactly when the run got terms,
      `-v` is set and nothing was written (cli.py lines 74-77). */
  lemma NoSignificantReported(opts: Options, valid: string -> bool, query: seq<string> -> seq<Record>)
    ensures NoSignificantGenes(opts.limit) in Diagnostics(Run(opts, valid, query)) <==>
              |opts.terms| > 0 && opts.verbose && Written(Run(opts, valid, query)) == []
  {
    if |opts.terms| == 0 {
      EmptyTermsStopEarly(opts, valid, query);
    } else {
      RunDiagnostics(opts, valid, query);
      NoSummaryInChecks(opts.terms, valid, opts.limit);
    }
  }

  lemma {:induction false} NoSummaryInChecks(terms: seq<string>, valid: string -> bool, limit: real)
    ensures NoSignificantGenes(limit) !in Diagnostics(CheckTerms(terms, valid))
    decreases |terms|
  {
    if |terms| > 0 {
      var u := terms[0];
      var warn: seq<Action> := if valid(u) then [] else [Diagnostic(MissingTerm(u))];
      NoSummaryInChecks(terms[1..], valid, limit);
      SelectAppend([ValidateCall(u)] + warn, CheckTerms(terms[1..], valid), DiagnosticOf);
      SelectAppend([ValidateCall(u)], warn, DiagnosticOf);
      SelectSingle(ValidateCall(u), DiagnosticOf);
      if !valid(u) {
        SelectSingle(Diagnostic(MissingTerm(u)), DiagnosticOf);
      }
    }
  }

  /** The single query comes after every existence check and before every
      written item. */
  lemma QueryOrdering(opts: Options, valid: string -> bool, query: seq<string> -> seq<Record>)
    requires |opts.terms| > 0
    ensures exists k :: 0 <= k < |Run(opts, valid, query)| &&
              Run(opts, valid, query)[k] == QueryCall(Normalise(opts.terms)) &&
              (forall j :: 0 <= j < k ==> !Run(opts, valid, query)[j].Output?) &&
              (forall j :: k < j < |Run(opts, valid, query)| ==> !Run(opts, valid, query)[j].ValidateCall?)
  {
    var kept := Kept(opts, query);
    var items := RenderAll(kept, opts.toFile);
    var before := Echo(opts, Sent(opts)) + Checks(opts, valid);
    var after := Outputs(items) + Summary(opts, kept);
    NothingWrittenBeforeQuery(opts, valid, before);
    NothingCheckedAfterQuery(opts, items, kept, after);
    var trace := Run(opts, valid, query);
    assert trace == before + [QueryCall(Sent(opts))] + after;
    SplitAtQuery(before, QueryCall(Sent(opts)), after);
    assert trace[|before|] == QueryCall(Normalise(opts.terms));
  }

  /** The echo and the existence check write no item. */
  lemma NothingWrittenBeforeQuery(opts: Options, valid: string -> bool, before: seq<Action>)
    requires before == Echo(opts, Sent(opts)) + Checks(opts, valid)
    ensures forall j :: 0 <= j < |before| ==> !before[j].Output?
  {
    var echo, checks := Echo(opts, Sent(opts)), Checks(opts, valid);
    forall j | 0 <= j < |before|
      ensures !before[j].Output?
    {
      if j >= |echo| {
        assert before[j] == checks[j - |echo|];
      }
    }
  }

  /** The written items and the closing report call no existence check. */
  lemma NothingCheckedAfterQuery(opts: Options, items: seq<Emitted>, kept: seq<Record>, after: seq<Action>)
    requires after == Outputs(items) + Summary(opts, kept)
    ensures forall j :: 0 <= j < |after| ==> !after[j].ValidateCall?
  {
    var outputs, summary := Outputs(items), Summary(opts, kept);
    OutputsOnly(items);
    forall j | 0 <= j < |after|
      ensures !after[j].ValidateCall?
    {
      if j >= |outputs| {
        assert after[j] == summary[j - |outputs|];
      }
    }
  }

  lemma SplitAtQuery(before: seq<Action>, q: Action, after: seq<Action>)
    requires forall j :: 0 <= j < |before| ==> !before[j].Output?
    requires forall j :: 0 <= j < |after| ==> !after[j].ValidateCall?
    ensures var trace := before + [q] + after;
            (forall j :: 0 <= j < |before| ==> !trace[j].Output?) &&
            (forall j :: |before| < j < |trace| ==> !trace[j].ValidateCall?)
  {
    var trace := before + [q] + after;
    forall j | 0 <= j < |before|
      ensures !trace[j].Output?
    {
      assert trace[j] == before[j];
    }
    forall j | |before| < j < |trace|
      ensures !trace[j].ValidateCall?
    {
      assert trace[j] == after[j - |before| - 1];
    }
  }

  lemma {:induction false} OutputsOnly(items: seq<Emitted>)
    ensures forall j :: 0 <= j < |Outputs(items)| ==> Outputs(items)[j].Output?
    ensures |Outputs(items)| == |items|
    decreases |items|
  {
    if |items| > 0 {
      OutputsOnly(items[1..]);
    }
  }
}
