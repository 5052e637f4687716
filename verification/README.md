# query_phenomizer command, modelled in Dafny

`query_phenomizer` is a command-line client for the Phenomizer phenotype-similarity
service. Given Human Phenotype Ontology (HPO) terms, it normalises them to the
`HP:` form. It can optionally ask the service whether each term exists. It then
sends one query with all the terms and keeps the returned records whose p-value is
strictly below a limit. Each kept record is written either as its raw response line
to a file or pretty-printed on standard output.

This project models the decision logic of the `query_phenomizer` command
(`query_phenomizer/cli.py`) in three modules:

- `Terms` (`terms.dfy`): term normalisation. The colon test `len(term.split(':')) < 2`
  and the rewrite `':'.join(['HP', term])` are modelled through Python's `split`
  and `join` for a one-character separator (`Split`, `Join`). The model proves that
  the test means exactly "the term has no colon".
- `Results` (`results.dfy`): the significance filter and counter. `Significant`
  is the functional filter. `Report` is the loop of the command with its counter,
  proved equal to rendering the filtered records.
- `Command` (`command.dfy`): the whole command as a pure function `Run` from its
  options to a trace of abstract actions. The actions are diagnostics on the
  error stream, existence-check calls, the query call, and written items.
  Projections (`Queries`, `Validations`, `Written`, `Diagnostics`) extract one
  kind of action so that the lemmas can talk about each separately.

The remote service is a pair of function parameters of `Run`: `valid` is the
term-existence check, and `query` maps a term list to the parsed records. Every
lemma about `Run` therefore holds whatever the service answers. P-values and the
limit are `real`, since the command only compares them with `<`.

Behaviour of the code worth knowing:

- Normalisation tests only whether a colon is present. `"foo:"` and `":"` pass
  unchanged. The lengths of the parts around the colon are never examined.
- The help text of `-p` (cli.py line 37) asks for "the highest p-value that you
  want included". The test at line 66 is strict, so a record whose p-value equals
  the limit is dropped. This includes a p-value of exactly 1.0 at the default
  limit of 1.0 (`Results.DefaultLimitDropsCertain`). The model follows the code.
- With no terms the command calls `sys.exit()` without an argument, which exits
  with status 0. The model ends the trace after the usage message and does not
  model exit statuses.

## Model

| member | source | states |
|---|---|---|
| Terms.Split | query_phenomizer/cli.py:50 | the split of a term has one more part than the term has colons, and no part contains a colon; so the test "fewer than two parts" holds exactly for terms without a colon |
| Terms.JoinSplit | query_phenomizer/cli.py:50-51 | joining the parts of a split with the same separator gives back the original string, so the modelled `split`/`join` pair is consistent |
| Terms.NormaliseTerm | query_phenomizer/cli.py:50-52 | a term without a colon becomes `"HP:" + term`; a term with a colon is returned unchanged, whatever the lengths of its parts; the result always contains a colon |
| Terms.Normalise | query_phenomizer/cli.py:48-52 | the normalised list has the same length as the input, its i-th entry is the normalisation of the i-th input term, and every entry contains a colon |
| Terms.NormaliseIdempotent | query_phenomizer/cli.py:50-52 | normalising an already normalised list changes nothing |
| Terms.NormaliseKeepsQualified | query_phenomizer/cli.py:50-52 | a list whose terms all contain a colon is sent unchanged |
| Terms.NormaliseAppend | query_phenomizer/cli.py:48-52 | normalisation works term by term: normalising a concatenation is the concatenation of the normalised parts |
| Terms.BareAndPrefixedCoincide | query_phenomizer/cli.py:50-51 | a bare identifier and the same identifier with the `HP:` prefix normalise to the same term |
| Results.Significant | query_phenomizer/cli.py:65-66 | the kept records are no more than the response, every one has p-value strictly below the limit, and every one comes from the response |
| Results.SignificantContents | query_phenomizer/cli.py:65-67 | each record is kept exactly as many times as it occurs in the response when its p-value is below the limit, and never otherwise |
| Results.SignificantMembership | query_phenomizer/cli.py:65-66 | a record is kept if and only if it is in the response and its p-value is strictly below the limit; a record at or above the limit is never kept |
| Results.SignificantAppend | query_phenomizer/cli.py:65-67 | filtering a concatenation is the concatenation of the filtered parts, so kept records stay in response order |
| Results.SignificantKeepsAll | query_phenomizer/cli.py:66 | when every p-value is below the limit, the whole response is kept |
| Results.DefaultLimitDropsCertain | query_phenomizer/cli.py:36-37 | for any response, the default limit 1.0 drops every record whose p-value is 1.0 or more, including exactly 1.0, because the test at line 66 is strict |
| Results.Render | query_phenomizer/cli.py:68-72 | the definition of how one significant record is written: in file mode a line holding the raw line followed by one newline, otherwise the structured record itself; `Results.Report` and `Command.WrittenAreSignificant` state the behaviour over a whole response |
| Results.RenderAll | query_phenomizer/cli.py:65-72 | the definition of the items written for the kept records: one item per record, every one in the form of the chosen destination; `Results.Report` proves the source loop computes exactly this |
| Results.Report | query_phenomizer/cli.py:64-72 | the loop's counter equals the number of items written and of significant records; in file mode each item is the raw line of a significant response record plus a newline; otherwise each item is a significant response record printed in structured form |
| Command.Run | query_phenomizer/cli.py:44-46 | the usage message appears in the trace if and only if no term was given |
| Command.CheckTerms | query_phenomizer/cli.py:57-60 | the definition of the existence check: at least one and at most two actions per term, each a check call or a missing-term warning; `Command.CheckTermsCalls` and `Command.CheckTermsWarnings` state its behaviour |
| Command.Echo | query_phenomizer/cli.py:54-55 | the definition of the verbose echo: one message naming the normalised terms when `-v` is set, none otherwise; `Command.RunDiagnostics` places it first among the diagnostics |
| Command.Summary | query_phenomizer/cli.py:74-77 | the definition of the closing report: one "no significant genes" message carrying the limit when nothing was kept and `-v` is set, none otherwise; `Command.NoSignificantReported` states when it appears in a run |
| Command.EmptyTermsStopEarly | query_phenomizer/cli.py:44-46 | with no term, the only diagnostic is the usage message; no existence check or query is made and nothing is written |
| Command.QueryIssuedOnce | query_phenomizer/cli.py:62 | with at least one term, exactly one query is issued, carrying the full normalised list, whatever the existence check answered |
| Command.CheckTermsCalls | query_phenomizer/cli.py:57-59 | the existence check calls the service once per given term, in order, and issues no query and writes nothing |
| Command.CheckTermsWarnings | query_phenomizer/cli.py:57-60 | the existence check warns about a term if and only if it is one of the given terms and the service rejects it |
| Command.ChecksUseOriginalTerms | query_phenomizer/cli.py:57-59 | the existence checks of a run are exactly the terms as given, before normalisation, in order, when `-c` is set and a term was given; otherwise there are none |
| Command.MissingTermWarned | query_phenomizer/cli.py:57-60 | a run warns about a term if and only if `-c` is set, the term is among the given ones, and the service rejects it; the warning names the term as given |
| Command.RunDiagnostics | query_phenomizer/cli.py:54-77 | the diagnostics of a run with terms are the verbose echo of the normalised terms, then the existence-check warnings, then the verbose "no significant genes" report when nothing was written |
| Command.WrittenAreSignificant | query_phenomizer/cli.py:64-72 | the items a run writes are the significant records of the answer to its query, in answer order, each rendered for the chosen destination |
| Command.NoSignificantReported | query_phenomizer/cli.py:74-77 | the "no significant genes" report appears if and only if a term was given, `-v` is set and nothing was written |
| Command.QueryOrdering | query_phenomizer/cli.py:57-72 | the query call comes after every existence-check call and before every written item |

## Left out

- The option declarations and argument parsing (cli.py lines 21-42) are not modelled. `Options` takes their parsed values.
- The service's `query` and `validate_term` are HTTP calls that are not part of this model. They are the parameters `query` and `valid` of `Command.Run`.
- Network or service failures are not modelled. In the source they raise out of `query` or `validate_term` and abort the run. The parameters here are total functions.
- Parsing p-values from response text and floating-point semantics (NaN, rounding) are not modelled. P-values and the limit are `real`.
- Output is not actually written anywhere. Standard output, standard error, the output file and `pprint` are represented by the abstract `Action` and `Emitted` values. Diagnostic texts are represented by the `Message` constructors, not by formatted strings.
- The exit status of `sys.exit()` is not modelled. The trace simply ends after the usage message.
- The file is opened in mode `'wb'` but is written with `str` values. That quirk concerns runtime I/O only and is not modelled.
