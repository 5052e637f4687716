/**
 The filtering and counting of the records returned by the Phenomizer service
 (cli.py lines 64-72). Each record carries a p-value and the raw response line
 it was parsed from; the command keeps, in response order, the records whose
 p-value is strictly below the limit, counts them, and emits each one either as
 its raw line plus a newline (file mode) or as the structured record.
 */
module Results {

  /** One parsed response line. Only the p-value is inspected; the other columns
      travel inside the raw line. */
  datatype Record = Record(pValue: real, rawLine: string)

  /** One item written out for a significant record. */
  datatype Emitted =
    | Line(text: string)     // appended to the output file
    | Pretty(record: Record)  // pretty-printed on standard output

  /** The significance test of cli.py line 66: strictly below the limit. */
  predicate IsSignificant(r: Record, limit: real) {
    r.pValue < limit
  }

  /** The records that pass the significance test, in response order. */
  function Significant(records: seq<Record>, limit: real): (kept: seq<Record>)
    ensures |kept| <= |records|
    ensures forall k :: 0 <= k < |kept| ==> IsSignificant(kept[k], limit)
    ensures forall k :: 0 <= k < |kept| ==> kept[k] in records
  {
    if |records| == 0 then []
    else
      var rest := Significant(records[1..], limit);
      if IsSignificant(records[0], limit) then [records[0]] + rest else rest
  }

  /** Every record occurs among the kept ones exactly as often as in the response
      when it is significant, and not at all otherwise. */
  lemma {:induction false} SignificantContents(records: seq<Record>, limit: real)
    ensures forall r ::
              multiset(Significant(records, limit))[r] ==
              (if IsSignificant(r, limit) then multiset(records)[r] else 0)
    decreases |records|
  {
    if |records| > 0 {
      var head: seq<Record> := if IsSignificant(records[0], limit) then [records[0]] else [];
      SignificantContents(records[1..], limit);
      assert records == [records[0]] + records[1..];
      assert multiset(records) == multiset([records[0]]) + multiset(records[1..]);
      assert multiset(Significant(records, limit)) == multiset(head) + multiset(Significant(records[1..], limit));
    }
  }

  /** A significant record of the response is among the kept ones, and a record
      at or above the limit never is. */
  lemma SignificantMembership(records: seq<Record>, limit: real, r: Record)
    ensures r in Significant(records, limit) <==> r in records && IsSignificant(r, limit)
  {
    SignificantContents(records, limit);
    assert r in Significant(records, limit) <==> multiset(Significant(records, limit))[r] > 0;
  }

  /** Filtering splits over a concatenation, so kept records stay in response order. */
  lemma {:induction false} SignificantAppend(a: seq<Record>, b: seq<Record>, limit: real)
    ensures Significant(a + b, limit) == Significant(a, limit) + Significant(b, limit)
    decreases |a|
  {
    if |a| == 0 {
      assert a + b == b;
    } else {
      assert (a + b)[0] == a[0];
      assert (a + b)[1..] == a[1..] + b;
      SignificantAppend(a[1..], b, limit);
    }
  }

  /** When every p-value is below the limit nothing is filtered out. */
  lemma {:induction false} SignificantKeepsAll(records: seq<Record>, limit: real)
    requires forall k :: 0 <= k < |records| ==> IsSignificant(records[k], limit)
    ensures Significant(records, limit) == records
    decreases |records|
  {
    if |records| > 0 {
      SignificantKeepsAll(records[1..], limit);
    }
  }

  /** Whatever the response, the default limit of 1.0 drops every record whose
      p-value is 1.0 or more, a p-value of exactly 1.0 included. */
  lemma DefaultLimitDropsCertain(records: seq<Record>)
    ensures forall k :: 0 <= k < |records| && records[k].pValue >= 1.0 ==>
              records[k] !in Significant(records, 1.0)
  {
    forall k | 0 <= k < |records| && records[k].pValue >= 1.0
      ensures records[k] !in Significant(records, 1.0)
    {
      SignificantMembership(records, 1.0, records[k]);
    }
  }

  /** How a significant record is written: its raw line and a newline when an
      output file was given, the structured record otherwise (cli.py lines 68-72). */
  function Render(r: Record, toFile: bool): (item: Emitted)
    ensures item.Line? <==> toFile
    ensures item.Line? ==>
              (|item.text| == |r.rawLine| + 1 && item.text[|r.rawLine|] == '\n' &&
               item.text[..|r.rawLine|] == r.rawLine)
    ensures item.Pretty? ==> item.record == r
  {
    if toFile then Line(r.rawLine + "\n") else Pretty(r)
  }

  /** The items written for a sequence of significant records, one each, in order. */
  function RenderAll(kept: seq<Record>, toFile: bool): (items: seq<Emitted>)
    ensures |items| == |kept|
    ensures forall k :: 0 <= k < |items| ==> (items[k].Line? <==> toFile)
  {
    seq(|kept|, k requires 0 <= k < |kept| => Render(kept[k], toFile))
  }

  /** The loop of cli.py lines 64-72: the items it writes and the value of the
      significance counter when it ends. */
  method Report(records: seq<Record>, limit: real, toFile: bool) returns (items: seq<Emitted>, count: nat)
    ensures count == |items| == |Significant(records, limit)|
    ensures items == RenderAll(Significant(records, limit), toFile)
    ensures toFile ==> forall k :: 0 <= k < |items| ==>
      exists j :: 0 <= j < |records| && IsSignificant(records[j], limit) &&
        items[k] == Line(records[j].rawLine + "\n")
    ensures !toFile ==> forall k :: 0 <= k < |items| ==>
      items[k].Pretty? && items[k].record in records && IsSignificant(items[k].record, limit)
  {
    items := [];
    count := 0;
    var i := 0;
    while i < |records|
      invariant 0 <= i <= |records|
      invariant count == |items|
      invariant items == RenderAll(Significant(records[..i], limit), toFile)
    {
      var r := records[i];
      SignificantAppend(records[..i], [r], limit);
      assert records[..i + 1] == records[..i] + [r];
      if IsSignificant(r, limit) {
        count := count + 1;
        items := items + [Render(r, toFile)];
      }
      i := i + 1;
    }
    assert records[..i] == records;
  }
}
