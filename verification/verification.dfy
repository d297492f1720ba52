/** `verifyReport`: eleven extractions in a fixed order, six consistency checks
    over the extracted numbers, and the list of messages of the checks that
    fail. A missing field ends the run: its message is appended after the
    messages already collected and no further check runs. */
module Verification {
  import opened Extraction
  import opened Percentage

  /** What `text.match` gives for each of the eleven labelled patterns. */
  datatype Captures = Captures(
    whrsGen: Match<IntCapture>, whrsAux: Match<IntCapture>, whrsNet: Match<IntCapture>, whrsPct: Match<PctCapture>,
    cppGen: Match<IntCapture>, cppAux: Match<IntCapture>, cppNet: Match<IntCapture>, cppPct: Match<PctCapture>,
    ebUnits: Match<IntCapture>, ebPct: Match<PctCapture>,
    total: Match<IntCapture>)

  // ---------------------------------------------------------------------
  // The fields, in the order verifyReport extracts them

  /** Whether a field is read by `getInt` or by `getPct`. */
  datatype Kind = Count | Percent

  const FieldCount: nat := 11

  /** The name each extractor is given. */
  function FieldName(i: nat): string
    requires i < FieldCount
  {
    match i
    case 0 => "WHRS Generation"
    case 1 => "WHRS Aux"
    case 2 => "WHRS Net"
    case 3 => "WHRS"
    case 4 => "CPP Generation"
    case 5 => "CPP Aux"
    case 6 => "CPP Net"
    case 7 => "CPP"
    case 8 => "EB Units"
    case 9 => "EB"
    case 10 => "Total plant consumed"
  }

  /** The three percentages are read by `getPct`, the other eight fields by `getInt`. */
  function FieldKind(i: nat): Kind
    requires i < FieldCount
  {
    if i == 3 || i == 7 || i == 9 then Percent else Count
  }

  /** The message the extractor of field `i` throws when its pattern does not match. */
  function MissingMessage(i: nat): string
    requires i < FieldCount
  {
    if FieldKind(i) == Count then FieldName(i) + " not found" else FieldName(i) + " % not found"
  }

  /** The position of the first pattern that did not match, or FieldCount when all matched. */
  function FirstMissing(c: Captures): nat {
    if c.whrsGen.NoMatch? then 0
    else if c.whrsAux.NoMatch? then 1
    else if c.whrsNet.NoMatch? then 2
    else if c.whrsPct.NoMatch? then 3
    else if c.cppGen.NoMatch? then 4
    else if c.cppAux.NoMatch? then 5
    else if c.cppNet.NoMatch? then 6
    else if c.cppPct.NoMatch? then 7
    else if c.ebUnits.NoMatch? then 8
    else if c.ebPct.NoMatch? then 9
    else if c.total.NoMatch? then 10
    else FieldCount
  }

  // ---------------------------------------------------------------------
  // The checks

  /** The value of a count field; 0 stands in for a missing one, and no check
      that reads a missing field is ever consulted. */
  function CountOf(m: Match<IntCapture>): nat {
    if m.Matched? then ParseInt(m.group) else 0
  }

  function PercentOf(m: Match<PctCapture>): real {
    if m.Matched? then ParseFloat(m.group) else 0.0
  }

  /** The six consistency checks. */
  datatype Check = WhrsNet | CppNet | TotalUnits | WhrsPercent | CppPercent | EbPercent

  /** The checks in the order verifyReport runs them. */
  const Checks: seq<Check> := [WhrsNet, CppNet, TotalUnits, WhrsPercent, CppPercent, EbPercent]

  function Message(ch: Check): string {
    match ch
    case WhrsNet => "WHRS net generation calculation wrong"
    case CppNet => "CPP net generation calculation wrong"
    case TotalUnits => "Total plant consumed units mismatch"
    case WhrsPercent => "WHRS percentage mismatch"
    case CppPercent => "CPP percentage mismatch"
    case EbPercent => "EB percentage mismatch"
  }

  /** How many fields have been extracted when the check runs: the WHRS net
      check follows the four WHRS fields, the CPP net check the four CPP
      fields, and the other checks follow the plant total. */
  function ReadyAfter(ch: Check): nat {
    match ch
    case WhrsNet => 4
    case CppNet => 8
    case _ => FieldCount
  }

  /** Whether a check fails: net = gross - auxiliary, exactly; the three nets
      add up to the total, exactly; each reported percentage is within the
      tolerance of the rounded share. */
  predicate Fails(ch: Check, c: Captures)
    ensures ch == WhrsNet && CountOf(c.whrsAux) > CountOf(c.whrsGen) ==> Fails(ch, c)
    ensures ch == CppNet && CountOf(c.cppAux) > CountOf(c.cppGen) ==> Fails(ch, c)
    ensures ch == TotalUnits && CountOf(c.total) < CountOf(c.whrsNet) + CountOf(c.cppNet) ==> Fails(ch, c)
  {
    match ch
    case WhrsNet => CountOf(c.whrsGen) - CountOf(c.whrsAux) != CountOf(c.whrsNet)
    case CppNet => CountOf(c.cppGen) - CountOf(c.cppAux) != CountOf(c.cppNet)
    case TotalUnits => CountOf(c.whrsNet) + CountOf(c.cppNet) + CountOf(c.ebUnits) != CountOf(c.total)
    case WhrsPercent => Mismatch(CountOf(c.whrsNet), CountOf(c.total), PercentOf(c.whrsPct))
    case CppPercent => Mismatch(CountOf(c.cppNet), CountOf(c.total), PercentOf(c.cppPct))
    case EbPercent => Mismatch(CountOf(c.ebUnits), CountOf(c.total), PercentOf(c.ebPct))
  }

  /** What a check adds to the result when it runs: its message if it fails. */
  function Reported(ch: Check, c: Captures): seq<string> {
    if Fails(ch, c) then [Message(ch)] else []
  }

  /** The result of verifyReport, by where the first missing field lies: the
      checks whose fields all come before it report, in order, and its
      message comes last. */
  function Expected(c: Captures): (r: seq<string>)
    ensures |r| <= if FirstMissing(c) < FieldCount then 3 else 6
  {
    var k := FirstMissing(c);
    if k < 4 then
      [MissingMessage(k)]
    else if k < 8 then
      Reported(WhrsNet, c) + [MissingMessage(k)]
    else if k < FieldCount then
      Reported(WhrsNet, c) + Reported(CppNet, c) + [MissingMessage(k)]
    else
      Reported(WhrsNet, c) + Reported(CppNet, c) + Reported(TotalUnits, c)
      + Reported(WhrsPercent, c) + Reported(CppPercent, c) + Reported(EbPercent, c)
  }

  // ---------------------------------------------------------------------
  // verifyReport. Each commented block of its try statement is a method
  // below; a block that yields NotFound has thrown, and VerifyReport is
  // where the catch appends the thrown message.

  /** The readings of one generating source: gross, auxiliary and net units,
      and the percentage the report gives for it. */
  datatype Source = Source(gen: nat, aux: nat, net: nat, pct: real)

  function WhrsOf(c: Captures): Source {
    Source(CountOf(c.whrsGen), CountOf(c.whrsAux), CountOf(c.whrsNet), PercentOf(c.whrsPct))
  }

  function CppOf(c: Captures): Source {
    Source(CountOf(c.cppGen), CountOf(c.cppAux), CountOf(c.cppNet), PercentOf(c.cppPct))
  }

  /** `verifyReport(text)`, given what each of its patterns matches in `text`. */
  method VerifyReport(c: Captures) returns (errors: seq<string>)
    ensures errors == Expected(c)
  {
    errors := [];
    var whrs, cpp, eb, total;
    whrs, errors := WhrsBlock(c, errors);
    if whrs.NotFound? {
      EmptyThen([whrs.message]);
      errors := errors + [whrs.message];
      return;
    }
    EmptyThen(Reported(WhrsNet, c));
    cpp, errors := CppBlock(c, errors);
    if cpp.NotFound? {
      errors := errors + [cpp.message];
      return;
    }
    eb := EbBlock(c);
    if eb.NotFound? {
      errors := errors + [eb.message];
      return;
    }
    total, errors := TotalBlock(c, whrs.value.net, cpp.value.net, eb.value.0, errors);
    if total.NotFound? {
      errors := errors + [total.message];
      return;
    }
    errors := PercentBlock(c, whrs.value, cpp.value, eb.value.0, eb.value.1, total.value, errors);
  }

  /** script.js lines 27-34, the WHRS block: the four WHRS fields, then the WHRS net check. */
  method WhrsBlock(c: Captures, errors: seq<string>) returns (whrs: Extracted<Source>, errors': seq<string>)
    ensures whrs.NotFound? <==> FirstMissing(c) < 4
    ensures whrs.NotFound? ==> whrs.message == MissingMessage(FirstMissing(c)) && errors' == errors
    ensures whrs.Value? ==> whrs.value == WhrsOf(c) && errors' == errors + Reported(WhrsNet, c)
  {
    errors' := errors;
    var whrsGen := GetInt(c.whrsGen, "WHRS Generation");
    if whrsGen.NotFound? { return NotFound(whrsGen.message), errors'; }
    var whrsAux := GetInt(c.whrsAux, "WHRS Aux");
    if whrsAux.NotFound? { return NotFound(whrsAux.message), errors'; }
    var whrsNet := GetInt(c.whrsNet, "WHRS Net");
    if whrsNet.NotFound? { return NotFound(whrsNet.message), errors'; }
    var whrsPct := GetPct(c.whrsPct, "WHRS");
    if whrsPct.NotFound? { return NotFound(whrsPct.message), errors'; }

    if whrsGen.value - whrsAux.value != whrsNet.value {
      errors' := errors' + ["WHRS net generation calculation wrong"];
    }
    ReportedAfter(errors, WhrsNet, c);
    whrs := Value(Source(whrsGen.value, whrsAux.value, whrsNet.value, whrsPct.value));
  }

  /** script.js lines 37-44, the CPP block: the four CPP fields, then the CPP net check. */
  method CppBlock(c: Captures, errors: seq<string>) returns (cpp: Extracted<Source>, errors': seq<string>)
    requires FirstMissing(c) >= 4
    ensures cpp.NotFound? <==> FirstMissing(c) < 8
    ensures cpp.NotFound? ==> cpp.message == MissingMessage(FirstMissing(c)) && errors' == errors
    ensures cpp.Value? ==> cpp.value == CppOf(c) && errors' == errors + Reported(CppNet, c)
  {
    errors' := errors;
    var cppGen := GetInt(c.cppGen, "CPP Generation");
    if cppGen.NotFound? { return NotFound(cppGen.message), errors'; }
    var cppAux := GetInt(c.cppAux, "CPP Aux");
    if cppAux.NotFound? { return NotFound(cppAux.message), errors'; }
    var cppNet := GetInt(c.cppNet, "CPP Net");
    if cppNet.NotFound? { return NotFound(cppNet.message), errors'; }
    var cppPct := GetPct(c.cppPct, "CPP");
    if cppPct.NotFound? { return NotFound(cppPct.message), errors'; }

    if cppGen.value - cppAux.value != cppNet.value {
      errors' := errors' + ["CPP net generation calculation wrong"];
    }
    ReportedAfter(errors, CppNet, c);
    cpp := Value(Source(cppGen.value, cppAux.value, cppNet.value, cppPct.value));
  }

  /** script.js lines 47-48, the EB block: the EB units and the EB percentage. */
  method EbBlock(c: Captures) returns (eb: Extracted<(nat, real)>)
    requires FirstMissing(c) >= 8
    ensures eb.NotFound? <==> FirstMissing(c) < 10
    ensures eb.NotFound? ==> eb.message == MissingMessage(FirstMissing(c))
    ensures eb.Value? ==> eb.value == (CountOf(c.ebUnits), PercentOf(c.ebPct))
  {
    var ebUnits := GetInt(c.ebUnits, "EB Units");
    if ebUnits.NotFound? { return NotFound(ebUnits.message); }
    var ebPct := GetPct(c.ebPct, "EB");
    if ebPct.NotFound? { return NotFound(ebPct.message); }
    eb := Value((ebUnits.value, ebPct.value));
  }

  /** script.js lines 51-55, the total block: the plant total, then the check that the three nets add up to it. */
  method TotalBlock(c: Captures, whrsNet: nat, cppNet: nat, ebUnits: nat, errors: seq<string>)
    returns (total: Extracted<nat>, errors': seq<string>)
    requires FirstMissing(c) >= 10
    requires whrsNet == CountOf(c.whrsNet) && cppNet == CountOf(c.cppNet) && ebUnits == CountOf(c.ebUnits)
    ensures total.NotFound? <==> FirstMissing(c) < FieldCount
    ensures total.NotFound? ==> total.message == MissingMessage(FirstMissing(c)) && errors' == errors
    ensures total.Value? ==> total.value == CountOf(c.total) && errors' == errors + Reported(TotalUnits, c)
  {
    errors' := errors;
    total := GetInt(c.total, "Total plant consumed");
    if total.NotFound? { return; }

    if whrsNet + cppNet + ebUnits != total.value {
      errors' := errors' + ["Total plant consumed units mismatch"];
    }
    ReportedAfter(errors, TotalUnits, c);
  }

  /** script.js lines 58-71, the percentage block: the three percentage checks. */
  method PercentBlock(ghost c: Captures, whrs: Source, cpp: Source, ebUnits: nat, ebPct: real, total: nat, errors: seq<string>)
    returns (errors': seq<string>)
    requires whrs.net == CountOf(c.whrsNet) && whrs.pct == PercentOf(c.whrsPct)
    requires cpp.net == CountOf(c.cppNet) && cpp.pct == PercentOf(c.cppPct)
    requires ebUnits == CountOf(c.ebUnits) && ebPct == PercentOf(c.ebPct) && total == CountOf(c.total)
    ensures errors' == errors + Reported(WhrsPercent, c) + Reported(CppPercent, c) + Reported(EbPercent, c)
  {
    errors' := errors;
    if Mismatch(whrs.net, total, whrs.pct) {
      errors' := errors' + ["WHRS percentage mismatch"];
    }
    ReportedAfter(errors, WhrsPercent, c);
    ghost var before := errors';
    if Mismatch(cpp.net, total, cpp.pct) {
      errors' := errors' + ["CPP percentage mismatch"];
    }
    ReportedAfter(before, CppPercent, c);
    before := errors';
    if Mismatch(ebUnits, total, ebPct) {
      errors' := errors' + ["EB percentage mismatch"];
    }
    ReportedAfter(before, EbPercent, c);
  }

  /** Appending what a check reports is pushing its message exactly when it fails. */
  lemma ReportedAfter(errors: seq<string>, ch: Check, c: Captures)
    ensures errors + Reported(ch, c) == if Fails(ch, c) then errors + [Message(ch)] else errors
  {
    if !Fails(ch, c) {
      assert errors + [] == errors;
    }
  }

  // The identities and the regrouping below are lemmas of their own because
  // the solver, asked for them inline, spends far more on the proofs around them.

  lemma EmptyThen(s: seq<string>)
    ensures [] + s == s
  {
  }

  lemma ThenEmpty(s: seq<string>)
    ensures s + [] == s
  {
  }

  lemma Regroup(a: seq<string>, b: seq<string>, c: seq<string>)
    ensures a + b + c == a + (b + c)
  {
  }

  // ---------------------------------------------------------------------
  // What the result says about the report

  /** The messages of the checks in `checks` that have run once the first
      `k` fields are extracted and that fail, in the order of `checks`. */
  function CheckMessages(checks: seq<Check>, k: nat, c: Captures): seq<string>
  {
    if checks == [] then []
    else
      (if ReadyAfter(checks[0]) <= k && Fails(checks[0], c) then [Message(checks[0])] else [])
      + CheckMessages(checks[1..], k, c)
  }

  /** The rule the result follows, stated over the check list: every check
      whose fields all precede the first missing field reports if it fails,
      in the order the checks run, each at most once; then comes the message
      of the missing field, if there is one. */
  function Report(c: Captures): seq<string>
  {
    var k := FirstMissing(c);
    CheckMessages(Checks, k, c) + if k < FieldCount then [MissingMessage(k)] else []
  }

  lemma CheckMessagesCons(ch: Check, rest: seq<Check>, k: nat, c: Captures)
    ensures CheckMessages([ch] + rest, k, c)
         == (if ReadyAfter(ch) <= k then Reported(ch, c) else []) + CheckMessages(rest, k, c)
  {
    assert ([ch] + rest)[1..] == rest;
  }

  /** Which checks have run once the first `k` fields are extracted. */
  lemma {:induction false} ChecksRun(k: nat, c: Captures)
    ensures k < 4 ==> CheckMessages(Checks, k, c) == []
    ensures 4 <= k < 8 ==> CheckMessages(Checks, k, c) == Reported(WhrsNet, c)
    ensures 8 <= k < FieldCount ==> CheckMessages(Checks, k, c) == Reported(WhrsNet, c) + Reported(CppNet, c)
    ensures k >= FieldCount ==>
      CheckMessages(Checks, k, c)
      == Reported(WhrsNet, c) + (Reported(CppNet, c) + (Reported(TotalUnits, c)
         + (Reported(WhrsPercent, c) + (Reported(CppPercent, c) + Reported(EbPercent, c)))))
  {
    var t5 := [EbPercent];
    var t4 := [CppPercent] + t5;
    var t3 := [WhrsPercent] + t4;
    var t2 := [TotalUnits] + t3;
    var t1 := [CppNet] + t2;
    var t0 := [WhrsNet] + t1;
    assert Checks == t0;
    assert t5 == [EbPercent] + [];
    CheckMessagesCons(EbPercent, [], k, c);
    CheckMessagesCons(CppPercent, t5, k, c);
    CheckMessagesCons(WhrsPercent, t4, k, c);
    CheckMessagesCons(TotalUnits, t3, k, c);
    CheckMessagesCons(CppNet, t2, k, c);
    CheckMessagesCons(WhrsNet, t1, k, c);
    if k < FieldCount {
      EmptyThen([]);
      if 4 <= k {
        ThenEmpty(Reported(WhrsNet, c));
        if 8 <= k {
          ThenEmpty(Reported(CppNet, c));
        }
      }
    } else {
      ThenEmpty(Reported(EbPercent, c));
    }
  }

  /** The result of verifyReport is the rule above. */
  lemma {:induction false} ExpectedIsReport(c: Captures)
    ensures Expected(c) == Report(c)
  {
    var k := FirstMissing(c);
    ChecksRun(k, c);
    var r0, r1, r2 := Reported(WhrsNet, c), Reported(CppNet, c), Reported(TotalUnits, c);
    var r3, r4, r5 := Reported(WhrsPercent, c), Reported(CppPercent, c), Reported(EbPercent, c);
    if k < 4 {
      EmptyThen([MissingMessage(k)]);
    } else if k == FieldCount {
      ThenEmpty(CheckMessages(Checks, k, c));
      Regroup(r0 + r1 + r2 + r3, r4, r5);
      Regroup(r0 + r1 + r2, r3, r4 + r5);
      Regroup(r0 + r1, r2, r3 + (r4 + r5));
      Regroup(r0, r1, r2 + (r3 + (r4 + r5)));
    }
  }

  /** Check messages end in "g" or "h", missing-field messages in "d". */
  lemma CheckMessageIsNotMissing(ch: Check, i: nat)
    requires i < FieldCount
    ensures Message(ch) != MissingMessage(i)
  {
    var m := MissingMessage(i);
    var tail := if FieldKind(i) == Count then " not found" else " % not found";
    assert m == FieldName(i) + tail;
    assert m[|m| - 1] == tail[|tail| - 1] == 'd';
  }

  /** No two checks share a message. */
  lemma MessagesDiffer(ch: Check, other: Check)
    ensures Message(ch) == Message(other) ==> ch == other
  {
    if Message(ch) == Message(other) {
      assert |Message(ch)| == |Message(other)|;
    }
  }

  /** A check's message is among the messages of `checks` exactly when the
      check is listed, has run and fails. */
  lemma {:induction false} InCheckMessages(ch: Check, checks: seq<Check>, k: nat, c: Captures)
    ensures Message(ch) in CheckMessages(checks, k, c) <==> ch in checks && ReadyAfter(ch) <= k && Fails(ch, c)
  {
    if checks != [] {
      InCheckMessages(ch, checks[1..], k, c);
      MessagesDiffer(ch, checks[0]);
      assert checks == [checks[0]] + checks[1..];
    }
  }

  /** A check's message is in the result exactly when the check ran (all
      the fields it reads were found before any field went missing) and it
      failed. So the total and percentage checks run even after the net
      checks failed, and no total or percentage message appears once a field
      is missing. */
  lemma CheckReportedIff(ch: Check, c: Captures)
    ensures Message(ch) in Expected(c) <==> ReadyAfter(ch) <= FirstMissing(c) && Fails(ch, c)
  {
    var k := FirstMissing(c);
    ExpectedIsReport(c);
    InCheckMessages(ch, Checks, k, c);
    assert ch in Checks;
    if k < FieldCount {
      CheckMessageIsNotMissing(ch, k);
    }
  }

  /** A missing field's message is the last entry, and before it stands at
      most one message per net check that has run. */
  lemma MissingFieldLast(c: Captures)
    requires FirstMissing(c) < FieldCount
    ensures var e := Expected(c); |e| > 0 && e[|e| - 1] == MissingMessage(FirstMissing(c))
    ensures |Expected(c)| <= 1 + FirstMissing(c) / 4
  {
  }

  /** The report is accepted, with no message at all, exactly when every
      field is found and none of the six checks fails. */
  lemma NoErrorsIff(c: Captures)
    ensures Expected(c) == [] <==> FirstMissing(c) == FieldCount && forall ch: Check :: !Fails(ch, c)
  {
    var k := FirstMissing(c);
    if k < FieldCount {
      MissingFieldLast(c);
    } else if Expected(c) == [] {
      forall ch: Check
        ensures !Fails(ch, c)
      {
        CheckReportedIff(ch, c);
      }
    }
  }

  /** Nothing is extracted before the WHRS generation: without it the result
      is its message alone. */
  lemma WhrsGenerationMissing(c: Captures)
    requires c.whrsGen.NoMatch?
    ensures Expected(c) == ["WHRS Generation not found"]
  {
    assert MissingMessage(0) == "WHRS Generation" + " not found" == "WHRS Generation not found";
  }

  /** A WHRS net error followed by a missing CPP percentage gives two
      entries, the net error first. */
  lemma NetErrorThenMissingCppPercent(c: Captures)
    requires FirstMissing(c) == 7 && Fails(WhrsNet, c)
    ensures Expected(c) == ["WHRS net generation calculation wrong", "CPP % not found"]
  {
    assert MissingMessage(7) == "CPP" + " % not found" == "CPP % not found";
    assert Expected(c) == [Message(WhrsNet)] + [MissingMessage(7)];
  }

  /** Counts are never negative, but generation minus auxiliary can be:
      an auxiliary reading above generation is always reported as a net
      error, whatever the net reading is. */
  lemma AuxAboveGenerationFlagged(c: Captures)
    requires FirstMissing(c) >= 4 && CountOf(c.whrsAux) > CountOf(c.whrsGen)
    ensures Message(WhrsNet) in Expected(c)
  {
    CheckReportedIff(WhrsNet, c);
  }

  /** A check's message occurs among the messages of `checks` no more often
      than the check is listed. */
  lemma {:induction false} CheckMessagesCount(ch: Check, checks: seq<Check>, k: nat, c: Captures)
    ensures multiset(CheckMessages(checks, k, c))[Message(ch)] <= multiset(checks)[ch]
  {
    if checks != [] {
      CheckMessagesCount(ch, checks[1..], k, c);
      MessagesDiffer(ch, checks[0]);
      assert checks == [checks[0]] + checks[1..];
    }
  }

  /** Each check reports at most once. */
  lemma CheckReportedOnce(c: Captures, ch: Check)
    ensures multiset(Expected(c))[Message(ch)] <= 1
  {
    var k := FirstMissing(c);
    ExpectedIsReport(c);
    CheckMessagesCount(ch, Checks, k, c);
    ChecksListedOnce(ch);
    var tail: seq<string> := if k < FieldCount then [MissingMessage(k)] else [];
    assert multiset(Report(c)) == multiset(CheckMessages(Checks, k, c)) + multiset(tail);
    if k < FieldCount {
      CheckMessageIsNotMissing(ch, k);
      assert multiset(tail)[Message(ch)] == 0;
    }
  }

  lemma ChecksListedOnce(ch: Check)
    ensures multiset(Checks)[ch] == 1
  {
    assert multiset(Checks) == multiset{WhrsNet, CppNet, TotalUnits, WhrsPercent, CppPercent, EbPercent};
  }
}
