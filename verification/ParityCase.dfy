/** `runParityCase` of scripts/dual-run-parity.ts: the verdict on one case. */
module ParityCase {
  import opened Wrappers
  import opened Json
  import opened JsonNormalize
  import opened JsonDiff
  import opened JsonEnums
  import opened JsonPaths

  const DEFAULT_MAX_DIFFS := 25

  datatype HttpResponse = HttpResponse(status: nat, body: Json)

  /** What became of one stack's request: its response, or a thrown transport error. */
  datatype Fetched = Responded(response: HttpResponse) | Failed(message: string)

  datatype Side = Baseline | Worker

  datatype SideViolations = SideViolations(side: Side, violations: seq<EnumViolation>)

  /** What is posted to both stacks, and listed in the report beside the verdict. */
  datatype CalculationInput = CalculationInput(
    productId: int, quantity: int, destination: string,
    transportMethod: Option<string>, transportArrangement: Option<string>)

  datatype CaseResult = CaseResult(
    name: string, input: CalculationInput, ok: bool, baselineStatus: nat, workerStatus: nat,
    diffs: seq<PayloadDiff>, enumViolations: seq<SideViolations>, error: Option<string>)

  /** The payloads agree once the volatile keys are erased on both sides. */
  predicate Agree(a: Json, b: Json) { Same(Normalize(a), Normalize(b)) }

  /** The promised verdict: same status, agreement modulo the volatile keys, valid enums on both sides. */
  ghost predicate Passes(baseline: HttpResponse, worker: HttpResponse)
  {
    && baseline.status == worker.status
    && Agree(baseline.body, worker.body)
    && EnumsHold(Normalize(baseline.body))
    && EnumsHold(Normalize(worker.body))
  }

  lemma NormalizedWellFormed(j: Json)
    requires WellFormed(j)
    ensures WellFormed(Normalize(j))
  {
    CloneWellFormed(j);
    StripWellFormed(Clone(j));
  }

  function TransportFailure(message: string): (error: string) { "transport failure: " + message }

  function StatusDiff(baseline: nat, worker: nat): (diff: PayloadDiff)
  {
    PayloadDiff("HTTP status", ValueMismatch, NatText(baseline), NatText(worker))
  }

  /** What the default cap leaves of a full difference. */
  function FirstDiffs(full: seq<PayloadDiff>): (diffs: seq<PayloadDiff>)
  {
    if |full| <= DEFAULT_MAX_DIFFS then full else full[..DEFAULT_MAX_DIFFS]
  }

  /**
   * One case. When both requests fail, the source reports whichever failed first; here that is the
   * baseline's, and the contract only says that it is one of the two.
   */
  method RunParityCase(render: Render, name: string, input: CalculationInput, baseline: Fetched, worker: Fetched)
    returns (r: CaseResult)
    requires baseline.Responded? ==> WellFormed(baseline.response.body)
    requires worker.Responded? ==> WellFormed(worker.response.body)
    ensures r.name == name && r.input == input
    ensures r.ok <==> baseline.Responded? && worker.Responded? && Passes(baseline.response, worker.response)
    ensures r.error.Some? <==> baseline.Failed? || worker.Failed?
    ensures r.error.Some? ==>
              && r == CaseResult(name, input, false, 0, 0, [], [], r.error)
              && ((baseline.Failed? && r.error == Some("transport failure: " + baseline.message))
                  || (worker.Failed? && r.error == Some("transport failure: " + worker.message)))
    ensures baseline.Responded? && worker.Responded? ==>
              r.baselineStatus == baseline.response.status && r.workerStatus == worker.response.status
    ensures baseline.Responded? && worker.Responded? && baseline.response.status != worker.response.status ==>
              && r.diffs == [StatusDiff(baseline.response.status, worker.response.status)]
              && r.enumViolations == []
    ensures baseline.Responded? && worker.Responded? && baseline.response.status == worker.response.status ==>
              var left, right := Normalize(baseline.response.body), Normalize(worker.response.body);
              && r.diffs == FirstDiffs(FullDiff(render, left, right, [])) && |r.diffs| <= 25
              && (|r.diffs| < 25 ==> r.diffs == FullDiff(render, left, right, []))
              && (r.diffs == [] <==> Agree(baseline.response.body, worker.response.body))
              && var onBaseline, onWorker := Violations(left, []), Violations(right, []);
                 r.enumViolations
                 == (if onBaseline == [] && onWorker == [] then []
                     else if onWorker == [] then [SideViolations(Baseline, onBaseline)]
                     else if onBaseline == [] then [SideViolations(Worker, onWorker)]
                     else [SideViolations(Baseline, onBaseline), SideViolations(Worker, onWorker)])
  {
    hide Normalize, FullDiff, Violations, Same, WellFormed, EnumsHold, NatText;
    if baseline.Failed? {
      return CaseResult(name, input, false, 0, 0, [], [], Some(TransportFailure(baseline.message)));
    }
    if worker.Failed? {
      return CaseResult(name, input, false, 0, 0, [], [], Some(TransportFailure(worker.message)));
    }
    var left, right := baseline.response, worker.response;
    if left.status != right.status {
      var diff := StatusDiff(left.status, right.status);
      return CaseResult(name, input, false, left.status, right.status, [diff], [], None);
    }
    var normalizedBaseline := NormalizePayload(left.body);
    var normalizedWorker := NormalizePayload(right.body);
    NormalizedWellFormed(left.body);
    NormalizedWellFormed(right.body);
    var diffs := DiffNormalized(render, normalizedBaseline, normalizedWorker, DEFAULT_MAX_DIFFS);
    var enumViolations: seq<SideViolations> := [];
    var baselineViolations := ValidateEnums(normalizedBaseline);
    var workerViolations := ValidateEnums(normalizedWorker);
    EmptyReport(normalizedBaseline);
    EmptyReport(normalizedWorker);
    if |baselineViolations| > 0 {
      enumViolations := enumViolations + [SideViolations(Baseline, baselineViolations)];
    }
    if |workerViolations| > 0 {
      enumViolations := enumViolations + [SideViolations(Worker, workerViolations)];
    }
    var ok := |diffs| == 0 && |enumViolations| == 0;
    r := CaseResult(name, input, ok, left.status, right.status, diffs, enumViolations, None);
  }

  /** Agreement is an equivalence relation on well-formed payloads. */
  lemma AgreeIsEquivalence(a: Json, b: Json, c: Json)
    requires WellFormed(a) && WellFormed(b) && WellFormed(c)
    ensures Agree(a, a)
    ensures Agree(a, b) ==> Agree(b, a)
    ensures Agree(a, b) && Agree(b, c) ==> Agree(a, c)
  {
    hide Same, WellFormed, Normalize;
    NormalizedWellFormed(a);
    NormalizedWellFormed(b);
    NormalizedWellFormed(c);
    SameReflexive(Normalize(a));
    if Agree(a, b) {
      SameSymmetric(Normalize(a), Normalize(b));
      if Agree(b, c) {
        SameTransitive(Normalize(a), Normalize(b), Normalize(c));
      }
    }
  }

  /** The keys whose values do not matter are these four: */
  lemma IgnoredKeys(key: string)
    ensures Agree(Obj([Field(key, Str("a"))]), Obj([Field(key, Str("b"))]))
       <==> key == "calculationRecordId" || key == "calculationTimestamp" || key == "timestamp" || key == "path"
  {
    OneField(key, Str("a"));
    OneField(key, Str("b"));
    var xs, ys := [Field(key, Str("a"))], [Field(key, Str("b"))];
    if key in VOLATILE_KEYS {
      SameReflexive(Obj([]));
    } else {
      assert "a"[0] != "b"[0];
      hide Normalize;
      OneKey(key, Str("a"), Str("b"));
    }
  }

  lemma OneKey(key: string, x: Json, y: Json)
    ensures Same(Obj([Field(key, x)]), Obj([Field(key, y)])) <==> Same(x, y)
  {
    var xs, ys := [Field(key, x)], [Field(key, y)];
    assert xs[0].key == key && ys[0].key == key;
    assert HasKey(ys, key) && HasKey(xs, key) && Get(ys, key) == y;
  }

  /** inside an object too, as the `metadata.calculationTimestamp` of a result. */
  lemma TimestampIgnored(outer: string, x: Json, y: Json)
    ensures Agree(Obj([Field(outer, Obj([Field("calculationTimestamp", x)]))]),
                  Obj([Field(outer, Obj([Field("calculationTimestamp", y)]))]))
  {
    var key := "calculationTimestamp";
    OneField(key, x);
    OneField(key, y);
    OneField(outer, Obj([Field(key, x)]));
    OneField(outer, Obj([Field(key, y)]));
    hide Normalize;
    SameReflexive(Obj([]));
    OneKey(outer, Obj([]), Obj([]));
  }

  lemma OneField(key: string, value: Json)
    ensures Normalize(Obj([Field(key, value)]))
         == Obj(if key in VOLATILE_KEYS then [] else [Field(key, Normalize(value))])
    ensures Normalize(Str("a")) == Str("a") && Normalize(Str("b")) == Str("b")
  {
    var c := Clone(Obj([Field(key, value)]));
    hide VOLATILE_KEYS;
    assert c.fields == [Field(key, Clone(value))];
    assert StripFields(c, 0) == [];
    assert StripFields(c, 1) == if key in VOLATILE_KEYS then [] else [Field(key, Strip(Clone(value)))];
  }

  /** The enum keys are these three, and these are their values. */
  lemma EnumVerdict(key: string, value: string)
    ensures EnumsHold(Obj([Field(key, Str(value))]))
       <==> && (key == "confidence" ==> value == "HIGH" || value == "MEDIUM" || value == "LOW")
            && (key == "reliability" || key == "status"
                ==> value == "VERIFIED" || value == "ESTIMATED" || value == "STALE" || value == "UNAVAILABLE")
  {
    OneString(key, value);
    hide EnumsHold;
  }

  lemma OneString(key: string, value: string)
    ensures EnumsHold(Obj([Field(key, Str(value))])) <==> Permits(key, value)
  {
    var j := Obj([Field(key, Str(value))]);
    EmptyReport(j);
    hide EnumsHold, Permits, Allowed, FormatPath;
    assert FieldViolations(j, [], 0) == [];
  }

  /** Equal amounts pass; another amount, another status, or one bogus enum on both sides does not. */
  lemma Verdicts(status: nat, other: nat, amount: real, more: real)
    requires status != other && amount != more
    ensures var total := Obj([Field("totalCents", Num(Finite(amount)))]);
            var changed := Obj([Field("totalCents", Num(Finite(more)))]);
            var bogus := Obj([Field("status", Str("BOGUS"))]);
            && Passes(HttpResponse(status, total), HttpResponse(status, total))
            && !Passes(HttpResponse(status, total), HttpResponse(other, total))
            && !Passes(HttpResponse(status, total), HttpResponse(status, changed))
            && !Passes(HttpResponse(status, bogus), HttpResponse(status, bogus))
  {
    var key := "totalCents";
    OneField(key, Num(Finite(amount)));
    OneField(key, Num(Finite(more)));
    OneField("status", Str("BOGUS"));
    assert Normalize(Num(Finite(amount))) == Num(Finite(amount)) && Normalize(Num(Finite(more))) == Num(Finite(more));
    assert Normalize(Str("BOGUS")) == Str("BOGUS");
    NotVolatile();
    EnumVerdict("status", "BOGUS");
    NoEnums(amount);
    hide Normalize, EnumsHold;
    OneKey(key, Num(Finite(amount)), Num(Finite(amount)));
    OneKey(key, Num(Finite(amount)), Num(Finite(more)));
  }

  lemma NotVolatile()
    ensures "totalCents" !in VOLATILE_KEYS && "status" !in VOLATILE_KEYS
  {
  }

  lemma NoEnums(amount: real)
    ensures EnumsHold(Obj([Field("totalCents", Num(Finite(amount)))]))
  {
    var j := Obj([Field("totalCents", Num(Finite(amount)))]);
    EmptyReport(j);
    assert FieldViolations(j, [], 0) == [];
    assert Violations(Num(Finite(amount)), [Key("totalCents")]) == [];
    assert FieldViolations(j, [], 1) == [];
  }

  /** A status mismatch is reported as the two numbers themselves. */
  lemma StatusDiffReads(baseline: nat, worker: nat)
    ensures var d := StatusDiff(baseline, worker);
            && d.path == "HTTP status" && d.kind == ValueMismatch
            && ReadNat(d.baseline) == Some(baseline) && ReadNat(d.worker) == Some(worker)
  {
    ReadNatText(baseline);
    ReadNatText(worker);
  }

  /** Adding a volatile key anywhere in either payload never changes the verdict. */
  lemma AddedVolatileKeepsVerdict(baseline: HttpResponse, worker: HttpResponse, path: seq<Step>, at: nat, f: Field)
    requires At(worker.body, path).Some? && At(worker.body, path).value.Obj?
    requires at <= |At(worker.body, path).value.fields| && f.key in VOLATILE_KEYS
    ensures var fields := At(worker.body, path).value.fields;
            var edited := worker.(body := Put(worker.body, path, Obj(InsertField(fields, at, f))));
            && (Passes(baseline, edited) <==> Passes(baseline, worker))
            && (Passes(edited, baseline) <==> Passes(worker, baseline))
  {
    AddVolatile(worker.body, path, at, f);
  }

  /** Altering the value under a volatile key never changes the verdict. */
  lemma AlteredVolatileKeepsVerdict(baseline: HttpResponse, worker: HttpResponse, path: seq<Step>, i: nat, value: Json)
    requires At(worker.body, path).Some? && At(worker.body, path).value.Obj?
    requires i < |At(worker.body, path).value.fields| && At(worker.body, path).value.fields[i].key in VOLATILE_KEYS
    ensures var fields := At(worker.body, path).value.fields;
            var edited := worker.(body := Put(worker.body, path, Obj(fields[i := Field(fields[i].key, value)])));
            && (Passes(baseline, edited) <==> Passes(baseline, worker))
            && (Passes(edited, baseline) <==> Passes(worker, baseline))
  {
    AlterVolatile(worker.body, path, i, value);
  }
}
