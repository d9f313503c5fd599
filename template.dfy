/**
  `Template`: parse one domain per exported field of the experiment struct, count the
  experiments, run the expander and check the count. Panics become `Err` values. A struct
  template is copied into one working record that is updated in place. A pointer template is
  copied before anything is set, so the caller's object is never touched.
*/
module Generate {
  import opened Wrappers
  import opened Values
  import opened Domain
  import opened Engine
  import opened Strings

  // ---------------------------------------------------------------- the specification

  /**
    What `Template` returns: the first field panic, the panic of `fieldPerm` when no field is
    exported (it indexes an empty field list), or every combination of the domains in
    odometer order.
  */
  function TemplateSpec(schema: Schema, experiment: Record): Result<seq<Record>, Error>
    requires |experiment| == |schema|
  {
    match Domains(schema, experiment)
    case Err(e) => Err(e)
    case Ok(fis) => if fis == [] then Err(NoDomainFields) else Ok(Expand(experiment, fis))
  }

  /** The parsed domains are what the expander needs: real fields, non-empty domains, no field twice. */
  lemma DescribesPositions(fis: seq<FieldInfo>, schema: Schema)
    requires Describes(fis, schema, 0)
    ensures Positions(fis, |schema|)
  {
    forall a | 0 <= a < |fis|
      ensures fis[a].pos < |schema| && |fis[a].vals| >= 1
    {
      assert FieldDomain(schema[fis[a].pos]) == Ok(fis[a].vals);
    }
  }

  /** The parsed domain list is empty exactly when no field is exported. */
  lemma DescribesEmpty(fis: seq<FieldInfo>, schema: Schema)
    requires Describes(fis, schema, 0)
    ensures fis == [] <==> forall j :: 0 <= j < |schema| ==> !schema[j].exported
  {
    if fis != [] {
      assert schema[fis[0].pos].exported;
    }
  }

  /** No field's domain fails with an error that only the expander raises. */
  lemma FieldOutcomeError(f: Field, v: Value)
    ensures FieldOutcome(f, v).Err? ==> FieldOutcome(f, v).error != NoDomainFields
  {
    if f.exported && Generable(f.kind) && f.kind != Bool && f.kind != String && f.tag.Some? {
      var constraints := RemoveSpaces(f.tag.value);
      if !HasPrefix(constraints, "range") {
        var tokens := Split(constraints, ',');
        if NumberValues(tokens, f.kind).Err? {
          var i :| 0 <= i < |tokens| && ParseNumber(tokens[i], f.kind) == Err(NumberValues(tokens, f.kind).error);
        }
      }
    }
  }

  /**
    The outcome: `Template` succeeds exactly when every exported field has a domain, every
    unexported field is zero and at least one field is exported; it reports `NoDomainFields`
    exactly when no field is exported and every field is zero.
  */
  lemma TemplateOutcome(schema: Schema, experiment: Record)
    requires |experiment| == |schema|
    ensures TemplateSpec(schema, experiment).Ok? <==>
      (forall j :: 0 <= j < |schema| && schema[j].exported ==> FieldDomain(schema[j]).Ok?) &&
      (forall j :: 0 <= j < |schema| && !schema[j].exported ==> IsZero(experiment[j])) &&
      (exists j :: 0 <= j < |schema| && schema[j].exported)
    ensures TemplateSpec(schema, experiment) == Err(NoDomainFields) <==>
      forall j :: 0 <= j < |schema| ==> !schema[j].exported && IsZero(experiment[j])
  {
    var d := Domains(schema, experiment);
    DomainsOutcome(schema, experiment);
    if d.Ok? {
      DescribesEmpty(d.value, schema);
    } else {
      var j :| 0 <= j < |schema| && FieldOutcome(schema[j], experiment[j]) == Err(d.error);
      FieldOutcomeError(schema[j], experiment[j]);
    }
  }

  /** The size law: one record per combination, the product of the domain sizes, at least one. */
  lemma TemplateSize(schema: Schema, experiment: Record)
    requires |experiment| == |schema| && TemplateSpec(schema, experiment).Ok?
    ensures Domains(schema, experiment).Ok?
    ensures |TemplateSpec(schema, experiment).value| == Product(Domains(schema, experiment).value) >= 1
  {
    var fis := Domains(schema, experiment).value;
    DomainsOutcome(schema, experiment);
    DescribesPositions(fis, schema);
    ExpandSize(experiment, fis);
    ProductPositive(fis);
  }

  /**
    The odometer law: in record `k`, domain field `a` holds value `(k / S) % n` of its domain,
    where `n` is the domain's size and `S` the product of the sizes of the domains after it.
  */
  lemma TemplateIndex(schema: Schema, experiment: Record, k: nat, a: nat)
    requires |experiment| == |schema| && TemplateSpec(schema, experiment).Ok?
    requires k < |TemplateSpec(schema, experiment).value|
    requires a < |Domains(schema, experiment).value|
    ensures var fis := Domains(schema, experiment).value;
      var r := TemplateSpec(schema, experiment).value[k];
      Stride(fis, a) > 0 && |fis[a].vals| >= 1 && fis[a].pos < |r| &&
      r[fis[a].pos] == fis[a].vals[(k / Stride(fis, a)) % |fis[a].vals|]
  {
    var fis := Domains(schema, experiment).value;
    TemplateSize(schema, experiment);
    DomainsOutcome(schema, experiment);
    DescribesPositions(fis, schema);
    ExpandIndex(experiment, fis, k, a);
  }

  /**
    The membership law: a record is generated exactly when it agrees with the template on every
    unexported field and holds a value of its field's domain in every exported field.
  */
  lemma TemplateMembers(schema: Schema, experiment: Record, r: Record)
    requires |experiment| == |schema| && TemplateSpec(schema, experiment).Ok?
    ensures Domains(schema, experiment).Ok?
    ensures r in TemplateSpec(schema, experiment).value <==>
      Member(r, experiment, Domains(schema, experiment).value)
  {
    var fis := Domains(schema, experiment).value;
    DomainsOutcome(schema, experiment);
    DescribesPositions(fis, schema);
    ExpandMembers(experiment, fis, r);
  }

  /** Unexported fields are zero in the template and stay so, unchanged, in every record. */
  lemma TemplateOpaque(schema: Schema, experiment: Record, k: nat, j: nat)
    requires |experiment| == |schema| && TemplateSpec(schema, experiment).Ok?
    requires k < |TemplateSpec(schema, experiment).value|
    requires j < |schema| && !schema[j].exported
    ensures j < |TemplateSpec(schema, experiment).value[k]|
    ensures TemplateSpec(schema, experiment).value[k][j] == experiment[j]
    ensures IsZero(TemplateSpec(schema, experiment).value[k][j])
  {
    var fis := Domains(schema, experiment).value;
    DomainsOutcome(schema, experiment);
    ExpandKeeps(experiment, fis, k);
    assert Free(fis, j) by {
      forall a | 0 <= a < |fis|
        ensures fis[a].pos != j
      {
        assert schema[fis[a].pos].exported;
      }
    }
  }

  // ---------------------------------------------------------------- the procedures

  /** `numExps`: the product of the domain sizes, one domain at a time. */
  method CountExperiments(fis: seq<FieldInfo>) returns (numExps: nat)
    ensures numExps == Product(fis)
  {
    numExps := 1;
    for k := 0 to |fis|
      invariant numExps * Product(fis[k..]) == Product(fis)
    {
      assert fis[k..][1..] == fis[k + 1..];
      AssocMul(numExps, |fis[k].vals|, Product(fis[k + 1..]));
      numExps := numExps * |fis[k].vals|;
    }
    assert fis[|fis|..] == [];
  }

  /**
    `Template` on a struct: the domains are parsed, counted, and expanded from one working copy
    of the template, which the expander updates in place; a count that disagrees would panic.
  */
  method Template(schema: Schema, experiment: Record) returns (r: Result<seq<Record>, Error>)
    requires |experiment| == |schema|
    ensures r == TemplateSpec(schema, experiment)
  {
    var parsed := ParseDomains(schema, experiment);
    if parsed.Err? {
      return Err(parsed.error);
    }
    var fieldVals := parsed.value;
    var numExps := CountExperiments(fieldVals);
    if |fieldVals| == 0 {
      return Err(NoDomainFields);
    }
    DomainsOutcome(schema, experiment);
    DescribesPositions(fieldVals, schema);
    var exp := new Experiment(experiment);
    var res := FieldPermValue(fieldVals, exp, [], 0);
    assert fieldVals[0..] == fieldVals;
    assert [] + Expand(experiment, fieldVals) == Expand(experiment, fieldVals);
    ExpandSize(experiment, fieldVals);
    var got: nat := |res|;
    r := if got != numExps then Err(CountMismatch(numExps, got)) else Ok(res);
  }

  /**
    `Template` on a pointer: the template object is copied first and the expander copies again
    before every update, so the caller's object is unchanged and every result is a new object
    of its own, holding the records of the struct case in the same order.
  */
  method TemplatePointer(schema: Schema, experiment: Experiment) returns (r: Result<seq<Experiment>, Error>)
    requires |experiment.fields| == |schema|
    ensures experiment.fields == old(experiment.fields)
    ensures r.Ok? <==> TemplateSpec(schema, experiment.fields).Ok?
    ensures r.Err? ==> r.error == TemplateSpec(schema, experiment.fields).error
    ensures r.Ok? ==> Holds(r.value, TemplateSpec(schema, experiment.fields).value)
    ensures r.Ok? ==> fresh(r.value) && Distinct(r.value)
  {
    var parsed := ParseDomains(schema, experiment.fields);
    if parsed.Err? {
      return Err(parsed.error);
    }
    var fieldVals := parsed.value;
    var numExps := CountExperiments(fieldVals);
    if |fieldVals| == 0 {
      return Err(NoDomainFields);
    }
    var copy := new Experiment(experiment.fields);
    var res := FieldPermPointer(fieldVals, copy, [], 0);
    assert fieldVals[0..] == fieldVals && res[0..] == res;
    ExpandSize(experiment.fields, fieldVals);
    var got: nat := |res|;
    r := if got != numExps then Err(CountMismatch(numExps, got)) else Ok(res);
  }
}
