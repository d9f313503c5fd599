/**
  The domain parser: the loop of `Template` that turns each exported field's `vals` tag into its
  ordered list of candidate values, and checks that every unexported field is zero.
*/
module Domain {
  import opened Wrappers
  import opened Strings
  import opened Numbers
  import opened Values

  /** The panics of the engine, one constructor per cause. */
  datatype Error =
    | NonZeroOpaque(field: string)
    | UnsupportedType(field: string)
    | MissingTag(field: string)
    | RangeUnsupported
    | NotNumeric(kind: Kind)
    | IllegalNumber(kind: Kind)
    | NoDomainFields
    | CountMismatch(expected: nat, got: nat)

  /** `fieldInfo`: an exported field's name, its position in the schema, and its domain. */
  datatype FieldInfo = FieldInfo(name: string, pos: nat, vals: seq<Value>)

  /** The kinds the template accepts: convertible to `int`, or `string`, or `bool`. */
  predicate Generable(k: Kind) {
    k != Other
  }

  /** The kinds `parseNumber` handles; every other numeric kind makes it panic. */
  predicate Parsed(k: Kind) {
    (k.Int? && k.width != W64) || (k.Uint? && k.width != W64) || k == Float32
  }

  /** The values a domain of kind `k` can hold. */
  predicate OfKind(v: Value, k: Kind) {
    match k
    case Bool => v.VBool?
    case String => v.VStr?
    case Int(_) => v.VInt? && MinInt64 <= v.i <= MaxInt64
    case Uint(_) => v.VUint? && v.n <= MaxUint64
    case Float32 => v.VFloat? && Canonical(v.d)
    case _ => false
  }

  /**
    `parseNumber`: signed kinds up to 32 bits read as a 64-bit signed integer, unsigned ones as
    a 64-bit unsigned integer, `float32` as a decimal; any other kind panics as not numeric,
    and text that does not parse panics as illegal.
  */
  function ParseNumber(token: string, k: Kind): (r: Result<Value, Error>)
    ensures r.Ok? ==> Parsed(k) && OfKind(r.value, k)
    ensures !Parsed(k) <==> r == Err(NotNumeric(k))
    ensures r.Err? ==> r.error in {NotNumeric(k), IllegalNumber(k)}
  {
    match k
    case Int(w) =>
      if w == W64 then Err(NotNumeric(k))
      else (match ParseInt64(token)
        case Some(i) => Ok(VInt(i))
        case None => Err(IllegalNumber(k)))
    case Uint(w) =>
      if w == W64 then Err(NotNumeric(k))
      else (match ParseUint64(token)
        case Some(n) => Ok(VUint(n))
        case None => Err(IllegalNumber(k)))
    case Float32 =>
      (match ParseDecimal(token)
        case Some(d) => Ok(VFloat(d))
        case None => Err(IllegalNumber(k)))
    case _ => Err(NotNumeric(k))
  }

  /** The text `%v` prints for a number is read back as the same number. */
  lemma ParseNumberText(v: Value, k: Kind)
    requires Parsed(k) && OfKind(v, k)
    ensures ParseNumber(Text(v), k) == Ok(v)
  {
    match k
    case Int(_) => ParseInt64Text(v.i);
    case Uint(_) => ParseUint64Text(v.n);
    case Float32 =>
      DecimalTextRoundTrip(v.d);
      NormalizeCanonical(v.d);
  }

  /**
    A bool field's domain. With no tag it is `[true, false]`; otherwise the tag's spaces are
    deleted and, unless it mentions both `true` and `false`, the domain is the single value
    "mentions `true`".
  */
  function BoolDomain(tag: Option<string>): (vals: seq<Value>)
    ensures 1 <= |vals| <= 2 && forall v :: v in vals ==> v.VBool?
    ensures VBool(true) in vals <==> tag.None? || Contains(RemoveSpaces(tag.value), "true")
    ensures VBool(false) in vals <==>
      tag.None? || !Contains(RemoveSpaces(tag.value), "true") || Contains(RemoveSpaces(tag.value), "false")
    ensures |vals| == 2 ==> vals == [VBool(true), VBool(false)]
  {
    if tag.None? then [VBool(true), VBool(false)]
    else
      var v := RemoveSpaces(tag.value);
      if !(Contains(v, "true") && Contains(v, "false")) then [VBool(Contains(v, "true"))]
      else [VBool(true), VBool(false)]
  }

  /** Spaces anywhere in a bool tag change nothing. */
  lemma BoolDomainSpaces(a: string, w: string, b: string)
    requires forall i :: 0 <= i < |w| ==> IsSpace(w[i])
    ensures BoolDomain(Some(a + w + b)) == BoolDomain(Some(a + b))
  {
    RemoveSpacesInsert(a, w, b);
  }

  function StrValues(tokens: seq<string>): (vals: seq<Value>)
    ensures |vals| == |tokens| && forall k :: 0 <= k < |tokens| ==> vals[k] == VStr(tokens[k])
  {
    if tokens == [] then [] else [VStr(tokens[0])] + StrValues(tokens[1..])
  }

  /**
    A string field's domain: the tag is mandatory; one space is trimmed at each end and the
    rest split on commas together with the spaces around them.
  */
  function StringDomain(name: string, tag: Option<string>): (r: Result<seq<Value>, Error>)
    ensures r.Err? <==> tag.None?
    ensures r.Err? ==> r.error == MissingTag(name)
    ensures r.Ok? ==> |r.value| >= 1 && forall v :: v in r.value ==> v.VStr? && ',' !in v.s
  {
    match tag
    case None => Err(MissingTag(name))
    case Some(t) =>
      SplitAroundCommasPieces(TrimOneSpace(t));
      Ok(StrValues(SplitAroundCommas(TrimOneSpace(t))))
  }

  /**
    Joining trimmed, comma-free strings with ", " gives a tag whose domain is those strings,
    as long as the last one is not empty (an empty last string leaves a trailing space that
    the one-space trim removes).
  */
  lemma StringDomainJoin(name: string, tokens: seq<string>)
    requires |tokens| >= 1
    requires forall k :: 0 <= k < |tokens| ==> ',' !in tokens[k] && Trimmed(tokens[k])
    requires |tokens| == 1 || tokens[|tokens| - 1] != []
    ensures StringDomain(name, Some(Join(tokens, ", "))) == Ok(StrValues(tokens))
  {
    JoinTrimmed(tokens);
    SplitAroundCommasJoin(tokens);
  }

  lemma {:induction false} JoinTrimmed(tokens: seq<string>)
    requires |tokens| >= 1
    requires forall k :: 0 <= k < |tokens| ==> Trimmed(tokens[k])
    requires |tokens| == 1 || tokens[|tokens| - 1] != []
    ensures Trimmed(Join(tokens, ", "))
  {
    if |tokens| > 1 {
      var init := tokens[..|tokens| - 1];
      var last := tokens[|tokens| - 1];
      assert tokens == init + [last];
      JoinSnoc(init, last, ", ");
      var s := Join(tokens, ", ");
      assert s == Join(init, ", ") + ", " + last;
      assert s[|s| - 1] == last[|last| - 1];
      assert s == tokens[0] + ", " + Join(tokens[1..], ", ");
      assert s[0] == if tokens[0] == [] then ',' else tokens[0][0];
    }
  }

  /** The loop over a numeric tag's tokens: each must parse, in order; the first failure panics. */
  function NumberValues(tokens: seq<string>, k: Kind): (r: Result<seq<Value>, Error>)
    ensures r.Ok? <==> forall i :: 0 <= i < |tokens| ==> ParseNumber(tokens[i], k).Ok?
    ensures r.Ok? ==> (|r.value| == |tokens| &&
      forall i :: 0 <= i < |tokens| ==> ParseNumber(tokens[i], k) == Ok(r.value[i]))
    ensures r.Err? ==> exists i :: (0 <= i < |tokens| && ParseNumber(tokens[i], k) == Err(r.error) &&
      forall j :: 0 <= j < i ==> ParseNumber(tokens[j], k).Ok?)
  {
    if tokens == [] then Ok([])
    else
      match ParseNumber(tokens[0], k)
      case Err(e) => Err(e)
      case Ok(v) =>
        match NumberValues(tokens[1..], k)
        case Err(e) =>
          assert forall i :: 1 <= i < |tokens| ==> tokens[1..][i - 1] == tokens[i];
          Err(e)
        case Ok(vs) => Ok([v] + vs)
  }

  /** When every token parses, the token loop returns exactly the parsed values. */
  lemma NumberValuesParsed(tokens: seq<string>, k: Kind, vals: seq<Value>)
    requires |tokens| == |vals|
    requires forall i :: 0 <= i < |tokens| ==> ParseNumber(tokens[i], k) == Ok(vals[i])
    ensures NumberValues(tokens, k) == Ok(vals)
  {
    var r := NumberValues(tokens, k);
    assert r.Ok?;
    assert r.value == vals;
  }

  /**
    A numeric field's domain: the tag is mandatory; every space is deleted; a `range` prefix
    is refused; the rest is split on commas and each token parsed for the field's kind.
  */
  function NumericDomain(name: string, tag: Option<string>, k: Kind): (r: Result<seq<Value>, Error>)
    ensures tag.None? ==> r == Err(MissingTag(name))
    ensures tag.Some? && HasPrefix(RemoveSpaces(tag.value), "range") ==> r == Err(RangeUnsupported)
    ensures r.Ok? ==> Parsed(k) && |r.value| >= 1 && forall v :: v in r.value ==> OfKind(v, k)
  {
    match tag
    case None => Err(MissingTag(name))
    case Some(t) =>
      var constraints := RemoveSpaces(t);
      if HasPrefix(constraints, "range") then Err(RangeUnsupported)
      else NumberValues(Split(constraints, ','), k)
  }

  /** Spaces anywhere in a numeric tag change nothing. */
  lemma NumericDomainSpaces(name: string, a: string, w: string, b: string, k: Kind)
    requires forall i :: 0 <= i < |w| ==> IsSpace(w[i])
    ensures NumericDomain(name, Some(a + w + b), k) == NumericDomain(name, Some(a + b), k)
  {
    RemoveSpacesInsert(a, w, b);
  }

  /** Characters that can occur in the `%v` text of a number. */
  predicate NumberChar(c: char) {
    IsDigit(c) || c == '-' || c == '.'
  }

  lemma NumberTextChars(v: Value, k: Kind)
    requires Parsed(k) && OfKind(v, k)
    ensures |Text(v)| >= 1 && forall i :: 0 <= i < |Text(v)| ==> NumberChar(Text(v)[i])
  {
    match k
    case Int(_) => IntTextChars(v.i);
    case Uint(_) => assert Text(v) == NatText(v.n);
    case Float32 => DecimalTextChars(v.d);
  }

  lemma IntTextChars(i: int)
    ensures forall j :: 0 <= j < |IntText(i)| ==> NumberChar(IntText(i)[j])
  {
    if i < 0 {
      var digits := NatText(-i);
      assert IntText(i) == "-" + digits;
      assert forall j :: 0 <= j < |digits| ==> IsDigit(digits[j]);
    }
  }

  lemma DecimalTextChars(d: Decimal)
    ensures forall j :: 0 <= j < |DecimalText(d)| ==> NumberChar(DecimalText(d)[j])
  {
    var n := Normalize(d);
    if n.scale == 0 {
      IntTextChars(n.mant);
    } else {
      var m := NatText(Magnitude(n.mant));
      var digits := PadZeros(m, n.scale + 1);
      PaddedDigits(m, n.scale + 1);
      PointTextChars(n.mant < 0, digits, n.scale);
    }
  }

  lemma PaddedDigits(m: string, width: nat)
    requires forall j :: 0 <= j < |m| ==> IsDigit(m[j])
    ensures forall j :: 0 <= j < |PadZeros(m, width)| ==> IsDigit(PadZeros(m, width)[j])
  {
    var z := Zeros(if |m| >= width then 0 else width - |m|);
    assert forall j :: 0 <= j < |z| ==> z[j] == '0';
  }

  lemma PointTextChars(neg: bool, digits: string, scale: nat)
    requires scale < |digits|
    requires forall j :: 0 <= j < |digits| ==> IsDigit(digits[j])
    ensures forall j :: 0 <= j < |PointText(neg, digits, scale)| ==> NumberChar(PointText(neg, digits, scale)[j])
  {
    var cut := |digits| - scale;
    var t := SignText(neg) + (digits[..cut] + "." + digits[cut..]);
    assert forall j :: 0 <= j < |t| ==> NumberChar(t[j]);
  }

  lemma {:induction false} JoinNumberChars(texts: seq<string>, sep: string)
    requires forall k, i :: 0 <= k < |texts| && 0 <= i < |texts[k]| ==> NumberChar(texts[k][i])
    requires forall i :: 0 <= i < |sep| ==> sep[i] == ','
    ensures forall i :: 0 <= i < |Join(texts, sep)| ==> NumberChar(Join(texts, sep)[i]) || Join(texts, sep)[i] == ','
  {
    if |texts| > 1 {
      JoinNumberChars(texts[1..], sep);
    }
  }

  /**
    The domain parser reads back what `%v` prints: a tag listing the values' texts separated
    by ", " yields exactly those values, for every kind `parseNumber` handles.
  */
  lemma NumericDomainText(name: string, values: seq<Value>, k: Kind)
    requires |values| >= 1 && Parsed(k)
    requires forall i :: 0 <= i < |values| ==> OfKind(values[i], k)
    ensures NumericDomain(name, Some(Join(Texts(values), ", ")), k) == Ok(values)
  {
    var texts := Texts(values);
    forall i | 0 <= i < |texts|
      ensures |texts[i]| >= 1 && forall j :: 0 <= j < |texts[i]| ==> NumberChar(texts[i][j])
    {
      TextsAt(values, i);
      NumberTextChars(values[i], k);
    }
    JoinedNumbers(texts);
    SplitJoin(texts, ',');
    NumberValuesTexts(values, k);
  }

  /** A ", "-joined list of number texts loses its spaces, and does not start with `range`. */
  lemma JoinedNumbers(texts: seq<string>)
    requires |texts| >= 1
    requires forall i :: 0 <= i < |texts| ==>
      |texts[i]| >= 1 && forall j :: 0 <= j < |texts[i]| ==> NumberChar(texts[i][j])
    ensures RemoveSpaces(Join(texts, ", ")) == Join(texts, ",")
    ensures !HasPrefix(Join(texts, ","), "range")
    ensures forall i :: 0 <= i < |texts| ==> ',' !in texts[i]
  {
    forall i | 0 <= i < |texts|
      ensures NoSpaces(texts[i]) && ',' !in texts[i]
    {
      assert forall j :: 0 <= j < |texts[i]| ==> NumberChar(texts[i][j]);
    }
    SpacedJoin(texts);
    var joined := Join(texts, ",");
    JoinNumberChars(texts, ",");
    assert joined[0] != 'r' by {
      assert NumberChar(texts[0][0]);
      assert |texts| == 1 || joined == texts[0] + "," + Join(texts[1..], ",");
    }
  }

  /** Each value's text parses back to the value, so the token loop returns the values. */
  lemma {:induction false} NumberValuesTexts(values: seq<Value>, k: Kind)
    requires Parsed(k)
    requires forall i :: 0 <= i < |values| ==> OfKind(values[i], k)
    ensures NumberValues(Texts(values), k) == Ok(values)
  {
    if values != [] {
      ParseNumberText(values[0], k);
      NumberValuesTexts(values[1..], k);
      assert Texts(values)[1..] == Texts(values[1..]);
      assert [values[0]] + values[1..] == values;
    }
  }

  /** Deleting the spaces of a ", "-joined list of space-free texts gives the ","-joined list. */
  lemma {:induction false} SpacedJoin(texts: seq<string>)
    requires forall i :: 0 <= i < |texts| ==> NoSpaces(texts[i])
    ensures RemoveSpaces(Join(texts, ", ")) == Join(texts, ",")
  {
    if |texts| == 1 {
      RemoveSpacesKeeps(texts[0]);
    } else if |texts| > 1 {
      var rest := Join(texts[1..], ", ");
      SpacedJoin(texts[1..]);
      assert Join(texts, ", ") == texts[0] + "," + (" " + rest);
      RemoveSpacesAppend(texts[0] + ",", " " + rest);
      RemoveSpacesAppend(texts[0], ",");
      RemoveSpacesKeeps(texts[0]);
      RemoveSpacesKeeps(",");
      assert RemoveSpaces(" " + rest) == RemoveSpaces(rest);
    }
  }

  /** A field's domain, when the field is exported: the type check first, then by kind. */
  function FieldDomain(f: Field): (r: Result<seq<Value>, Error>)
    ensures !Generable(f.kind) ==> r == Err(UnsupportedType(f.name))
    ensures r.Ok? ==> |r.value| >= 1 && forall v :: v in r.value ==> OfKind(v, f.kind)
  {
    if !Generable(f.kind) then Err(UnsupportedType(f.name))
    else
      match f.kind
      case Bool => Ok(BoolDomain(f.tag))
      case String => StringDomain(f.name, f.tag)
      case _ => NumericDomain(f.name, f.tag, f.kind)
  }

  /**
    What one iteration of the field loop makes of field `f` holding `v`: an unexported field
    is skipped if zero and panics otherwise; an exported one contributes its domain.
  */
  function FieldOutcome(f: Field, v: Value): Result<Option<seq<Value>>, Error> {
    if !f.exported then
      if IsZero(v) then Ok(None) else Err(NonZeroOpaque(f.name))
    else
      match FieldDomain(f)
      case Ok(vals) => Ok(Some(vals))
      case Err(e) => Err(e)
  }

  /** The field loop from field `i` on: the domains in declaration order, or the first panic. */
  function DomainsFrom(schema: Schema, experiment: Record, i: nat): Result<seq<FieldInfo>, Error>
    requires |experiment| == |schema| && i <= |schema|
    decreases |schema| - i
  {
    if i == |schema| then Ok([])
    else
      match FieldOutcome(schema[i], experiment[i])
      case Err(e) => Err(e)
      case Ok(None) => DomainsFrom(schema, experiment, i + 1)
      case Ok(Some(vals)) => Prepend([FieldInfo(schema[i].name, i, vals)], DomainsFrom(schema, experiment, i + 1))
  }

  /**
    What a successful field loop produces: one entry per exported field from `from` on, in
    declaration order, each naming its field and holding that field's domain.
  */
  predicate Describes(fis: seq<FieldInfo>, schema: Schema, from: nat) {
    Listed(fis, schema, from) && Ascending(fis) && Covers(fis, schema, from)
  }

  /** Each entry names an exported field from `from` on and holds that field's domain. */
  predicate Listed(fis: seq<FieldInfo>, schema: Schema, from: nat) {
    forall a :: 0 <= a < |fis| ==>
      from <= fis[a].pos < |schema| && schema[fis[a].pos].exported &&
      fis[a].name == schema[fis[a].pos].name && FieldDomain(schema[fis[a].pos]) == Ok(fis[a].vals)
  }

  /** The entries are in declaration order. */
  predicate Ascending(fis: seq<FieldInfo>) {
    forall a, b :: 0 <= a < b < |fis| ==> fis[a].pos < fis[b].pos
  }

  /** Every exported field from `from` on has an entry. */
  predicate Covers(fis: seq<FieldInfo>, schema: Schema, from: nat) {
    forall j :: from <= j < |schema| && schema[j].exported ==> exists a :: 0 <= a < |fis| && fis[a].pos == j
  }

  /** The field loop from `i` on succeeds exactly when every field from `i` on passes. */
  lemma {:induction false} DomainsFromOk(schema: Schema, experiment: Record, i: nat)
    requires |experiment| == |schema| && i <= |schema|
    ensures DomainsFrom(schema, experiment, i).Ok? <==>
      forall j :: i <= j < |schema| ==> FieldOutcome(schema[j], experiment[j]).Ok?
    decreases |schema| - i
  {
    if i < |schema| {
      DomainsFromOk(schema, experiment, i + 1);
    }
  }

  /** When it fails, the field loop reports the error of the first field that fails. */
  lemma {:induction false} DomainsFromFirstError(schema: Schema, experiment: Record, i: nat)
    requires |experiment| == |schema| && i <= |schema|
    requires DomainsFrom(schema, experiment, i).Err?
    ensures exists j :: (i <= j < |schema| &&
      FieldOutcome(schema[j], experiment[j]) == Err(DomainsFrom(schema, experiment, i).error) &&
      forall l :: i <= l < j ==> FieldOutcome(schema[l], experiment[l]).Ok?)
    decreases |schema| - i
  {
    var e := DomainsFrom(schema, experiment, i).error;
    if FieldOutcome(schema[i], experiment[i]).Err? {
      assert FieldOutcome(schema[i], experiment[i]) == Err(e);
    } else {
      DomainsFromFirstError(schema, experiment, i + 1);
      var j :| i + 1 <= j < |schema| && FieldOutcome(schema[j], experiment[j]) == Err(e) &&
        forall l :: i + 1 <= l < j ==> FieldOutcome(schema[l], experiment[l]).Ok?;
      assert forall l :: i <= l < j ==> FieldOutcome(schema[l], experiment[l]).Ok?;
    }
  }

  /** A successful field loop from `i` on lists the exported fields from `i` on, in order. */
  lemma {:induction false} DomainsFromDescribes(schema: Schema, experiment: Record, i: nat)
    requires |experiment| == |schema| && i <= |schema|
    requires DomainsFrom(schema, experiment, i).Ok?
    ensures Describes(DomainsFrom(schema, experiment, i).value, schema, i)
    decreases |schema| - i
  {
    if i < |schema| {
      DomainsFromDescribes(schema, experiment, i + 1);
      var rest := DomainsFrom(schema, experiment, i + 1).value;
      match FieldOutcome(schema[i], experiment[i])
      case Ok(None) =>
        DescribesSkip(rest, schema, i);
      case Ok(Some(vals)) =>
        DescribesCons(vals, rest, schema, i);
    }
  }

  /** An unexported field adds no entry. */
  lemma DescribesSkip(fis: seq<FieldInfo>, schema: Schema, i: nat)
    requires i < |schema| && !schema[i].exported && Describes(fis, schema, i + 1)
    ensures Describes(fis, schema, i)
  {
  }

  /** An exported field with a domain adds its entry in front. */
  lemma DescribesCons(vals: seq<Value>, fis: seq<FieldInfo>, schema: Schema, i: nat)
    requires i < |schema| && schema[i].exported && FieldDomain(schema[i]) == Ok(vals)
    requires Describes(fis, schema, i + 1)
    ensures Describes([FieldInfo(schema[i].name, i, vals)] + fis, schema, i)
  {
    var e := FieldInfo(schema[i].name, i, vals);
    ListedCons(e, fis, schema, i);
    AscendingCons(e, fis, i);
    CoversCons(e, fis, schema, i);
  }

  lemma ListedCons(e: FieldInfo, fis: seq<FieldInfo>, schema: Schema, i: nat)
    requires i < |schema| && e.pos == i && schema[i].exported && e.name == schema[i].name
    requires FieldDomain(schema[i]) == Ok(e.vals) && Listed(fis, schema, i + 1)
    ensures Listed([e] + fis, schema, i)
  {
    var all := [e] + fis;
    assert forall a :: 1 <= a < |all| ==> all[a] == fis[a - 1];
  }

  lemma AscendingCons(e: FieldInfo, fis: seq<FieldInfo>, i: nat)
    requires e.pos == i && Ascending(fis) && forall a :: 0 <= a < |fis| ==> i < fis[a].pos
    ensures Ascending([e] + fis)
  {
    var all := [e] + fis;
    forall a, b | 0 <= a < b < |all|
      ensures all[a].pos < all[b].pos
    {
      assert all[b] == fis[b - 1];
      if a > 0 {
        assert all[a] == fis[a - 1];
      }
    }
  }

  lemma CoversCons(e: FieldInfo, fis: seq<FieldInfo>, schema: Schema, i: nat)
    requires e.pos == i && Covers(fis, schema, i + 1)
    ensures Covers([e] + fis, schema, i)
  {
    var all := [e] + fis;
    forall j | i <= j < |schema| && schema[j].exported
      ensures exists a :: 0 <= a < |all| && all[a].pos == j
    {
      if j == i {
        assert all[0].pos == j;
      } else {
        var a :| 0 <= a < |fis| && fis[a].pos == j;
        assert all[a + 1].pos == j;
      }
    }
  }

  /**
    `Template`'s field loop: it succeeds exactly when every exported field has a domain and
    every unexported field is zero; its entries then list the exported fields in order with
    their domains. On failure it reports the first failing field's error.
  */
  lemma DomainsOutcome(schema: Schema, experiment: Record)
    requires |experiment| == |schema|
    ensures Domains(schema, experiment).Ok? <==>
      (forall j :: 0 <= j < |schema| && schema[j].exported ==> FieldDomain(schema[j]).Ok?) &&
      (forall j :: 0 <= j < |schema| && !schema[j].exported ==> IsZero(experiment[j]))
    ensures Domains(schema, experiment).Ok? ==> Describes(Domains(schema, experiment).value, schema, 0)
    ensures Domains(schema, experiment).Err? ==>
      exists j :: 0 <= j < |schema| && FieldOutcome(schema[j], experiment[j]) == Err(Domains(schema, experiment).error)
  {
    DomainsFromOk(schema, experiment, 0);
    if Domains(schema, experiment).Ok? {
      DomainsFromDescribes(schema, experiment, 0);
      assert forall j :: 0 <= j < |schema| ==> FieldOutcome(schema[j], experiment[j]).Ok?;
    } else {
      DomainsFromFirstError(schema, experiment, 0);
      assert !forall j :: 0 <= j < |schema| ==> FieldOutcome(schema[j], experiment[j]).Ok?;
      var j :| 0 <= j < |schema| && !FieldOutcome(schema[j], experiment[j]).Ok?;
      assert !(schema[j].exported ==> FieldDomain(schema[j]).Ok?) || !(!schema[j].exported ==> IsZero(experiment[j]));
    }
  }

  function Domains(schema: Schema, experiment: Record): Result<seq<FieldInfo>, Error>
    requires |experiment| == |schema|
  {
    DomainsFrom(schema, experiment, 0)
  }

  function Prepend<T>(prefix: seq<T>, r: Result<seq<T>, Error>): Result<seq<T>, Error> {
    match r
    case Ok(rest) => Ok(prefix + rest)
    case Err(e) => Err(e)
  }

  lemma PrependNothing<T>(r: Result<seq<T>, Error>)
    ensures Prepend([], r) == r
  {
    if r.Ok? {
      assert [] + r.value == r.value;
    }
  }

  lemma PrependTwice<T>(a: seq<T>, b: seq<T>, r: Result<seq<T>, Error>)
    ensures Prepend(a, Prepend(b, r)) == Prepend(a + b, r)
  {
    if r.Ok? {
      assert a + (b + r.value) == (a + b) + r.value;
    }
  }

  /**
    The domain-parsing loop of `Template`: walks the fields in order, appending one entry per
    exported field and panicking on the first field that fails.
  */
  method ParseDomains(schema: Schema, experiment: Record) returns (r: Result<seq<FieldInfo>, Error>)
    requires |experiment| == |schema|
    ensures r == Domains(schema, experiment)
  {
    var fieldVals: seq<FieldInfo> := [];
    var i := 0;
    PrependNothing(Domains(schema, experiment));
    while i < |schema|
      invariant 0 <= i <= |schema|
      invariant Domains(schema, experiment) == Prepend(fieldVals, DomainsFrom(schema, experiment, i))
    {
      var f := schema[i];
      if !f.exported {
        if !IsZero(experiment[i]) {
          return Err(NonZeroOpaque(f.name));
        }
        i := i + 1;
        continue;
      }
      if !Generable(f.kind) {
        return Err(UnsupportedType(f.name));
      }
      var vals: seq<Value>;
      if f.kind == Bool {
        vals := BoolDomain(f.tag);
      } else if f.kind == String {
        if f.tag.None? {
          return Err(MissingTag(f.name));
        }
        vals := StringVals(SplitAroundCommas(TrimOneSpace(f.tag.value)));
      } else {
        if f.tag.None? {
          return Err(MissingTag(f.name));
        }
        var constraints := RemoveSpaces(f.tag.value);
        if HasPrefix(constraints, "range") {
          return Err(RangeUnsupported);
        }
        var numVals := NumberVals(Split(constraints, ','), f.kind);
        if numVals.Err? {
          return Err(numVals.error);
        }
        vals := numVals.value;
      }
      assert FieldOutcome(f, experiment[i]) == Ok(Some(vals));
      PrependTwice(fieldVals, [FieldInfo(f.name, i, vals)], DomainsFrom(schema, experiment, i + 1));
      fieldVals := fieldVals + [FieldInfo(f.name, i, vals)];
      i := i + 1;
    }
    assert fieldVals + [] == fieldVals;
    return Ok(fieldVals);
  }

  /** The steps of a numeric tag, one fact each: spaces deleted, no `range`, split, parsed. */
  lemma NumericDomainOf(name: string, tag: string, k: Kind, constraints: string, tokens: seq<string>, vals: seq<Value>)
    requires RemoveSpaces(tag) == constraints && !HasPrefix(constraints, "range")
    requires Split(constraints, ',') == tokens && |tokens| == |vals|
    requires forall i :: 0 <= i < |tokens| ==> ParseNumber(tokens[i], k) == Ok(vals[i])
    ensures NumericDomain(name, Some(tag), k) == Ok(vals)
  {
    NumberValuesParsed(tokens, k, vals);
  }

  lemma NumericDomainPair(name: string, tag: string, k: Kind, constraints: string, t0: string, t1: string, v0: Value, v1: Value)
    requires RemoveSpaces(tag) == constraints && !HasPrefix(constraints, "range")
    requires Split(constraints, ',') == [t0, t1]
    requires ParseNumber(t0, k) == Ok(v0) && ParseNumber(t1, k) == Ok(v1)
    ensures NumericDomain(name, Some(tag), k) == Ok([v0, v1])
  {
    NumericDomainOf(name, tag, k, constraints, [t0, t1], [v0, v1]);
  }

  /** The tags of the example experiment in the repository's tests, and the domains they give. */
  lemma ExampleNreq()
    ensures NumericDomain("Nreq", Some("\t30\t00"), Int(Platform)) == Ok([VInt(3000)])
  {
    NreqSpaces();
    NreqParse();
    SplitWithout("3000", ',');
    NumericDomainOf("Nreq", "\t30\t00", Int(Platform), "3000", ["3000"], [VInt(3000)]);
  }

  lemma NreqSpaces()
    ensures RemoveSpaces("\t30\t00") == "3000"
  {
    assert "\t30\t00" == "\t" + "30" + "\t" + "00";
    RemoveTwoSpaces("\t", "30", "\t", "00");
    assert "30" + "00" == "3000";
  }

  /** Deleting the spaces of `w1 + a + w2 + b`, where only the `w`s hold spaces, leaves `a + b`. */
  lemma RemoveTwoSpaces(w1: string, a: string, w2: string, b: string)
    requires forall i :: 0 <= i < |w1| ==> IsSpace(w1[i])
    requires forall i :: 0 <= i < |w2| ==> IsSpace(w2[i])
    requires NoSpaces(a) && NoSpaces(b)
    ensures RemoveSpaces(w1 + a + w2 + b) == a + b
  {
    calc {
      RemoveSpaces(w1 + a + w2 + b);
    == { RemoveSpacesAppend(w1 + a + w2, b); RemoveSpacesKeeps(b); }
      RemoveSpaces(w1 + a + w2) + b;
    == { RemoveSpacesAppend(w1 + a, w2); AllSpacesVanish(w2);
         assert RemoveSpaces(w1 + a) + [] == RemoveSpaces(w1 + a); }
      RemoveSpaces(w1 + a) + b;
    == { RemoveSpacesAppend(w1, a); AllSpacesVanish(w1); RemoveSpacesKeeps(a);
         assert [] + a == a; }
      a + b;
    }
  }

  lemma NreqParse()
    ensures ParseNumber("3000", Int(Platform)) == Ok(VInt(3000))
  {
    assert DigitChar(3) == '3' && DigitChar(0) == '0';
    assert NatText(3) == "3";
    NatTextDigit(3, 0);
    NatTextDigit(30, 0);
    NatTextDigit(300, 0);
    assert NatText(3000) == "3000";
    assert IntText(3000) == "3000";
    ParseInt64Text(3000);
  }

  lemma NatTextDigit(n: nat, d: nat)
    requires n >= 1 && d < 10
    ensures NatText(10 * n + d) == NatText(n) + [DigitChar(d)]
  {
    assert (10 * n + d) / 10 == n && (10 * n + d) % 10 == d;
  }

  lemma ExampleNsender()
    ensures NumericDomain("Nsender", Some("1, 5"), Int(Platform)) == Ok([VInt(1), VInt(5)])
  {
    NsenderSplit();
    assert ParseNumber("1", Int(Platform)) == Ok(VInt(1)) by {
      assert NatText(1) == "1";
      ParseInt64Text(1);
    }
    assert ParseNumber("5", Int(Platform)) == Ok(VInt(5)) by {
      assert NatText(5) == "5";
      ParseInt64Text(5);
    }
    NumericDomainPair("Nsender", "1, 5", Int(Platform), "1,5", "1", "5", VInt(1), VInt(5));
  }

  lemma NsenderSplit()
    ensures RemoveSpaces("1, 5") == "1,5" && Split("1,5", ',') == ["1", "5"]
  {
    assert "1, 5" == [] + "1," + " " + "5";
    RemoveTwoSpaces([], "1,", " ", "5");
    assert "1," + "5" == "1,5" == "1" + [','] + "5";
    SplitTwo("1", "5");
  }

  lemma SplitTwo(a: string, b: string)
    requires ',' !in a && ',' !in b
    ensures Split(a + [','] + b, ',') == [a, b]
  {
    SplitAt(a, ',', b);
    SplitWithout(b, ',');
  }

  lemma ExampleGetRatio()
    ensures NumericDomain("GetRatio", Some(" 0, 4.3"), Float32) == Ok([VFloat(Decimal(0, 0)), VFloat(Decimal(43, 1))])
  {
    GetRatioSpaces();
    GetRatioSplit();
    ParseZeroExample();
    ParsePointExample();
    NumericDomainPair("GetRatio", " 0, 4.3", Float32, "0,4.3", "0", "4.3", VFloat(Decimal(0, 0)), VFloat(Decimal(43, 1)));
  }

  lemma GetRatioSpaces()
    ensures RemoveSpaces(" 0, 4.3") == "0,4.3" && !HasPrefix("0,4.3", "range")
  {
    assert " 0, 4.3" == " " + "0," + " " + "4.3";
    RemoveTwoSpaces(" ", "0,", " ", "4.3");
    assert "0," + "4.3" == "0,4.3";
    NotRange("0,4.3");
  }

  lemma NotRange(s: string)
    requires s != [] && s[0] != 'r'
    ensures !HasPrefix(s, "range")
  {
    assert |s| >= 5 ==> s[..5][0] == s[0];
  }

  lemma GetRatioSplit()
    ensures Split("0,4.3", ',') == ["0", "4.3"]
  {
    assert "0,4.3" == "0" + [','] + "4.3";
    SplitTwo("0", "4.3");
  }

  lemma ParseZeroExample()
    ensures ParseNumber("0", Float32) == Ok(VFloat(Decimal(0, 0)))
  {
    ZeroText();
    ParseNumberText(VFloat(Decimal(0, 0)), Float32);
  }

  lemma ZeroText()
    ensures Text(VFloat(Decimal(0, 0))) == "0"
  {
    assert NatText(0) == [DigitChar(0)];
  }

  lemma ParsePointExample()
    ensures ParseNumber("4.3", Float32) == Ok(VFloat(Decimal(43, 1)))
  {
    PointText43();
    ParseNumberText(VFloat(Decimal(43, 1)), Float32);
  }

  lemma PointText43()
    ensures Text(VFloat(Decimal(43, 1))) == "4.3"
  {
    var digits := NatText(43);
    assert digits == "43" by {
      assert NatText(4) == [DigitChar(4)];
      assert DigitChar(4) == '4' && DigitChar(3) == '3';
    }
    assert PadZeros(digits, 2) == digits;
    assert PointText(false, "43", 1) == "4.3";
  }

  lemma ExampleReqType()
    ensures StringDomain("ReqType", Some(" GET me,\t POST, PUT")) == Ok([VStr("GET me"), VStr("POST"), VStr("PUT")])
  {
    ReqTypeTrim();
    ReqTypeTokens();
    ReqTypeValues();
  }

  lemma ReqTypeTrim()
    ensures TrimOneSpace(" GET me,\t POST, PUT") == "GET me,\t POST, PUT"
  {
  }

  lemma ReqTypeValues()
    ensures StrValues(["GET me", "POST", "PUT"]) == [VStr("GET me"), VStr("POST"), VStr("PUT")]
  {
    var vals := StrValues(["GET me", "POST", "PUT"]);
    assert vals[0] == VStr("GET me") && vals[1] == VStr("POST") && vals[2] == VStr("PUT");
  }

  lemma ReqTypeTokens()
    ensures SplitAroundCommas("GET me,\t POST, PUT") == ["GET me", "POST", "PUT"]
  {
    ReqTypeSplit();
    TrimRightLetter("GET me");
    TrimRightLetter("\t POST");
    ReqTypeTrims();
    SplitAroundThree("GET me,\t POST, PUT", "GET me", "\t POST", " PUT");
  }

  lemma SplitAroundThree(s: string, a: string, b: string, c: string)
    requires Split(s, ',') == [a, b, c]
    ensures SplitAroundCommas(s) == [TrimRight(a), TrimLeft(TrimRight(b)), TrimLeft(c)]
  {
    var t := SplitAroundCommas(s);
    assert |t| == 3;
    assert t[0] == TrimRight(a);
    assert t[1] == TrimLeft(TrimRight(b));
    assert t[2] == TrimLeft(c);
    Three(t, TrimRight(a), TrimLeft(TrimRight(b)), TrimLeft(c));
  }

  lemma Three<X>(t: seq<X>, x: X, y: X, z: X)
    requires |t| == 3 && t[0] == x && t[1] == y && t[2] == z
    ensures t == [x, y, z]
  {
  }

  lemma ReqTypeSplit()
    ensures Split("GET me,\t POST, PUT", ',') == ["GET me", "\t POST", " PUT"]
  {
    ReqTypeText();
    SplitThree("GET me", "\t POST", " PUT");
  }

  lemma SplitThree(a: string, b: string, c: string)
    requires ',' !in a && ',' !in b && ',' !in c
    ensures Split(a + [','] + (b + [','] + c), ',') == [a, b, c]
  {
    SplitWithout(c, ',');
    SplitAt(b, ',', c);
    SplitAt(a, ',', b + [','] + c);
  }

  lemma ReqTypeText()
    ensures "GET me,\t POST, PUT" == "GET me" + [','] + ("\t POST" + [','] + " PUT")
  {
  }

  lemma TrimRightLetter(s: string)
    requires s != [] && 'A' <= s[|s| - 1] <= 'z'
    ensures TrimRight(s) == s
  {
  }

  lemma ReqTypeTrims()
    ensures TrimLeft("\t POST") == "POST"
    ensures TrimLeft(" PUT") == "PUT"
  {
    TrimPost();
    TrimPut();
  }

  lemma TrimPost()
    ensures TrimLeft("\t POST") == "POST"
  {
    assert "\t POST"[1..] == " POST";
    assert " POST"[1..] == "POST";
  }

  lemma TrimPut()
    ensures TrimLeft(" PUT") == "PUT"
  {
    assert " PUT"[1..] == "PUT";
  }

  /** A numeric tag that starts with `range`, after any spaces, is refused. */
  lemma NumericDomainRange(name: string, w: string, rest: string, k: Kind)
    requires forall i :: 0 <= i < |w| ==> IsSpace(w[i])
    ensures NumericDomain(name, Some(w + "range" + rest), k) == Err(RangeUnsupported)
  {
    RemoveSpacesLead(w, "range", rest);
    var c := "range" + RemoveSpaces(rest);
    assert c[..5] == "range";
  }

  /** Deleting spaces from `w + p + rest`, where `w` is all spaces and `p` has none, keeps `p` in front. */
  lemma RemoveSpacesLead(w: string, p: string, rest: string)
    requires forall i :: 0 <= i < |w| ==> IsSpace(w[i])
    requires NoSpaces(p)
    ensures RemoveSpaces(w + p + rest) == p + RemoveSpaces(rest)
  {
    assert w + p + rest == [] + w + (p + rest);
    RemoveSpacesInsert([], w, p + rest);
    assert [] + (p + rest) == p + rest;
    RemoveSpacesAppend(p, rest);
    RemoveSpacesKeeps(p);
  }

  /** `NumberValues` of a suffix, one token at a time. */
  lemma NumberValuesFrom(tokens: seq<string>, j: nat, k: Kind)
    requires j < |tokens|
    ensures NumberValues(tokens[j..], k) == match ParseNumber(tokens[j], k)
      case Err(e) => Err(e)
      case Ok(v) => Prepend([v], NumberValues(tokens[j + 1..], k))
  {
    assert tokens[j..][0] == tokens[j] && tokens[j..][1..] == tokens[j + 1..];
  }

  /** Copies the split tokens into the field's value list. */
  method StringVals(tokens: seq<string>) returns (vals: seq<Value>)
    ensures vals == StrValues(tokens)
  {
    vals := [];
    for j := 0 to |tokens|
      invariant |vals| == j && forall k :: 0 <= k < j ==> vals[k] == VStr(tokens[k])
    {
      vals := vals + [VStr(tokens[j])];
    }
  }

  /** Parses each token in turn, stopping at the first that does not parse. */
  method NumberVals(tokens: seq<string>, k: Kind) returns (r: Result<seq<Value>, Error>)
    ensures r == NumberValues(tokens, k)
  {
    var numVals: seq<Value> := [];
    assert tokens[0..] == tokens;
    PrependNothing(NumberValues(tokens, k));
    for j := 0 to |tokens|
      invariant NumberValues(tokens, k) == Prepend(numVals, NumberValues(tokens[j..], k))
    {
      var v := ParseNumber(tokens[j], k);
      NumberValuesFrom(tokens, j, k);
      if v.Err? {
        return Err(v.error);
      }
      PrependTwice(numVals, [v.value], NumberValues(tokens[j + 1..], k));
      numVals := numVals + [v.value];
    }
    assert tokens[|tokens|..] == [] && numVals + [] == numVals;
    return Ok(numVals);
  }
}
