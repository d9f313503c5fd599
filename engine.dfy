/**
  The cartesian-product expander `fieldPerm` and the `Template` entry point around it: every
  combination of the parsed domains, in odometer order (the first domain field varies slowest,
  the last fastest), written once as a pure specification `Expand` and twice as the recursive
  accumulator procedure of the source, once for struct records and once for pointer records.
*/
module Engine {
  import opened Values
  import opened Domain
  import opened Strings

  // ---------------------------------------------------------------- arithmetic

  lemma AssocMul(a: nat, b: nat, c: nat)
    ensures a * (b * c) == (a * b) * c
  {
  }

  lemma MulAtLeast(a: int, d: int)
    requires a >= 1 && d > 0
    ensures a * d >= d
  {
    var b := a - 1;
    assert a * d == b * d + d;
    assert b * d >= 0;
  }

  lemma MulZero(n: int, p: int)
    ensures p == 0 ==> n * p == 0
  {
  }

  lemma MulSplit(a: int, b: int, d: int)
    ensures a * d == b * d + (a - b) * d
  {
  }

  /** Euclidean division is unique: a quotient and a remainder below the divisor are the ones `/` and `%` give. */
  lemma DivModUnique(x: int, d: int, q: int, m: int)
    requires d > 0 && x == q * d + m && 0 <= m < d
    ensures x / d == q && x % d == m
  {
    var q2, m2 := x / d, x % d;
    MulSplit(q2, q, d);
    MulSplit(q, q2, d);
    if q2 > q {
      MulAtLeast(q2 - q, d);
    } else if q2 < q {
      MulAtLeast(q - q2, d);
    }
  }

  /** Reducing modulo a multiple of `n * s` first does not change the digit `(k / s) % n`. */
  lemma ModDivMod(k: nat, a: nat, n: nat, s: nat)
    requires a >= 1 && n >= 1 && s >= 1
    ensures ((k % (a * n * s)) / s) % n == (k / s) % n
  {
    var p := a * n * s;
    assert p >= 1 by {
      MulAtLeast(a, n);
      MulAtLeast(a * n, s);
    }
    var q, r := k / p, k % p;
    var t, u := r / s, r % s;
    assert k == (q * a * n + t) * s + u by {
      assert q * p == q * a * n * s;
      assert (q * a * n + t) * s == q * a * n * s + t * s;
    }
    DivModUnique(k, s, q * a * n + t, u);
    assert q * a * n + t == (q * a + t / n) * n + t % n by {
      assert (q * a + t / n) * n == q * a * n + (t / n) * n;
    }
    DivModUnique(q * a * n + t, n, q * a + t / n, t % n);
  }

  // ---------------------------------------------------------------- the specification

  /** The number of experiments: the product of the domain sizes. */
  function Product(fis: seq<FieldInfo>): nat {
    if fis == [] then 1 else |fis[0].vals| * Product(fis[1..])
  }

  /** How many consecutive records share one value of domain field `a`: the product of the sizes after it. */
  function Stride(fis: seq<FieldInfo>, a: nat): nat
    requires a < |fis|
  {
    Product(fis[a + 1..])
  }

  /** `FieldByName(name).Set(v)`: the record with field `pos` set to `v`. */
  function Put(rec: Record, pos: nat, v: Value): (r: Record)
    ensures |r| == |rec|
  {
    if pos < |rec| then rec[pos := v] else rec
  }

  /**
    What the expander needs of the parsed domains: every position names a field of the
    record, every domain is non-empty, and no field appears twice.
  */
  predicate Positions(fis: seq<FieldInfo>, width: nat) {
    (forall a :: 0 <= a < |fis| ==> fis[a].pos < width && |fis[a].vals| >= 1)
    && (forall a, b :: 0 <= a < b < |fis| ==> fis[a].pos != fis[b].pos)
  }

  /** Every domain has at least one value. */
  predicate NonEmpty(fis: seq<FieldInfo>) {
    forall a :: 0 <= a < |fis| ==> |fis[a].vals| >= 1
  }

  /** Field `q` is not a domain field. */
  predicate Free(fis: seq<FieldInfo>, q: nat) {
    forall a :: 0 <= a < |fis| ==> fis[a].pos != q
  }

  /** `x` and `y` have the same width and agree on every field that is not a domain field. */
  predicate Agree(x: Record, y: Record, fis: seq<FieldInfo>) {
    |x| == |y| && forall q :: 0 <= q < |x| && Free(fis, q) ==> x[q] == y[q]
  }

  /**
    The records `fieldPerm` appends, from the template `base`: for each value of the first
    domain, in order, all the records of the remaining domains with that value set.
  */
  function Expand(base: Record, fis: seq<FieldInfo>): seq<Record>
    decreases |fis|, 0
  {
    if fis == [] then [base]
    else ExpandVals(base, fis[0].pos, fis[0].vals, fis[1..])
  }

  /** The records of the loop over `vals` at one level: one block per value, in order. */
  function ExpandVals(base: Record, pos: nat, vals: seq<Value>, rest: seq<FieldInfo>): seq<Record>
    decreases |rest|, |vals|
  {
    if vals == [] then []
    else ExpandVals(base, pos, vals[..|vals| - 1], rest) + Expand(Put(base, pos, vals[|vals| - 1]), rest)
  }

  /** The size law: the expansion has one record per combination, the product of the domain sizes. */
  lemma {:induction false} ExpandSize(base: Record, fis: seq<FieldInfo>)
    ensures |Expand(base, fis)| == Product(fis)
    decreases |fis|, 0
  {
    if fis != [] {
      ExpandValsSize(base, fis[0].pos, fis[0].vals, fis[1..]);
    }
  }

  lemma {:induction false} ExpandValsSize(base: Record, pos: nat, vals: seq<Value>, rest: seq<FieldInfo>)
    ensures |ExpandVals(base, pos, vals, rest)| == |vals| * Product(rest)
    decreases |rest|, |vals|
  {
    if vals != [] {
      var n, p := |vals|, Product(rest);
      var init, block := vals[..n - 1], Expand(Put(base, pos, vals[n - 1]), rest);
      assert |ExpandVals(base, pos, vals, rest)| == |ExpandVals(base, pos, init, rest)| + |block|;
      ExpandValsSize(base, pos, init, rest);
      ExpandSize(Put(base, pos, vals[n - 1]), rest);
      MulSplit(n, n - 1, p);
    }
  }

  /** Setting a field twice keeps the second value. */
  lemma PutTwice(rec: Record, pos: nat, v: Value, w: Value)
    ensures Put(Put(rec, pos, v), pos, w) == Put(rec, pos, w)
  {
  }

  /**
    The working record `fieldPerm` leaves behind in value mode: every domain field set, in
    order, to the last value of its domain.
  */
  function Final(base: Record, fis: seq<FieldInfo>): (r: Record)
    ensures |r| == |base|
    decreases |fis|
  {
    if fis == [] then base
    else if fis[0].vals == [] then Final(base, fis[1..])
    else Final(Put(base, fis[0].pos, fis[0].vals[|fis[0].vals| - 1]), fis[1..])
  }

  // ---------------------------------------------------------------- laws of the specification

  /** Record `k` of one level's loop lies in block `k / P` at offset `k % P`, where `P` is the block size. */
  lemma {:induction false} ExpandValsAt(base: Record, pos: nat, vals: seq<Value>, rest: seq<FieldInfo>, k: nat)
    requires k < |vals| * Product(rest)
    ensures Product(rest) > 0 && 0 <= k / Product(rest) < |vals|
    ensures k < |ExpandVals(base, pos, vals, rest)|
    ensures k % Product(rest) < |Expand(Put(base, pos, vals[k / Product(rest)]), rest)|
    ensures ExpandVals(base, pos, vals, rest)[k] ==
      Expand(Put(base, pos, vals[k / Product(rest)]), rest)[k % Product(rest)]
    decreases |vals|
  {
    var p := Product(rest);
    var n := |vals|;
    MulZero(n, p);
    var init := vals[..n - 1];
    ExpandValsSize(base, pos, vals, rest);
    ExpandValsSize(base, pos, init, rest);
    if k < (n - 1) * p {
      ExpandValsAt(base, pos, init, rest, k);
      assert init[k / p] == vals[k / p];
    } else {
      MulSplit(n, n - 1, p);
      DivModUnique(k, p, n - 1, k - (n - 1) * p);
      ExpandSize(Put(base, pos, vals[n - 1]), rest);
    }
  }

  /** Record `k` of the expansion: the first domain's value `k / P`, then record `k % P` of the rest. */
  lemma ExpandAt(base: Record, fis: seq<FieldInfo>, k: nat)
    requires fis != [] && k < Product(fis)
    ensures Product(fis[1..]) > 0 && 0 <= k / Product(fis[1..]) < |fis[0].vals|
    ensures k < |Expand(base, fis)|
    ensures k % Product(fis[1..]) < |Expand(Put(base, fis[0].pos, fis[0].vals[k / Product(fis[1..])]), fis[1..])|
    ensures Expand(base, fis)[k] ==
      Expand(Put(base, fis[0].pos, fis[0].vals[k / Product(fis[1..])]), fis[1..])[k % Product(fis[1..])]
  {
    ExpandValsAt(base, fis[0].pos, fis[0].vals, fis[1..], k);
  }

  /** Fields that are not domain fields keep the template's value in every record. */
  lemma {:induction false} ExpandKeeps(base: Record, fis: seq<FieldInfo>, k: nat)
    requires k < |Expand(base, fis)|
    ensures Agree(Expand(base, fis)[k], base, fis)
    decreases |fis|
  {
    if fis != [] {
      var p := Product(fis[1..]);
      ExpandSize(base, fis);
      ExpandAt(base, fis, k);
      var b := Put(base, fis[0].pos, fis[0].vals[k / p]);
      ExpandKeeps(b, fis[1..], k % p);
      forall q | 0 <= q < |base| && Free(fis, q)
        ensures Expand(base, fis)[k][q] == base[q]
      {
        assert fis[0].pos != q;
        assert forall a :: 0 <= a < |fis[1..]| ==> fis[1..][a] == fis[a + 1];
      }
    }
  }

  /** The expansion only reads the template outside the domain fields. */
  lemma {:induction false} ExpandIgnores(x: Record, y: Record, fis: seq<FieldInfo>)
    requires Agree(x, y, fis)
    ensures Expand(x, fis) == Expand(y, fis)
    decreases |fis|, 0
  {
    if fis != [] {
      ExpandValsIgnores(x, y, fis[0].pos, fis[0].vals, fis[1..]);
    } else {
      assert x == y;
    }
  }

  lemma {:induction false} ExpandValsIgnores(x: Record, y: Record, pos: nat, vals: seq<Value>, rest: seq<FieldInfo>)
    requires |x| == |y| && forall q :: 0 <= q < |x| && q != pos && Free(rest, q) ==> x[q] == y[q]
    ensures ExpandVals(x, pos, vals, rest) == ExpandVals(y, pos, vals, rest)
    decreases |rest|, |vals|
  {
    if vals != [] {
      ExpandValsIgnores(x, y, pos, vals[..|vals| - 1], rest);
      ExpandIgnores(Put(x, pos, vals[|vals| - 1]), Put(y, pos, vals[|vals| - 1]), rest);
    }
  }

  /**
    The index law of the odometer: record `k` holds, in domain field `a`, the value
    `D_a[(k / Π_{b > a} |D_b|) mod |D_a|]`.
  */
  lemma {:induction false} ExpandIndex(base: Record, fis: seq<FieldInfo>, k: nat, a: nat)
    requires Positions(fis, |base|) && k < Product(fis) && a < |fis|
    ensures Stride(fis, a) > 0 && k < |Expand(base, fis)| && fis[a].pos < |Expand(base, fis)[k]|
    ensures Expand(base, fis)[k][fis[a].pos] == fis[a].vals[(k / Stride(fis, a)) % |fis[a].vals|]
    decreases |fis|, 1
  {
    if a == 0 {
      ExpandIndexFirst(base, fis, k);
    } else {
      ExpandIndexLater(base, fis, k, a);
    }
  }

  /** The first domain field holds value `k / P` of its domain. */
  lemma ExpandIndexFirst(base: Record, fis: seq<FieldInfo>, k: nat)
    requires Positions(fis, |base|) && k < Product(fis) && fis != []
    ensures Stride(fis, 0) > 0 && k < |Expand(base, fis)| && fis[0].pos < |Expand(base, fis)[k]|
    ensures Expand(base, fis)[k][fis[0].pos] == fis[0].vals[(k / Stride(fis, 0)) % |fis[0].vals|]
  {
    var rest := fis[1..];
    var p := Product(rest);
    ExpandSize(base, fis);
    ExpandAt(base, fis, k);
    var b := Put(base, fis[0].pos, fis[0].vals[k / p]);
    ExpandKeeps(b, rest, k % p);
    assert Free(rest, fis[0].pos) by {
      assert forall c :: 0 <= c < |rest| ==> rest[c] == fis[c + 1];
    }
    DivModUnique(k / p, |fis[0].vals|, 0, k / p);
  }

  /** A later domain field: the index law for the rest of the domains, carried through block `k / P`. */
  lemma {:induction false} ExpandIndexLater(base: Record, fis: seq<FieldInfo>, k: nat, a: nat)
    requires Positions(fis, |base|) && k < Product(fis) && 0 < a < |fis|
    ensures Stride(fis, a) > 0 && k < |Expand(base, fis)| && fis[a].pos < |Expand(base, fis)[k]|
    ensures Expand(base, fis)[k][fis[a].pos] == fis[a].vals[(k / Stride(fis, a)) % |fis[a].vals|]
    decreases |fis|, 0
  {
    var rest := fis[1..];
    var p := Product(rest);
    ExpandSize(base, fis);
    ExpandAt(base, fis, k);
    var b := Put(base, fis[0].pos, fis[0].vals[k / p]);
    assert Positions(rest, |b|) by {
      assert forall c :: 0 <= c < |rest| ==> rest[c] == fis[c + 1];
    }
    ExpandIndex(b, rest, k % p, a - 1);
    assert rest[a - 1] == fis[a];
    StrideOfRest(fis, a);
    var s := Stride(fis, a);
    var head := Product(rest[..a - 1]);
    ProductPositive(rest[..a - 1]);
    ModDivMod(k, head, |fis[a].vals|, s);
  }

  /** Dropping the first domain: the stride of field `a` is unchanged, and the rest's product factors through it. */
  lemma StrideOfRest(fis: seq<FieldInfo>, a: nat)
    requires 0 < a < |fis|
    ensures Stride(fis[1..], a - 1) == Stride(fis, a)
    ensures Product(fis[1..]) == Product(fis[1..][..a - 1]) * |fis[a].vals| * Stride(fis, a)
  {
    var rest := fis[1..];
    assert rest[a - 1 + 1..] == fis[a + 1..];
    ProductSplit(rest, a - 1);
    assert rest[a - 1..][1..] == fis[a + 1..];
    assert rest[a - 1..][0] == fis[a];
  }

  lemma {:induction false} ProductSplit(fis: seq<FieldInfo>, i: nat)
    requires i <= |fis|
    ensures Product(fis) == Product(fis[..i]) * Product(fis[i..])
  {
    if i > 0 {
      ProductSplit(fis[1..], i - 1);
      assert fis[..i][1..] == fis[1..][..i - 1];
      assert fis[1..][i - 1..] == fis[i..];
      AssocMul(|fis[0].vals|, Product(fis[1..][..i - 1]), Product(fis[i..]));
    } else {
      assert fis[..0] == [] && fis[0..] == fis;
    }
  }

  lemma {:induction false} ProductPositive(fis: seq<FieldInfo>)
    requires forall a :: 0 <= a < |fis| ==> |fis[a].vals| >= 1
    ensures Product(fis) >= 1
  {
    if fis != [] {
      ProductPositive(fis[1..]);
      MulAtLeast(|fis[0].vals|, Product(fis[1..]));
    }
  }

  /** The records a domain list allows: template values outside the domain fields, a domain value in each. */
  predicate Member(r: Record, base: Record, fis: seq<FieldInfo>) {
    Agree(r, base, fis) && forall a :: 0 <= a < |fis| ==> fis[a].pos < |r| && r[fis[a].pos] in fis[a].vals
  }

  lemma {:induction false} ExpandValsMember(base: Record, pos: nat, vals: seq<Value>, rest: seq<FieldInfo>, r: Record)
    ensures r in ExpandVals(base, pos, vals, rest) <==>
      exists j :: 0 <= j < |vals| && r in Expand(Put(base, pos, vals[j]), rest)
    decreases |vals|
  {
    if vals != [] {
      var init := vals[..|vals| - 1];
      ExpandValsMember(base, pos, init, rest, r);
      assert forall j :: 0 <= j < |init| ==> init[j] == vals[j];
    }
  }

  /**
    The membership law: a record is generated exactly when it agrees with the template outside
    the domain fields and holds a value of its domain in each domain field.
  */
  lemma ExpandMembers(base: Record, fis: seq<FieldInfo>, r: Record)
    requires Positions(fis, |base|)
    ensures r in Expand(base, fis) <==> Member(r, base, fis)
  {
    if r in Expand(base, fis) {
      ExpandSound(base, fis, r);
    }
    if Member(r, base, fis) {
      ExpandComplete(base, fis, r);
    }
  }

  /** Every generated record is a member. */
  lemma {:induction false} ExpandSound(base: Record, fis: seq<FieldInfo>, r: Record)
    requires Positions(fis, |base|) && r in Expand(base, fis)
    ensures Member(r, base, fis)
    decreases |fis|
  {
    if fis != [] {
      var p0, vals0, rest := fis[0].pos, fis[0].vals, fis[1..];
      assert Positions(rest, |base|) && Free(rest, p0) by {
        assert forall c :: 0 <= c < |rest| ==> rest[c] == fis[c + 1];
      }
      ExpandValsMember(base, p0, vals0, rest, r);
      var j :| 0 <= j < |vals0| && r in Expand(Put(base, p0, vals0[j]), rest);
      ExpandSound(Put(base, p0, vals0[j]), rest, r);
      MemberCons(r, base, fis, vals0[j]);
    }
  }

  /** A member of the rest of the domains, from the template with the first domain field set, is a member. */
  lemma MemberCons(r: Record, base: Record, fis: seq<FieldInfo>, v: Value)
    requires fis != [] && fis[0].pos < |base| && v in fis[0].vals
    requires Free(fis[1..], fis[0].pos)
    requires Member(r, Put(base, fis[0].pos, v), fis[1..])
    ensures Member(r, base, fis)
  {
    var rest := fis[1..];
    assert forall c :: 0 <= c < |rest| ==> rest[c] == fis[c + 1];
    assert r[fis[0].pos] == v;
    forall a | 0 <= a < |fis|
      ensures fis[a].pos < |r| && r[fis[a].pos] in fis[a].vals
    {
      if a > 0 {
        assert rest[a - 1] == fis[a];
      }
    }
  }

  /** Every member is generated. */
  lemma {:induction false} ExpandComplete(base: Record, fis: seq<FieldInfo>, r: Record)
    requires Positions(fis, |base|) && Member(r, base, fis)
    ensures r in Expand(base, fis)
    decreases |fis|
  {
    if fis == [] {
      assert r == base;
    } else {
      var p0, vals0, rest := fis[0].pos, fis[0].vals, fis[1..];
      assert Positions(rest, |base|) by {
        assert forall c :: 0 <= c < |rest| ==> rest[c] == fis[c + 1];
      }
      var j :| 0 <= j < |vals0| && vals0[j] == r[p0];
      var b := Put(base, p0, vals0[j]);
      MemberTail(r, base, fis, b);
      ExpandComplete(b, rest, r);
      ExpandValsMember(base, p0, vals0, rest, r);
    }
  }

  /** A member, seen from the template with the first domain field set to its value there, is a member of the rest. */
  lemma MemberTail(r: Record, base: Record, fis: seq<FieldInfo>, b: Record)
    requires fis != [] && Member(r, base, fis) && fis[0].pos < |base|
    requires b == Put(base, fis[0].pos, r[fis[0].pos])
    ensures Member(r, b, fis[1..])
  {
    var rest := fis[1..];
    assert forall c :: 0 <= c < |rest| ==> rest[c] == fis[c + 1];
    forall q | 0 <= q < |r| && Free(rest, q)
      ensures r[q] == b[q]
    {
      if q != fis[0].pos {
        assert Free(fis, q);
      }
    }
  }

  /** The final record agrees with the template outside the domain fields. */
  lemma {:induction false} FinalKeeps(base: Record, fis: seq<FieldInfo>)
    ensures Agree(Final(base, fis), base, fis)
    decreases |fis|
  {
    if fis != [] {
      var b := if fis[0].vals == [] then base else Put(base, fis[0].pos, fis[0].vals[|fis[0].vals| - 1]);
      FinalKeeps(b, fis[1..]);
      assert forall a :: 0 <= a < |fis[1..]| ==> fis[1..][a] == fis[a + 1];
    }
  }

  /** Like the expansion, the final record only reads the template outside the domain fields. */
  lemma {:induction false} FinalIgnores(x: Record, y: Record, fis: seq<FieldInfo>)
    requires Agree(x, y, fis) && NonEmpty(fis)
    ensures Final(x, fis) == Final(y, fis)
    decreases |fis|
  {
    if fis == [] {
      assert x == y;
    } else {
      var rest := fis[1..];
      assert forall a :: 0 <= a < |rest| ==> rest[a] == fis[a + 1];
      var v := fis[0].vals[|fis[0].vals| - 1];
      FinalIgnores(Put(x, fis[0].pos, v), Put(y, fis[0].pos, v), rest);
    }
  }

  /** The final record is the last record of the expansion. */
  lemma {:induction false} ExpandLast(base: Record, fis: seq<FieldInfo>)
    requires NonEmpty(fis)
    ensures Expand(base, fis) != [] && Expand(base, fis)[|Expand(base, fis)| - 1] == Final(base, fis)
    decreases |fis|
  {
    if fis != [] {
      var vals := fis[0].vals;
      var b := Put(base, fis[0].pos, vals[|vals| - 1]);
      assert NonEmpty(fis[1..]) by {
        assert forall a :: 0 <= a < |fis[1..]| ==> fis[1..][a] == fis[a + 1];
      }
      ExpandLast(b, fis[1..]);
    }
  }

  /**
    The working record the value loop holds before its turn `j` (the template, or the final
    record of the previous block) behaves, once value `j` is set, as the template itself would.
  */
  lemma NextRecord(base: Record, pos: nat, vals: seq<Value>, rest: seq<FieldInfo>, j: nat, cur: Record)
    requires j < |vals| && Free(rest, pos) && NonEmpty(rest)
    requires cur == if j == 0 then base else Final(Put(base, pos, vals[j - 1]), rest)
    ensures Expand(Put(cur, pos, vals[j]), rest) == Expand(Put(base, pos, vals[j]), rest)
    ensures Final(Put(cur, pos, vals[j]), rest) == Final(Put(base, pos, vals[j]), rest)
  {
    if j > 0 {
      FinalKeeps(Put(base, pos, vals[j - 1]), rest);
    }
    ExpandIgnores(Put(cur, pos, vals[j]), Put(base, pos, vals[j]), rest);
    FinalIgnores(Put(cur, pos, vals[j]), Put(base, pos, vals[j]), rest);
  }

  /** The facts about the domains from `i` on that the procedures need of `Positions`. */
  lemma Suffix(fis: seq<FieldInfo>, i: nat, width: nat)
    requires Positions(fis, width) && i < |fis|
    ensures fis[i..] != [] && fis[i..][0] == fis[i] && fis[i..][1..] == fis[i + 1..]
    ensures fis[i].pos < width && fis[i].vals != [] && Free(fis[i + 1..], fis[i].pos) && NonEmpty(fis[i + 1..])
  {
    var rest := fis[i + 1..];
    assert fis[i..][1..] == rest;
    assert forall c :: 0 <= c < |rest| ==> rest[c] == fis[i + 1 + c];
  }

  /** Expanding from field `i`: the loop over field `i`'s values, and its final record. */
  lemma ExpandFrom(base: Record, fis: seq<FieldInfo>, i: nat)
    requires i < |fis|
    ensures Expand(base, fis[i..]) == ExpandVals(base, fis[i].pos, fis[i].vals, fis[i + 1..])
    ensures fis[i].vals != [] ==>
      Final(base, fis[i..]) == Final(Put(base, fis[i].pos, fis[i].vals[|fis[i].vals| - 1]), fis[i + 1..])
  {
    assert fis[i..][1..] == fis[i + 1..];
  }

  /** One more turn of a level's loop appends the block of the next value. */
  lemma ExpandValsSnoc(base: Record, pos: nat, vals: seq<Value>, rest: seq<FieldInfo>, j: nat)
    requires j < |vals|
    ensures ExpandVals(base, pos, vals[..j + 1], rest) ==
      ExpandVals(base, pos, vals[..j], rest) + Expand(Put(base, pos, vals[j]), rest)
  {
    assert vals[..j + 1][..j] == vals[..j];
  }

  lemma TakeDrop<T>(s: seq<T>, n: nat)
    requires n <= |s|
    ensures s == s[..n] + s[n..]
  {
  }

  // ---------------------------------------------------------------- the procedures

  /** The working experiment record that `fieldPerm` updates in place through `Set`. */
  class Experiment {
    var fields: Record

    constructor(fields: Record)
      ensures this.fields == fields
    {
      this.fields := fields;
    }
  }

  /**
    `fieldPerm` on a struct record: one working record is updated in place for each value and,
    at the last domain field, a copy of it is appended; deeper levels update it further.
    The result is the accumulator followed by the expansion of the starting record, and the
    working record is left as the last record of that expansion.
  */
  method FieldPermValue(fis: seq<FieldInfo>, exp: Experiment, acc: seq<Record>, i: nat) returns (res: seq<Record>)
    requires i < |fis| && Positions(fis, |exp.fields|)
    modifies exp
    ensures res == acc + Expand(old(exp.fields), fis[i..])
    ensures exp.fields == Final(old(exp.fields), fis[i..])
    decreases |fis| - i, 1
  {
    var field := fis[i];
    ghost var rest := fis[i + 1..];
    ghost var base := exp.fields;
    Suffix(fis, i, |base|);
    res := acc;
    for j := 0 to |field.vals|
      invariant res == acc + ExpandVals(base, field.pos, field.vals[..j], rest)
      invariant exp.fields == if j == 0 then base else Final(Put(base, field.pos, field.vals[j - 1]), rest)
    {
      NextRecord(base, field.pos, field.vals, rest, j, exp.fields);
      ghost var cur := Put(exp.fields, field.pos, field.vals[j]);
      res := ValueTurn(fis, exp, field.vals[j], res, i);
      ExpandValsSnoc(base, field.pos, field.vals, rest, j);
      AppendAssoc(acc, ExpandVals(base, field.pos, field.vals[..j], rest), Expand(cur, rest));
    }
    assert field.vals[..|field.vals|] == field.vals;
    ExpandFrom(base, fis, i);
  }

  /**
    One turn of the value-mode loop: set the domain field on the working record, then append
    a copy of it (last domain field) or recurse into the next domain field.
  */
  method ValueTurn(fis: seq<FieldInfo>, exp: Experiment, v: Value, acc: seq<Record>, i: nat) returns (res: seq<Record>)
    requires i < |fis| && Positions(fis, |exp.fields|)
    modifies exp
    ensures res == acc + Expand(Put(old(exp.fields), fis[i].pos, v), fis[i + 1..])
    ensures exp.fields == Final(Put(old(exp.fields), fis[i].pos, v), fis[i + 1..])
    decreases |fis| - i, 0
  {
    exp.fields := Put(exp.fields, fis[i].pos, v);
    if i == |fis| - 1 {
      assert fis[i + 1..] == [];
      res := acc + [exp.fields];
    } else {
      res := FieldPermValue(fis, exp, acc, i + 1);
    }
  }

  /** No object occurs twice. */
  predicate Distinct(objs: seq<Experiment>) {
    forall k, l :: 0 <= k < l < |objs| ==> objs[k] != objs[l]
  }

  /** The objects hold exactly the records `recs`, in order. */
  ghost predicate Holds(objs: seq<Experiment>, recs: seq<Record>)
    reads objs
  {
    |objs| == |recs| && forall k :: 0 <= k < |objs| ==> objs[k].fields == recs[k]
  }

  /**
    `fieldPerm` on a pointer record: for each value the current record is first copied into a
    new object and only the copy is set, so the caller's record is never changed and every
    appended record is a fresh object of its own.
  */
  method FieldPermPointer(fis: seq<FieldInfo>, exp: Experiment, acc: seq<Experiment>, i: nat) returns (res: seq<Experiment>)
    requires i < |fis|
    ensures |res| >= |acc| && res[..|acc|] == acc
    ensures Holds(res[|acc|..], Expand(exp.fields, fis[i..]))
    ensures fresh(res[|acc|..])
    ensures Distinct(res[|acc|..])
    decreases |fis| - i, 1
  {
    var field := fis[i];
    ghost var rest := fis[i + 1..];
    ghost var base := exp.fields;
    res := acc;
    var cur := exp;
    ghost var made: seq<Experiment> := [];
    for j := 0 to |field.vals|
      invariant res == acc + made
      invariant Holds(made, ExpandVals(base, field.pos, field.vals[..j], rest))
      invariant fresh(made)
      invariant Distinct(made)
      invariant cur.fields == if j == 0 then base else Put(base, field.pos, field.vals[j - 1])
    {
      if j > 0 {
        PutTwice(base, field.pos, field.vals[j - 1], field.vals[j]);
      }
      var prefix := res;
      res, cur := PointerTurn(fis, cur, field.vals[j], res, i, made, ExpandVals(base, field.pos, field.vals[..j], rest));
      TakeDrop(res, |prefix|);
      AppendAssoc(acc, made, res[|prefix|..]);
      ExpandValsSnoc(base, field.pos, field.vals, rest, j);
      made := made + res[|prefix|..];
    }
    assert field.vals[..|field.vals|] == field.vals;
    ExpandFrom(base, fis, i);
  }

  lemma HoldsAppend(a: seq<Experiment>, ra: seq<Record>, b: seq<Experiment>, rb: seq<Record>)
    requires Holds(a, ra) && Holds(b, rb)
    ensures Holds(a + b, ra + rb)
  {
  }

  lemma DistinctAppend(a: seq<Experiment>, b: seq<Experiment>)
    requires Distinct(a) && Distinct(b)
    requires forall k, l :: 0 <= k < |a| && 0 <= l < |b| ==> a[k] != b[l]
    ensures Distinct(a + b)
  {
  }

  /**
    One turn of the pointer-mode value loop: copy the current record into a new object, set
    the domain field on the copy, then append the copy (last domain field) or recurse with it.
  */
  method PointerTurn(fis: seq<FieldInfo>, cur: Experiment, v: Value, acc: seq<Experiment>, i: nat,
                     ghost made: seq<Experiment>, ghost recs: seq<Record>)
    returns (res: seq<Experiment>, copy: Experiment)
    requires i < |fis|
    requires Holds(made, recs) && Distinct(made)
    ensures fresh(copy) && copy.fields == Put(cur.fields, fis[i].pos, v)
    ensures |res| >= |acc| && res[..|acc|] == acc
    ensures Holds(made + res[|acc|..], recs + Expand(copy.fields, fis[i + 1..]))
    ensures fresh(res[|acc|..])
    ensures Distinct(made + res[|acc|..])
    decreases |fis| - i, 0
  {
    copy := new Experiment(cur.fields);
    copy.fields := Put(copy.fields, fis[i].pos, v);
    if i == |fis| - 1 {
      assert fis[i + 1..] == [];
      res := acc + [copy];
      assert res[|acc|..] == [copy];
    } else {
      res := FieldPermPointer(fis, copy, acc, i + 1);
    }
    ghost var added := res[|acc|..];
    HoldsAppend(made, recs, added, Expand(copy.fields, fis[i + 1..]));
    DistinctAppend(made, added);
  }
}
