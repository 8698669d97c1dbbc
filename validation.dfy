/**
 * The schema validator of `src/helpers.rs`: `validate_claims_against_schema`
 * with its `is_integer` and `is_boolean` value checks.
 */
module Validation {
  import opened Wrappers
  import opened Bytes
  import opened Structures

  const STRING_TYPE: seq<u8> := Ascii("string")
  const INTEGER_TYPE: seq<u8> := Ascii("integer")
  const BOOLEAN_TYPE: seq<u8> := Ascii("boolean")
  const TRUE: seq<u8> := Ascii("true")
  const FALSE: seq<u8> := Ascii("false")

  const I64_MIN: int := -0x8000_0000_0000_0000
  const I64_MAX: int := 0x7FFF_FFFF_FFFF_FFFF

  const PLUS: u8 := '+' as int
  const MINUS: u8 := '-' as int

  // ---------------------------------------------------------------- is_integer

  predicate IsDigit(c: u8) {
    '0' as int <= c <= '9' as int
  }

  predicate AllDigits(ds: seq<u8>) {
    forall i | 0 <= i < |ds| :: IsDigit(ds[i])
  }

  function Pow10(n: nat): (r: nat)
    ensures r >= 1
  {
    if n == 0 then 1 else 10 * Pow10(n - 1)
  }

  /** The number a string of decimal digits denotes, by place value. */
  function DigitsValue(ds: seq<u8>): nat
    requires AllDigits(ds)
  {
    if ds == [] then 0 else (ds[0] - '0' as int) * Pow10(|ds| - 1) + DigitsValue(ds[1..])
  }

  /** Integer syntax: an optional sign followed by one or more digits. */
  predicate IsIntegerSyntax(s: seq<u8>) {
    if |s| > 0 && (s[0] == PLUS || s[0] == MINUS) then |s| > 1 && AllDigits(s[1..])
    else |s| > 0 && AllDigits(s)
  }

  /** The value the text denotes, when it has integer syntax. */
  function IntegerValue(s: seq<u8>): int
    requires IsIntegerSyntax(s)
  {
    if s[0] == MINUS then 0 - DigitsValue(s[1..])
    else if s[0] == PLUS then DigitsValue(s[1..])
    else DigitsValue(s)
  }

  /**
   * The digit loop of `i64::from_str`: multiply by ten and add (or, for a
   * negative number, subtract) each digit, failing on a non-digit or on
   * leaving the `i64` range at either step.
   */
  function AccumulateDigits(ds: seq<u8>, acc: int, positive: bool): Option<int>
  {
    if ds == [] then Some(acc)
    else if !IsDigit(ds[0]) then None
    else
      var d := ds[0] - '0' as int;
      var shifted := acc * 10;
      if shifted < I64_MIN || shifted > I64_MAX then None
      else
        var next := if positive then shifted + d else shifted - d;
        if next < I64_MIN || next > I64_MAX then None
        else AccumulateDigits(ds[1..], next, positive)
  }

  /** `value.parse::<i64>()`: empty text and a lone sign are errors. */
  function ParseI64(s: seq<u8>): Option<int> {
    if |s| == 0 then None
    else if (s[0] == PLUS || s[0] == MINUS) && |s| == 1 then None
    else if s[0] == PLUS then AccumulateDigits(s[1..], 0, true)
    else if s[0] == MINUS then AccumulateDigits(s[1..], 0, false)
    else AccumulateDigits(s, 0, true)
  }

  /** `is_integer`. */
  predicate IsInteger(value: Buffer) {
    ParseI64(value).Some?
  }

  lemma AllDigitsCons(ds: seq<u8>)
    requires ds != []
    ensures AllDigits(ds) <==> IsDigit(ds[0]) && AllDigits(ds[1..])
  {
  }

  /** Taking one more digit: the place-value identity behind the digit loop. */
  lemma ShiftDigit(acc: int, d: int, n: nat, rest: int)
    ensures acc * Pow10(n + 1) + d * Pow10(n) + rest == (acc * 10 + d) * Pow10(n) + rest
  {
  }

  lemma ScaleAtLeast(x: int, p: nat)
    requires x >= 0 && p >= 1
    ensures x * p >= x
  {
  }

  lemma ScaleAtMost(x: int, p: nat)
    requires x <= 0 && p >= 1
    ensures x * p <= x
  {
  }

  lemma {:induction false} AccumulatePositive(ds: seq<u8>, acc: int)
    requires 0 <= acc <= I64_MAX
    ensures AccumulateDigits(ds, acc, true) ==
      if AllDigits(ds) && acc * Pow10(|ds|) + DigitsValue(ds) <= I64_MAX
      then Some(acc * Pow10(|ds|) + DigitsValue(ds)) else None
  {
    if ds != [] {
      AllDigitsCons(ds);
      if IsDigit(ds[0]) {
        var d, n, rest := ds[0] - '0' as int, |ds| - 1, ds[1..];
        var next := acc * 10 + d;
        if AllDigits(ds) {
          ShiftDigit(acc, d, n, DigitsValue(rest));
          ScaleAtLeast(next, Pow10(n));
        }
        if next <= I64_MAX {
          AccumulatePositive(rest, next);
        }
      }
    }
  }

  lemma {:induction false} AccumulateNegative(ds: seq<u8>, acc: int)
    requires I64_MIN <= acc <= 0
    ensures AccumulateDigits(ds, acc, false) ==
      if AllDigits(ds) && acc * Pow10(|ds|) - DigitsValue(ds) >= I64_MIN
      then Some(acc * Pow10(|ds|) - DigitsValue(ds)) else None
  {
    if ds != [] {
      AllDigitsCons(ds);
      if IsDigit(ds[0]) {
        var d, n, rest := ds[0] - '0' as int, |ds| - 1, ds[1..];
        var next := acc * 10 - d;
        if AllDigits(ds) {
          var v: int := DigitsValue(rest);
          ShiftDigit(acc, -d, n, 0 - v);
          ScaleAtMost(next, Pow10(n));
          assert acc * Pow10(|ds|) - DigitsValue(ds) == next * Pow10(n) - v;
          assert acc * Pow10(|ds|) - DigitsValue(ds) <= next;
        }
        if next >= I64_MIN {
          AccumulateNegative(rest, next);
        }
      }
    }
  }

  /**
   * `is_integer` accepts exactly an optional sign followed by one or more
   * digits whose value lies in the `i64` range, and parses it to that value.
   */
  lemma ParseI64Correct(s: seq<u8>)
    ensures ParseI64(s) ==
      if IsIntegerSyntax(s) && I64_MIN <= IntegerValue(s) <= I64_MAX
      then Some(IntegerValue(s)) else None
  {
    if |s| > 0 {
      if s[0] == PLUS || s[0] == MINUS {
        if |s| > 1 {
          assert s[0] != PLUS ==> s[0] == MINUS;
          AccumulatePositive(s[1..], 0);
          AccumulateNegative(s[1..], 0);
        }
      } else {
        AccumulatePositive(s, 0);
      }
    }
  }

  lemma IsIntegerIff(value: Buffer)
    ensures IsInteger(value) <==>
      IsIntegerSyntax(value) && I64_MIN <= IntegerValue(value) <= I64_MAX
  {
    ParseI64Correct(value);
  }

  // ---------------------------------------------------------------- is_boolean

  /** `is_boolean`: exactly `true` or `false`, case-sensitively. */
  predicate IsBoolean(value: Buffer) {
    value == TRUE || value == FALSE
  }

  lemma BooleanIsCaseSensitive()
    ensures IsBoolean(Ascii("true")) && IsBoolean(Ascii("false"))
    ensures !IsBoolean(Ascii("True")) && !IsBoolean(Ascii("FALSE")) && !IsBoolean(Ascii("1"))
  {
    assert Ascii("True")[0] != TRUE[0];
    assert Ascii("FALSE")[0] != FALSE[0];
  }

  // ---------------------------------------------------------------- claims

  datatype ValidationError =
    | MissingAttribute(name: Buffer)
    | TypeMismatch(name: Buffer, expected: Buffer, found: Buffer)
    | UnsupportedType(name: Buffer, dataType: Buffer)

  /** `claims.data.iter().find(|claim| claim.attribute == name)`. */
  function FindClaim(data: seq<Claim>, name: Buffer): (r: Option<Claim>)
    ensures r.None? <==> forall i | 0 <= i < |data| :: data[i].attribute != name
    ensures r.Some? ==> r.value in data && r.value.attribute == name
  {
    if data == [] then None
    else if data[0].attribute == name then Some(data[0])
    else FindClaim(data[1..], name)
  }

  /** The claim found is the first one carrying the name. */
  lemma {:induction false} FindClaimFirst(data: seq<Claim>, name: Buffer, i: nat)
    requires i < |data| && data[i].attribute == name
    requires forall j | 0 <= j < i :: data[j].attribute != name
    ensures FindClaim(data, name) == Some(data[i])
  {
    if i > 0 {
      FindClaimFirst(data[1..], name, i - 1);
    }
  }

  /** The type check of one value against a declared `data_type`. */
  predicate AcceptsValue(dataType: Buffer, value: Buffer) {
    dataType == STRING_TYPE
    || (dataType == INTEGER_TYPE && IsInteger(value))
    || (dataType == BOOLEAN_TYPE && IsBoolean(value))
  }

  lemma DataTypesDistinct()
    ensures STRING_TYPE != INTEGER_TYPE && STRING_TYPE != BOOLEAN_TYPE && INTEGER_TYPE != BOOLEAN_TYPE
  {
    assert STRING_TYPE[0] != INTEGER_TYPE[0] && BOOLEAN_TYPE[0] != INTEGER_TYPE[0];
    assert STRING_TYPE[0] != BOOLEAN_TYPE[0];
  }

  /** One iteration of the validation loop: the checks made for one schema attribute. */
  function CheckAttribute(data: seq<Claim>, attribute: SchemaAttribute): (r: Outcome<ValidationError>)
    ensures r == Pass <==>
      match FindClaim(data, attribute.name)
      case None => !attribute.required
      case Some(claim) => AcceptsValue(attribute.dataType, claim.value)
    ensures attribute.required && FindClaim(data, attribute.name).None?
      ==> r == Fail(MissingAttribute(attribute.name))
    ensures FindClaim(data, attribute.name).Some? ==>
      var value := FindClaim(data, attribute.name).value.value;
      && (attribute.dataType == INTEGER_TYPE && !IsInteger(value) ==>
            r == Fail(TypeMismatch(attribute.name, INTEGER_TYPE, value)))
      && (attribute.dataType == BOOLEAN_TYPE && !IsBoolean(value) ==>
            r == Fail(TypeMismatch(attribute.name, BOOLEAN_TYPE, value)))
      && (attribute.dataType != STRING_TYPE && attribute.dataType != INTEGER_TYPE
          && attribute.dataType != BOOLEAN_TYPE ==>
            r == Fail(UnsupportedType(attribute.name, attribute.dataType)))
  {
    DataTypesDistinct();
    var found := FindClaim(data, attribute.name);
    if attribute.required && found.None? then Fail(MissingAttribute(attribute.name))
    else if found.None? then Pass
    else if attribute.dataType == STRING_TYPE then Pass
    else if attribute.dataType == INTEGER_TYPE then
      if IsInteger(found.value.value) then Pass
      else Fail(TypeMismatch(attribute.name, INTEGER_TYPE, found.value.value))
    else if attribute.dataType == BOOLEAN_TYPE then
      if IsBoolean(found.value.value) then Pass
      else Fail(TypeMismatch(attribute.name, BOOLEAN_TYPE, found.value.value))
    else Fail(UnsupportedType(attribute.name, attribute.dataType))
  }

  /** The outcome of the whole loop: the failure of the first attribute that fails. */
  function ValidateAttributes(data: seq<Claim>, attributes: seq<SchemaAttribute>): Outcome<ValidationError> {
    if attributes == [] then Pass
    else
      var first := CheckAttribute(data, attributes[0]);
      if first.Fail? then first else ValidateAttributes(data, attributes[1..])
  }

  /** Validation succeeds exactly when every attribute passes its own check. */
  lemma {:induction false} ValidateAttributesPass(data: seq<Claim>, attributes: seq<SchemaAttribute>)
    ensures ValidateAttributes(data, attributes) == Pass <==>
      forall j | 0 <= j < |attributes| :: CheckAttribute(data, attributes[j]) == Pass
  {
    if attributes != [] {
      ValidateAttributesPass(data, attributes[1..]);
      assert forall j | 1 <= j < |attributes| :: attributes[j] == attributes[1..][j - 1];
    }
  }

  /** On failure the error is that of the first failing attribute, in schema order. */
  lemma {:induction false} ValidateAttributesFirstFailure(data: seq<Claim>, attributes: seq<SchemaAttribute>, i: nat)
    requires i < |attributes| && CheckAttribute(data, attributes[i]).Fail?
    requires forall j | 0 <= j < i :: CheckAttribute(data, attributes[j]) == Pass
    ensures ValidateAttributes(data, attributes) == CheckAttribute(data, attributes[i])
  {
    if i > 0 {
      assert forall j | 0 <= j < i - 1 :: attributes[1..][j] == attributes[j + 1];
      ValidateAttributesFirstFailure(data, attributes[1..], i - 1);
    }
  }

  /**
   * Claims that no attribute names are ignored: appending them never changes
   * the outcome, and neither does the Merkle root.
   */
  lemma {:induction false} ExtraClaimsIgnored(data: seq<Claim>, extra: seq<Claim>, attributes: seq<SchemaAttribute>)
    requires forall c, a | c in extra && a in attributes :: c.attribute != a.name
    ensures ValidateAttributes(data + extra, attributes) == ValidateAttributes(data, attributes)
  {
    if attributes != [] {
      var a := attributes[0];
      FindClaimAppend(data, extra, a.name);
      ExtraClaimsIgnored(data, extra, attributes[1..]);
    }
  }

  lemma {:induction false} FindClaimAppend(data: seq<Claim>, extra: seq<Claim>, name: Buffer)
    requires forall c | c in extra :: c.attribute != name
    ensures FindClaim(data + extra, name) == FindClaim(data, name)
  {
    if data == [] {
      assert data + extra == extra;
    } else {
      assert (data + extra)[1..] == data[1..] + extra;
      FindClaimAppend(data[1..], extra, name);
    }
  }

  /** An attribute with an unsupported `data_type` is harmless while no claim names it. */
  lemma UnsupportedTypeWithoutClaim(data: seq<Claim>, attribute: SchemaAttribute)
    requires !attribute.required
    requires forall i | 0 <= i < |data| :: data[i].attribute != attribute.name
    ensures CheckAttribute(data, attribute) == Pass
  {
  }

  /** `validate_claims_against_schema`: loops over the attributes, stopping at the first failure. */
  method ValidateClaimsAgainstSchema(claims: Claims, schema: CredentialSchema)
    returns (r: Outcome<ValidationError>)
    ensures r == ValidateAttributes(claims.data, schema.attributes)
  {
    var attributes := schema.attributes;
    for i := 0 to |attributes|
      invariant ValidateAttributes(claims.data, attributes) == ValidateAttributes(claims.data, attributes[i..])
    {
      var attribute := attributes[i];
      var claimValue := FindClaim(claims.data, attribute.name);
      if attribute.required && claimValue.None? {
        return Fail(MissingAttribute(attribute.name));
      }
      if claimValue.Some? {
        var claim := claimValue.value;
        if attribute.dataType == STRING_TYPE {
        } else if attribute.dataType == INTEGER_TYPE {
          if !IsInteger(claim.value) {
            return Fail(TypeMismatch(attribute.name, INTEGER_TYPE, claim.value));
          }
        } else if attribute.dataType == BOOLEAN_TYPE {
          if !IsBoolean(claim.value) {
            return Fail(TypeMismatch(attribute.name, BOOLEAN_TYPE, claim.value));
          }
        } else {
          return Fail(UnsupportedType(attribute.name, attribute.dataType));
        }
      }
      assert attributes[i..][1..] == attributes[i + 1..];
    }
    r := Pass;
  }

  // ---------------------------------------------------------------- scenarios

  /** A required integer attribute `age`: `"30"` is accepted, `"abc"` and a missing claim are not. */
  lemma AgeScenario(h: Buffer)
    ensures var age := SchemaAttribute(Ascii("age"), Ascii("number"), true, INTEGER_TYPE);
      && ValidateAttributes([Claim(Ascii("age"), Ascii("30"), h)], [age]) == Pass
      && ValidateAttributes([Claim(Ascii("age"), Ascii("abc"), h)], [age])
         == Fail(TypeMismatch(Ascii("age"), INTEGER_TYPE, Ascii("abc")))
      && ValidateAttributes([], [age]) == Fail(MissingAttribute(Ascii("age")))
  {
    var thirty := Ascii("30");
    IsIntegerIff(thirty);
    assert AllDigits(thirty[1..]);
    assert DigitsValue(thirty) == 30 by {
      assert DigitsValue(thirty[1..]) == 0;
    }
    var abc := Ascii("abc");
    assert !IsDigit(abc[0]);
  }
}
