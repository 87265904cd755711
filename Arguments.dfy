/**
 * One argument of a command (ArgumentDescription.java): a bare flag (a
 * "single" argument) or a value-binded argument with a declared value type,
 * possibly mandatory.  The constructors validate the description and
 * ParseValue coerces the text given on the command line to the typed value.
 */
module Arguments {
  import opened Wrappers
  import opened Errors
  import opened Strings
  import opened Numerals

  /** ArgumentDescription.ArgumentValueType. */
  datatype ValueType = StringType | IntegerType | LongType | DecimalType | FilePathType | BooleanType

  /**
   * The object parseValue returns.  A DECIMAL value is kept as the trimmed
   * literal it was read from (what Double.parseDouble rounds to binary64 is
   * not modelled); a FILE_PATH value is the path text that java.io.File wraps.
   */
  datatype Value =
    | StringValue(text: string)
    | BooleanValue(truth: bool)
    | IntegerValue(int32: int)
    | LongValue(int64: int)
    | DecimalValue(literal: string)
    | FilePathValue(path: string)

  /** Why parseValue throws: NumberFormatException on the text, or the switch on a null type. */
  datatype ValueError = NumberFormat(input: string) | NullType

  /** The Java objects `equals` can be handed. */
  datatype Object = NullObject | ArgumentObject(argument: ArgumentDescription) | OtherObject

  datatype ArgumentDescription = ArgumentDescription(single: bool, name: string, valueType: Option<ValueType>, mandatory: bool)
  {
    /** What every object the public constructors build satisfies. */
    predicate WellFormed() {
      && |name| > 0
      && (single ==> !mandatory && valueType.None?)
      && (!single ==> valueType.Some?)
    }

    /** Equality is by name alone; never equal to null or to another kind of object. */
    predicate Equals(obj: Object) {
      obj.ArgumentObject? && obj.argument.name == name
    }

    /** parseValue: a switch over the value type (a null type makes the switch throw). */
    function ParseValue(raw: string): (r: Result<Value, ValueError>)
      ensures r == Failure(NullType) <==> valueType.None?
    {
      match valueType
      case None => Failure(NullType)
      case Some(t) => ParseAs(t, raw)
    }
  }

  /**
   * The private constructor ArgumentDescription(single, name, avt,
   * mandatory): the name is checked first, then the flag-only rules.
   */
  function Make(single: bool, name: Option<string>, avt: Option<ValueType>, mandatory: bool): (r: Result<ArgumentDescription, SetupError>)
    ensures name.None? ==> r == Failure(NullReference)
    ensures name.Some? && |name.value| == 0 ==> r == Failure(BlankArgumentName)
    ensures name.Some? && |name.value| > 0 && single && mandatory ==> r == Failure(MandatoryFlag)
    ensures name.Some? && |name.value| > 0 && single && !mandatory && avt.Some? ==> r == Failure(TypedFlag)
    ensures r.Success? <==> name.Some? && |name.value| > 0 && (single ==> !mandatory && avt.None?)
    ensures r.Success? ==> r.value == ArgumentDescription(single, name.value, avt, mandatory)
  {
    if name.None? then Failure(NullReference)
    else if |name.value| == 0 then Failure(BlankArgumentName)
    else if single && mandatory then Failure(MandatoryFlag)
    else if single && avt.Some? then Failure(TypedFlag)
    else Success(ArgumentDescription(single, name.value, avt, mandatory))
  }

  /** The public value-binded constructor: the name checks of Make, then a null type is refused. */
  function NewValued(name: Option<string>, avt: Option<ValueType>, mandatory: bool): (r: Result<ArgumentDescription, SetupError>)
    ensures name.None? ==> r == Failure(NullReference)
    ensures name.Some? && |name.value| == 0 ==> r == Failure(BlankArgumentName)
    ensures name.Some? && |name.value| > 0 && avt.None? ==> r == Failure(NullReference)
    ensures name.Some? && |name.value| > 0 && avt.Some? ==> r == Success(ArgumentDescription(false, name.value, avt, mandatory))
    ensures r.Success? ==> r.value.WellFormed() && !r.value.single
  {
    match Make(false, name, avt, mandatory)
    case Failure(e) => Failure(e)
    case Success(a) => if avt.None? then Failure(NullReference) else Success(a)
  }

  /** The public single-type constructor: never mandatory, no value type. */
  function NewFlag(name: Option<string>): (r: Result<ArgumentDescription, SetupError>)
    ensures name.None? ==> r == Failure(NullReference)
    ensures name.Some? && |name.value| == 0 ==> r == Failure(BlankArgumentName)
    ensures name.Some? && |name.value| > 0 ==> r == Success(ArgumentDescription(true, name.value, None, false))
    ensures r.Success? ==> r.value.WellFormed() && r.value.single
  {
    Make(true, name, None, false)
  }

  /** The invariant is exact: the well-formed descriptions are those the public constructors build. */
  lemma WellFormedIffConstructible(a: ArgumentDescription)
    ensures a.WellFormed() <==>
      (NewFlag(Some(a.name)) == Success(a) || NewValued(Some(a.name), a.valueType, a.mandatory) == Success(a))
  {
  }

  /** `equals` is an equivalence on descriptions, and refuses null and foreign objects. */
  lemma EqualsIsEquivalence(a: ArgumentDescription, b: ArgumentDescription, c: ArgumentDescription)
    ensures a.Equals(ArgumentObject(a))
    ensures a.Equals(ArgumentObject(b)) <==> b.Equals(ArgumentObject(a))
    ensures a.Equals(ArgumentObject(b)) && b.Equals(ArgumentObject(c)) ==> a.Equals(ArgumentObject(c))
    ensures a.Equals(ArgumentObject(b)) <==> a.name == b.name
    ensures !a.Equals(NullObject) && !a.Equals(OtherObject)
  {
  }

  // ----- Boolean.parseBoolean -----

  function ToLowerAscii(c: char): char {
    if 'A' <= c <= 'Z' then (c as int + 32) as char else c
  }

  /** String.equalsIgnoreCase, for the ASCII letters. */
  predicate EqualsIgnoreCase(a: string, b: string) {
    |a| == |b| && forall i :: 0 <= i < |a| ==> ToLowerAscii(a[i]) == ToLowerAscii(b[i])
  }

  // ----- Double.parseDouble (decimal notation) -----

  /** The end of the run of digits that starts at `i`. */
  function DigitRunEnd(s: string, i: nat): (j: nat)
    requires i <= |s|
    ensures i <= j <= |s|
    ensures forall k :: i <= k < j ==> IsDigit(s[k])
    ensures j == |s| || !IsDigit(s[j])
    decreases |s| - i
  {
    if i == |s| || !IsDigit(s[i]) then i else DigitRunEnd(s, i + 1)
  }

  predicate IsTypeSuffix(c: char) {
    c == 'f' || c == 'F' || c == 'd' || c == 'D'
  }

  /** Nothing, or one float/double suffix letter, from `i` to the end. */
  predicate IsOptionalSuffix(u: string, i: nat) {
    i == |u| || (i + 1 == |u| && IsTypeSuffix(u[i]))
  }

  /** An optional exponent `[eE][+-]?digits` followed by an optional suffix, from `i` to the end. */
  predicate IsExponentAndSuffix(u: string, i: nat)
    requires i <= |u|
  {
    if i < |u| && (u[i] == 'e' || u[i] == 'E') then
      var signEnd := if i + 1 < |u| && IsSign(u[i + 1]) then i + 2 else i + 1;
      var expEnd := DigitRunEnd(u, signEnd);
      expEnd > signEnd && IsOptionalSuffix(u, expEnd)
    else
      IsOptionalSuffix(u, i)
  }

  /** `digits [. digits]` or `. digits` (at least one digit), then exponent and suffix. */
  predicate IsFiniteDecimal(u: string) {
    var intEnd := DigitRunEnd(u, 0);
    var fracEnd := if intEnd < |u| && u[intEnd] == '.' then DigitRunEnd(u, intEnd + 1) else intEnd;
    var fractionDigits := if fracEnd > intEnd then fracEnd - intEnd - 1 else 0;
    intEnd + fractionDigits > 0 && IsExponentAndSuffix(u, fracEnd)
  }

  /** The literals Double.parseDouble accepts after trimming, except hexadecimal ones. */
  predicate IsDecimalLiteral(s: string) {
    var u := Magnitude(Trim(s));
    u == "NaN" || u == "Infinity" || IsFiniteDecimal(u)
  }

  // ----- parseValue -----

  /** One branch of the parseValue switch per value type. */
  function ParseAs(t: ValueType, raw: string): (r: Result<Value, ValueError>)
    ensures r.Failure? ==> r.error == NumberFormat(raw)
    ensures t == StringType ==> r == Success(StringValue(raw))
    ensures t == FilePathType ==> r == Success(FilePathValue(raw))
    ensures t == BooleanType ==> r == Success(BooleanValue(EqualsIgnoreCase(raw, "true")))
  {
    match t
    case StringType => Success(StringValue(raw))
    case BooleanType => Success(BooleanValue(EqualsIgnoreCase(raw, "true")))
    case IntegerType =>
      (match ParseSigned(raw, INT_MIN, INT_MAX)
       case Some(n) => Success(IntegerValue(n))
       case None => Failure(NumberFormat(raw)))
    case LongType =>
      (match ParseSigned(raw, LONG_MIN, LONG_MAX)
       case Some(n) => Success(LongValue(n))
       case None => Failure(NumberFormat(raw)))
    case DecimalType =>
      if IsDecimalLiteral(raw) then Success(DecimalValue(Trim(raw))) else Failure(NumberFormat(raw))
    case FilePathType => Success(FilePathValue(raw))
  }

  /** INTEGER and LONG accept exactly the signed numerals within 32 and 64 bits. */
  lemma ParseIntegralMeaning(raw: string, v: int)
    ensures ParseAs(IntegerType, raw) == Success(IntegerValue(v)) <==>
      IsNumeral(raw) && NumeralValue(raw) == v && INT_MIN <= v <= INT_MAX
    ensures ParseAs(LongType, raw) == Success(LongValue(v)) <==>
      IsNumeral(raw) && NumeralValue(raw) == v && LONG_MIN <= v <= LONG_MAX
    ensures ParseAs(IntegerType, raw).Failure? <==> !(IsNumeral(raw) && INT_MIN <= NumeralValue(raw) <= INT_MAX)
    ensures ParseAs(LongType, raw).Failure? <==> !(IsNumeral(raw) && LONG_MIN <= NumeralValue(raw) <= LONG_MAX)
  {
  }

  /** The text form of a parsed value, as its toString shows it. */
  function Format(v: Value): string {
    match v
    case StringValue(s) => s
    case BooleanValue(b) => if b then "true" else "false"
    case IntegerValue(n) => ToDecimal(n)
    case LongValue(n) => ToDecimal(n)
    case DecimalValue(text) => text
    case FilePathValue(p) => p
  }

  /** Writing a parsed value back as text and parsing it again gives the same value. */
  lemma {:induction false} FormatRoundTrip(t: ValueType, raw: string, v: Value)
    requires ParseAs(t, raw) == Success(v)
    ensures ParseAs(t, Format(v)) == Success(v)
  {
    match t
    case IntegerType => ParseToDecimal(v.int32, INT_MIN, INT_MAX);
    case LongType => ParseToDecimal(v.int64, LONG_MIN, LONG_MAX);
    case DecimalType => TrimIdempotent(raw);
    case BooleanType =>
      assert EqualsIgnoreCase("true", "true");
      assert !EqualsIgnoreCase("false", "true") by { assert ToLowerAscii("false"[0]) != ToLowerAscii("true"[0]); }
    case _ =>
  }

  /** The sample values of the shell's documentation: "42" is 42, "x" is refused with its text. */
  lemma IntegerExamples()
    ensures ParseAs(IntegerType, "42") == Success(IntegerValue(42))
    ensures ParseAs(IntegerType, "x") == Failure(NumberFormat("x"))
  {
    assert Magnitude("42") == "42";
    assert DigitsValue("42") == 42 by {
      assert "42"[..1] == "4";
      assert DigitsValue("4") == 4 by { assert "4"[..0] == ""; }
    }
    assert !IsDigit("x"[0]);
  }

  /** INTEGER stops at 2^31 - 1 while LONG goes on; the 32-bit minimum is accepted. */
  lemma RangeExamples()
    ensures ParseAs(IntegerType, "-2147483648") == Success(IntegerValue(INT_MIN))
    ensures ParseAs(IntegerType, "2147483648") == Failure(NumberFormat("2147483648"))
    ensures ParseAs(LongType, "2147483648") == Success(LongValue(2147483648))
  {
    var big := "2147483648";
    assert Magnitude(big) == big;
    DigitsValueExamples();
    var low := "-2147483648";
    assert Magnitude(low) == big;
  }

  /** BOOLEAN ignores case and reads anything but "true" as false. */
  lemma BooleanExamples()
    ensures ParseAs(BooleanType, "TRUE") == Success(BooleanValue(true))
    ensures ParseAs(BooleanType, "yes") == Success(BooleanValue(false))
  {
    assert EqualsIgnoreCase("TRUE", "true");
  }

  lemma DigitsValueExamples()
    ensures DigitsValue("2147483648") == 2147483648
  {
    var s := "2147483648";
    assert s[..9] == "214748364";
    assert "214748364"[..8] == "21474836";
    assert "21474836"[..7] == "2147483";
    assert "2147483"[..6] == "214748";
    assert "214748"[..5] == "21474";
    assert "21474"[..4] == "2147";
    assert "2147"[..3] == "214";
    assert "214"[..2] == "21";
    assert "21"[..1] == "2";
    assert "2"[..0] == "";
  }
}
