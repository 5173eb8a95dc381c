/** The request decisions of the prime-check endpoint: the GET handler
    reads the `number` query parameter, the POST handler takes a body whose
    `number` field the serializer checks, and both hand a parsed integer to
    the bounds check that produces the verdict. The POST handler as written
    names a serializer its module never imports; `HandlePostAsWritten` models
    that, and `HandlePost` the handler with the import in place. */
module PrimeCheck {
  import opened Wrappers
  import Primality
  import Decimal

  /** The largest number the endpoint answers for; the bound is inclusive. */
  const MaxNumber: int := 1_000_000_000_000

  const PrimeSuffix: string := " is a prime number"
  const NotPrimeSuffix: string := " is not a prime number"

  const MissingMessage: string := "Please provide a \"number\" query parameter"
  const ValidationMessage: string := "Invalid input data"
  const NegativeMessage: string := "Number must be non-negative"
  const TooLargeMessage: string := "Number must be less than 10^12 for performance reasons"
  const InternalMessage: string := "An unexpected error occurred"

  /** The error categories: five 400 answers and the 500 catch-all. */
  datatype ErrorKind =
    | MissingParameter
    | InvalidNumberFormat
    | ValidationError
    | InvalidInput
    | NumberTooLarge
    | InternalError
  {
    /** The `error` label of the answer body. */
    function Label(): string
    {
      match this
      case MissingParameter => "Missing parameter"
      case InvalidNumberFormat => "Invalid number format"
      case ValidationError => "Validation error"
      case InvalidInput => "Invalid input"
      case NumberTooLarge => "Number too large"
      case InternalError => "Internal server error"
    }
  }

  /** An answer: a verdict record with status 200, or a tagged error with
      status 400, or 500 for the catch-all. */
  datatype Response =
    | Success(number: nat, isPrime: bool, message: string)
    | Failure(kind: ErrorKind, message: string)
  {
    function StatusCode(): int
    {
      if Success? then 200 else if kind == InternalError then 500 else 400
    }
  }

  /** The `number` field of a POST body as the serializer sees it: missing,
      a value it accepts as an integer, or a value it does not. */
  datatype BodyField = Absent | Integral(value: int) | NotInteger

  predicate EndsWith(m: string, suffix: string)
  {
    |suffix| <= |m| && m[|m| - |suffix|..] == suffix
  }

  /** The human-readable summary of a verdict: the number's decimal text
      followed by the phrase for the verdict. The verdict can be told from
      the ending alone. */
  function VerdictMessage(number: nat, prime: bool): (m: string)
    ensures EndsWith(m, PrimeSuffix) <==> prime
    ensures !prime ==> EndsWith(m, NotPrimeSuffix)
  {
    var digits := Decimal.NatToString(number);
    var m := digits + (if prime then PrimeSuffix else NotPrimeSuffix);
    assert m[..|digits|] == digits;
    assert !prime ==> m[|m| - |PrimeSuffix|] == 'n' && m[|m| - |NotPrimeSuffix|..] == NotPrimeSuffix;
    assert prime ==> m[|m| - |PrimeSuffix|..] == PrimeSuffix;
    m
  }

  /** Reads a summary back into the number and the verdict it reports; the
      number must be written as it prints, without leading zeros. */
  function ReadVerdict(m: string): Option<(nat, bool)>
  {
    if |m| > |PrimeSuffix| && m[|m| - |PrimeSuffix|..] == PrimeSuffix
       && Decimal.Canonical(m[..|m| - |PrimeSuffix|])
    then
      Some((Decimal.DigitsValue(m[..|m| - |PrimeSuffix|]), true))
    else if |m| > |NotPrimeSuffix| && m[|m| - |NotPrimeSuffix|..] == NotPrimeSuffix
       && Decimal.Canonical(m[..|m| - |NotPrimeSuffix|])
    then
      Some((Decimal.DigitsValue(m[..|m| - |NotPrimeSuffix|]), false))
    else
      None
  }

  /** The summary names the number and states the verdict, and nothing else
      can be read from it. */
  lemma ReadVerdictMessage(number: nat, prime: bool)
    ensures ReadVerdict(VerdictMessage(number, prime)) == Some((number, prime))
  {
    var digits := Decimal.NatToString(number);
    var m := VerdictMessage(number, prime);
    Decimal.DigitsOfNatToString(number);
    if prime {
      assert m[|m| - |PrimeSuffix|..] == PrimeSuffix;
      assert m[..|m| - |PrimeSuffix|] == digits;
    } else {
      assert m[|m| - |PrimeSuffix|] == 'n';
      assert m[|m| - |NotPrimeSuffix|..] == NotPrimeSuffix;
      assert m[..|m| - |NotPrimeSuffix|] == digits;
    }
  }

  /** Only the summary itself reads back to a given number and verdict, so a
      message that reads back is exactly the text the handler prints. */
  lemma ReadVerdictExact(m: string, number: nat, prime: bool)
    requires ReadVerdict(m) == Some((number, prime))
    ensures m == VerdictMessage(number, prime)
  {
    if |m| > |PrimeSuffix| && m[|m| - |PrimeSuffix|..] == PrimeSuffix
       && Decimal.Canonical(m[..|m| - |PrimeSuffix|])
    {
      var p := m[..|m| - |PrimeSuffix|];
      Decimal.CanonicalIsNatToString(p);
      assert m == p + PrimeSuffix;
    } else {
      var p := m[..|m| - |NotPrimeSuffix|];
      Decimal.CanonicalIsNatToString(p);
      assert m == p + NotPrimeSuffix;
    }
  }

  /** The bounds check shared by both handlers: negative numbers are
      rejected first, then numbers above the inclusive bound, and every other
      number gets its verdict. */
  function CheckPrimeNumber(number: int): (r: Response)
    ensures number < 0 <==> r == Failure(InvalidInput, NegativeMessage)
    ensures number > MaxNumber <==> r == Failure(NumberTooLarge, TooLargeMessage)
    ensures r.Success? <==> 0 <= number <= MaxNumber
    ensures r.Success? ==> r.number == number && (r.isPrime <==> Primality.IsPrime(number))
    ensures r.Success? ==> ReadVerdict(r.message) == Some((r.number, r.isPrime))
  {
    if number < 0 then
      Failure(InvalidInput, NegativeMessage)
    else if number > MaxNumber then
      Failure(NumberTooLarge, TooLargeMessage)
    else
      var prime := Primality.IsPrime(number);
      ReadVerdictMessage(number, prime);
      Success(number, prime, VerdictMessage(number, prime))
  }

  /** GET: an absent or empty parameter is reported before any parsing, text
      that does not parse is reported with the text quoted, and only a parsed
      integer reaches the bounds check. */
  function HandleGet(numberParam: Option<string>): (r: Response)
    ensures numberParam == None || numberParam == Some("")
        <==> r == Failure(MissingParameter, MissingMessage)
    ensures r.Failure? && r.kind == InvalidNumberFormat
        <==> numberParam.Some? && numberParam.value != "" && Decimal.ParseInt(numberParam.value).None?
    ensures r.Failure? && r.kind == InvalidNumberFormat
        ==> r.message == "\"" + numberParam.value + "\" is not a valid integer"
    ensures r.Success? || r.kind == InvalidInput || r.kind == NumberTooLarge
        ==> numberParam.Some? && Decimal.ParseInt(numberParam.value).Some?
            && r == CheckPrimeNumber(Decimal.ParseInt(numberParam.value).value)
    ensures numberParam.Some? && numberParam.value != "" && Decimal.ParseInt(numberParam.value).Some?
        ==> r == CheckPrimeNumber(Decimal.ParseInt(numberParam.value).value)
    ensures r.Failure? ==> r.kind != ValidationError && r.kind != InternalError
    ensures r.StatusCode() == if r.Success? then 200 else 400
  {
    match numberParam
    case None => Failure(MissingParameter, MissingMessage)
    case Some(text) =>
      if text == "" then
        Failure(MissingParameter, MissingMessage)
      else
        match Decimal.ParseInt(text)
        case None => Failure(InvalidNumberFormat, "\"" + text + "\" is not a valid integer")
        case Some(number) => CheckPrimeNumber(number)
  }

  /** The serializer's field contract: an integer from 0 to MaxNumber. */
  function Validate(field: BodyField): (r: Option<nat>)
    ensures r.Some? <==> field.Integral? && 0 <= field.value <= MaxNumber
    ensures r.Some? ==> r.value == field.value
  {
    match field
    case Integral(v) => if 0 <= v <= MaxNumber then Some(v) else None
    case _ => None
  }

  /** POST with the serializer imported: a body the serializer rejects is a
      validation error, and a valid number goes through the bounds check,
      which then always succeeds. */
  function HandlePost(field: BodyField): (r: Response)
    ensures r.Failure? ==> r == Failure(ValidationError, ValidationMessage)
    ensures r.Success? <==> field.Integral? && 0 <= field.value <= MaxNumber
    ensures r.Success? ==> r.number == field.value && (r.isPrime <==> Primality.IsPrime(field.value))
  {
    match Validate(field)
    case None => Failure(ValidationError, ValidationMessage)
    case Some(number) => CheckPrimeNumber(number)
  }

  /** POST as written: the serializer's name is unbound when the handler
      runs, so the lookup raises before the body is read and the catch-all
      answers 500, whatever the body. */
  function HandlePostAsWritten(field: BodyField): (r: Response)
    ensures r.Failure? && r.kind == InternalError && r.message == InternalMessage
    ensures r.StatusCode() == 500 && r.kind.Label() == "Internal server error"
  {
    Failure(InternalError, InternalMessage)
  }

  /** The missing import shows on the first prime: POST {"number": 7} is a
      500 as written, and "7 is a prime number" once the import is added. */
  lemma PostAsWrittenFailsOnSeven()
    ensures HandlePostAsWritten(Integral(7)).StatusCode() == 500
    ensures HandlePost(Integral(7)) == Success(7, true, VerdictMessage(7, true))
  {
    assert Primality.IsPrime(7);
  }

  /** As written, POST never agrees with GET: every number GET answers with
      a verdict, POST answers with a 500. */
  lemma GetPostAsWrittenDisagree(n: nat)
    requires n <= MaxNumber
    ensures HandleGet(Some(Decimal.NatToString(n))).Success?
    ensures HandleGet(Some(Decimal.NatToString(n))) != HandlePostAsWritten(Integral(n))
  {
    GetPostAgree(n);
  }

  /** A number in range gets the same answer from GET, given its decimal text,
      as from POST, given it as a body field. */
  lemma GetPostAgree(n: nat)
    requires n <= MaxNumber
    ensures HandleGet(Some(Decimal.NatToString(n))) == HandlePost(Integral(n))
    ensures HandlePost(Integral(n)).Success?
  {
    assert Decimal.Pow10(13) == 10_000_000_000_000;
    Decimal.NatToStringLength(n, 13);
    Decimal.ParseNatToString(n);
  }

  /** A negative number is "Invalid input" on GET but a validation error on
      POST, where the serializer's minimum rejects it first; on GET, text
      longer than the digit cap is an invalid number instead. */
  lemma NegativeAsymmetry(n: nat)
    requires n > 0
    ensures HandleGet(Some("-" + Decimal.NatToString(n)))
         == if |Decimal.NatToString(n)| <= Decimal.MaxStrDigits
            then Failure(InvalidInput, NegativeMessage)
            else Failure(InvalidNumberFormat, "\"" + "-" + Decimal.NatToString(n) + "\" is not a valid integer")
    ensures HandlePost(Integral(-(n as int))) == Failure(ValidationError, ValidationMessage)
  {
    Decimal.ParseNegated(n);
  }

  /** A number above the bound is "Number too large" on GET but a validation
      error on POST; on GET, text longer than the digit cap is an invalid
      number instead. */
  lemma TooLargeAsymmetry(n: nat)
    requires n > MaxNumber
    ensures HandleGet(Some(Decimal.NatToString(n)))
         == if |Decimal.NatToString(n)| <= Decimal.MaxStrDigits
            then Failure(NumberTooLarge, TooLargeMessage)
            else Failure(InvalidNumberFormat, "\"" + Decimal.NatToString(n) + "\" is not a valid integer")
    ensures HandlePost(Integral(n)) == Failure(ValidationError, ValidationMessage)
  {
    Decimal.ParseNatToString(n);
  }

  /** A run of digits longer than the interpreter's cap is reported as an
      invalid number, whatever its value. */
  lemma GetDigitCap(text: string)
    requires Decimal.AllDigits(text) && |text| > Decimal.MaxStrDigits
    ensures HandleGet(Some(text)) == Failure(InvalidNumberFormat, "\"" + text + "\" is not a valid integer")
  {
  }

  /** The bound itself is accepted, and reported as not prime; one more is
      rejected. */
  lemma UpperBoundInclusive()
    ensures CheckPrimeNumber(MaxNumber) == Success(MaxNumber, false, VerdictMessage(MaxNumber, false))
    ensures CheckPrimeNumber(MaxNumber + 1) == Failure(NumberTooLarge, TooLargeMessage)
  {
    assert !Primality.IsPrime(MaxNumber) by {
      assert MaxNumber % 2 == 0;
    }
  }

  /** A missing parameter and a word in place of a number. */
  lemma GetErrorExamples()
    ensures HandleGet(None).kind == MissingParameter
    ensures HandleGet(Some("abc")) == Failure(InvalidNumberFormat, "\"abc\" is not a valid integer")
  {
    Decimal.ParseRejects("abc", 0);
    assert Decimal.ParseInt("abc") == None;
    assert "\"" + "abc" + "\" is not a valid integer" == "\"abc\" is not a valid integer";
  }
}
