# Prime-check endpoint, modelled in Dafny

The repository is a small web service that answers one question: is the
`number` it is given prime? There are two ways to ask. A GET request passes
the number as a query-string parameter. A POST request passes it as a body
field that a serializer is meant to check first. Both routes are meant to end
in one shared bounds check. That check rejects negative numbers and numbers above 10^12. It passes
every other number to a trial-division test and returns a record holding
`number`, `is_prime` and a summary `message`. As written, the POST handler
never gets that far: it names a serializer class that its module does not
import, so every POST ends in the 500 catch-all (see "## Findings").

The model has four modules:

- `Primality` (`primality.dfy`) covers the trial-division test `is_prime`.
  - `IsPrimeTrial` is an imperative method. Like the source, it uses early
    returns and a loop over the odd candidates 3, 5, … up to the integer
    square root.
  - It is proved equal to `IsPrime`, the definition of a prime: `n >= 2`
    and no `d` in `[2, n-1]` divides `n`.
  - The proof rests on `DivisorBelowRoot`: a composite number has a divisor
    no larger than its integer square root.
- `Decimal` (`decimal.dfy`) covers two conversions.
  - The decimal formatting used in the verdict message.
  - The parsing of the query parameter.
- `PrimeCheck` (`views.dfy`) covers the decision logic of
  `PrimeCheckAPIView`: the `get` and `post` handlers and
  `_check_prime_number`. They are written as pure functions that return a
  `Response`, which is either a `Success` record (status 200) or a `Failure`
  carrying one of the five 400 error categories or the 500 internal error.
  POST appears twice: `HandlePostAsWritten` as the code stands, and
  `HandlePost` with the missing import added.
- `Wrappers` (`wrappers.dfy`) holds the `Option` type.

For the corrected POST, the body is modelled by its `number` field as the
serializer sees it:

- absent;
- a value the serializer accepts as an integer;
- a value it does not accept.

The serializer's field contract is "an integer from 0 to 10^12".

Two points where the model follows the code rather than its wording:

- The too-large message says "less than 10^12", but the code rejects only
  numbers *above* 10^12. So 10^12 itself is accepted and reported as not
  prime (`UpperBoundInclusive`).
- Once the import is added, a negative number is reported differently on
  the two routes. GET reports "Invalid input" and POST reports a validation
  error, because the serializer's minimum rejects it before the shared check
  runs (`NegativeAsymmetry`). Numbers above the bound show the same split
  (`TooLargeAsymmetry`). The model keeps both paths distinct.

## Model

| member | source | states |
|---|---|---|
| `Primality.IsPrimeTrial` | primenum/base1/views.py:9-22 | the trial-division test returns true exactly when `n` is prime: `n >= 2` and no `d` in `[2, n-1]` divides `n`; its loop tries only odd candidates from 3 to the integer square root, and no candidate already tried divides `n` |
| `Primality.PrimeIffNoDivisorUpToRoot` | primenum/base1/views.py:18-22 | for every integer `n`, `n` is prime iff `n >= 2` and nothing in `[2, isqrt(n)]` divides it, in both directions, so stopping at the square root is sound |
| `Primality.DivisorBelowRoot` | primenum/base1/views.py:19-21 | a number `n >= 2` with a divisor in `[2, n-1]` also has a divisor in `[2, isqrt(n)]` (the divisor or its partner `n / d`) |
| `Primality.Cofactor` | primenum/base1/views.py:19-21 | the partner `n / d` of a divisor `d` in `[2, n-1]` is itself a divisor in `[2, n-1]`, and it is at most the integer square root whenever `d` is above it |
| `Primality.Isqrt` | primenum/base1/views.py:19 | the loop bound `int(math.sqrt(n))` is the largest `r` with `r*r <= n` |
| `Primality.EvenAndSmallCases` | primenum/base1/views.py:11-16 | nothing below 2 is prime, 2 is prime, and no other even number is prime |
| `Primality.NoDivisorStep` | primenum/base1/views.py:19-21 | one loop step: if the odd candidate `i` does not divide the odd `n`, then nothing below `i + 2` divides it, since no even number divides an odd one |
| `Decimal.NatToString` | primenum/base1/views.py:97 | the number printed in the verdict message is a non-empty run of digits with no leading zero (0 prints as the single digit `0`) |
| `Decimal.CanonicalIsNatToString` | primenum/base1/views.py:97 | every digit run without leading zeros is exactly how its value prints, so the printed form is the only such text for a number |
| `Decimal.NatToStringLength` | primenum/base1/views.py:97 | a number below 10^k (k >= 1) prints with at most k digits, so every accepted number fits the digit cap |
| `Decimal.ParseInt` | primenum/base1/views.py:39-45 | the reading of `int(number_str)`: the empty text never parses; a negative result needs a leading `-`; a run of digits parses exactly when it has at most 4300 digits, the interpreter's default cap, and no longer text parses. `ParseDigitRun`, `ParseLeadingZero`, `ParseNatToString`, `ParseNegated`, `ParseRejects` and `ParseSignOnly` state its values |
| `Decimal.ParseDigitRun` | primenum/base1/views.py:40 | every run of at most 4300 digits parses to its value, leading zeros included; behind `+` it parses to the same value, and behind `-` to its negation |
| `Decimal.ParseLeadingZero` | primenum/base1/views.py:40 | one more leading zero does not change what a digit run parses to, while the padded run stays within the 4300-digit cap (`int("007") == int("7")`) |
| `Decimal.LeadingZero` | primenum/base1/views.py:40 | a leading zero does not change the value of a digit run |
| `Decimal.DigitsOfNatToString` | primenum/base1/views.py:97 | reading the printed digits gives the number back |
| `Decimal.NatToStringInjective` | primenum/base1/views.py:97 | distinct numbers print as distinct texts |
| `Decimal.ParseNatToString` | primenum/base1/views.py:40 | parsing the decimal text of a non-negative number yields that number when it has at most 4300 digits, and fails otherwise |
| `Decimal.ParseNegated` | primenum/base1/views.py:40 | parsing `-` followed by the decimal text of `n` yields `-n` under the same digit cap, and fails otherwise |
| `Decimal.ParseRejects` | primenum/base1/views.py:39-45 | a text with a character that is not a digit and not a leading sign does not parse |
| `Decimal.ParseSignOnly` | primenum/base1/views.py:39-45 | a lone `+` or `-` does not parse, so GET answers it with "Invalid number format" |
| `PrimeCheck.VerdictMessage` | primenum/base1/views.py:97 | the summary ends in " is a prime number" exactly when the verdict is prime, and in " is not a prime number" when it is not |
| `PrimeCheck.ReadVerdictExact` | primenum/base1/views.py:94-98 | a message that reads back to a number and verdict is exactly the summary printed for them, so `CheckPrimeNumber`'s message clause fixes the message text |
| `PrimeCheck.ReadVerdictMessage` | primenum/base1/views.py:94-98 | the success message `"<number> is a prime number"` / `"<number> is not a prime number"` can be read back into exactly the number and the verdict it was built from |
| `PrimeCheck.CheckPrimeNumber` | primenum/base1/views.py:76-100 | negative numbers, and only they, get "Invalid input"; numbers above 10^12, and only they, get "Number too large"; every number in `[0, 10^12]` succeeds, echoing the number with `is_prime` equal to its primality and a message that reports that number and verdict |
| `PrimeCheck.HandleGet` | primenum/base1/views.py:27-47 | an absent or empty parameter, and only that, gives "Missing parameter" before any parsing; a non-empty text that does not parse, and only that, gives "Invalid number format" with the text quoted; a non-empty text that parses is answered by the bounds check on the parsed integer, and the success, "Invalid input" and "Number too large" answers come only from there; GET never answers "Validation error" or 500, and its status is 200 on success and 400 otherwise |
| `PrimeCheck.GetDigitCap` | primenum/base1/views.py:39-45 | a run of more than 4300 digits is "Invalid number format" on GET, whatever its value |
| `PrimeCheck.Validate` | primenum/base1/serializers.py:4-8 | the serializer accepts the field exactly when it is an integer in `[0, 10^12]`, and passes its value through unchanged |
| `PrimeCheck.HandlePost` | primenum/base1/views.py:55-68 | POST with the serializer imported (the corrected handler): every failure is the "Validation error" answer; a POST succeeds exactly when the field is an integer in `[0, 10^12]`, and then it echoes that number with its primality |
| `PrimeCheck.HandlePostAsWritten` | primenum/base1/views.py:55-74 | POST as written: the unimported serializer name raises, and the catch-all answers status 500, "Internal server error" / "An unexpected error occurred", whatever the body |
| `PrimeCheck.PostAsWrittenFailsOnSeven` | primenum/base1/views.py:58 | POST `{"number": 7}` is a 500 as written, and `7 is a prime number` with the import added |
| `PrimeCheck.GetPostAsWrittenDisagree` | primenum/base1/views.py:27-74 | as written, for every number in `[0, 10^12]` GET answers with a verdict and POST does not give the same answer |
| `PrimeCheck.GetPostAgree` | primenum/base1/views.py:27-68 | with the import added, for every number in `[0, 10^12]`, GET with its decimal text and POST with it as the body field give the same successful answer |
| `PrimeCheck.NegativeAsymmetry` | primenum/base1/views.py:58-82 | a negative number is "Invalid input" on GET (or "Invalid number format" when its text exceeds the digit cap), but a validation error on the corrected POST |
| `PrimeCheck.TooLargeAsymmetry` | primenum/base1/views.py:58-88 | a number above 10^12 is "Number too large" on GET (or "Invalid number format" when its text exceeds the digit cap), but a validation error on the corrected POST |
| `PrimeCheck.UpperBoundInclusive` | primenum/base1/views.py:84-100 | 10^12 itself is accepted and reported as not prime; 10^12 + 1 is "Number too large" |
| `PrimeCheck.GetErrorExamples` | primenum/base1/views.py:32-45 | GET without the parameter is "Missing parameter"; GET with `abc` is "Invalid number format" with message `"abc" is not a valid integer` |

## Left out

- The web framework is not modelled: `APIView`, `Response` objects, `request.query_params`, `request.data` and the status constants. A response is a plain datatype, and its status is 200, 400 or 500.
- The `except Exception` handler of `get` (primenum/base1/views.py:49-53) is left out. No modelled GET branch raises, so it cannot be reached in the model. The handler of `post` (primenum/base1/views.py:70-74) is what every POST reaches as written, and `HandlePostAsWritten` models it.
- HandlePost: models `post` with `PrimeCheckSerializer` imported, not as written; as written every POST is a 500 (see "## Findings").
- GetPostAgree: holds of the corrected POST only; as written no POST agrees with GET (`GetPostAsWrittenDisagree`).
- NegativeAsymmetry: its POST half holds of the corrected POST only; as written a negative body answers 500.
- TooLargeAsymmetry: its POST half holds of the corrected POST only; as written a too-large body answers 500.
- `CachedPrimeCheckAPIView` and its `cache_page` decorator (primenum/base1/views.py:104-107) are framework caching with no logic of their own. The handlers are pure functions of their input, which is what the cache relies on.
- Primality.Isqrt: replaces the floating-point `int(math.sqrt(n))` with the exact integer square root. The two agree for every number the handlers pass in, up to 10^12. Floating-point rounding for larger arguments is not modelled.
- Decimal.ParseInt: models Python's `int(str)` only as an optional `+`/`-` followed by ASCII decimal digits. Surrounding whitespace, `_` digit separators and non-ASCII digits, all of which `int` also accepts, are left out. Those texts are treated as "Invalid number format".
- Decimal.ParseInt: fixes the digit cap at the interpreter's default of 4300 digits. The cap can be changed at run time (`sys.set_int_max_str_digits`, `PYTHONINTMAXSTRDIGITS`), and interpreters older than 3.11, 3.10.7, 3.9.14 and 3.8.14 have no cap. On those, a longer run of digits is read as its value and goes to the bounds check instead of being "Invalid number format".
- PrimeCheck.Validate: models the serializer only by its outcome. The `details` of a validation error, the serializer's coercion of other JSON values to integers, and the rest of the serializer machinery are left out.
- `PrimeResponseSerializer` (primenum/base1/serializers.py:10-13) is a declarative output schema. Its three fields are the fields of `Success`.
- PrimeCheck.CheckPrimeNumber: states the verdict with the `IsPrime` definition, because a function cannot call a method. `Primality.IsPrimeTrial` is proved to return exactly that value.

## Findings

| source | as written | input that shows it | evidently intended | confidence | as-written member | corrected member |
|---|---|---|---|---|---|---|
| primenum/base1/views.py:58 | `post` calls `PrimeCheckSerializer`, but the module's imports (lines 1-7) never bring that name in, so the call raises `NameError` and the catch-all at lines 70-74 answers 500 "Internal server error" | POST `{"number": 7}`: 500 instead of 200 "7 is a prime number" | `from .serializers import PrimeCheckSerializer`, so the body is validated against serializers.py:4-8 and a valid number reaches the bounds check | not executed; read from the import list | `PrimeCheck.HandlePostAsWritten`, `PrimeCheck.PostAsWrittenFailsOnSeven`, `PrimeCheck.GetPostAsWrittenDisagree` | `PrimeCheck.HandlePost`, `PrimeCheck.GetPostAgree` |
