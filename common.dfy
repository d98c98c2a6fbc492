/** Shared vocabulary: optional values, results carrying an error, and Java's
    decimal rendering of integers (`"..." + id`, `"..." + otp`). */
module Common {

  datatype Option<+T> = None | Some(value: T)

  /** A Java method that returns normally (`Success`) or throws (`Failure`). */
  datatype Result<+T, +E> = Success(value: T) | Failure(error: E)

  /** `ResponseEntity`: an HTTP status and a body. */
  datatype Response<+T> = Response(status: int, body: T)

  const Ok: int := 200
  const Created: int := 201
  const ExpectationFailed: int := 417

  /** The exceptions the modelled code throws or lets through, with the
      message text the code gives them. */
  datatype Error =
    | FileAlreadyExists(path: string)   // java.nio.file.FileAlreadyExistsException from Files.copy
    | NoSuchFile(path: string)          // java.nio.file.NoSuchFileException: no directory to copy into
    | FileNotFound(path: string)        // java.io.FileNotFoundException from FileInputStream
    | FileExists(message: string)       // FileExistsException, the add-path pre-check
    | EmptyFile(message: string)        // EmptyFileException
    | MovieNotFound(message: string)    // MovieNotFoundException
    | ConstraintViolation               // the store refused a row that breaks the entity constraints
    | IllegalArgument(message: string)  // PageRequest.of / Sort.by argument checks
    | PropertyReference(property: string) // sorting by a property Movie does not have
    | UsernameNotFound(message: string) // UsernameNotFoundException
    | InvalidOtp(message: string)       // RuntimeException("OTP không hợp lệ ")
    | IncorrectResultSize               // a single-result query that matched several records

  predicate IsDigit(c: char) {
    '0' <= c <= '9'
  }

  function DigitChar(d: nat): (c: char)
    requires d < 10
    ensures IsDigit(c) && DigitValue(c) == d
  {
    ('0' as int + d) as char
  }

  function DigitValue(c: char): nat
    requires IsDigit(c)
  {
    c as int - '0' as int
  }

  predicate AllDigits(s: string) {
    forall i :: 0 <= i < |s| ==> IsDigit(s[i])
  }

  /** The decimal digits of `n`, most significant first, without leading zeros. */
  function NatToString(n: nat): (s: string)
    ensures |s| > 0 && AllDigits(s)
    ensures s[0] == '0' ==> n == 0
    decreases n
  {
    if n < 10 then [DigitChar(n)] else NatToString(n / 10) + [DigitChar(n % 10)]
  }

  /** `Integer.toString(n)`, which is what Java's string concatenation uses. */
  function IntToString(n: int): (s: string)
    ensures |s| > 0
    ensures n < 0 <==> s[0] == '-'
    ensures n >= 0 ==> AllDigits(s)
  {
    if n < 0 then "-" + NatToString(-n) else NatToString(n)
  }

  /** Reads a run of decimal digits back as a number. */
  function ParseNat(s: string): nat
    requires AllDigits(s)
  {
    if |s| == 0 then 0 else 10 * ParseNat(s[..|s| - 1]) + DigitValue(s[|s| - 1])
  }

  function ParseInt(s: string): (n: int)
    requires |s| > 0
    requires s[0] == '-' ==> AllDigits(s[1..])
    requires s[0] != '-' ==> AllDigits(s)
  {
    if s[0] == '-' then -(ParseNat(s[1..]) as int) else ParseNat(s)
  }

  lemma {:induction false} ParseNatToString(n: nat)
    ensures ParseNat(NatToString(n)) == n
    decreases n
  {
    var s := NatToString(n);
    if n >= 10 {
      ParseNatToString(n / 10);
      assert s[..|s| - 1] == NatToString(n / 10);
    }
  }

  /** Decimal rendering loses nothing: the number can be read back. */
  lemma IntToStringRoundTrip(n: int)
    ensures var s := IntToString(n);
            (s[0] == '-' ==> AllDigits(s[1..])) && (s[0] != '-' ==> AllDigits(s)) &&
            ParseInt(s) == n
  {
    if n < 0 {
      ParseNatToString(-n);
      assert IntToString(n)[1..] == NatToString(-n);
    } else {
      ParseNatToString(n);
    }
  }

  /** Two different numbers never render to the same text. */
  lemma IntToStringInjective(a: int, b: int)
    requires IntToString(a) == IntToString(b)
    ensures a == b
  {
    IntToStringRoundTrip(a);
    IntToStringRoundTrip(b);
  }
}
