/** Values shared by every command of the client: timestamps, the errors the
    commands report, the replies of the remote service, and the decimal,
    boolean and 32-bit conversions the commands apply to numbers. */
module Base {

  datatype Option<T> = None | Some(value: T)

  /** A reply of the remote service: the value it returned, or the text of the
      transport error followed by the body of the response. */
  datatype Response<T> = Success(value: T) | Failure(message: string)

  /** Seconds from the zero instant (January 1, year 1, 00:00:00 UTC) to the
      Unix epoch; the offset Go's time package uses. */
  const UnixToInternal: int := 62135596800

  /** A Go time.Time: seconds and nanoseconds since the zero instant, and an
      opaque location. IsZero and Equal look only at the instant; comparing two
      records field by field also compares the location. */
  datatype Time = Time(sec: int, nsec: int, loc: int) {
    predicate IsZero() {
      sec == 0 && nsec == 0
    }

    predicate Equal(u: Time) {
      sec == u.sec && nsec == u.nsec
    }

    /** Seconds since the Unix epoch. */
    function Unix(): int {
      sec - UnixToInternal
    }
  }

  /** Formatting done by library code that is not modelled: a Time printed as
      YYYY-MM-DD, and a distance printed with two decimals. */
  datatype Formats = Formats(day: Time -> string, twoDecimals: real -> string)

  /** What the file system answers: whether os.Stat reports that a path does
      not exist, and whether os.Open succeeds on it. */
  datatype FileSystem = FileSystem(missing: string -> bool, opens: string -> bool)

  /** Every error the modelled commands report. */
  datatype Error =
    | MissingStart
    | MissingName
    | CantSetPrivate
    | IDNotSet
    | CantModify(field: string)
    | MissingActivityType
    | InvalidActivityType(activityType: string)
    | MissingFileType
    | InvalidFileType(fileType: string)
    | MissingFilename
    | FilenameNotFound(filename: string)
    | OpenFailed(filename: string)
    | RemoteFailed(detail: string)
    | UploadFailed(reason: string)
    | StillProcessing
    | CountMismatch(origCount: nat, updatedCount: nat)
    | IDNotFound(id: int)
    | ListFailed(page: int, perPage: int)

  /** The result of a check or of a command that returns only an error. */
  datatype Outcome = Pass | Fail(error: Error)

  // ---------------------------------------------------------------------
  // Number formatting: strconv.FormatInt(x, 10), %d and strconv.FormatBool.

  predicate IsDigit(c: char) {
    '0' <= c <= '9'
  }

  function DigitChar(d: nat): (c: char)
    requires d < 10
    ensures IsDigit(c) && c as int - '0' as int == d
  {
    "0123456789"[d]
  }

  function DigitValue(c: char): nat
    requires IsDigit(c)
  {
    c as int - '0' as int
  }

  /** The decimal digits of n, most significant first, without leading zeros. */
  function Digits(n: nat): (s: string)
    ensures |s| > 0
    ensures forall k :: 0 <= k < |s| ==> IsDigit(s[k])
    decreases n
  {
    if n < 10 then [DigitChar(n)] else Digits(n / 10) + [DigitChar(n % 10)]
  }

  /** %d of an integer: an optional minus sign and the digits. */
  function Decimal(x: int): (s: string)
    ensures |s| > 0
    ensures x >= 0 <==> IsDigit(s[0])
  {
    if x < 0 then "-" + Digits(-x) else Digits(x)
  }

  function ParseDigits(s: string): nat
    requires forall k :: 0 <= k < |s| ==> IsDigit(s[k])
  {
    if s == [] then 0 else ParseDigits(s[..|s| - 1]) * 10 + DigitValue(s[|s| - 1])
  }

  /** Reads back what Decimal writes. */
  function ParseDecimal(s: string): int
    requires |s| > 0
    requires forall k :: (if s[0] == '-' then 1 else 0) <= k < |s| ==> IsDigit(s[k])
  {
    if s[0] == '-' then 0 - ParseDigits(s[1..]) as int else ParseDigits(s)
  }

  lemma {:induction false} DigitsRoundTrip(n: nat)
    ensures ParseDigits(Digits(n)) == n
    decreases n
  {
    if n >= 10 {
      var s := Digits(n / 10);
      DigitsRoundTrip(n / 10);
      assert (s + [DigitChar(n % 10)])[..|s|] == s;
    }
  }

  /** A minus sign in front of digits negates what they read as. */
  lemma ParseSigned(d: string)
    requires |d| > 0 && forall k :: 0 <= k < |d| ==> IsDigit(d[k])
    ensures var s := "-" + d;
      (forall k :: 1 <= k < |s| ==> IsDigit(s[k])) && ParseDecimal(s) == 0 - ParseDigits(d) as int
  {
    assert ("-" + d)[1..] == d;
  }

  lemma DecimalRoundTrip(x: int)
    ensures var s := Decimal(x);
      (forall k :: (if s[0] == '-' then 1 else 0) <= k < |s| ==> IsDigit(s[k])) &&
      ParseDecimal(s) == x
  {
    if x < 0 {
      DigitsRoundTrip(-x);
      ParseSigned(Digits(-x));
    } else {
      DigitsRoundTrip(x);
    }
  }

  /** Two different integers print differently. */
  lemma DecimalInjective(x: int, y: int)
    requires Decimal(x) == Decimal(y)
    ensures x == y
  {
    DecimalRoundTrip(x);
    DecimalRoundTrip(y);
  }

  function Bool(b: bool): (s: string)
    ensures s == "true" || s == "false"
    ensures b <==> s == "true"
  {
    if b then "true" else "false"
  }

  /** Go's int32(x) conversion: keeps the low 32 bits, read as two's complement. */
  function Int32(x: int): (r: int)
    ensures -0x8000_0000 <= r < 0x8000_0000
    ensures (r - x) % 0x1_0000_0000 == 0
    ensures -0x8000_0000 <= x < 0x8000_0000 ==> r == x
  {
    (x + 0x8000_0000) % 0x1_0000_0000 - 0x8000_0000
  }
}
