/** Results, exception messages and `Stirlitz::printGcryptError`. */
module Errors {
  import opened Filtering

  /** A value or the error a call reports: the message of a `std::runtime_error`
    * for the engine, a `gcry_error_t` code for a libgcrypt call. */
  datatype Result<+T, +E> = Ok(value: T) | Err(error: E) {
    predicate IsFailure() { Err? }
    function PropagateFailure<U>(): Result<U, E>
      requires Err?
    {
      Err(error)
    }
    function Extract(): T
      requires Ok?
    {
      value
    }
  }

  /** A `void` operation: it returns, or it throws with a message. */
  datatype Outcome = Pass | Fail(message: string)

  function DigitChar(d: nat): (c: char)
    requires d < 10
  {
    ('0' as int + d) as char
  }

  /** What `std::stringstream << n` writes for an unsigned integer in the "C" locale. */
  function DecimalString(n: nat): (s: string)
    ensures |s| >= 1
    ensures forall i :: 0 <= i < |s| ==> '0' <= s[i] <= '9'
    decreases n
  {
    if n < 10 then [DigitChar(n)] else DecimalString(n / 10) + [DigitChar(n % 10)]
  }

  /** The value of a string of decimal digits. */
  function DecimalValue(s: string): nat
    requires forall i :: 0 <= i < |s| ==> '0' <= s[i] <= '9'
  {
    if s == [] then 0 else 10 * DecimalValue(s[..|s| - 1]) + (s[|s| - 1] as int - '0' as int)
  }

  lemma {:induction false} DecimalRoundTrip(n: nat)
    ensures DecimalValue(DecimalString(n)) == n
    decreases n
  {
    var s := DecimalString(n);
    if n >= 10 {
      DecimalRoundTrip(n / 10);
      assert s[..|s| - 1] == DecimalString(n / 10);
    }
  }

  /** A leading digit is never '0' unless the number is zero itself. */
  lemma {:induction false} DecimalNoLeadingZero(n: nat)
    ensures DecimalString(n)[0] == '0' <==> n == 0
    decreases n
  {
    if n >= 10 {
      DecimalNoLeadingZero(n / 10);
    }
  }

  predicate IsNul(c: char) { c == 0 as char }
  predicate NotNul(c: char) { c != 0 as char }

  /**
    * `printGcryptError(err, prefix)`: it never returns; the value here is the
    * message of the exception it throws. `buffer` is what `gpg_strerror_r`
    * left in the 1024-character buffer; its NUL characters are removed, and the
    * description is appended in parentheses only when something remains.
    */
  function GcryptErrorMessage(err: nat, prefix: string, buffer: string): (msg: string)
    ensures |msg| > |prefix| + 1 && msg[..|prefix| + 1] == prefix + " "
    ensures var code := DecimalString(err);
              |msg| >= |prefix| + 1 + |code| && msg[|prefix| + 1..|prefix| + 1 + |code|] == code
    ensures (exists i :: 0 <= i < |buffer| && NotNul(buffer[i])) <==> msg[|msg| - 1] == ')'
    ensures (forall i :: 0 <= i < |buffer| ==> IsNul(buffer[i])) ==>
              |msg| == |prefix| + 1 + |DecimalString(err)|
    ensures (exists i :: 0 <= i < |buffer| && NotNul(buffer[i])) ==>
              msg == prefix + " " + DecimalString(err) + " (" + Filter(buffer, NotNul) + ")"
    ensures (forall i :: 0 <= i < |buffer| ==> IsNul(buffer[i])) ==>
              msg == prefix + " " + DecimalString(err)
  {
    var desc := Filter(buffer, NotNul);
    var code := DecimalString(err);
    NonNulSurvives(buffer);
    if desc != [] then prefix + " " + code + " (" + desc + ")" else prefix + " " + code
  }

  /** The description filter drops a buffer's content only when it is all NULs. */
  lemma NonNulSurvives(buffer: string)
    ensures Filter(buffer, NotNul) != [] <==> exists i :: 0 <= i < |buffer| && NotNul(buffer[i])
  {
    if exists i :: 0 <= i < |buffer| && NotNul(buffer[i]) {
      var i :| 0 <= i < |buffer| && NotNul(buffer[i]);
      FilterMembership(buffer, NotNul, buffer[i]);
    } else if Filter(buffer, NotNul) != [] {
      var f := Filter(buffer, NotNul);
      FilterMembership(buffer, NotNul, f[0]);
    }
  }

  /** The description, when present, carries no NUL character. */
  lemma GcryptErrorMessageHasNoNul(err: nat, prefix: string, buffer: string)
    requires forall i :: 0 <= i < |prefix| ==> NotNul(prefix[i])
    ensures forall i :: 0 <= i < |GcryptErrorMessage(err, prefix, buffer)| ==>
              NotNul(GcryptErrorMessage(err, prefix, buffer)[i])
  {
    var code := DecimalString(err);
    var msg := GcryptErrorMessage(err, prefix, buffer);
  }
}
