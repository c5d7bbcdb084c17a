/** Results of Java calls: a value that may be absent (Java's null) and a call
    that either returns or throws one of the runtime exceptions the modelled
    code can raise. */
module Outcomes {

  /** A reference that may be null. */
  datatype Option<+T> = None | Some(value: T)

  /** The unchecked exceptions that the modelled code can raise. */
  datatype Exception = NullPointerException | StringIndexOutOfBoundsException

  /** The outcome of a Java call: the value it returns, or the exception it throws. */
  datatype Answer<+T> = Returns(value: T) | Throws(exception: Exception)

  /** Java's `!` applied to the result of a call: an exception passes through. */
  function Not(a: Answer<bool>): Answer<bool>
  {
    match a
    case Returns(b) => Returns(!b)
    case Throws(x) => Throws(x)
  }

  /** `s.substring(n)` on a non-null string: the suffix from index `n`, or
      StringIndexOutOfBoundsException when `n` is past the end. */
  function Substring(s: string, n: nat): (r: Answer<string>)
    ensures r.Returns? <==> n <= |s|
    ensures r.Returns? ==> s == s[..n] + r.value
  {
    if n <= |s| then Returns(s[n..]) else Throws(StringIndexOutOfBoundsException)
  }

  /** `s.substring(n)` on a reference that may be null. */
  function SubstringOf(s: Option<string>, n: nat): Answer<string>
  {
    match s
    case None => Throws(NullPointerException)
    case Some(t) => Substring(t, n)
  }
}
