/** The renewal decision: a certificate is reissued when there is none to read, or once the
    clock has passed its expiry minus the renewal window. Time is counted in whole seconds. */
module Renewal {

  const SecondsPerDay: int := 86400

  /** What reading the cached certificate file gives: no file, no PEM block, a block that is
      not a certificate, or a certificate with its expiry instant. */
  datatype CertFile = Missing | NoPemBlock | Unparsable | Certificate(notAfter: int)

  /** True when the certificate must be (re)issued; the source's error result is always nil. */
  function IsDueForRenew(cert: CertFile, now: int, days: int): (due: bool)
    ensures !cert.Certificate? ==> due
  {
    match cert
    case Missing => true
    case NoPemBlock => true
    case Unparsable => true
    case Certificate(notAfter) =>
      var renewAt := notAfter - days * SecondsPerDay;
      now > renewAt
  }

  /** A certificate that expires exactly `n` days from now is due iff `n` is strictly less than
      the window: on the boundary day it is not yet due. */
  lemma DueIffWithinWindow(now: int, n: int, days: int)
    ensures IsDueForRenew(Certificate(now + n * SecondsPerDay), now, days) <==> n < days
  {
    calc <==> {
      IsDueForRenew(Certificate(now + n * SecondsPerDay), now, days);
      now > now + n * SecondsPerDay - days * SecondsPerDay;
      (days - n) * SecondsPerDay > 0;
      { assert SecondsPerDay > 0; }
      n < days;
    }
  }

  /** Once due, a certificate stays due as the clock advances. */
  lemma DueIsMonotoneInTime(cert: CertFile, now: int, later: int, days: int)
    requires now <= later
    requires IsDueForRenew(cert, now, days)
    ensures IsDueForRenew(cert, later, days)
  {
  }

  /** A wider window makes a certificate due no later. */
  lemma DueIsMonotoneInWindow(cert: CertFile, now: int, days: int, wider: int)
    requires days <= wider
    requires IsDueForRenew(cert, now, days)
    ensures IsDueForRenew(cert, now, wider)
  {
    if cert.Certificate? {
      assert days * SecondsPerDay <= wider * SecondsPerDay;
    }
  }

  /** A certificate that has already expired is always due, for any window that is not negative. */
  lemma ExpiredIsDue(notAfter: int, now: int, days: int)
    requires notAfter < now && days >= 0
    ensures IsDueForRenew(Certificate(notAfter), now, days)
  {
    assert days * SecondsPerDay >= 0;
  }
}
