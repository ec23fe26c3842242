/**
 * The state notifier: the vector is encoded as four query parameters
 * t, i, m, r appended to a fixed base address, and one GET request is
 * issued. Whatever the request returns or raises is only logged.
 */
module Notifier {
  import opened Wrappers
  import opened Gestures

  /** The statically configured base address of the LED controller. */
  const EspIp: string := "http://10.1.47.20"

  /** Length of "/?t=a&i=b&m=c&r=d". */
  const QueryLength := 17

  /** How an integer 0 or 1 is printed. */
  function DigitChar(b: Bit): (c: char)
    ensures c == '0' || c == '1'
    ensures c == '1' <==> b == 1
  {
    if b == 0 then '0' else '1'
  }

  /** The request address for a vector: the base address, then the parameters
      in the order t (thumb), i (index), m (middle), r (ring). */
  function QueryUrl(s: FingerStates): (url: string)
    ensures |url| == |EspIp| + QueryLength
    ensures url[..|EspIp|] == EspIp
  {
    EspIp + "/?t=" + [DigitChar(s[0])] + "&i=" + [DigitChar(s[1])]
          + "&m=" + [DigitChar(s[2])] + "&r=" + [DigitChar(s[3])]
  }

  /** Reads a printed 0 or 1 back. */
  function DigitValue(c: char): Option<Bit> {
    if c == '0' then Some(0) else if c == '1' then Some(1) else None
  }

  /** The reference reading of a request address: exactly the base address
      followed by t, i, m and r in this order, each 0 or 1. */
  function ParseQuery(url: string): Option<FingerStates> {
    var n := |EspIp|;
    if |url| != n + QueryLength || url[..n] != EspIp
       || url[n..n + 4] != "/?t=" || url[n + 5..n + 8] != "&i="
       || url[n + 9..n + 12] != "&m=" || url[n + 13..n + 16] != "&r="
    then None
    else
      match (DigitValue(url[n + 4]), DigitValue(url[n + 8]), DigitValue(url[n + 12]), DigitValue(url[n + 16]))
      case (Some(t), Some(i), Some(m), Some(r)) => Some([t, i, m, r])
      case _ => None
  }

  /** The reference reading recovers the vector from the address. */
  lemma ParseQueryUrl(s: FingerStates)
    ensures ParseQuery(QueryUrl(s)) == Some(s)
  {
    var url, n := QueryUrl(s), |EspIp|;
    assert url[n..n + 4] == "/?t=";
    assert url[n + 5..n + 8] == "&i=";
    assert url[n + 9..n + 12] == "&m=";
    assert url[n + 13..n + 16] == "&r=";
    assert url[n + 4] == DigitChar(s[0]) && url[n + 8] == DigitChar(s[1]);
    assert url[n + 12] == DigitChar(s[2]) && url[n + 16] == DigitChar(s[3]);
    assert forall b: Bit :: DigitValue(DigitChar(b)) == Some(b);
    assert [s[0], s[1], s[2], s[3]] == s;
  }

  /** ...and accepts nothing but such addresses. */
  lemma ParsedQueryIsUrl(url: string, s: FingerStates)
    requires ParseQuery(url) == Some(s)
    ensures url == QueryUrl(s)
  {
    var u, n := QueryUrl(s), |EspIp|;
    assert |u| == |url|;
    forall k | 0 <= k < |url| ensures url[k] == u[k] {
      if k < n {
        assert url[k] == url[..n][k] && u[k] == u[..n][k];
      } else if k < n + 4 {
        assert url[k] == url[n..n + 4][k - n];
      } else if n + 4 < k < n + 8 {
        assert url[k] == url[n + 5..n + 8][k - n - 5];
      } else if n + 8 < k < n + 12 {
        assert url[k] == url[n + 9..n + 12][k - n - 9];
      } else if n + 12 < k < n + 16 {
        assert url[k] == url[n + 13..n + 16][k - n - 13];
      }
    }
  }

  /** Distinct vectors give distinct addresses. */
  lemma QueryUrlInjective(a: FingerStates, b: FingerStates)
    ensures QueryUrl(a) == QueryUrl(b) <==> a == b
  {
    ParseQueryUrl(a);
    ParseQueryUrl(b);
  }

  /** What the GET request produced: a response with a status code, or a
      request exception (timeout, refused connection, unresolved host, ...).
      A non-2xx status is a response, not an exception. */
  datatype Reply = Status(code: int) | RequestFailed

  /** What one notification logs: the address it sent to and what came back. */
  datatype Notice = Notice(url: string, reply: Reply)

  /** Sending never raises to its caller: every reply, the failure included,
      ends in a logged notice for the vector's address. */
  function SendLedStates(s: FingerStates, reply: Reply): (n: Notice)
    ensures ParseQuery(n.url) == Some(s)
    ensures n.reply == reply
  {
    ParseQueryUrl(s);
    Notice(QueryUrl(s), reply)
  }
}
