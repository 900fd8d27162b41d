/**
 * The telemetry collector's acceptance rule. A send is a GET request whose
 * reply is a status code and a body text; the collector answers "0" when it
 * refuses an update. The network itself is not modelled: each reply is an input.
 */
module Telemetry {

  /** The HTTP status of a successful request. */
  const StatusOk: int := 200

  /** What a send produced: a reply, or a network-level failure (a request exception). */
  datatype Response = Reply(status: int, body: string) | NetworkError

  /** The fields a send carries: field1..field5 for a reading, field6 for a forecast. */
  datatype Payload =
    | Reading(distance: real, infrared: int, total: int, entry: int, exit: int)
    | Prediction(value: real)

  /** One send that was made, and whether the collector accepted it. */
  datatype Delivery = Delivery(payload: Payload, accepted: bool)

  /** The characters Python's `str.isspace` holds true of, which `str.strip()` removes. */
  predicate IsSpace(c: char) {
    c in {' ', '\t', '\n', '\r', '\U{000B}', '\U{000C}', '\U{001C}', '\U{001D}', '\U{001E}', '\U{001F}',
          '\U{0085}', '\U{00A0}', '\U{1680}', '\U{2028}', '\U{2029}', '\U{202F}', '\U{205F}', '\U{3000}'}
    || ('\U{2000}' <= c <= '\U{200A}')
  }

  /** The number of whitespace characters at the front of `s`. */
  function LeadingSpaces(s: string): (n: nat)
    ensures n <= |s|
    ensures forall k :: 0 <= k < n ==> IsSpace(s[k])
    ensures n < |s| ==> !IsSpace(s[n])
  {
    if s == [] || !IsSpace(s[0]) then 0 else 1 + LeadingSpaces(s[1..])
  }

  /** The number of whitespace characters at the back of `s`. */
  function TrailingSpaces(s: string): (n: nat)
    ensures n <= |s|
    ensures forall k :: |s| - n <= k < |s| ==> IsSpace(s[k])
    ensures n < |s| ==> !IsSpace(s[|s| - 1 - n])
  {
    if s == [] || !IsSpace(s[|s| - 1]) then 0 else 1 + TrailingSpaces(s[..|s| - 1])
  }

  /** `r` sits at offset `i` of `s` with nothing but whitespace before and after it. */
  ghost predicate SpacesAround(s: string, i: int, r: string) {
    && 0 <= i && i + |r| <= |s| && r == s[i..i + |r|]
    && (forall k :: 0 <= k < i ==> IsSpace(s[k]))
    && (forall k :: i + |r| <= k < |s| ==> IsSpace(s[k]))
  }

  /**
   * Python's `str.strip()`: the part of `s` left once the leading and trailing
   * whitespace is removed. The result is a slice of `s` with only whitespace
   * around it, and it neither starts nor ends with whitespace.
   */
  function Strip(s: string): (r: string)
    ensures |r| <= |s|
    ensures r != [] ==> !IsSpace(r[0]) && !IsSpace(r[|r| - 1])
    ensures exists i :: SpacesAround(s, i, r)
  {
    var lead := LeadingSpaces(s);
    if lead == |s| then
      assert SpacesAround(s, 0, []);
      []
    else
      var trail := TrailingSpaces(s);
      assert SpacesAround(s, lead, s[lead..|s| - trail]);
      s[lead..|s| - trail]
  }

  /** `s` is a single "0" with nothing but whitespace around it. */
  ghost predicate IsZeroReply(s: string) {
    exists k :: 0 <= k < |s| && s[k] == '0' && forall j :: 0 <= j < |s| && j != k ==> IsSpace(s[j])
  }

  /** Stripping a body gives exactly "0" if and only if the body is a "0" padded with whitespace. */
  lemma StripIsZero(s: string)
    ensures Strip(s) == "0" <==> IsZeroReply(s)
  {
    if Strip(s) == "0" {
      var i :| SpacesAround(s, i, Strip(s));
      assert s[i] == Strip(s)[0];
    }
    if IsZeroReply(s) {
      var k :| 0 <= k < |s| && s[k] == '0' && forall j :: 0 <= j < |s| && j != k ==> IsSpace(s[j]);
      var lead, trail := LeadingSpaces(s), TrailingSpaces(s);
      assert !IsSpace(s[k]);
      assert lead == k;
      assert trail == |s| - 1 - k;
      assert Strip(s) == s[k..k + 1];
    }
  }

  /**
   * The acceptance rule shared by reading and forecast sends: a reply is taken
   * as accepted when its status is 200 and its stripped body is not "0".
   * Stated without `strip`: the body is not a "0" padded with whitespace.
   * A network failure is never accepted.
   */
  function Accepted(r: Response): (ok: bool)
    ensures ok <==> r.Reply? && r.status == 200 && !IsZeroReply(r.body)
  {
    if r.Reply? then
      StripIsZero(r.body);
      r.status == StatusOk && Strip(r.body) != "0"
    else
      false
  }

  /** The rule on a few replies: "1" and an empty body are accepted; "0", a padded "0", any other status and a network error are not. */
  lemma AcceptedExamples(body: string)
    ensures Accepted(Reply(200, "1"))
    ensures Accepted(Reply(200, ""))
    ensures !Accepted(Reply(200, "0"))
    ensures !Accepted(Reply(200, " 0\r\n"))
    ensures !Accepted(Reply(500, body))
    ensures !Accepted(NetworkError)
  {
    assert !IsZeroReply("1") by {
      assert "1"[0] != '0';
    }
    assert IsZeroReply("0") by {
      assert "0"[0] == '0';
    }
    assert IsZeroReply(" 0\r\n") by {
      var z := " 0\r\n";
      assert z[1] == '0' && IsSpace(z[0]) && IsSpace(z[2]) && IsSpace(z[3]);
    }
  }
}
