/**
 * The mechanism responses of sasl_step_complete: PLAIN (RFC 4616) and
 * EXTERNAL (RFC 4422 Appendix A).
 */
module Mechanism {
  import opened Wrappers
  import opened Base64

  /** The configured mechanism, fixed for the connection. */
  datatype Kind = Plain | External

  /** A C string: a byte string without NUL. */
  type CString = s: seq<Byte> | forall i :: 0 <= i < |s| ==> s[i] != 0 witness []

  /** The argument of the first AUTHENTICATE command, naming the mechanism. */
  function MechanismName(kind: Kind): string {
    match kind
    case Plain => "PLAIN"
    case External => "EXTERNAL"
  }

  /** The PLAIN message `authzid NUL authcid NUL passwd` with authzid set to the username. */
  function PlainResponse(username: CString, password: CString): (msg: seq<Byte>)
    ensures |msg| == 2 * |username| + |password| + 2
    ensures SplitPlain(msg) == Some(PlainFields(username, username, password))
  {
    var msg := username + [0] + username + [0] + password;
    PlainSplits(username, password);
    msg
  }

  /** The response of a mechanism; EXTERNAL has the empty (NULL) response. */
  function Response(kind: Kind, username: CString, password: CString): Option<seq<Byte>> {
    match kind
    case Plain => Some(PlainResponse(username, password))
    case External => None
  }

  /** The three fields of a PLAIN message. */
  datatype PlainFields = PlainFields(authzid: seq<Byte>, authcid: seq<Byte>, passwd: seq<Byte>)

  /** Index of the first NUL, or the length when there is none. */
  function FirstNul(s: seq<Byte>): (i: nat)
    ensures i <= |s|
    ensures i < |s| ==> s[i] == 0
    ensures forall k :: 0 <= k < i ==> s[k] != 0
    decreases |s|
  {
    if s == [] then 0 else if s[0] == 0 then 0 else 1 + FirstNul(s[1..])
  }

  lemma FirstNulAfter(a: CString, b: seq<Byte>)
    ensures FirstNul(a + [0] + b) == |a|
  {
    var s := a + [0] + b;
    assert s[|a|] == 0;
    assert forall k :: 0 <= k < |a| ==> s[k] == a[k];
  }

  /** The fields of a PLAIN message built from C strings are recovered by the server. */
  lemma PlainSplits(username: CString, password: CString)
    ensures SplitPlain(username + [0] + username + [0] + password) == Some(PlainFields(username, username, password))
  {
    var rest := username + [0] + password;
    var msg := username + [0] + rest;
    assert msg == username + [0] + username + [0] + password;
    FirstNulAfter(username, rest);
    assert msg[..|username|] == username;
    assert msg[|username| + 1..] == rest;
    FirstNulAfter(username, password);
    assert rest[..|username|] == username;
    assert rest[|username| + 1..] == password;
    assert FirstNul(password) == |password|;
  }

  /**
   * How a server reads a PLAIN message (section 2 of RFC 4616): the text
   * before the first NUL, the text between the first and second NUL, and the
   * rest, which must hold no NUL.
   */
  function SplitPlain(msg: seq<Byte>): Option<PlainFields> {
    var i := FirstNul(msg);
    if i == |msg| then None
    else
      var rest := msg[i + 1..];
      var j := FirstNul(rest);
      if j == |rest| then None
      else
        var passwd := rest[j + 1..];
        if FirstNul(passwd) != |passwd| then None
        else Some(PlainFields(msg[..i], rest[..j], passwd))
  }
}
