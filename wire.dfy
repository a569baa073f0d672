/**
 * Wire-level constants and commands of the IRCv3 SASL 3.1 extension as the
 * client uses them: every command it sends is `AUTHENTICATE <arg>`.
 */
module Wire {
  /** Largest argument of one AUTHENTICATE line (AUTHENTICATE_CHUNK_SIZE). */
  const ChunkSize: nat := 400

  /** Largest accumulated, still-encoded payload accepted from the server (AUTHENTICATE_MAX_SIZE). */
  const MaxSize: nat := 8192

  /**
   * A byte string as it arrives on the wire, one char per byte. The lengths
   * the engine compares with ChunkSize and MaxSize are byte counts (strlen and
   * the GString length), so a char stands for one byte, never for a wider
   * code point. A C string ends at its first NUL, so no char is 0.
   */
  type Octets = s: string | forall i :: 0 <= i < |s| ==> 0 < s[i] as int < 256

  /** One outgoing IRC command; the only command this engine sends is AUTHENTICATE. */
  datatype Command = Authenticate(arg: string)

  /** One AUTHENTICATE command per argument, in order. */
  function Authenticates(args: seq<string>): seq<Command>
    decreases |args|
  {
    if args == [] then [] else [Authenticate(args[0])] + Authenticates(args[1..])
  }

  /** Sending two runs of arguments sends their commands one run after the other. */
  lemma {:induction false} AuthenticatesAppend(a: seq<string>, b: seq<string>)
    ensures Authenticates(a + b) == Authenticates(a) + Authenticates(b)
    decreases |a|
  {
    if a != [] {
      assert (a + b)[1..] == a[1..] + b;
      AuthenticatesAppend(a[1..], b);
    } else {
      assert a + b == b;
    }
  }
}
