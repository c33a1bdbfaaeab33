/**
  Bytes and the pieces of the ISO/IEC 7816-4 command/response layout that the dump tool
  inspects: the header bytes of a command APDU (section 5.1: CLA, INS, P1, P2) and the
  two-byte status word SW1-SW2 that closes every response APDU (section 5.1.3).
*/
module Apdu {

  type byte = bv8

  /** Position of the instruction byte INS in a command APDU header. */
  const INS_OFFSET: nat := 1

  /** Position of the first parameter byte P1 in a command APDU header. */
  const P1_OFFSET: nat := 2

  /** Length of the trailing status word SW1-SW2 of a response APDU. */
  const SW_LENGTH: nat := 2

  /** The response body: the response APDU without its trailing status word. */
  function StripStatusWord(rsp: seq<byte>): (body: seq<byte>)
    requires |rsp| >= SW_LENGTH
    ensures |body| == |rsp| - SW_LENGTH
    ensures body + rsp[|rsp| - SW_LENGTH..] == rsp
  {
    rsp[..|rsp| - SW_LENGTH]
  }

  /** Whatever body and status word a response is made of, stripping gives the body back. */
  lemma StripStatusWordRoundTrip(body: seq<byte>, sw: seq<byte>)
    requires |sw| == SW_LENGTH
    ensures StripStatusWord(body + sw) == body
  {
    assert (body + sw)[..|body|] == body;
  }

}
