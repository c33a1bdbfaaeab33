/**
  Recovery of the raw File Control Parameters (FCPs) from a transaction's audit trace.

  The audit trace is a flat list of byte strings in which commands and responses alternate:
  the entry at an even index is a command APDU, the entry after it is that command's
  response. Only SELECT FILE commands (INS 0xA4) with P1 = 0x02 ("select EF under the
  current DF", ISO/IEC 7816-4 section 11.2.2) are kept; their responses, stripped of the
  status word, are the FCPs.
*/
module FcpExtractor {

  import opened Apdu

  type Trace = seq<seq<byte>>

  /** Instruction byte of SELECT FILE. */
  const INS_SELECT_FILE: byte := 0xA4

  /** First parameter byte of a SELECT FILE that selects an EF under the current DF. */
  const P1_SELECT_EF: byte := 0x02

  /**
    The command bytes that the filter reads exist: INS always, P1 only when INS matched,
    since the second comparison is evaluated only after the first one held.
  */
  predicate Inspectable(cmd: seq<byte>) {
    |cmd| > INS_OFFSET && (cmd[INS_OFFSET] == INS_SELECT_FILE ==> |cmd| > P1_OFFSET)
  }

  predicate IsSelectEf(cmd: seq<byte>)
    requires Inspectable(cmd)
  {
    cmd[INS_OFFSET] == INS_SELECT_FILE && cmd[P1_OFFSET] == P1_SELECT_EF
  }

  /**
    The trace can be scanned without an out-of-range access: every command entry is
    inspectable and a SELECT EF command is never the last entry (its response is read).
  */
  predicate WellFormed(t: Trace) {
    forall i | 0 <= i < |t| && i % 2 == 0 ::
      Inspectable(t[i]) && (IsSelectEf(t[i]) ==> i + 1 < |t|)
  }

  /** The command at even index i is a SELECT EF whose response carries an FCP. */
  predicate IsFcpSource(t: Trace, i: nat)
    requires WellFormed(t)
  {
    i % 2 == 0 && i + 1 < |t| && IsSelectEf(t[i]) && |t[i + 1]| > SW_LENGTH
  }

  /** The FCPs of the command/response pairs starting at the even index i. */
  function FcpsFrom(t: Trace, i: nat): (fcps: seq<seq<byte>>)
    requires WellFormed(t) && i % 2 == 0 && i <= |t| + 1
    ensures 2 * |fcps| <= |t| + 1 - i
    ensures forall k | 0 <= k < |fcps| :: |fcps[k]| > 0
    decreases |t| - i
  {
    if i >= |t| then []
    else if IsSelectEf(t[i]) && |t[i + 1]| > SW_LENGTH then
      [StripStatusWord(t[i + 1])] + FcpsFrom(t, i + 2)
    else
      FcpsFrom(t, i + 2)
  }

  /** The FCPs of a whole trace. */
  function Fcps(t: Trace): seq<seq<byte>>
    requires WellFormed(t)
  {
    FcpsFrom(t, 0)
  }

  /**
    The indices, from the even index i on, of the commands whose responses yield an FCP:
    exactly the FCP sources, each once, in increasing order.
  */
  function SourcesFrom(t: Trace, i: nat): (src: seq<nat>)
    requires WellFormed(t) && i % 2 == 0
    ensures forall k | 0 <= k < |src| :: i <= src[k] && IsFcpSource(t, src[k])
    ensures forall k, l | 0 <= k < l < |src| :: src[k] < src[l]
    decreases |t| - i
  {
    if i >= |t| then []
    else if IsFcpSource(t, i) then [i] + SourcesFrom(t, i + 2)
    else SourcesFrom(t, i + 2)
  }

  /** No FCP source at or after i is missed. */
  lemma {:induction false} SourcesComplete(t: Trace, i: nat, j: nat)
    requires WellFormed(t) && i % 2 == 0 && i <= j && IsFcpSource(t, j)
    ensures j in SourcesFrom(t, i)
    decreases |t| - i
  {
    if i != j {
      SourcesComplete(t, i + 2, j);
    }
  }

  /**
    The extractor's output read through the FCP source indices: the k-th FCP is the response
    following the k-th FCP source, minus its status word. Together with the contract of
    SourcesFrom this says that exactly the SELECT EF pairs with a long enough response
    contribute, in trace order, and nothing else does.
  */
  lemma {:induction false} FcpsMatchSources(t: Trace, i: nat)
    requires WellFormed(t) && i % 2 == 0 && i <= |t| + 1
    ensures StrippedAt(t, FcpsFrom(t, i), SourcesFrom(t, i))
    decreases |t| - i
  {
    if i < |t| {
      FcpsMatchSources(t, i + 2);
      var rest, srcRest := FcpsFrom(t, i + 2), SourcesFrom(t, i + 2);
      assert StrippedAt(t, rest, srcRest);
      if IsFcpSource(t, i) {
        ConsSource(t, i, rest, srcRest);
        assert FcpsFrom(t, i) == [StripStatusWord(t[i + 1])] + rest;
        assert SourcesFrom(t, i) == [i] + srcRest;
      } else {
        assert FcpsFrom(t, i) == rest;
        assert SourcesFrom(t, i) == srcRest;
      }
    }
  }

  /** fcps[k] is the response after command src[k], without its status word, for every k. */
  predicate StrippedAt(t: Trace, fcps: seq<seq<byte>>, src: seq<nat>) {
    && |fcps| == |src|
    && forall k | 0 <= k < |fcps| ::
         && src[k] + 1 < |t|
         && |t[src[k] + 1]| >= SW_LENGTH
         && fcps[k] == StripStatusWord(t[src[k] + 1])
  }

  /** One more source in front, with its stripped response in front of the FCPs. */
  lemma {:induction false} ConsSource(t: Trace, i: nat, fcps: seq<seq<byte>>, src: seq<nat>)
    requires i + 1 < |t| && |t[i + 1]| >= SW_LENGTH && StrippedAt(t, fcps, src)
    ensures StrippedAt(t, [StripStatusWord(t[i + 1])] + fcps, [i] + src)
  {
    var fcps', src' := [StripStatusWord(t[i + 1])] + fcps, [i] + src;
    forall k | 0 <= k < |fcps'|
      ensures src'[k] + 1 < |t| && |t[src'[k] + 1]| >= SW_LENGTH
      ensures fcps'[k] == StripStatusWord(t[src'[k] + 1])
    {
      if k > 0 {
        assert fcps'[k] == fcps[k - 1] && src'[k] == src[k - 1];
      }
    }
  }

  /** A trace made of one SELECT EF exchange yields exactly the FCP it carried. */
  lemma SingleSelectRoundTrip(cmd: seq<byte>, fcp: seq<byte>, sw: seq<byte>)
    requires Inspectable(cmd) && IsSelectEf(cmd)
    requires |fcp| > 0 && |sw| == SW_LENGTH
    ensures WellFormed([cmd, fcp + sw])
    ensures Fcps([cmd, fcp + sw]) == [fcp]
  {
    StripStatusWordRoundTrip(fcp, sw);
  }

  /** A SELECT EF answered by a bare status word (or less) is skipped, not an error. */
  lemma ShortResponseSkipped(cmd: seq<byte>, rsp: seq<byte>)
    requires Inspectable(cmd) && |rsp| <= SW_LENGTH
    ensures WellFormed([cmd, rsp])
    ensures Fcps([cmd, rsp]) == []
  {
  }

  /**
    Extraction distributes over concatenation of traces made of whole command/response
    pairs: the FCPs of a longer session are those of its parts, in order.
  */
  lemma {:induction false} FcpsFromAppend(a: Trace, b: Trace, i: nat)
    requires WellFormed(a) && WellFormed(b) && |a| % 2 == 0
    requires i % 2 == 0 && i <= |a|
    ensures WellFormed(a + b)
    ensures FcpsFrom(a + b, i) == FcpsFrom(a, i) + Fcps(b)
    decreases |a| - i
  {
    AppendWellFormed(a, b);
    if i == |a| {
      FcpsFromShift(a, b, 0);
    } else {
      assert (a + b)[i] == a[i] && (a + b)[i + 1] == a[i + 1];
      FcpsFromAppend(a, b, i + 2);
    }
  }

  lemma AppendWellFormed(a: Trace, b: Trace)
    requires WellFormed(a) && WellFormed(b) && |a| % 2 == 0
    ensures WellFormed(a + b)
  {
    forall i | 0 <= i < |a + b| && i % 2 == 0
      ensures Inspectable((a + b)[i]) && (IsSelectEf((a + b)[i]) ==> i + 1 < |a + b|)
    {
      if i >= |a| {
        assert (a + b)[i] == b[i - |a|];
      }
    }
  }

  /** Scanning b after an even-length prefix a sees the same pairs as scanning b alone. */
  lemma {:induction false} FcpsFromShift(a: Trace, b: Trace, j: nat)
    requires WellFormed(a + b) && WellFormed(b) && |a| % 2 == 0
    requires j % 2 == 0 && j <= |b| + 1
    ensures FcpsFrom(a + b, |a| + j) == FcpsFrom(b, j)
    decreases |b| - j
  {
    if j < |b| {
      assert (a + b)[|a| + j] == b[j];
      if j + 1 < |b| {
        assert (a + b)[|a| + j + 1] == b[j + 1];
      }
      FcpsFromShift(a, b, j + 2);
    }
  }

  /**
    The scan as the dump tool writes it: the index moves past the command, then past the
    response, whether or not the pair was kept.
  */
  method ExtractFcps(auditData: Trace) returns (fcps: seq<seq<byte>>)
    requires WellFormed(auditData)
    ensures fcps == Fcps(auditData)
  {
    fcps := [];
    var i := 0;
    while i < |auditData|
      invariant i % 2 == 0 && i <= |auditData| + 1
      invariant fcps + FcpsFrom(auditData, i) == Fcps(auditData)
      decreases |auditData| - i
    {
      var cmd := auditData[i];
      i := i + 1;
      if cmd[INS_OFFSET] == INS_SELECT_FILE && cmd[P1_OFFSET] == P1_SELECT_EF {
        var rsp := auditData[i];
        if |rsp| > SW_LENGTH {
          fcps := fcps + [rsp[..|rsp| - SW_LENGTH]];
        }
      }
      i := i + 1;
    }
  }

}
