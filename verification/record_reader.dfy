/**
  Which EFs the dump reads, and the READ RECORD commands it prepares for them: one
  command per record, each reading exactly that record.
*/
module RecordReader {

  import opened Apdu
  import opened CardModel

  /** A prepared READ RECORD(S): SFI, first and last record number, and record size. */
  datatype ReadCmd = ReadCmd(sfi: byte, firstRecord: int, lastRecord: int, recordSize: int)

  /** Value of the read access condition (byte 0) that marks a file the dump does not read. */
  const READ_FORBIDDEN: byte := 1

  /** The dump prepares its reads with SFI 0, i.e. on the currently selected EF. */
  const CURRENT_EF_SFI: byte := 0

  /**
    The header bytes the readability test reads exist: the read access condition is only
    looked at for a file that is not BINARY.
  */
  predicate Inspectable(h: FileHeader) {
    h.efType == Binary || |h.accessConditions| > 0
  }

  predicate IsReadable(h: FileHeader)
    requires Inspectable(h)
  {
    h.efType != Binary && h.accessConditions[0] != READ_FORBIDDEN
  }

  /** Number of passes of the loop `for (i = 0; i < n; i++)`. */
  function LoopCount(n: int): nat {
    if n <= 0 then 0 else n
  }

  /**
    Reads of records 1 to n, one record per command, in increasing record order.
  */
  function RecordReads(n: int, recordSize: int): (plan: seq<ReadCmd>)
    ensures |plan| == LoopCount(n)
    ensures forall i | 0 <= i < |plan| ::
      plan[i] == ReadCmd(CURRENT_EF_SFI, i + 1, i + 1, recordSize)
    decreases LoopCount(n)
  {
    if n <= 0 then [] else RecordReads(n - 1, recordSize) + [ReadCmd(CURRENT_EF_SFI, n, n, recordSize)]
  }

  /**
    The reads prepared for a file once it is selected. A BINARY file, or one whose read
    access condition is the forbidden value, gets none; any other file gets one read per
    declared record, the i-th read (from 1) covering record i alone with the file's record
    size.
  */
  function ReadPlan(h: FileHeader): (plan: seq<ReadCmd>)
    requires Inspectable(h)
    ensures h.efType == Binary ==> plan == []
    ensures h.efType != Binary && h.accessConditions[0] == READ_FORBIDDEN ==> plan == []
    ensures IsReadable(h) ==> |plan| == LoopCount(h.recordsNumber)
    ensures IsReadable(h) ==> forall i | 1 <= i <= h.recordsNumber ::
      plan[i - 1] == ReadCmd(CURRENT_EF_SFI, i, i, h.recordSize)
  {
    if IsReadable(h) then RecordReads(h.recordsNumber, h.recordSize) else []
  }

  /**
    The preparation loop as the dump tool writes it: one prepared read per pass, numbered from
    the pass counter, only when the file is readable.
  */
  method PrepareReads(h: FileHeader) returns (plan: seq<ReadCmd>)
    requires Inspectable(h)
    ensures plan == ReadPlan(h)
  {
    plan := [];
    if h.efType != Binary && h.accessConditions[0] != READ_FORBIDDEN {
      var i := 0;
      while i < h.recordsNumber
        invariant 0 <= i <= LoopCount(h.recordsNumber)
        invariant plan == RecordReads(i, h.recordSize)
      {
        plan := plan + [ReadCmd(CURRENT_EF_SFI, i + 1, i + 1, h.recordSize)];
        i := i + 1;
      }
    }
  }

}
