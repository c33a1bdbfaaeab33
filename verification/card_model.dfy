/**
  The card as the dump tool sees it: the elementary files (EFs) of the selected DF, each
  with its header, and the card's answer to SELECT FILE with the FIRST_EF / NEXT_EF
  controls. The card itself is an oracle: the order in which it walks its EFs is given,
  not computed.
*/
module CardModel {

  import opened Apdu

  datatype EfType = Linear | Binary | Cyclic | Counters | SimulatedCounters

  /** The attributes of an EF that its header exposes and the walk consults. */
  datatype FileHeader = FileHeader(
    lid: bv16,
    efType: EfType,
    accessConditions: seq<byte>,
    recordsNumber: int,
    recordSize: int
  )

  datatype ElementaryFile = ElementaryFile(sfi: byte, header: FileHeader)

  /** What makes two EFs the same file: the short file identifier and the local identifier. */
  datatype FileId = FileId(sfi: byte, lid: bv16)

  function Id(f: ElementaryFile): FileId {
    FileId(f.sfi, f.header.lid)
  }

  /** The identities of the files in fs: each file's identity is in it. */
  function IdSet(fs: seq<ElementaryFile>): (ids: set<FileId>)
    ensures forall k | 0 <= k < |fs| :: Id(fs[k]) in ids
  {
    if |fs| == 0 then {}
    else IdSet(fs[..|fs| - 1]) + {Id(fs[|fs| - 1])}
  }

  /** Nothing else is in the identity set: each of its members is the identity of a file. */
  lemma {:induction false} IdSetWitness(fs: seq<ElementaryFile>, x: FileId)
    requires x in IdSet(fs)
    ensures exists k | 0 <= k < |fs| :: Id(fs[k]) == x
  {
    var init := fs[..|fs| - 1];
    if x != Id(fs[|fs| - 1]) {
      IdSetWitness(init, x);
      var k :| 0 <= k < |init| && Id(init[k]) == x;
      assert fs[k] == init[k];
    }
  }

  /** No two files of fs share an identity. */
  predicate DistinctIds(fs: seq<ElementaryFile>) {
    forall i, j | 0 <= i < j < |fs| :: Id(fs[i]) != Id(fs[j])
  }

  /** Files with pairwise distinct identities have as many identities as files. */
  lemma {:induction false} DistinctIdsCount(fs: seq<ElementaryFile>)
    requires DistinctIds(fs)
    ensures |IdSet(fs)| == |fs|
  {
    if |fs| > 0 {
      var init := fs[..|fs| - 1];
      assert DistinctIds(init);
      DistinctIdsCount(init);
      IdNotInIdSet(init, Id(fs[|fs| - 1]));
    }
  }

  /** An identity that no file of fs has is not in the identity set of fs. */
  lemma {:induction false} IdNotInIdSet(fs: seq<ElementaryFile>, x: FileId)
    requires forall k | 0 <= k < |fs| :: Id(fs[k]) != x
    ensures x !in IdSet(fs)
  {
    if |fs| > 0 {
      IdNotInIdSet(fs[..|fs| - 1], x);
    }
  }

  /** The SELECT FILE controls the dump tool uses. */
  datatype SelectFileControl = CurrentDf | FirstEf | NextEf

  /** The card's answer to an EF selection: the index of the EF now current, or not found. */
  datatype SelectResult = Selected(index: nat) | FileNotFound

  /**
    SELECT FILE on the card whose DF holds efs, in the card's own walking order, when
    `walked` EFs have been selected so far: FIRST_EF targets the first EF, NEXT_EF the one
    after the current EF; a target past the last EF is answered with "file not found".
  */
  function SelectEf(efs: seq<ElementaryFile>, control: SelectFileControl, walked: nat): (r: SelectResult)
    requires control != CurrentDf
    ensures control == FirstEf ==> (r == FileNotFound <==> |efs| == 0)
    ensures control == NextEf ==> (r == FileNotFound <==> walked >= |efs|)
    ensures r.Selected? ==> r.index < |efs|
  {
    var target := if control == FirstEf then 0 else walked;
    if target < |efs| then Selected(target) else FileNotFound
  }

}
