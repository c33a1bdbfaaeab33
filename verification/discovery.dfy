/**
  The EF discovery walk of one application: after a preamble (select the current DF, get
  the traceability information), one SELECT FILE with FIRST_EF, then NEXT_EF selections
  until the card answers "file not found". After each successful selection the new file is
  recovered as the first file of the card's file collection that is not yet known, and its
  records are read when its header allows it.
*/
module Discovery {

  import opened Optional
  import opened CardModel
  import opened RecordReader

  /** The operations the walk hands to the card transaction, in the order it hands them. */
  datatype Operation =
    | PrepareSelectFile(control: SelectFileControl)
    | PrepareGetTraceability
    | PrepareReadRecords(read: ReadCmd)
    | ProcessCommands

  /**
    The walk so far: how many EFs the card has walked through, the identities of the files
    discovered, those files in discovery order, and every operation issued.
  */
  datatype WalkState = WalkState(
    walked: nat,
    known: set<FileId>,
    found: seq<ElementaryFile>,
    issued: seq<Operation>
  )

  /**
    The outcome of one selection step: the card found no further EF (the step answers
    false), a new file was discovered (the step answers true), or the selection succeeded
    but no file outside the known ones exists, where the dump tool dereferences a null file.
  */
  datatype Step =
    | EndOfFiles(state: WalkState)
    | FileDiscovered(state: WalkState)
    | NoNewFile(state: WalkState)

  /** Every header of the card can be put to the readability test. */
  predicate AllInspectable(efs: seq<ElementaryFile>) {
    forall k | 0 <= k < |efs| :: RecordReader.Inspectable(efs[k].header)
  }

  const Preamble: seq<Operation> :=
    [PrepareSelectFile(CurrentDf), PrepareGetTraceability, ProcessCommands]

  function SelectOps(control: SelectFileControl): seq<Operation> {
    [PrepareSelectFile(control), ProcessCommands]
  }

  function ReadOps(plan: seq<ReadCmd>): (ops: seq<Operation>)
    ensures |ops| == |plan|
    ensures forall k | 0 <= k < |plan| :: ops[k] == PrepareReadRecords(plan[k])
  {
    seq(|plan|, k requires 0 <= k < |plan| => PrepareReadRecords(plan[k]))
  }

  /**
    The operations issued once file f is selected: nothing for a file that is not read,
    otherwise one READ RECORD per record followed by one exchange with the card.
  */
  function FileOps(f: ElementaryFile): (ops: seq<Operation>)
    requires RecordReader.Inspectable(f.header)
    ensures !IsReadable(f.header) ==> ops == []
    ensures IsReadable(f.header) ==>
      && |ops| == LoopCount(f.header.recordsNumber) + 1
      && ops[|ops| - 1] == ProcessCommands
      && forall i | 0 <= i < LoopCount(f.header.recordsNumber) ::
           ops[i] == PrepareReadRecords(ReadCmd(CURRENT_EF_SFI, i + 1, i + 1, f.header.recordSize))
  {
    if IsReadable(f.header) then
      var plan := ReadPlan(f.header);
      assert forall i | 0 <= i < |plan| ::
        plan[i] == ReadCmd(CURRENT_EF_SFI, i + 1, i + 1, f.header.recordSize);
      ReadOps(plan) + [ProcessCommands]
    else []
  }

  /**
    The position, in live, of the first file whose identity is not known: the file a
    newly selected EF is recovered as.
  */
  function FirstNew(live: seq<ElementaryFile>, known: set<FileId>): (r: Option<nat>)
    ensures r.Some? ==> r.value < |live| && Id(live[r.value]) !in known
    ensures r.Some? ==> forall j | 0 <= j < r.value :: Id(live[j]) in known
    ensures r.None? ==> forall j | 0 <= j < |live| :: Id(live[j]) in known
  {
    if |live| == 0 then None
    else if Id(live[0]) !in known then Some(0)
    else match FirstNew(live[1..], known)
      case None => None
      case Some(j) => Some(j + 1)
  }

  /**
    One call of the step: select with the given control, stop on "file not found",
    otherwise recover the new file from the card's file collection (the EFs walked so far),
    record it and issue its reads.
  */
  function GetFileData(efs: seq<ElementaryFile>, control: SelectFileControl, s: WalkState): (r: Step)
    requires control != CurrentDf && AllInspectable(efs)
    ensures r.EndOfFiles? <==> SelectEf(efs, control, s.walked).FileNotFound?
    ensures r.EndOfFiles? ==> r.state == s.(issued := s.issued + SelectOps(control))
    ensures SelectEf(efs, control, s.walked).Selected? ==>
      r.state.walked == SelectEf(efs, control, s.walked).index + 1
    ensures s.known <= r.state.known
    ensures r.NoNewFile? ==> r.state.known == s.known && r.state.found == s.found
    ensures r.NoNewFile? ==>
      r.state.walked <= |efs| && forall j | 0 <= j < r.state.walked :: Id(efs[j]) in s.known
    ensures !r.FileDiscovered? ==> r.state.issued == s.issued + SelectOps(control)
    ensures r.FileDiscovered? ==>
      && |r.state.found| == |s.found| + 1
      && r.state.found[..|s.found|] == s.found
      && var f := r.state.found[|s.found|];
      && Id(f) !in s.known
      && r.state.known == s.known + {Id(f)}
      && (exists j | 0 <= j < r.state.walked <= |efs| ::
            efs[j] == f && forall i | 0 <= i < j :: Id(efs[i]) in s.known)
      && r.state.issued == s.issued + SelectOps(control) + FileOps(f)
  {
    var issued := s.issued + SelectOps(control);
    match SelectEf(efs, control, s.walked)
    case FileNotFound => EndOfFiles(s.(issued := issued))
    case Selected(t) =>
      var live := efs[..t + 1];
      match FirstNew(live, s.known)
      case None => NoNewFile(s.(walked := t + 1, issued := issued))
      case Some(j) =>
        var f := live[j];
        FileDiscovered(WalkState(t + 1, s.known + {Id(f)}, s.found + [f], issued + FileOps(f)))
  }

  /** The selection control of the i-th selection of a walk. */
  function Control(i: int): SelectFileControl {
    if i == 0 then FirstEf else NextEf
  }

  /** The operations a walk issues for the i-th EF of the card. */
  function FileBlock(efs: seq<ElementaryFile>, i: nat): seq<Operation>
    requires AllInspectable(efs) && i < |efs|
  {
    SelectOps(Control(i)) + FileOps(efs[i])
  }

  /** The operations a walk issues for the first n EFs of the card. */
  function BlocksUpTo(efs: seq<ElementaryFile>, n: nat): seq<Operation>
    requires AllInspectable(efs) && n <= |efs|
  {
    if n == 0 then [] else BlocksUpTo(efs, n - 1) + FileBlock(efs, n - 1)
  }

  /**
    Everything a walk issues when its last selection is the (n + 1)-th: the preamble, the
    blocks of the first n EFs, and that last selection, after which the walk issues
    nothing more (the card answered "file not found", or no new file was recovered).
  */
  function WalkLog(efs: seq<ElementaryFile>, n: nat): seq<Operation>
    requires AllInspectable(efs) && n <= |efs|
  {
    Preamble + BlocksUpTo(efs, n) + SelectOps(Control(n))
  }

  /**
    Everything a complete walk over efs issues: the preamble, a block per EF, and the
    final selection that the card answers with "file not found".
  */
  function CompleteWalkLog(efs: seq<ElementaryFile>): seq<Operation>
    requires AllInspectable(efs)
  {
    WalkLog(efs, |efs|)
  }

  /** The walk has discovered exactly the first `walked` EFs of the card, each once. */
  predicate Consistent(efs: seq<ElementaryFile>, s: WalkState) {
    && s.walked <= |efs|
    && s.found == efs[..s.walked]
    && s.known == IdSet(s.found)
    && DistinctIds(s.found)
  }

  /** A step from a consistent state that has walked every EF ends the walk. */
  lemma {:induction false} StepAtEnd(efs: seq<ElementaryFile>, s: WalkState)
    requires AllInspectable(efs) && Consistent(efs, s) && s.walked == |efs|
    ensures GetFileData(efs, Control(s.walked), s).EndOfFiles?
  {
  }

  /** Recording the next EF of the card, when its identity is new, keeps a walk consistent. */
  lemma {:induction false} RecordNextKeepsConsistent(efs: seq<ElementaryFile>, s: WalkState, issued: seq<Operation>)
    requires Consistent(efs, s) && s.walked < |efs| && Id(efs[s.walked]) !in s.known
    ensures Consistent(efs, WalkState(s.walked + 1, s.known + {Id(efs[s.walked])}, s.found + [efs[s.walked]], issued))
  {
    var w := s.walked;
    var found := s.found + [efs[w]];
    assert found == efs[..w + 1];
    assert found[..w] == s.found;
    forall i, k | 0 <= i < k < |found|
      ensures Id(found[i]) != Id(found[k])
    {
      assert found[i] == s.found[i];
      if k < w {
        assert found[k] == s.found[k];
      }
    }
  }

  /**
    A step from a consistent state that has not walked every EF selects the next EF of the
    card; when that EF repeats a known identity, nothing new is recovered.
  */
  lemma {:induction false} StepRepeats(efs: seq<ElementaryFile>, s: WalkState)
    requires AllInspectable(efs) && Consistent(efs, s) && s.walked < |efs|
    requires Id(efs[s.walked]) in s.known
    ensures var w := s.walked;
      GetFileData(efs, Control(w), s) ==
        NoNewFile(s.(walked := w + 1, issued := s.issued + SelectOps(Control(w))))
  {
    assert SelectEf(efs, Control(s.walked), s.walked) == Selected(s.walked);
    NextIsFirstNew(efs, s);
  }

  /**
    A step from a consistent state that has not walked every EF selects the next EF of the
    card; when that EF has a new identity, the step records exactly that EF and issues its
    block of operations.
  */
  lemma {:induction false} StepDiscovers(efs: seq<ElementaryFile>, s: WalkState)
    requires AllInspectable(efs) && Consistent(efs, s) && s.walked < |efs|
    requires Id(efs[s.walked]) !in s.known
    ensures var w := s.walked;
      GetFileData(efs, Control(w), s) ==
        FileDiscovered(WalkState(w + 1, s.known + {Id(efs[w])}, s.found + [efs[w]],
                                 s.issued + FileBlock(efs, w)))
  {
    var w := s.walked;
    assert SelectEf(efs, Control(w), w) == Selected(w);
    NextIsFirstNew(efs, s);
    assert s.issued + SelectOps(Control(w)) + FileOps(efs[w]) == s.issued + FileBlock(efs, w);
  }

  /**
    In the file collection after the next selection, every file but the last is known: the
    file recovered is the last one, or none when its identity is known too.
  */
  lemma {:induction false} NextIsFirstNew(efs: seq<ElementaryFile>, s: WalkState)
    requires Consistent(efs, s) && s.walked < |efs|
    ensures var w := s.walked;
      FirstNew(efs[..w + 1], s.known) == if Id(efs[w]) in s.known then None else Some(w)
  {
    var w := s.walked;
    var live := efs[..w + 1];
    forall j | 0 <= j < w
      ensures Id(live[j]) in s.known
    {
      assert live[j] == s.found[j];
    }
  }

  /**
    A walk that is still going after `selects` selections has recorded exactly the EFs
    walked, one per selection, and issued the preamble and one block per recorded EF.
  */
  predicate Going(efs: seq<ElementaryFile>, s: WalkState, selects: nat)
    requires AllInspectable(efs)
  {
    && Consistent(efs, s)
    && s.walked == selects
    && s.issued == Preamble + BlocksUpTo(efs, selects)
  }

  /**
    What holds after each step of a walk that has made `selects` selections: a walk still
    going has recorded exactly the EFs walked, one per selection; a finished walk has
    recorded all EFs and issued everything a complete walk issues; a failed walk stopped
    at the first EF that repeats an identity.
  */
  predicate WalkInvariant(efs: seq<ElementaryFile>, step: Step, selects: nat)
    requires AllInspectable(efs)
  {
    && step.state.walked <= |efs|
    && (step.FileDiscovered? ==> Going(efs, step.state, selects))
    && (step.EndOfFiles? ==>
          && Consistent(efs, step.state)
          && step.state.walked == |efs|
          && selects == |efs| + 1
          && step.state.issued == CompleteWalkLog(efs))
    && (step.NoNewFile? ==>
          && |step.state.found| < |efs|
          && step.state.found == efs[..|step.state.found|]
          && DistinctIds(step.state.found)
          && Id(efs[|step.state.found|]) in IdSet(step.state.found)
          && step.state.known == IdSet(step.state.found)
          && step.state.walked == |step.state.found| + 1
          && selects == |step.state.found| + 1
          && step.state.issued == WalkLog(efs, |step.state.found|))
  }

  /** One more step of a walk that is still going keeps the walk invariant. */
  lemma {:induction false} StepKeepsInvariant(efs: seq<ElementaryFile>, s: WalkState, selects: nat)
    requires AllInspectable(efs) && Consistent(efs, s) && s.walked == selects
    requires s.issued == Preamble + BlocksUpTo(efs, selects)
    ensures WalkInvariant(efs, GetFileData(efs, Control(s.walked), s), selects + 1)
  {
    if s.walked == |efs| {
      FinalStepKeepsInvariant(efs, s, selects);
    } else if Id(efs[s.walked]) in s.known {
      RepeatStepKeepsInvariant(efs, s, selects);
    } else {
      NewStepKeepsInvariant(efs, s, selects);
    }
  }

  lemma {:induction false} FinalStepKeepsInvariant(efs: seq<ElementaryFile>, s: WalkState, selects: nat)
    requires AllInspectable(efs) && Consistent(efs, s) && s.walked == selects == |efs|
    requires s.issued == Preamble + BlocksUpTo(efs, selects)
    ensures WalkInvariant(efs, GetFileData(efs, Control(s.walked), s), selects + 1)
  {
    StepAtEnd(efs, s);
    var r := GetFileData(efs, Control(s.walked), s);
    assert r.state == s.(issued := s.issued + SelectOps(Control(s.walked)));
  }

  lemma {:induction false} RepeatStepKeepsInvariant(efs: seq<ElementaryFile>, s: WalkState, selects: nat)
    requires AllInspectable(efs) && Consistent(efs, s) && s.walked == selects < |efs|
    requires Id(efs[s.walked]) in s.known
    requires s.issued == Preamble + BlocksUpTo(efs, selects)
    ensures WalkInvariant(efs, GetFileData(efs, Control(s.walked), s), selects + 1)
  {
    StepRepeats(efs, s);
    var w := s.walked;
    assert |s.found| == w;
    assert s.issued + SelectOps(Control(w)) == WalkLog(efs, w);
  }

  lemma {:induction false} NewStepKeepsInvariant(efs: seq<ElementaryFile>, s: WalkState, selects: nat)
    requires AllInspectable(efs) && Consistent(efs, s) && s.walked == selects < |efs|
    requires Id(efs[s.walked]) !in s.known
    requires s.issued == Preamble + BlocksUpTo(efs, selects)
    ensures WalkInvariant(efs, GetFileData(efs, Control(s.walked), s), selects + 1)
  {
    StepDiscovers(efs, s);
    RecordNextKeepsLog(efs, s, selects);
  }

  /** Recording the next EF, when its identity is new, keeps a walk going as a walk should. */
  lemma {:induction false} RecordNextKeepsLog(efs: seq<ElementaryFile>, s: WalkState, selects: nat)
    requires AllInspectable(efs) && Consistent(efs, s) && s.walked == selects < |efs|
    requires Id(efs[s.walked]) !in s.known
    requires s.issued == Preamble + BlocksUpTo(efs, selects)
    ensures var w := s.walked;
      Going(efs, WalkState(w + 1, s.known + {Id(efs[w])}, s.found + [efs[w]], s.issued + FileBlock(efs, w)), selects + 1)
  {
    var w := s.walked;
    RecordNextKeepsConsistent(efs, s, s.issued + FileBlock(efs, w));
    LogGrowsByBlock(efs, w);
  }

  /** Issuing the block of the next EF extends the log of the first w EFs to the first w + 1. */
  lemma {:induction false} LogGrowsByBlock(efs: seq<ElementaryFile>, w: nat)
    requires AllInspectable(efs) && w < |efs|
    ensures Preamble + BlocksUpTo(efs, w) + FileBlock(efs, w) == Preamble + BlocksUpTo(efs, w + 1)
  {
    assert BlocksUpTo(efs, w + 1) == BlocksUpTo(efs, w) + FileBlock(efs, w);
  }

  /**
    What a whole walk over efs ends with, after `selects` selections. It fails exactly
    when two EFs share an identity, and then it has recorded the EFs before the first
    one that repeats an identity. Otherwise it has recorded every EF in card order, with
    one identity per EF, after |efs| + 1 selections, and it has issued the log of a
    complete walk.
  */
  predicate WalkResult(efs: seq<ElementaryFile>, s: WalkState, selects: nat, failed: bool)
    requires AllInspectable(efs)
  {
    && (failed <==> !DistinctIds(efs))
    && (!failed ==> s.found == efs && s.known == IdSet(efs) && |s.known| == |efs| && s.walked == |efs|)
    && (!failed ==> selects == |efs| + 1 && s.issued == CompleteWalkLog(efs))
    && (failed ==>
          && |s.found| < |efs|
          && s.found == efs[..|s.found|]
          && DistinctIds(s.found)
          && Id(efs[|s.found|]) in IdSet(s.found)
          && s.known == IdSet(s.found)
          && s.walked == |s.found| + 1
          && selects == |s.found| + 1
          && s.issued == WalkLog(efs, |s.found|))
  }

  /**
    The walk as the dump tool writes it: one FIRST_EF step, then NEXT_EF steps while the
    previous step answered true. On a card whose EFs have pairwise distinct identities it
    discovers every EF, in the card's order, with one selection per EF plus the final one
    that finds nothing, and issues exactly the operations of a complete walk. On any other
    card it stops at the first EF that repeats an identity, which is where the dump tool
    dereferences a null file.
  */
  method DiscoverFileStructure(efs: seq<ElementaryFile>) returns (s: WalkState, selects: nat, failed: bool)
    requires AllInspectable(efs)
    ensures WalkResult(efs, s, selects, failed)
  {
    var start := WalkState(0, {}, [], Preamble);
    assert start.issued == Preamble + BlocksUpTo(efs, 0);
    assert Control(0) == FirstEf;
    StepKeepsInvariant(efs, start, 0);
    var step := GetFileData(efs, FirstEf, start);
    selects := 1;
    while step.FileDiscovered?
      invariant WalkInvariant(efs, step, selects)
      decreases |efs| + 1 - selects
    {
      var prev := step.state;
      assert Control(prev.walked) == NextEf;
      StepKeepsInvariant(efs, prev, selects);
      step := GetFileData(efs, NextEf, prev);
      selects := selects + 1;
    }
    WalkOutcome(efs, step, selects);
    s := step.state;
    failed := step.NoNewFile?;
  }

  /** What a walk that stopped has established about the card. */
  lemma {:induction false} WalkOutcome(efs: seq<ElementaryFile>, step: Step, selects: nat)
    requires AllInspectable(efs) && WalkInvariant(efs, step, selects) && !step.FileDiscovered?
    ensures step.NoNewFile? <==> !DistinctIds(efs)
    ensures step.EndOfFiles? ==>
      && step.state.found == efs
      && step.state.known == IdSet(efs)
      && |step.state.known| == |efs|
  {
    if step.NoNewFile? {
      RepeatedIdentity(efs, step.state.found);
    } else {
      CompleteDiscovery(efs, step.state);
    }
  }

  /** A prefix of the card followed by an EF that repeats one of its identities is a duplicate. */
  lemma {:induction false} RepeatedIdentity(efs: seq<ElementaryFile>, found: seq<ElementaryFile>)
    requires |found| < |efs| && found == efs[..|found|]
    requires Id(efs[|found|]) in IdSet(found)
    ensures !DistinctIds(efs)
  {
    IdSetWitness(found, Id(efs[|found|]));
    var k :| 0 <= k < |found| && Id(found[k]) == Id(efs[|found|]);
    assert efs[k] == found[k];
  }

  /** A consistent walk that has walked every EF has recorded the card exactly. */
  lemma {:induction false} CompleteDiscovery(efs: seq<ElementaryFile>, s: WalkState)
    requires Consistent(efs, s) && s.walked == |efs|
    ensures DistinctIds(efs) && s.found == efs && s.known == IdSet(efs) && |s.known| == |efs|
  {
    assert s.found == efs;
    DistinctIdsCount(efs);
  }

  /**
    The recovered file does not depend on the order in which the card's file collection is
    iterated: when the walked EFs have distinct identities and all but the last are known,
    any iteration order of those EFs yields the last one.
  */
  lemma {:induction false} FirstNewIgnoresIterationOrder(efs: seq<ElementaryFile>, w: nat, order: seq<ElementaryFile>)
    requires w < |efs| && DistinctIds(efs[..w + 1])
    requires forall x :: x in order <==> x in efs[..w + 1]
    ensures FirstNew(order, IdSet(efs[..w])).Some?
    ensures order[FirstNew(order, IdSet(efs[..w])).value] == efs[w]
  {
    var known := IdSet(efs[..w]);
    var walked := efs[..w + 1];
    assert walked[w] == efs[w];
    IdNotInIdSet(efs[..w], Id(efs[w]));
    assert efs[w] in order;
    var r := FirstNew(order, known);
    if r.Some? {
      var f := order[r.value];
      assert f in order;
      assert f in walked;
    }
  }

  /** The selection controls among ops, in order. */
  function Selections(ops: seq<Operation>): seq<SelectFileControl> {
    if |ops| == 0 then []
    else (if ops[0].PrepareSelectFile? then [ops[0].control] else []) + Selections(ops[1..])
  }

  /** The prepared reads among ops, in order. */
  function ReadsOf(ops: seq<Operation>): seq<ReadCmd> {
    if |ops| == 0 then []
    else (if ops[0].PrepareReadRecords? then [ops[0].read] else []) + ReadsOf(ops[1..])
  }

  lemma {:induction false} SelectionsAppend(a: seq<Operation>, b: seq<Operation>)
    ensures Selections(a + b) == Selections(a) + Selections(b)
  {
    if |a| == 0 {
      assert a + b == b;
    } else {
      assert (a + b)[0] == a[0];
      assert (a + b)[1..] == a[1..] + b;
      SelectionsAppend(a[1..], b);
    }
  }

  lemma {:induction false} ReadsAppend(a: seq<Operation>, b: seq<Operation>)
    ensures ReadsOf(a + b) == ReadsOf(a) + ReadsOf(b)
  {
    if |a| == 0 {
      assert a + b == b;
    } else {
      assert (a + b)[0] == a[0];
      assert (a + b)[1..] == a[1..] + b;
      ReadsAppend(a[1..], b);
    }
  }

  lemma {:induction false} ReadOpsContent(plan: seq<ReadCmd>)
    ensures Selections(ReadOps(plan)) == []
    ensures ReadsOf(ReadOps(plan)) == plan
  {
    if |plan| > 0 {
      var head, tail := [PrepareReadRecords(plan[0])], ReadOps(plan[1..]);
      assert ReadOps(plan) == head + tail;
      SelectionsAppend(head, tail);
      ReadsAppend(head, tail);
      ReadOpsContent(plan[1..]);
    }
  }

  /** The block of the i-th EF holds one selection, with the walk's i-th control. */
  lemma {:induction false} FileBlockSelections(efs: seq<ElementaryFile>, i: nat)
    requires AllInspectable(efs) && i < |efs|
    ensures Selections(FileBlock(efs, i)) == [Control(i)]
  {
    var h := efs[i].header;
    ReadOpsContent(ReadPlan(h));
    SelectionsAppend(SelectOps(Control(i)), FileOps(efs[i]));
    if IsReadable(h) {
      SelectionsAppend(ReadOps(ReadPlan(h)), [ProcessCommands]);
    }
  }

  /** The reads in the block of the i-th EF are that file's read plan. */
  lemma {:induction false} FileBlockReads(efs: seq<ElementaryFile>, i: nat)
    requires AllInspectable(efs) && i < |efs|
    ensures ReadsOf(FileBlock(efs, i)) == ReadPlan(efs[i].header)
  {
    var h := efs[i].header;
    ReadOpsContent(ReadPlan(h));
    ReadsAppend(SelectOps(Control(i)), FileOps(efs[i]));
    if IsReadable(h) {
      ReadsAppend(ReadOps(ReadPlan(h)), [ProcessCommands]);
    }
  }

  /** The reads a walk issues for the first n EFs: each EF's read plan, in card order. */
  function PlannedReads(efs: seq<ElementaryFile>, n: nat): seq<ReadCmd>
    requires AllInspectable(efs) && n <= |efs|
  {
    if n == 0 then [] else PlannedReads(efs, n - 1) + ReadPlan(efs[n - 1].header)
  }

  lemma {:induction false} BlocksSelections(efs: seq<ElementaryFile>, n: nat)
    requires AllInspectable(efs) && n <= |efs|
    ensures |Selections(BlocksUpTo(efs, n))| == n
    ensures forall i | 0 <= i < n :: Selections(BlocksUpTo(efs, n))[i] == Control(i)
  {
    if n > 0 {
      var i := n - 1;
      BlocksSelections(efs, i);
      BlocksSelectionsStep(efs, i);
    }
  }

  lemma {:induction false} BlocksSelectionsStep(efs: seq<ElementaryFile>, i: nat)
    requires AllInspectable(efs) && i < |efs|
    ensures Selections(BlocksUpTo(efs, i + 1)) == Selections(BlocksUpTo(efs, i)) + [Control(i)]
  {
    FileBlockSelections(efs, i);
    var prefix, block := BlocksUpTo(efs, i), FileBlock(efs, i);
    assert BlocksUpTo(efs, i + 1) == prefix + block;
    SelectionsAppend(prefix, block);
  }

  lemma {:induction false} BlocksReads(efs: seq<ElementaryFile>, n: nat)
    requires AllInspectable(efs) && n <= |efs|
    ensures ReadsOf(BlocksUpTo(efs, n)) == PlannedReads(efs, n)
  {
    if n > 0 {
      var i := n - 1;
      BlocksReads(efs, i);
      FileBlockReads(efs, i);
      BlocksReadsStep(efs, i);
    }
  }

  lemma {:induction false} BlocksReadsStep(efs: seq<ElementaryFile>, i: nat)
    requires AllInspectable(efs) && i < |efs|
    requires ReadsOf(BlocksUpTo(efs, i)) == PlannedReads(efs, i)
    requires ReadsOf(FileBlock(efs, i)) == ReadPlan(efs[i].header)
    ensures ReadsOf(BlocksUpTo(efs, i + 1)) == PlannedReads(efs, i + 1)
  {
    var prefix, block := BlocksUpTo(efs, i), FileBlock(efs, i);
    var before, plan := PlannedReads(efs, i), ReadPlan(efs[i].header);
    assert BlocksUpTo(efs, i + 1) == prefix + block;
    assert PlannedReads(efs, i + 1) == before + plan;
    AppendedReads(prefix, block, before, plan);
  }

  /** Operations issued one after the other issue their reads one after the other. */
  lemma AppendedReads(a: seq<Operation>, b: seq<Operation>, readsA: seq<ReadCmd>, readsB: seq<ReadCmd>)
    requires ReadsOf(a) == readsA && ReadsOf(b) == readsB
    ensures ReadsOf(a + b) == readsA + readsB
  {
    ReadsAppend(a, b);
  }

  /** What the walk issues around its EF blocks adds one selection on each side and no read. */
  lemma {:induction false} FramedContent(blocks: seq<Operation>, last: SelectFileControl)
    ensures Selections(Preamble + blocks + SelectOps(last)) == [CurrentDf] + Selections(blocks) + [last]
    ensures ReadsOf(Preamble + blocks + SelectOps(last)) == ReadsOf(blocks)
  {
    SelectionsAppend(Preamble, blocks);
    SelectionsAppend(Preamble + blocks, SelectOps(last));
    ReadsAppend(Preamble, blocks);
    ReadsAppend(Preamble + blocks, SelectOps(last));
  }

  /**
    A walk whose last selection is the (n + 1)-th selects the current DF, then selects
    with FIRST_EF once and with NEXT_EF n times: n + 1 EF selections in all.
  */
  lemma {:induction false} WalkLogSelections(efs: seq<ElementaryFile>, n: nat)
    requires AllInspectable(efs) && n <= |efs|
    ensures var sel := Selections(WalkLog(efs, n));
      && |sel| == n + 2
      && sel[0] == CurrentDf
      && sel[1] == FirstEf
      && forall i | 2 <= i < |sel| :: sel[i] == NextEf
  {
    FramedContent(BlocksUpTo(efs, n), Control(n));
    BlocksSelections(efs, n);
  }

  /**
    The reads a walk whose last selection is the (n + 1)-th issues are the read plans of
    the first n EFs, in card order: nothing is read after that last selection, so a walk
    that stops at a repeated identity reads nothing of the EF it selected last.
  */
  lemma {:induction false} WalkLogReads(efs: seq<ElementaryFile>, n: nat)
    requires AllInspectable(efs) && n <= |efs|
    ensures ReadsOf(WalkLog(efs, n)) == PlannedReads(efs, n)
  {
    FramedContent(BlocksUpTo(efs, n), Control(n));
    BlocksReads(efs, n);
  }

  /**
    A complete walk selects the current DF, then selects with FIRST_EF once and with
    NEXT_EF once per EF: |efs| + 1 EF selections in all.
  */
  lemma {:induction false} CompleteWalkSelections(efs: seq<ElementaryFile>)
    requires AllInspectable(efs)
    ensures var sel := Selections(CompleteWalkLog(efs));
      && |sel| == |efs| + 2
      && sel[0] == CurrentDf
      && sel[1] == FirstEf
      && forall i | 2 <= i < |sel| :: sel[i] == NextEf
  {
    WalkLogSelections(efs, |efs|);
  }

  /**
    The reads a complete walk issues are the read plans of the card's EFs, in card order:
    none for a file that is not readable, one per record for the others.
  */
  lemma {:induction false} CompleteWalkReads(efs: seq<ElementaryFile>)
    requires AllInspectable(efs)
    ensures ReadsOf(CompleteWalkLog(efs)) == PlannedReads(efs, |efs|)
  {
    WalkLogReads(efs, |efs|);
  }

}
