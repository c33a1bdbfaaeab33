/**
  The dump's outer loop: select the first application whose DF name starts with the AID,
  dump it, then select the next such application, until no further application matches.
  Each dump walks the application's EFs and recovers the FCPs from the audit trace of
  the walk's transaction.

  The card is an oracle: its applications in the order the card presents them to
  FIRST / NEXT occurrence selection, each with its EFs (in FIRST_EF / NEXT_EF order) and
  the audit trace its dump transaction records.
*/
module DumpCard {

  import opened Optional
  import opened Apdu
  import opened CardModel
  import opened FcpExtractor
  import opened Discovery

  /** An application of the card, as the dump can observe it. */
  datatype Application = Application(dfName: seq<byte>, efs: seq<ElementaryFile>, audit: Trace)

  /** What the dump keeps of one application: its DF name, its EFs and its FCPs. */
  datatype ApplicationData = ApplicationData(dfName: seq<byte>, files: seq<ElementaryFile>, fcps: seq<seq<byte>>)

  /** Application selection by DF name: a fresh match, or the match after the current one. */
  datatype FileOccurrence = First | Next

  /**
    The result of one application selection followed by its dump: no application matched,
    or the application at `index` was dumped, or its walk could not recover a file.
  */
  datatype Outcome =
    | NoApplication
    | Dumped(index: nat, data: ApplicationData)
    | FileNotRecovered(index: nat)

  /**
    Everything the dump inspects on the card can be inspected: the EF headers and the audit
    trace of every application that the AID selects. The others are never looked at.
  */
  predicate Dumpable(apps: seq<Application>, aid: seq<byte>) {
    forall k | 0 <= k < |apps| && Matches(apps[k], aid) ::
      AllInspectable(apps[k].efs) && WellFormed(apps[k].audit)
  }

  /** Selection by partial DF name: the AID is a prefix of the DF name (possibly all of it). */
  predicate Matches(app: Application, aid: seq<byte>) {
    aid <= app.dfName
  }

  /** The first application at or after `from` whose DF name starts with aid. */
  function FirstMatch(apps: seq<Application>, aid: seq<byte>, from: nat): (r: Option<nat>)
    ensures r.Some? ==> from <= r.value < |apps| && Matches(apps[r.value], aid)
    ensures r.Some? ==> forall j | from <= j < r.value :: !Matches(apps[j], aid)
    ensures r.None? ==> forall j | from <= j < |apps| :: !Matches(apps[j], aid)
    decreases |apps| - from
  {
    if from >= |apps| then None
    else if Matches(apps[from], aid) then Some(from)
    else FirstMatch(apps, aid, from + 1)
  }

  /**
    The card's answer to an application selection: FIRST starts over, NEXT continues after
    the application currently selected (from the start when none is).
  */
  function SelectApplication(apps: seq<Application>, aid: seq<byte>, occurrence: FileOccurrence,
                             current: Option<nat>): (r: Option<nat>)
    ensures var from := if occurrence == Next && current.Some? then current.value + 1 else 0;
      && (r.Some? ==> from <= r.value < |apps| && Matches(apps[r.value], aid))
      && forall j | from <= j < (if r.Some? then r.value else |apps|) :: !Matches(apps[j], aid)
  {
    match (occurrence, current)
    case (Next, Some(c)) => FirstMatch(apps, aid, c + 1)
    case _ => FirstMatch(apps, aid, 0)
  }

  /** The indices of the applications at or after `from` whose DF name starts with aid. */
  function MatchesFrom(apps: seq<Application>, aid: seq<byte>, from: nat): (m: seq<nat>)
    ensures forall k | 0 <= k < |m| :: from <= m[k] < |apps| && Matches(apps[m[k]], aid)
    ensures forall k, l | 0 <= k < l < |m| :: m[k] < m[l]
    decreases |apps| - from
  {
    if from >= |apps| then []
    else if Matches(apps[from], aid) then [from] + MatchesFrom(apps, aid, from + 1)
    else MatchesFrom(apps, aid, from + 1)
  }

  /** No matching application at or after `from` is missed. */
  lemma {:induction false} MatchesFromComplete(apps: seq<Application>, aid: seq<byte>, from: nat, j: nat)
    requires from <= j < |apps| && Matches(apps[j], aid)
    ensures j in MatchesFrom(apps, aid, from)
    decreases j - from
  {
    if from < j {
      MatchesFromComplete(apps, aid, from + 1, j);
    }
  }

  /**
    Repeated selection enumerates the matches: the first match from `from` is the head of
    the matches from there, and the matches after it are those after that application.
  */
  lemma {:induction false} FirstMatchHeadsMatches(apps: seq<Application>, aid: seq<byte>, from: nat)
    ensures FirstMatch(apps, aid, from).None? <==> MatchesFrom(apps, aid, from) == []
    ensures FirstMatch(apps, aid, from).Some? ==>
      var k := FirstMatch(apps, aid, from).value;
      MatchesFrom(apps, aid, from) == [k] + MatchesFrom(apps, aid, k + 1)
    decreases |apps| - from
  {
    if from < |apps| && !Matches(apps[from], aid) {
      FirstMatchHeadsMatches(apps, aid, from + 1);
    }
  }

  /** What the dump of an application is to show: its DF name, its EFs and the FCPs of its trace. */
  function DumpOf(app: Application): ApplicationData
    requires WellFormed(app.audit)
  {
    ApplicationData(app.dfName, app.efs, Fcps(app.audit))
  }

  /**
    r is how the dump tool answers when the card's selection gives `selected`: nothing when no
    application matched, otherwise the dump of that application, or no dump when its EFs
    repeat an identity.
  */
  predicate Answers(apps: seq<Application>, aid: seq<byte>, selected: Option<nat>, r: Outcome)
    requires Dumpable(apps, aid)
  {
    && (selected.None? <==> r.NoApplication?)
    && (!r.NoApplication? ==>
          selected == Some(r.index) && r.index < |apps| && Matches(apps[r.index], aid))
    && (r.Dumped? ==> DistinctIds(apps[r.index].efs) && r.data == DumpOf(apps[r.index]))
    && (r.FileNotRecovered? ==> !DistinctIds(apps[r.index].efs))
  }

  /**
    One selection and dump as the dump tool writes it: select, and when an application
    answers, walk its EFs and extract the FCPs of the walk's transaction. The dump holds the
    application's EFs in card order and the FCPs of its audit trace; an application whose
    walk meets an EF with an identity already seen yields no dump.
  */
  method GetApplicationData(apps: seq<Application>, aid: seq<byte>, occurrence: FileOccurrence,
                            current: Option<nat>) returns (r: Outcome)
    requires Dumpable(apps, aid)
    ensures Answers(apps, aid, SelectApplication(apps, aid, occurrence, current), r)
  {
    var selected := SelectApplication(apps, aid, occurrence, current);
    if selected.None? {
      return NoApplication;
    }
    var k := selected.value;
    var app := apps[k];
    var walk, _, failed := DiscoverFileStructure(app.efs);
    if failed {
      return FileNotRecovered(k);
    }
    var fcps := ExtractFcps(app.audit);
    r := Dumped(k, ApplicationData(app.dfName, walk.found, fcps));
  }

  /** The first `|shown|` matches m have been shown, each with its dump. */
  predicate ShownInOrder(apps: seq<Application>, aid: seq<byte>, m: seq<nat>, shown: seq<ApplicationData>)
    requires Dumpable(apps, aid)
  {
    && |shown| <= |m|
    && forall k | 0 <= k < |shown| ::
         && m[k] < |apps|
         && Matches(apps[m[k]], aid)
         && DistinctIds(apps[m[k]].efs)
         && shown[k] == DumpOf(apps[m[k]])
  }

  /**
    The state of the main loop: the matches m of the whole card split into those shown and
    those from `from` on, and r is the answer to the selection from `from`.
  */
  predicate Progress(apps: seq<Application>, aid: seq<byte>, m: seq<nat>, shown: seq<ApplicationData>,
                     from: nat, r: Outcome)
    requires Dumpable(apps, aid)
  {
    && from <= |apps|
    && ShownInOrder(apps, aid, m, shown)
    && m[|shown|..] == MatchesFrom(apps, aid, from)
    && Answers(apps, aid, FirstMatch(apps, aid, from), r)
  }

  /**
    The whole dump as the dump tool's main loop writes it: FIRST, then NEXT while an
    application answered. It shows the applications whose DF name starts with the AID, each
    once, in card order, with their EFs and FCPs; it reports "no match" exactly when there
    is none; and it aborts, having shown the matches before it, at the first matching
    application whose EFs repeat an identity.
  */
  method DumpAll(apps: seq<Application>, aid: seq<byte>)
    returns (shown: seq<ApplicationData>, noMatch: bool, aborted: bool)
    requires Dumpable(apps, aid)
    ensures noMatch <==> MatchesFrom(apps, aid, 0) == []
    ensures noMatch ==> shown == [] && !aborted
    ensures ShownInOrder(apps, aid, MatchesFrom(apps, aid, 0), shown)
    ensures !aborted ==> |shown| == |MatchesFrom(apps, aid, 0)|
    ensures aborted ==>
      |shown| < |MatchesFrom(apps, aid, 0)| && !DistinctIds(apps[MatchesFrom(apps, aid, 0)[|shown|]].efs)
    ensures aborted <==> exists k | 0 <= k < |MatchesFrom(apps, aid, 0)| ::
      !DistinctIds(apps[MatchesFrom(apps, aid, 0)[k]].efs)
  {
    ghost var m := MatchesFrom(apps, aid, 0);
    ghost var from: nat := 0;
    var r := GetApplicationData(apps, aid, First, None);
    ProgressStart(apps, aid, r);
    noMatch := r.NoApplication?;
    shown := [];
    while r.Dumped?
      invariant Progress(apps, aid, m, shown, from, r)
      decreases |apps| - from
    {
      var prev := r;
      r := GetApplicationData(apps, aid, Next, Some(r.index));
      ProgressStep(apps, aid, m, shown, from, prev, r);
      shown := shown + [prev.data];
      from := prev.index + 1;
    }
    ProgressExit(apps, aid, m, shown, from, r);
    aborted := r.FileNotRecovered?;
  }

  /** The first selection starts the loop with nothing shown, and finds nothing exactly when nothing matches. */
  lemma ProgressStart(apps: seq<Application>, aid: seq<byte>, r: Outcome)
    requires Dumpable(apps, aid) && Answers(apps, aid, FirstMatch(apps, aid, 0), r)
    ensures Progress(apps, aid, MatchesFrom(apps, aid, 0), [], 0, r)
    ensures r.NoApplication? <==> MatchesFrom(apps, aid, 0) == []
  {
    FirstMatchHeadsMatches(apps, aid, 0);
  }

  /** Showing an answered dump and selecting the next match keeps the loop state. */
  lemma ProgressStep(apps: seq<Application>, aid: seq<byte>, m: seq<nat>, shown: seq<ApplicationData>,
                     from: nat, r: Outcome, next: Outcome)
    requires Dumpable(apps, aid) && Progress(apps, aid, m, shown, from, r) && r.Dumped?
    requires Answers(apps, aid, FirstMatch(apps, aid, r.index + 1), next)
    ensures from < r.index + 1 <= |apps|
    ensures Progress(apps, aid, m, shown + [r.data], r.index + 1, next)
  {
    SelectionAdvances(apps, aid, m, |shown|, from);
  }

  /**
    When the loop stops, every match has been shown and the answer was "no application", or
    the answer was the first match not shown and its EFs repeat an identity.
  */
  lemma ProgressExit(apps: seq<Application>, aid: seq<byte>, m: seq<nat>, shown: seq<ApplicationData>,
                     from: nat, r: Outcome)
    requires Dumpable(apps, aid) && Progress(apps, aid, m, shown, from, r) && !r.Dumped?
    ensures r.NoApplication? <==> |shown| == |m|
    ensures r.FileNotRecovered? ==> |shown| < |m| && !DistinctIds(apps[m[|shown|]].efs)
    ensures r.FileNotRecovered? <==> exists k | 0 <= k < |m| :: m[k] < |apps| && !DistinctIds(apps[m[k]].efs)
  {
    SelectionAdvances(apps, aid, m, |shown|, from);
    if r.FileNotRecovered? {
      assert m[|shown|] == r.index;
    }
  }

  /**
    When the matches not yet shown are the matches from `from`, the next selection answers
    with the first of them, or with nothing exactly when none is left.
  */
  lemma SelectionAdvances(apps: seq<Application>, aid: seq<byte>, m: seq<nat>, shown: nat, from: nat)
    requires shown <= |m| && m[shown..] == MatchesFrom(apps, aid, from)
    ensures FirstMatch(apps, aid, from).None? <==> shown == |m|
    ensures FirstMatch(apps, aid, from).Some? ==>
      && shown < |m|
      && m[shown] == FirstMatch(apps, aid, from).value
      && m[shown + 1..] == MatchesFrom(apps, aid, FirstMatch(apps, aid, from).value + 1)
  {
    FirstMatchHeadsMatches(apps, aid, from);
    if shown < |m| {
      assert m[shown..] == [m[shown]] + m[shown + 1..];
    }
  }

}
