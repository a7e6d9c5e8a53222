/** The scan of `export_outlook_emails()` (export_script.py, lines 18-110):
    validate the target, walk the Inbox items then the Sent Items items,
    append one record per matching mail item to the story, save the
    attachments, and build the document when something matched. */
module Export {
  import opened Text
  import opened Naming
  import opened Mail
  import opened Report
  import opened ItemStep

  /** The loop's state: the story so far, `found_count`, and the files
      written so far. */
  datatype Acc = Acc(story: seq<Entry>, found: nat, written: seq<string>)

  /** The state after one more iteration. */
  function Then(acc: Acc, step: Step): Acc {
    Acc(acc.story + step.entries, acc.found + (if step.counted then 1 else 0), acc.written + step.written)
  }

  /** The state after a run of iterations started from the empty state. */
  function Fold(steps: seq<Step>): Acc {
    if steps == [] then Acc([], 0, []) else Then(Fold(steps[..|steps| - 1]), steps[|steps| - 1])
  }

  /** Two runs one after the other. */
  function Combine(a: Acc, b: Acc): Acc {
    Acc(a.story + b.story, a.found + b.found, a.written + b.written)
  }

  lemma {:induction false} FoldAppend(s: seq<Step>, t: seq<Step>)
    decreases |t|
    ensures Fold(s + t) == Combine(Fold(s), Fold(t))
  {
    if t == [] {
      assert s + t == s;
    } else {
      assert (s + t)[..|s + t| - 1] == s + t[..|t| - 1];
      FoldAppend(s, t[..|t| - 1]);
    }
  }

  /** The steps that were counted, in order. */
  function Counted(steps: seq<Step>): (r: seq<Step>)
    ensures |r| <= |steps|
  {
    if steps == [] then []
    else Counted(steps[..|steps| - 1]) + (if steps[|steps| - 1].counted then [steps[|steps| - 1]] else [])
  }

  /** The story entries of a run of steps, end to end. */
  function Entries(steps: seq<Step>): seq<Entry> {
    if steps == [] then [] else Entries(steps[..|steps| - 1]) + steps[|steps| - 1].entries
  }

  /** The files written by a run of steps, in order. */
  function Writes(steps: seq<Step>): seq<string> {
    if steps == [] then [] else Writes(steps[..|steps| - 1]) + steps[|steps| - 1].written
  }

  /** A step that is not counted adds nothing. */
  predicate Quiet(step: Step) {
    !step.counted ==> step.entries == [] && step.written == []
  }

  /** `found_count` counts the counted steps; when uncounted steps add
      nothing, the story and the files are those of the counted steps. */
  lemma {:induction false} FoldCounts(steps: seq<Step>)
    ensures Fold(steps).found == |Counted(steps)|
    ensures (forall k :: 0 <= k < |steps| ==> Quiet(steps[k])) ==>
              Fold(steps).story == Entries(Counted(steps)) && Fold(steps).written == Writes(Counted(steps))
  {
    if steps != [] {
      var init, last := steps[..|steps| - 1], steps[|steps| - 1];
      FoldCounts(init);
      var c := Counted(init);
      if last.counted {
        assert (c + [last])[..|c|] == c;
      } else {
        assert c + [] == c;
      }
      assert forall k :: 0 <= k < |init| ==> init[k] == steps[k];
    }
  }

  /** Steps of eight entries each lay out eight entries per step. */
  lemma {:induction false} EntriesLength(steps: seq<Step>)
    requires forall k :: 0 <= k < |steps| ==> |steps[k].entries| == 8
    ensures |Entries(steps)| == 8 * |steps|
  {
    if steps != [] {
      var init := steps[..|steps| - 1];
      assert forall k :: 0 <= k < |init| ==> init[k] == steps[k];
      EntriesLength(init);
    }
  }

  /** ... and the `j`th block of eight is the `j`th step's entries. */
  lemma {:induction false} EntriesBlockAt(steps: seq<Step>, j: nat)
    requires forall k :: 0 <= k < |steps| ==> |steps[k].entries| == 8
    requires j < |steps|
    ensures |Entries(steps)| == 8 * |steps|
    ensures Entries(steps)[8 * j..8 * j + 8] == steps[j].entries
  {
    EntriesLength(steps);
    var init := steps[..|steps| - 1];
    assert forall k :: 0 <= k < |init| ==> init[k] == steps[k];
    EntriesLength(init);
    var e := Entries(init);
    assert Entries(steps) == e + steps[|steps| - 1].entries;
    if j < |init| {
      EntriesBlockAt(init, j);
      assert Entries(steps)[8 * j..8 * j + 8] == e[8 * j..8 * j + 8];
    }
  }

  /** A run of steps that each do nothing leaves the state empty. */
  lemma {:induction false} FoldNothing(steps: seq<Step>)
    requires forall k :: 0 <= k < |steps| ==> steps[k] == Step([], false, [])
    ensures Fold(steps) == Acc([], 0, [])
  {
    if steps != [] {
      var init := steps[..|steps| - 1];
      assert forall k :: 0 <= k < |init| ==> init[k] == steps[k];
      FoldNothing(init);
    }
  }

  /** One step per item, in order. */
  function Steps(target: string, dir: string, items: seq<Item>): (r: seq<Step>)
    ensures |r| == |items|
    ensures forall k :: 0 <= k < |items| ==> r[k] == Process(target, dir, items[k])
  {
    if items == [] then []
    else Steps(target, dir, items[..|items| - 1]) + [Process(target, dir, items[|items| - 1])]
  }

  /** The loop of lines 58-102 run over `items`. */
  function Scan(target: string, dir: string, items: seq<Item>): Acc {
    Fold(Steps(target, dir, items))
  }

  lemma {:induction false} StepsAppend(target: string, dir: string, a: seq<Item>, b: seq<Item>)
    decreases |b|
    ensures Steps(target, dir, a + b) == Steps(target, dir, a) + Steps(target, dir, b)
  {
    if b == [] {
      assert a + b == a;
    } else {
      assert (a + b)[..|a + b| - 1] == a + b[..|b| - 1];
      StepsAppend(target, dir, a, b[..|b| - 1]);
    }
  }

  /** The loop one item at a time. */
  lemma ScanSnoc(target: string, dir: string, items: seq<Item>)
    requires items != []
    ensures Scan(target, dir, items)
            == Then(Scan(target, dir, items[..|items| - 1]), Process(target, dir, items[|items| - 1]))
  {
    var s := Steps(target, dir, items);
    assert s[..|s| - 1] == Steps(target, dir, items[..|items| - 1]);
  }

  /** Lines 46 and 58: scanning the Inbox items followed by the Sent Items
      items is scanning each folder and joining the results. */
  lemma ScanAppend(target: string, dir: string, a: seq<Item>, b: seq<Item>)
    ensures Scan(target, dir, a + b) == Combine(Scan(target, dir, a), Scan(target, dir, b))
  {
    StepsAppend(target, dir, a, b);
    FoldAppend(Steps(target, dir, a), Steps(target, dir, b));
  }

  /** The matched items, in scan order. */
  function MatchedItems(target: string, items: seq<Item>): (r: seq<Item>)
    ensures |r| <= |items|
  {
    if items == [] then []
    else MatchedItems(target, items[..|items| - 1])
         + (if Matched(target, items[|items| - 1]) then [items[|items| - 1]] else [])
  }

  lemma {:induction false} MatchedItemsAreItems(target: string, items: seq<Item>)
    ensures forall j :: 0 <= j < |MatchedItems(target, items)| ==>
              MatchedItems(target, items)[j] in items && Matched(target, MatchedItems(target, items)[j])
  {
    if items != [] {
      var init := items[..|items| - 1];
      MatchedItemsAreItems(target, init);
      var m := MatchedItems(target, init);
      assert forall x :: x in init ==> x in items;
      if !Matched(target, items[|items| - 1]) {
        assert m + [] == m;
      }
    }
  }

  /** The counted steps are exactly the steps of the matched items. */
  lemma {:induction false} CountedSteps(target: string, dir: string, items: seq<Item>)
    ensures Counted(Steps(target, dir, items)) == Steps(target, dir, MatchedItems(target, items))
  {
    if items != [] {
      var init, last := items[..|items| - 1], items[|items| - 1];
      CountedSteps(target, dir, init);
      var s := Steps(target, dir, items);
      assert s[..|s| - 1] == Steps(target, dir, init);
      var m := MatchedItems(target, init);
      if Matched(target, last) {
        RecordStart(dir, ReadFields(last), last.attachments);
        StepsAppend(target, dir, m, [last]);
      } else {
        assert m + [] == m;
        assert Counted(s) == Counted(Steps(target, dir, init)) + [];
      }
    }
  }

  lemma StepsQuiet(target: string, dir: string, items: seq<Item>)
    ensures forall k :: 0 <= k < |items| ==> Quiet(Steps(target, dir, items)[k])
  {
    forall k | 0 <= k < |items| ensures Quiet(Steps(target, dir, items)[k]) {
      if Matched(target, items[k]) {
        RecordStart(dir, ReadFields(items[k]), items[k].attachments);
      }
    }
  }

  /** `found_count` is the number of matched items. */
  lemma ScanCountsMatches(target: string, dir: string, items: seq<Item>)
    ensures Scan(target, dir, items).found == |MatchedItems(target, items)|
  {
    FoldCounts(Steps(target, dir, items));
    CountedSteps(target, dir, items);
  }

  /** The story and the written files are those of the matched items'
      records, in scan order; unmatched items contribute nothing. */
  lemma ScanIsRecordsOfMatches(target: string, dir: string, items: seq<Item>)
    ensures Scan(target, dir, items).story == Entries(Steps(target, dir, MatchedItems(target, items)))
    ensures Scan(target, dir, items).written == Writes(Steps(target, dir, MatchedItems(target, items)))
  {
    StepsQuiet(target, dir, items);
    FoldCounts(Steps(target, dir, items));
    CountedSteps(target, dir, items);
  }

  /** The step of a matched item is its record. */
  lemma MatchedStepIsRecord(target: string, dir: string, items: seq<Item>, j: nat)
    requires j < |MatchedItems(target, items)|
    ensures var m := MatchedItems(target, items)[j];
            Steps(target, dir, MatchedItems(target, items))[j] == Record(dir, ReadFields(m), m.attachments)
  {
    MatchedItemsAreItems(target, items);
  }

  /** Items that do not match change nothing: no entry, no count, no file. */
  lemma UnmatchedItemsAddNothing(target: string, dir: string, a: seq<Item>, b: seq<Item>)
    requires forall k :: 0 <= k < |b| ==> !Matched(target, b[k])
    ensures Scan(target, dir, a + b) == Scan(target, dir, a)
  {
    ScanAppend(target, dir, a, b);
    var t := Steps(target, dir, b);
    forall k | 0 <= k < |t| ensures t[k] == Step([], false, []) {
      assert t[k] == Process(target, dir, b[k]);
    }
    FoldNothing(t);
    var acc := Scan(target, dir, a);
    assert acc.story + [] == acc.story && acc.written + [] == acc.written;
  }

  /** The `j`th block of eight of `story` is the full record of the
      fault-free item `m`, and is well formed. */
  ghost predicate BlockHolds(dir: string, story: seq<Entry>, j: nat, m: Item) {
    && 8 * j + 8 <= |story|
    && FaultFree(m)
    && story[8 * j..8 * j + 8] == Block(ReadFields(m), |m.attachments|, SavePaths(dir, m.attachments))
    && WellFormedBlock(story[8 * j..8 * j + 8], |m.attachments|)
  }

  /** The records of fault-free items, laid end to end, are their
      well-formed blocks of eight, in order. */
  lemma RecordBlocks(dir: string, ms: seq<Item>, cs: seq<Step>)
    requires |cs| == |ms|
    requires forall j :: 0 <= j < |ms| ==>
               FaultFree(ms[j]) && cs[j] == Record(dir, ReadFields(ms[j]), ms[j].attachments)
    ensures |Entries(cs)| == 8 * |cs|
    ensures forall j :: 0 <= j < |ms| ==> BlockHolds(dir, Entries(cs), j, ms[j])
  {
    forall j | 0 <= j < |ms|
      ensures |cs[j].entries| == 8
      ensures cs[j].entries == Block(ReadFields(ms[j]), |ms[j].attachments|, SavePaths(dir, ms[j].attachments))
      ensures WellFormedBlock(cs[j].entries, |ms[j].attachments|)
    {
      FaultFreeRecord(dir, ms[j]);
    }
    EntriesLength(cs);
    forall j | 0 <= j < |ms|
      ensures Entries(cs)[8 * j..8 * j + 8] == cs[j].entries
    {
      EntriesBlockAt(cs, j);
    }
  }

  /** Matched items are drawn from the scanned items, so a premise on the
      matched scanned items holds of every one of them. */
  lemma MatchedItemsFaultFree(target: string, items: seq<Item>)
    requires forall k :: 0 <= k < |items| && Matched(target, items[k]) ==> FaultFree(items[k])
    ensures forall j :: 0 <= j < |MatchedItems(target, items)| ==> FaultFree(MatchedItems(target, items)[j])
  {
    var ms := MatchedItems(target, items);
    MatchedItemsAreItems(target, items);
    forall j | 0 <= j < |ms| ensures FaultFree(ms[j]) {
      var k :| 0 <= k < |items| && items[k] == ms[j];
    }
  }

  /** When no matched item raises, the story is one well-formed block of
      eight per matched item, in scan order. Unmatched items may hold
      anything: they are never recorded. */
  lemma FaultFreeStory(target: string, dir: string, items: seq<Item>)
    requires forall k :: 0 <= k < |items| && Matched(target, items[k]) ==> FaultFree(items[k])
    ensures Scan(target, dir, items).found == |MatchedItems(target, items)|
    ensures |Scan(target, dir, items).story| == 8 * Scan(target, dir, items).found
    ensures forall j :: 0 <= j < |MatchedItems(target, items)| ==>
              BlockHolds(dir, Scan(target, dir, items).story, j, MatchedItems(target, items)[j])
  {
    var ms := MatchedItems(target, items);
    var cs := Steps(target, dir, ms);
    ScanCountsMatches(target, dir, items);
    ScanIsRecordsOfMatches(target, dir, items);
    MatchedItemsFaultFree(target, items);
    forall j | 0 <= j < |ms| ensures cs[j] == Record(dir, ReadFields(ms[j]), ms[j].attachments) {
      MatchedStepIsRecord(target, dir, items, j);
    }
    RecordBlocks(dir, ms, cs);
  }

  /** The paths of every attachment of a run of items, in order. */
  function AllSavePaths(dir: string, items: seq<Item>): seq<string> {
    if items == [] then []
    else AllSavePaths(dir, items[..|items| - 1]) + SavePaths(dir, items[|items| - 1].attachments)
  }

  /** When no matched item raises, every attachment of every matched item is
      written, item after item. */
  lemma {:induction false} FaultFreeWrites(target: string, dir: string, items: seq<Item>)
    requires forall k :: 0 <= k < |items| && Matched(target, items[k]) ==> FaultFree(items[k])
    ensures Scan(target, dir, items).written == AllSavePaths(dir, MatchedItems(target, items))
  {
    if items != [] {
      var init, last := items[..|items| - 1], items[|items| - 1];
      assert forall k :: 0 <= k < |init| ==> init[k] == items[k];
      FaultFreeWrites(target, dir, init);
      ScanSnoc(target, dir, items);
      var m := MatchedItems(target, init);
      if Matched(target, last) {
        RecordWrites(dir, ReadFields(last), last.attachments);
        assert (m + [last])[..|m|] == m;
      } else {
        assert m + [] == m;
      }
    }
  }

  /** The loop of lines 58-102 over the collected items. */
  method ScanItems(target: string, dir: string, items: seq<Item>)
    returns (story: seq<Entry>, foundCount: nat, written: seq<string>)
    ensures Acc(story, foundCount, written) == Scan(target, dir, items)
  {
    story, foundCount, written := [], 0, [];
    for i := 0 to |items|
      invariant Acc(story, foundCount, written) == Scan(target, dir, items[..i])
    {
      ScanSnoc(target, dir, items[..i + 1]);
      assert items[..i + 1][..i] == items[..i];
      var entries, counted, savedFiles := ProcessItem(target, dir, items[i]);
      story := story + entries;
      if counted {
        foundCount := foundCount + 1;
      }
      written := written + savedFiles;
    }
    assert items[..|items|] == items;
  }


  /** What the run did to the outside world, in order. */
  datatype Effect =
    | Connect
    | MakeDirs(path: string)
    | SaveAsFile(path: string)
    | BuildPdf(file: string, story: seq<Entry>)

  /** The two folders the client exposes, already listed. */
  datatype Mailbox = Mailbox(inbox: seq<Item>, sent: seq<Item>)

  /** How the run ends: rejected target, the client unreachable (an uncaught
      exception), nothing found, or a document built from `found` records. */
  datatype Status = InvalidTarget | ConnectFailed | NoMatches | Exported(found: nat)

  function SaveEffects(paths: seq<string>): (r: seq<Effect>)
    ensures |r| == |paths| && forall k :: 0 <= k < |paths| ==> r[k] == SaveAsFile(paths[k])
  {
    if paths == [] then [] else SaveEffects(paths[..|paths| - 1]) + [SaveAsFile(paths[|paths| - 1])]
  }

  /** `export_outlook_emails()` after the prompt: `mailbox` is None when the
      connection fails, `dirExists` says whether the attachments directory is
      already there. */
  method ExportOutlookEmails(target: string, mailbox: Option<Mailbox>, dirExists: bool)
    returns (status: Status, effects: seq<Effect>)
    ensures status == InvalidTarget <==> !ValidTarget(target)
    ensures !ValidTarget(target) ==> effects == []
    ensures ValidTarget(target) ==> |effects| > 0 && effects[0] == Connect
    ensures ValidTarget(target) && mailbox.None? ==> status == ConnectFailed && effects == [Connect]
    ensures ValidTarget(target) && mailbox.Some? ==>
              var acc := Scan(target, AttachmentsDir(target), mailbox.value.inbox + mailbox.value.sent);
              && status == (if acc.found > 0 then Exported(acc.found) else NoMatches)
              && effects == [Connect]
                            + (if dirExists then [] else [MakeDirs(AttachmentsDir(target))])
                            + SaveEffects(acc.written)
                            + (if acc.found > 0 then [BuildPdf(OutputFile(target), acc.story)] else [])
  {
    if !(target != [] && '@' in target) {
      return InvalidTarget, [];
    }
    var outputFile := SafeFilenameBase(target) + "_export.pdf";
    var attachmentsDir := SafeFilenameBase(target) + "_attachments";
    if mailbox.None? {
      return ConnectFailed, [Connect];
    }
    var allItems := mailbox.value.inbox + mailbox.value.sent;
    var makeDirs := if dirExists then [] else [MakeDirs(attachmentsDir)];
    var story, foundCount, written := ScanItems(target, attachmentsDir, allItems);
    var build := [];
    if foundCount > 0 {
      build := [BuildPdf(outputFile, story)];
      status := Exported(foundCount);
    } else {
      status := NoMatches;
    }
    effects := [Connect] + makeDirs + SaveEffects(written) + build;
  }
}
