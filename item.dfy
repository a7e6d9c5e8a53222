/** One iteration of the scan loop of `export_outlook_emails()`
    (export_script.py, lines 59-102): decide whether an item matches, and if
    it does, record it and save its attachments. */
module ItemStep {
  import opened Text
  import opened Naming
  import opened Mail
  import opened Sanitize
  import opened Report

  /** `os.path.join` on Windows, the only platform the mail client runs on. */
  const PathSep := '\\'

  /** The save path of line 91: the attachments directory joined with the
      sanitised name. */
  function SavePath(dir: string, att: Attachment): string {
    dir + [PathSep] + SanitizeFileName(att.fileName)
  }

  /** The paths of a run of attachments, in order. */
  function SavePaths(dir: string, atts: seq<Attachment>): (r: seq<string>)
    ensures |r| == |atts|
    ensures forall k :: 0 <= k < |atts| ==> r[k] == SavePath(dir, atts[k])
  {
    if atts == [] then [] else SavePaths(dir, atts[..|atts| - 1]) + [SavePath(dir, atts[|atts| - 1])]
  }

  /** The index of the first attachment whose save raises, or the number of
      attachments when none does. */
  function FirstFault(atts: seq<Attachment>): (r: nat)
    ensures r <= |atts|
    ensures forall k :: 0 <= k < r ==> !atts[k].saveFails
    ensures r < |atts| ==> atts[r].saveFails
  {
    if atts == [] then 0 else if atts[0].saveFails then 0 else 1 + FirstFault(atts[1..])
  }

  /** What processing one item contributes: its story entries, whether it
      was counted in `found_count`, and the files it wrote. */
  datatype Step = Step(entries: seq<Entry>, counted: bool, written: seq<string>)

  /** The item is readable, is a mail item, and its addresses match. */
  predicate Matched(target: string, item: Item) {
    !item.unreadable && item.itemClass == MailItemClass &&
    var f := ReadFields(item);
    Matches(target, f.sender, f.to, f.cc)
  }

  /** Recording the item raises none of the faults this model knows of: its
      fields can be read, no To or CC address is missing (the joins of lines
      81-82 need strings), and every attachment saves. Only matched items
      are recorded, so only their faults matter. */
  predicate FaultFree(item: Item) {
    !item.unreadable && RecordFaultFree(ReadFields(item), item.attachments)
  }

  predicate RecordFaultFree(f: Fields, atts: seq<Attachment>) {
    None !in f.to && None !in f.cc && forall k :: 0 <= k < |atts| ==> !atts[k].saveFails
  }

  /** One iteration of the loop body, lines 59-102. */
  function Process(target: string, dir: string, item: Item): Step {
    if Matched(target, item) then Record(dir, ReadFields(item), item.attachments)
    else Step([], false, [])
  }

  /** The record of a matched item, lines 76-99. The item is counted first;
      a fault leaves in place whatever was appended before it. */
  function Record(dir: string, f: Fields, atts: seq<Attachment>): Step {
    var firstTwo := [Para(Subject, f.subject), Para(From, f.sender)];
    if None in f.to then Step(firstTwo, true, [])
    else if None in f.cc then Step(firstTwo + [Para(To, Join(Separator, Present(f.to)))], true, [])
    else if |atts| == 0 then Step(Block(f, 0, []), true, [])
    else
      var written := SavePaths(dir, atts[..FirstFault(atts)]);
      if FirstFault(atts) < |atts| then Step(FieldParas(f), true, written)
      else Step(Block(f, |atts|, written), true, written)
  }

  /** The record of a matched item that raises nothing is its whole block. */
  lemma FaultFreeRecord(dir: string, item: Item)
    requires FaultFree(item)
    ensures Record(dir, ReadFields(item), item.attachments).entries
            == Block(ReadFields(item), |item.attachments|, SavePaths(dir, item.attachments))
    ensures WellFormedBlock(Record(dir, ReadFields(item), item.attachments).entries, |item.attachments|)
  {
    var atts := item.attachments;
    BlockWellFormed(ReadFields(item), |atts|, SavePaths(dir, atts));
    if |atts| > 0 {
      assert atts[..FirstFault(atts)] == atts;
    }
  }

  /** An item is counted in `found_count` exactly when it matches, and an
      item that does not (a non-mail item, an unreadable one, or one whose
      addresses miss the target) adds nothing. */
  lemma ProcessCountsMatch(target: string, dir: string, item: Item)
    ensures Process(target, dir, item).counted <==> Matched(target, item)
    ensures !Matched(target, item) ==> Process(target, dir, item) == Step([], false, [])
    ensures item.itemClass != MailItemClass ==> Process(target, dir, item) == Step([], false, [])
  {
    if Matched(target, item) {
      RecordStart(dir, ReadFields(item), item.attachments);
    }
  }

  /** A matched item is always counted and its record starts with Subject
      and From. */
  lemma RecordStart(dir: string, f: Fields, atts: seq<Attachment>)
    ensures Record(dir, f, atts).counted
    ensures |Record(dir, f, atts).entries| >= 2
    ensures Record(dir, f, atts).entries[..2] == [Para(Subject, f.subject), Para(From, f.sender)]
  {
  }

  /** The record is cut short exactly when something in it raises: after
      From when a To address is missing, after To when a CC address is
      missing, after Body when a save fails. */
  lemma RecordLength(dir: string, f: Fields, atts: seq<Attachment>)
    ensures |Record(dir, f, atts).entries| in {2, 3, 6, 8}
    ensures |Record(dir, f, atts).entries| == 8 <==> RecordFaultFree(f, atts)
    ensures |Record(dir, f, atts).entries| == 2 <==> None in f.to
    ensures |Record(dir, f, atts).entries| == 3 <==> None !in f.to && None in f.cc
  {
    if None !in f.to && None !in f.cc && |atts| > 0 && FirstFault(atts) == |atts| {
      assert RecordFaultFree(f, atts);
    }
  }

  /** Exactly the attachments in front of the first failing save are
      written, all of them when none fails. */
  lemma RecordWrites(dir: string, f: Fields, atts: seq<Attachment>)
    ensures var w := Record(dir, f, atts).written;
            && |w| <= |atts|
            && w == SavePaths(dir, atts)[..|w|]
            && (RecordFaultFree(f, atts) ==> w == SavePaths(dir, atts))
    ensures None !in f.to && None !in f.cc ==>
              Record(dir, f, atts).written == SavePaths(dir, atts[..FirstFault(atts)])
    ensures None in f.to || None in f.cc ==> Record(dir, f, atts).written == []
  {
    if |atts| == 0 {
      assert atts[..FirstFault(atts)] == [];
    }
    if None !in f.to && None !in f.cc && |atts| > 0 {
      var n := FirstFault(atts);
      assert SavePaths(dir, atts)[..n] == SavePaths(dir, atts[..n]);
      if n == |atts| {
        assert atts[..n] == atts;
      }
    }
  }

  /** The attachment loop of lines 88-94: save each attachment under its
      sanitised name, stopping at the first save that raises. */
  method SaveAttachments(dir: string, atts: seq<Attachment>)
    returns (savedFiles: seq<string>, faulted: bool)
    ensures faulted <==> FirstFault(atts) < |atts|
    ensures savedFiles == SavePaths(dir, atts[..FirstFault(atts)])
  {
    savedFiles, faulted := [], false;
    for j := 0 to |atts|
      invariant j <= FirstFault(atts)
      invariant savedFiles == SavePaths(dir, atts[..j])
    {
      var safeName := SanitizeFileName(atts[j].fileName);
      var savePath := dir + [PathSep] + safeName;
      if atts[j].saveFails {
        return savedFiles, true;
      }
      assert atts[..j + 1][..j] == atts[..j];
      savedFiles := savedFiles + [savePath];
    }
    assert atts[..|atts|] == atts;
  }

  /** The body of the scan loop, lines 59-75, for one item: skip it unless
      it is a readable mail item whose addresses match. */
  method ProcessItem(target: string, dir: string, item: Item)
    returns (entries: seq<Entry>, counted: bool, written: seq<string>)
    ensures Step(entries, counted, written) == Process(target, dir, item)
  {
    if item.unreadable || item.itemClass != MailItemClass {
      return [], false, [];
    }
    var f := ReadFields(item);
    if !Matches(target, f.sender, f.to, f.cc) {
      return [], false, [];
    }
    entries, written := RecordItem(dir, f, item.attachments);
    counted := true;
  }

  /** Lines 76-99 for a matched item: append its record to the story and
      save its attachments; a fault ends the item where it happens. */
  method RecordItem(dir: string, f: Fields, atts: seq<Attachment>)
    returns (entries: seq<Entry>, written: seq<string>)
    ensures Step(entries, true, written) == Record(dir, f, atts)
  {
    written := [];
    entries := [Para(Subject, f.subject)];
    entries := entries + [Para(From, f.sender)];
    if None in f.to {
      return;
    }
    entries := entries + [Para(To, Join(Separator, Present(f.to)))];
    if None in f.cc {
      return;
    }
    entries := entries + [Para(Cc, Join(Separator, Present(f.cc)))];
    entries := entries + [Para(Date, f.date)];
    entries := entries + [Para(Body, RenderBody(f.body))];
    assert entries == FieldParas(f);
    if |atts| > 0 {
      var savedFiles, faulted := SaveAttachments(dir, atts);
      written := savedFiles;
      if faulted {
        return;
      }
      entries := entries + [Para(AttachmentsSaved, Join(Separator, savedFiles))];
    } else {
      entries := entries + [Para(NoAttachments, "None")];
    }
    entries := entries + [BlockSpacer];
  }

}
