/** The report story: the paragraphs and spacers handed to the PDF builder,
    and the display fields of a mail item (export_script.py, lines 61-64 and
    79-99). */
module Report {
  import opened Text
  import opened Mail

  /** The bold label that starts each paragraph of a record. */
  datatype Label = Subject | From | To | Cc | Date | Body | AttachmentsSaved | NoAttachments

  /** A story entry: a paragraph, whose markup is `Head(tag) + text` as the
      source's f-strings build it, or `Spacer(width, height)`. */
  datatype Entry = Para(tag: Label, text: string) | Spacer(width: int, height: int)

  /** The markup in front of a paragraph's text. */
  function Head(tag: Label): string {
    match tag
    case Subject => "<b>Subject:</b> "
    case From => "<b>From:</b> "
    case To => "<b>To:</b> "
    case Cc => "<b>CC:</b> "
    case Date => "<b>Date:</b> "
    case Body => "<b>Body:</b><br/>"
    case AttachmentsSaved => "<b>Attachments saved:</b> "
    case NoAttachments => "<b>Attachments:</b> "
  }

  const Separator := ", "
  const BlockSpacer := Spacer(1, 20)

  /** The markup string given to the Paragraph. */
  function Markup(e: Entry): string
    requires e.Para?
  {
    Head(e.tag) + e.text
  }

  /** The body transform of line 84: each LF becomes a line-break tag, then
      each CR is dropped. */
  function RenderBody(body: string): (r: string)
    ensures '\n' !in r && '\r' !in r
  {
    var broken := Replace(body, '\n', "<br/>");
    ReplaceRemoves(body, '\n', "<br/>");
    ReplaceKeeps(broken, '\r', "", '\n');
    ReplaceRemoves(broken, '\r', "");
    Replace(broken, '\r', "")
  }

  /** What one body character becomes: LF a line break, CR nothing. */
  function BodyPiece(c: char): string {
    if c == '\n' then "<br/>" else if c == '\r' then "" else [c]
  }

  /** The body is rendered character by character, in order. */
  lemma {:induction false} RenderBodyAppend(s: string, c: char)
    ensures RenderBody(s + [c]) == RenderBody(s) + BodyPiece(c)
  {
    ReplaceAppend(s, [c], '\n', "<br/>");
    var a := Replace(s, '\n', "<br/>");
    var b := Replace([c], '\n', "<br/>");
    assert b == (if c == '\n' then "<br/>" else [c]) + Replace([], '\n', "<br/>");
    ReplaceAppend(a, b, '\r', "");
    if c == '\n' {
      ReplaceAbsent(b, '\r', "");
    } else {
      assert Replace([c], '\r', "") == (if c == '\r' then "" else [c]) + Replace([], '\r', "");
    }
  }

  /** A body with no LF and no CR is shown as it is. */
  lemma RenderBodyPlain(body: string)
    requires '\n' !in body && '\r' !in body
    ensures RenderBody(body) == body
  {
    ReplaceAbsent(body, '\n', "<br/>");
    ReplaceAbsent(body, '\r', "");
  }

  /** Line 64: the formatted send time, or "Unknown" when there is none. */
  function DateText(sentOn: Option<string>): string {
    if sentOn.Some? then sentOn.value else "Unknown"
  }

  /** The display fields of lines 61-64 and the recipient lists of 66-67. */
  datatype Fields = Fields(
    sender: string, subject: string, body: string, date: string,
    to: seq<Option<string>>, cc: seq<Option<string>>)

  function ReadFields(item: Item): (f: Fields)
    ensures f.sender != "" && f.subject != ""
    ensures item.senderAddress.Some? && item.senderAddress.value != "" ==> f.sender == item.senderAddress.value
    ensures item.senderAddress.None? || item.senderAddress == Some("") ==> f.sender == "Unknown"
    ensures item.subject.Some? && item.subject.value != "" ==> f.subject == item.subject.value
    ensures item.subject.None? || item.subject == Some("") ==> f.subject == "No Subject"
    ensures item.body.Some? ==> f.body == item.body.value
    ensures item.body.None? ==> f.body == ""
    ensures item.sentOn.Some? ==> f.date == item.sentOn.value
    ensures item.sentOn.None? ==> f.date == "Unknown"
  {
    Fields(
      OrDefault(item.senderAddress, "Unknown"),
      OrDefault(item.subject, "No Subject"),
      OrDefault(item.body, ""),
      DateText(item.sentOn),
      AddressesOfType(item.recipients, ToRecipient),
      AddressesOfType(item.recipients, CcRecipient))
  }

  /** The strings of a list with no missing entry. */
  function Present(addrs: seq<Option<string>>): (r: seq<string>)
    requires None !in addrs
    ensures |r| == |addrs| && forall i :: 0 <= i < |r| ==> addrs[i] == Some(r[i])
  {
    if addrs == [] then [] else [addrs[0].value] + Present(addrs[1..])
  }

  /** The six field paragraphs of lines 79-84, for recipient lists with no
      missing address. */
  function FieldParas(f: Fields): seq<Entry>
    requires None !in f.to && None !in f.cc
  {
    [ Para(Subject, f.subject),
      Para(From, f.sender),
      Para(To, Join(Separator, Present(f.to))),
      Para(Cc, Join(Separator, Present(f.cc))),
      Para(Date, f.date),
      Para(Body, RenderBody(f.body)) ]
  }

  /** The attachments paragraph of lines 95 and 97. */
  function AttachmentsPara(attachmentCount: nat, saved: seq<string>): Entry {
    if attachmentCount > 0 then Para(AttachmentsSaved, Join(Separator, saved))
    else Para(NoAttachments, "None")
  }

  /** The whole record of one matched item that raises nothing. */
  function Block(f: Fields, attachmentCount: nat, saved: seq<string>): seq<Entry>
    requires None !in f.to && None !in f.cc
  {
    FieldParas(f) + [AttachmentsPara(attachmentCount, saved), BlockSpacer]
  }

  /** The shape every record has: eight entries, the labelled fields in the
      order Subject, From, To, CC, Date, Body, then the attachments line,
      which is "None" exactly when the item has no attachment, then the
      spacer; the body paragraph holds no LF and no CR. */
  ghost predicate WellFormedBlock(b: seq<Entry>, attachmentCount: nat) {
    |b| == 8
    && b[0].Para? && b[0].tag == Subject
    && b[1].Para? && b[1].tag == From
    && b[2].Para? && b[2].tag == To
    && b[3].Para? && b[3].tag == Cc
    && b[4].Para? && b[4].tag == Date
    && b[5].Para? && b[5].tag == Body
    && '\n' !in Markup(b[5]) && '\r' !in Markup(b[5])
    && b[6].Para?
    && (b[6] == Para(NoAttachments, "None") <==> attachmentCount == 0)
    && (b[6].tag == AttachmentsSaved <==> attachmentCount > 0)
    && b[7] == BlockSpacer
  }

  lemma BlockWellFormed(f: Fields, attachmentCount: nat, saved: seq<string>)
    requires None !in f.to && None !in f.cc
    ensures WellFormedBlock(Block(f, attachmentCount, saved), attachmentCount)
  {
    var b := Block(f, attachmentCount, saved);
    assert '\n' !in Head(Body) && '\r' !in Head(Body);
    assert Markup(b[5]) == Head(Body) + RenderBody(f.body);
  }
}
