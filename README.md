# Outlook to PDF exporter, modelled in Dafny

`export_outlook_emails()` asks for a target address and validates it. It
derives the names of the output PDF and of the attachments directory from it.
It then connects to the mail client and lists the Inbox items followed by the
Sent Items items. For each readable mail item (class 43) whose sender, To
addresses or CC addresses contain the target, ignoring case, it does three
things:

- it increments `found_count`;
- it appends a record to the report story: Subject, From, To, CC, Date, Body,
  the attachments line and a spacer;
- it saves each attachment under a sanitised file name.

The PDF is built only when at least one item matched.

This project models that logic on plain values:

- `text.dfy` (`Text`): ASCII lower-casing, substring search, `str.replace` and
  `str.join`.
- `naming.dfy` (`Naming`): target validation and the two output names.
- `mail.dfy` (`Mail`): the item and recipient records, the To/CC partition,
  Python's `x or default`, and the matcher.
- `sanitize.dfy` (`Sanitize`): the attachment file-name sanitiser.
- `report.dfy` (`Report`): the story entries, the field defaults, the body
  transform and the eight-entry record.
- `item.dfy` (`ItemStep`): one iteration of the scan loop. It covers the match
  decision, the record, the attachment loop and where a fault cuts the record
  short.
- `scan.dfy` (`Export`): the scan over all items as a fold of per-item steps,
  the imperative loop proved against it, and the whole run. The run is given
  as the outward effects it performs, in order: connect, create the directory,
  save the files, build the PDF.

Faults are data:

- A missing To or CC address makes `', '.join` raise.
- A recipient address that is absent is `None`.
- An attachment carries a flag saying whether saving it raises.
- An item carries a flag saying whether reading its fields raises.

The blanket `except` of the loop keeps what was appended before the fault and
keeps the count. The model does the same.

## Model

| member | source | states |
|---|---|---|
| `Text.IsInfixCorrect` | export_script.py:70-72 | Python's `a in b` on strings, as computed, holds exactly when `a` occurs in `b` at some position |
| `Text.ReplaceRemoves` | export_script.py:26 | after replacing every `c` by a text free of `c`, no `c` is left |
| `Text.ReplaceKeeps` | export_script.py:26 | a character other than `c`, and absent from the replacement, is in the result iff it is in the input |
| `Text.ReplaceAppend` | export_script.py:84 | replacement works piecewise: replacing in `s + t` is replacing in `s` and in `t` |
| `Text.ReplaceAbsent` | export_script.py:84 | replacing a character that does not occur changes nothing |
| `Naming.SafeFilenameBase` | export_script.py:26 | the base name contains neither '@' nor '.' |
| `Naming.SafeFilenameBaseAppend` | export_script.py:26 | the base name is the target with each '@' replaced by "_at_" and each '.' by "_", character by character in order |
| `Naming.SafeFilenameBaseIdentity` | export_script.py:26 | a target without '@' and '.' is its own base name |
| `Naming.SafeFilenameBaseKeeps` | export_script.py:26 | a character the replacements neither touch nor introduce is in the base name iff it is in the target |
| `Naming.OutputNames` | export_script.py:26-28 | both output names start with the base name; neither contains '@'; the directory has no '.'; the document ends in ".pdf"; the two names differ |
| `Mail.OrDefault` | export_script.py:61-63 | the result is either the default or the value that is present, and it is never empty when the default is not |
| `Mail.AddressesOfTypeMembers` | export_script.py:66-67 | an address is in the list of a role iff some recipient of that role carries it |
| `Mail.AddressesOfTypeAppend` | export_script.py:66-67 | the partition keeps recipient order |
| `Mail.PartitionSizes` | export_script.py:66-67 | the To and CC lists hold one address per To and per CC recipient; together they cover every recipient iff every role is To or CC |
| `Mail.AnyContainsCorrect` | export_script.py:72 | the `any(...)` test holds iff the lowered target is a substring of some address, a missing address read as "" |
| `Mail.MatchesCorrect` | export_script.py:69-73 | an item matches iff the lowered target is a substring of the lowered sender or of a lowered To or CC address |
| `Mail.PlaceholderSenderNeverMatches` | export_script.py:61-72 | for a valid target, the "Unknown" placeholder of a missing sender never matches, so such an item matches through its recipients only |
| `Text.LowerIdempotent` | export_script.py:70-72 | lowering twice is lowering once |
| `Mail.MatchesIgnoresCase` | export_script.py:70-72 | for all inputs, lowering the sender or the target beforehand does not change whether the item matches |
| `Mail.UnrelatedDoesNotMatch` | export_script.py:69-73 | for all inputs: when a character of the lowered target is absent from the lowered sender and from every lowered To/CC address (a missing one read as ""), the item does not match |
| `Sanitize.KeepAllowed` | export_script.py:90 | every character the filter keeps is alphanumeric, a space, '.' or '_' |
| `Sanitize.KeepAllowedAppend` | export_script.py:90 | the filter works piecewise over concatenation |
| `Sanitize.KeepAllowedChar` | export_script.py:90 | on one character the filter keeps it iff it is allowed |
| `Sanitize.KeepAllowedIdentity` | export_script.py:90 | a string of allowed characters passes the filter unchanged |
| `Sanitize.RStripShape` | export_script.py:90 | `rstrip` removes a whitespace-only suffix, keeps the rest as a prefix, and leaves no trailing whitespace |
| `Sanitize.KeepAllowedSubsequence` | export_script.py:90 | the filter's output is obtained from the input by deleting characters |
| `Sanitize.SanitizeFileNameCorrect` | export_script.py:90 | the sanitised name is a subsequence of the original, holds only allowed characters and does not end in a space |
| `Sanitize.SanitizeFileNameDropsOnlyTrailingSpaces` | export_script.py:90 | the filter's output is the sanitised name followed by spaces only |
| `Sanitize.SanitizeFileNameIdempotent` | export_script.py:90 | sanitising a sanitised name gives it back unchanged |
| `Report.RenderBody` | export_script.py:84 | the rendered body contains no LF and no CR |
| `Report.RenderBodyAppend` | export_script.py:84 | the body is rendered character by character: LF becomes "<br/>", CR is dropped, anything else is kept |
| `Report.RenderBodyPlain` | export_script.py:84 | a body without LF and CR is shown unchanged |
| `Report.ReadFields` | export_script.py:61-67 | sender and subject are never empty. A missing or empty sender or subject becomes "Unknown" or "No Subject", a missing body "" and a missing sent time "Unknown". Present values are kept |
| `Report.Present` | export_script.py:81-82 | a list with no missing address gives its strings, one for one and in order, ready for the join |
| `Report.BlockWellFormed` | export_script.py:79-99 | a full record has eight entries: Subject, From, To, CC, Date, Body (without LF or CR), the attachments line ("None" iff there is no attachment) and the spacer |
| `ItemStep.SavePaths` | export_script.py:89-93 | one path per attachment, in order, each the directory joined with the sanitised name |
| `ItemStep.FirstFault` | export_script.py:89-92 | the attachments before the returned index save without raising, and the one at it raises |
| `ItemStep.ProcessCountsMatch` | export_script.py:60-76 | an item is counted iff it is a readable mail item that matches; any other item, in particular a non-mail item, adds nothing |
| `ItemStep.RecordStart` | export_script.py:76-80 | a matched item is always counted, and its record starts with Subject and From |
| `ItemStep.RecordLength` | export_script.py:79-99 | a record has 2, 3, 6 or 8 entries. It has 8 iff nothing raises, 2 iff a To address is missing, and 3 iff the To list is complete but a CC address is missing |
| `ItemStep.RecordWrites` | export_script.py:86-95 | the files written are a prefix of the attachments' paths. When the To and CC lists are complete, they are exactly the paths of the attachments in front of the first failing save, and all of them when nothing raises. When a To or CC address is missing, nothing is written |
| `ItemStep.FaultFreeRecord` | export_script.py:76-99 | the record of a matched item that raises nothing is its full, well-formed block |
| `ItemStep.SaveAttachments` | export_script.py:88-94 | the loop saves the attachments in order, up to the first save that raises, and reports whether one raised |
| `ItemStep.RecordItem` | export_script.py:76-99 | the appends of a matched item produce its record, stopping where a fault is raised |
| `ItemStep.ProcessItem` | export_script.py:59-99 | one iteration of the loop body produces the step of that item |
| `Export.StepsAppend` | export_script.py:46 | the steps of two runs of items are the steps of each, joined |
| `Export.ScanSnoc` | export_script.py:58 | the loop processes items one at a time, in order |
| `Export.ScanAppend` | export_script.py:46 | scanning the Inbox items followed by the Sent Items items is scanning each folder and joining the stories, counts and written files |
| `Export.FoldCounts` | export_script.py:54-76 | `found_count` counts the counted steps; the story and the written files are those of the counted steps, in order |
| `Export.CountedSteps` | export_script.py:60-76 | the counted steps are exactly the steps of the matched items, in scan order |
| `Export.MatchedItemsAreItems` | export_script.py:58-75 | every matched item is one of the scanned items and does match |
| `Export.ScanCountsMatches` | export_script.py:75-76 | `found_count` is the number of matched items |
| `Export.ScanIsRecordsOfMatches` | export_script.py:58-99 | the story and the written files are those of the matched items' records, in scan order |
| `Export.MatchedStepIsRecord` | export_script.py:75-99 | the step of each matched item is its record |
| `Export.UnmatchedItemsAddNothing` | export_script.py:60-75 | items that do not match leave the story, the count and the written files unchanged |
| `Export.RecordBlocks` | export_script.py:79-99 | the records of fault-free items laid end to end are their well-formed blocks of eight, in order |
| `Export.MatchedItemsFaultFree` | export_script.py:58-75 | a premise on the matched scanned items holds of every matched item |
| `Export.FaultFreeStory` | export_script.py:58-99 | when no matched item raises (unmatched items may hold anything), the story has exactly 8 entries per matched item, and its `j`th block of eight is the full, well-formed record of the `j`th matched item |
| `Export.FaultFreeWrites` | export_script.py:88-93 | when no matched item raises, every attachment of every matched item is written, item after item |
| `Export.EntriesBlockAt` | export_script.py:79-99 | records of eight entries laid end to end: the `j`th block of eight is the `j`th record |
| `Export.ScanItems` | export_script.py:54-102 | the imperative loop ends with the story, count and written files of the scan |
| `Export.ExportOutlookEmails` | export_script.py:18-110 | An invalid target is rejected before any effect. A valid target connects first. A failed connection ends the run after connecting. Otherwise the run creates the directory if it is missing, saves the scan's files and builds the PDF from the story iff at least one item matched; the status reports the count |

## Left out

- Outlook access (lines 37-46) is a foreign call. The mailbox is given as two already-listed sequences of item records, and a connection failure is given as an absent mailbox. The source lets that exception escape; the model ends the run with the status `ConnectFailed`.
- Faults while listing folders or reading `item.Attachments.Count` are not modelled separately. A fault while reading an item's fields is the item's `unreadable` flag, which adds nothing for the item.
- ItemStep.Record: every `Paragraph` construction (lines 79-84, 95, 97) is taken to succeed. reportlab parses the markup it is given; subject, sender, addresses and body are not escaped, so text it cannot parse raises. That fault would land in the blanket `except` and cut the record short, skipping the attachment loop when it happens at lines 79-84. The model has no such fault, so `FaultFree`, `RecordLength` and `FaultFreeStory` speak only of the modelled faults: missing addresses, unreadable fields and failing saves.
- reportlab is abstracted: the story holds `Para(tag, text)` and `Spacer(width, height)` entries. `Paragraph` styles, the letter page size and the PDF layout are not modelled. Building the document is one effect that carries the story; its failure is not modelled.
- `strftime` (line 64) is a library call: the sent time is an already formatted optional string.
- `lower()`, `isalnum()` and `isspace()` are modelled on ASCII. Unicode case mapping and Unicode categories are not part of this model.
- The filesystem is a log of effects. Overwriting on a name collision is not modelled, nor is the race between `os.path.exists` and `os.makedirs`, nor an empty sanitised name naming the directory itself. Paths are joined with the Windows separator, since the mail client automation runs only on Windows.
- Progress bars, `print`, `tqdm.write` and the `input()` prompt are I/O with no effect on control flow. The target is a parameter.
- No HTML escaping happens on subject, sender or body text, and the model claims no markup safety.
