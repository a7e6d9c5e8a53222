/** Target validation and the names of the two output artefacts, both derived
    from the target address alone (export_script.py, lines 22-28). */
module Naming {
  import opened Text

  /** The run goes on only for a non-empty target that contains '@'. */
  predicate ValidTarget(target: string) {
    target != [] && '@' in target
  }

  /** The base name of line 26: every '@' of the target replaced by "_at_",
      then every '.' by "_". */
  function SafeFilenameBase(target: string): (r: string)
    ensures '@' !in r && '.' !in r
  {
    var noAt := Replace(target, '@', "_at_");
    ReplaceRemoves(target, '@', "_at_");
    ReplaceKeeps(noAt, '.', "_", '@');
    ReplaceRemoves(noAt, '.', "_");
    Replace(noAt, '.', "_")
  }

  function OutputFile(target: string): string {
    SafeFilenameBase(target) + "_export.pdf"
  }

  function AttachmentsDir(target: string): string {
    SafeFilenameBase(target) + "_attachments"
  }

  /** What one character of the target becomes in the base name. */
  function SafePiece(c: char): string {
    if c == '@' then "_at_" else if c == '.' then "_" else [c]
  }

  /** The base name is built character by character: each character of the
      target is replaced by its SafePiece, in order. */
  lemma {:induction false} SafeFilenameBaseAppend(s: string, c: char)
    ensures SafeFilenameBase(s + [c]) == SafeFilenameBase(s) + SafePiece(c)
  {
    ReplaceAppend(s, [c], '@', "_at_");
    var a := Replace(s, '@', "_at_");
    var b := Replace([c], '@', "_at_");
    assert Replace([c], '@', "_at_") == (if c == '@' then "_at_" else [c]) + Replace([], '@', "_at_");
    ReplaceAppend(a, b, '.', "_");
    if c == '@' {
      assert b == "_at_";
      assert Replace(b, '.', "_") == "_at_" by {
        ReplaceAbsent(b, '.', "_");
      }
    } else {
      assert b == [c];
      assert Replace([c], '.', "_") == (if c == '.' then "_" else [c]) + Replace([], '.', "_");
    }
  }

  /** A target without '@' and '.' is its own base name. */
  lemma SafeFilenameBaseIdentity(target: string)
    requires '@' !in target && '.' !in target
    ensures SafeFilenameBase(target) == target
  {
    ReplaceAbsent(target, '@', "_at_");
    ReplaceAbsent(target, '.', "_");
  }

  /** A character that none of the replacements touches or introduces is in
      the base name exactly when it is in the target. */
  lemma SafeFilenameBaseKeeps(target: string, d: char)
    requires d != '@' && d != '.' && d != '_' && d != 'a' && d != 't'
    ensures d in SafeFilenameBase(target) <==> d in target
  {
    ReplaceKeeps(target, '@', "_at_", d);
    ReplaceKeeps(Replace(target, '@', "_at_"), '.', "_", d);
  }

  /** Both names start with the base name; the document name is the only one
      with a '.', the PDF extension; neither contains '@'. */
  lemma OutputNames(target: string)
    ensures OutputFile(target)[..|SafeFilenameBase(target)|] == SafeFilenameBase(target)
    ensures AttachmentsDir(target)[..|SafeFilenameBase(target)|] == SafeFilenameBase(target)
    ensures '@' !in OutputFile(target) && '@' !in AttachmentsDir(target)
    ensures '.' !in AttachmentsDir(target)
    ensures OutputFile(target)[|OutputFile(target)| - 4..] == ".pdf"
    ensures OutputFile(target) != AttachmentsDir(target)
  {
    var b := SafeFilenameBase(target);
    assert OutputFile(target)[|b| + 7] == '.';
    assert "_attachments"[..] == "_attachments";
    assert forall i :: 0 <= i < |"_attachments"| ==> "_attachments"[i] != '.';
  }
}
