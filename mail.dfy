/** The mail items the exporter reads, the To/CC partition of their recipients
    and the address matcher (export_script.py, lines 60-73). */
module Mail {
  import opened Text
  import opened Naming

  /** `MailItem` in the client's object model; other classes (meeting
      requests, reports, ...) are skipped. */
  const MailItemClass := 43
  const ToRecipient := 1
  const CcRecipient := 2

  /** A recipient: its address, absent when the client reports none, and
      its role code. */
  datatype Recipient = Recipient(address: Option<string>, kind: int)

  /** An attachment: its original file name, and whether saving it to disk
      raises. */
  datatype Attachment = Attachment(fileName: string, saveFails: bool)

  /** A snapshot of one folder item. `sentOn` is the already formatted
      timestamp; `unreadable` stands for a fault while reading the item's
      fields, before anything is recorded for it. */
  datatype Item = Item(
    itemClass: int,
    senderAddress: Option<string>,
    subject: Option<string>,
    body: Option<string>,
    sentOn: Option<string>,
    recipients: seq<Recipient>,
    attachments: seq<Attachment>,
    unreadable: bool)

  /** Python's `value or default` on an optional string: both an absent value
      and the empty string are falsy. */
  function OrDefault(o: Option<string>, default: string): (r: string)
    ensures r == default || o == Some(r)
    ensures default != [] ==> r != []
  {
    if o.Some? && o.value != [] then o.value else default
  }

  /** The comprehensions of lines 66-67: the addresses of the recipients
      with role `kind`, in recipient order. */
  function AddressesOfType(rs: seq<Recipient>, kind: int): seq<Option<string>> {
    if rs == [] then []
    else AddressesOfType(rs[..|rs| - 1], kind)
         + (if rs[|rs| - 1].kind == kind then [rs[|rs| - 1].address] else [])
  }

  /** The partition keeps recipient order: recipients given in two runs
      contribute their addresses in the same two runs. */
  lemma {:induction false} AddressesOfTypeAppend(a: seq<Recipient>, b: seq<Recipient>, kind: int)
    decreases |b|
    ensures AddressesOfType(a + b, kind) == AddressesOfType(a, kind) + AddressesOfType(b, kind)
  {
    if b == [] {
      assert a + b == a;
    } else {
      assert (a + b)[..|a + b| - 1] == a + b[..|b| - 1];
      AddressesOfTypeAppend(a, b[..|b| - 1], kind);
    }
  }

  /** An address is in the list exactly when some recipient of that role
      carries it. */
  lemma {:induction false} AddressesOfTypeMembers(rs: seq<Recipient>, kind: int, a: Option<string>)
    ensures a in AddressesOfType(rs, kind) <==>
            exists i :: 0 <= i < |rs| && rs[i] == Recipient(a, kind)
  {
    if rs != [] {
      var init := rs[..|rs| - 1];
      AddressesOfTypeMembers(init, kind, a);
      if exists i :: 0 <= i < |rs| && rs[i] == Recipient(a, kind) {
        var i :| 0 <= i < |rs| && rs[i] == Recipient(a, kind);
        if i < |rs| - 1 {
          assert init[i] == rs[i];
        }
      }
      if exists i :: 0 <= i < |init| && init[i] == Recipient(a, kind) {
        var i :| 0 <= i < |init| && init[i] == Recipient(a, kind);
        assert rs[i] == init[i];
      }
    }
  }

  /** Number of recipients with role `kind`. */
  function CountOfType(rs: seq<Recipient>, kind: int): nat {
    if rs == [] then 0
    else CountOfType(rs[..|rs| - 1], kind) + (if rs[|rs| - 1].kind == kind then 1 else 0)
  }

  /** The To and CC lists hold one address per To and per CC recipient, so
      recipients of any other role appear in neither list; all recipients
      are listed exactly when every role is To or CC. */
  lemma {:induction false} PartitionSizes(rs: seq<Recipient>)
    ensures |AddressesOfType(rs, ToRecipient)| == CountOfType(rs, ToRecipient)
    ensures |AddressesOfType(rs, CcRecipient)| == CountOfType(rs, CcRecipient)
    ensures CountOfType(rs, ToRecipient) + CountOfType(rs, CcRecipient) <= |rs|
    ensures CountOfType(rs, ToRecipient) + CountOfType(rs, CcRecipient) == |rs| <==>
            forall i :: 0 <= i < |rs| ==> rs[i].kind in {ToRecipient, CcRecipient}
  {
    if rs != [] {
      var init := rs[..|rs| - 1];
      PartitionSizes(init);
      assert forall i :: 0 <= i < |init| ==> init[i] == rs[i];
    }
  }

  /** The address the matcher reads, line 72: a missing one is the empty
      string. */
  function AddressText(a: Option<string>): string {
    if a.Some? then a.value else []
  }

  /** The test of line 72: the (already lowered) target `t` is a substring of
      some lowered address of `addrs`. */
  function AnyContains(t: string, addrs: seq<Option<string>>): bool {
    if addrs == [] then false
    else IsInfix(t, Lower(AddressText(addrs[0]))) || AnyContains(t, addrs[1..])
  }

  /** The match test, lines 69-73: the lowered target is a substring of the
      lowered sender or of one of the lowered To/CC addresses. */
  function Matches(target: string, sender: string, to: seq<Option<string>>, cc: seq<Option<string>>): bool {
    IsInfix(Lower(target), Lower(sender)) || AnyContains(Lower(target), to + cc)
  }

  lemma {:induction false} AnyContainsCorrect(t: string, addrs: seq<Option<string>>)
    ensures AnyContains(t, addrs) <==>
            exists i :: 0 <= i < |addrs| && Contains(Lower(AddressText(addrs[i])), t)
  {
    if addrs != [] {
      IsInfixCorrect(t, Lower(AddressText(addrs[0])));
      AnyContainsCorrect(t, addrs[1..]);
      if exists i :: 0 <= i < |addrs| && Contains(Lower(AddressText(addrs[i])), t) {
        var i :| 0 <= i < |addrs| && Contains(Lower(AddressText(addrs[i])), t);
        if i > 0 {
          assert addrs[1..][i - 1] == addrs[i];
        }
      }
      if exists i :: 0 <= i < |addrs[1..]| && Contains(Lower(AddressText(addrs[1..][i])), t) {
        var i :| 0 <= i < |addrs[1..]| && Contains(Lower(AddressText(addrs[1..][i])), t);
        assert addrs[i + 1] == addrs[1..][i];
      }
    }
  }

  /** The matcher is the case-insensitive substring relation of the address
      contract: sender, or any address of the To list followed by the CC
      list, with a missing address read as the empty string. */
  lemma MatchesCorrect(target: string, sender: string, to: seq<Option<string>>, cc: seq<Option<string>>)
    ensures Matches(target, sender, to, cc) <==>
            Contains(Lower(sender), Lower(target)) ||
            (exists i :: 0 <= i < |to + cc| && Contains(Lower(AddressText((to + cc)[i])), Lower(target)))
  {
    IsInfixCorrect(Lower(target), Lower(sender));
    AnyContainsCorrect(Lower(target), to + cc);
  }

  /** A valid target never matches the placeholder "Unknown" that replaces a
      missing sender, so such an item can match through its recipients only. */
  lemma PlaceholderSenderNeverMatches(target: string, to: seq<Option<string>>, cc: seq<Option<string>>)
    requires ValidTarget(target)
    ensures Matches(target, "Unknown", to, cc) == AnyContains(Lower(target), to + cc)
  {
    IsInfixCorrect(Lower(target), Lower("Unknown"));
    LowerKeeps(target, '@');
    LowerKeeps("Unknown", '@');
    if Contains(Lower("Unknown"), Lower(target)) {
      ContainsChar(Lower("Unknown"), Lower(target), '@');
      assert false;
    }
  }

  /** Case is ignored: lowering the sender or the target beforehand does not
      change the outcome. */
  lemma MatchesIgnoresCase(target: string, sender: string, to: seq<Option<string>>, cc: seq<Option<string>>)
    ensures Matches(target, Lower(sender), to, cc) == Matches(target, sender, to, cc)
    ensures Matches(Lower(target), sender, to, cc) == Matches(target, sender, to, cc)
  {
    LowerIdempotent(sender);
    LowerIdempotent(target);
  }

  /** An item whose sender and To/CC addresses all lack some character of the
      lowered target does not match, whatever the roles of its recipients;
      a missing address is read as the empty string and does not raise. */
  lemma UnrelatedDoesNotMatch(target: string, sender: string, to: seq<Option<string>>, cc: seq<Option<string>>, c: char)
    requires c in Lower(target)
    requires c !in Lower(sender)
    requires forall i :: 0 <= i < |to + cc| ==> c !in Lower(AddressText((to + cc)[i]))
    ensures !Matches(target, sender, to, cc)
  {
    MatchesCorrect(target, sender, to, cc);
    if Contains(Lower(sender), Lower(target)) {
      ContainsChar(Lower(sender), Lower(target), c);
    }
    forall i | 0 <= i < |to + cc|
      ensures !Contains(Lower(AddressText((to + cc)[i])), Lower(target))
    {
      if Contains(Lower(AddressText((to + cc)[i])), Lower(target)) {
        ContainsChar(Lower(AddressText((to + cc)[i])), Lower(target), c);
      }
    }
  }
}
