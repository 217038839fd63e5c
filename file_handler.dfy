/**
  `BasicContactList.ContactManager` as written in ContactFileHandler.cs: the
  shared add, find and delete logic, a bulk loader that cuts each field at a
  fixed offset, and an update that splices the name and e-mail segments of
  the first matching line.
 */
module FileHandlerVariant {
  import opened Wrappers
  import opened Text
  import opened Numerals
  import opened Records
  import opened ContactStore

  // ---------------------------------------------------------------------------
  // LoadContactsFromFile
  // ---------------------------------------------------------------------------

  /** What the loader makes of each line, in file order. */
  function Outcomes(lines: seq<string>): (r: seq<LineOutcome>)
    ensures |r| == |lines|
  {
    if lines == [] then [] else [DecodeLoaded(lines[0])] + Outcomes(lines[1..])
  }

  lemma {:induction false} OutcomeAt(lines: seq<string>, k: nat)
    requires k < |lines|
    ensures Outcomes(lines)[k] == DecodeLoaded(lines[k])
  {
    if k > 0 {
      OutcomeAt(lines[1..], k - 1);
    }
  }

  /** The contacts a run of line outcomes yields: the decoded ones in order,
      skipped lines dropped, and nothing from the first throw onwards (the
      `try` encloses the whole loop). */
  function Collect(outs: seq<LineOutcome>): (r: seq<Contact>)
    ensures |r| <= |outs|
  {
    if outs == [] then []
    else match outs[0]
      case Thrown => []
      case Skipped => Collect(outs[1..])
      case Decoded(c) => [c] + Collect(outs[1..])
  }

  /** The contacts `LoadContactsFromFile` returns for a readable file. */
  function LoadLines(lines: seq<string>): (r: seq<Contact>)
    ensures |r| <= |lines|
  {
    Collect(Outcomes(lines))
  }

  /** No outcome is a throw. */
  predicate NoThrow(outs: seq<LineOutcome>) {
    forall k :: 0 <= k < |outs| ==> !outs[k].Thrown?
  }

  /** Collecting a run is collecting its two halves one after the other,
      unless the first half throws, in which case the second is never reached. */
  lemma {:induction false} CollectAppend(a: seq<LineOutcome>, b: seq<LineOutcome>)
    ensures NoThrow(a) ==> Collect(a + b) == Collect(a) + Collect(b)
    ensures !NoThrow(a) ==> Collect(a + b) == Collect(a)
  {
    if a == [] {
      assert a + b == b;
    } else {
      assert (a + b)[0] == a[0] && (a + b)[1..] == a[1..] + b;
      CollectAppend(a[1..], b);
      if !a[0].Thrown? && NoThrow(a[1..]) {
        forall k | 0 <= k < |a| ensures !a[k].Thrown? {
          if k > 0 {
            assert a[k] == a[1..][k - 1];
          }
        }
      }
      if NoThrow(a) {
        forall k | 0 <= k < |a| - 1 ensures !a[1..][k].Thrown? {
          assert a[1..][k] == a[k + 1];
        }
      }
    }
  }

  lemma OutcomesAppend(a: seq<string>, b: seq<string>)
    ensures Outcomes(a + b) == Outcomes(a) + Outcomes(b)
  {
    var l, r := Outcomes(a + b), Outcomes(a) + Outcomes(b);
    forall k | 0 <= k < |l| ensures l[k] == r[k] {
      OutcomeAt(a + b, k);
      if k < |a| {
        OutcomeAt(a, k);
        assert (a + b)[k] == a[k];
      } else {
        OutcomeAt(b, k - |a|);
        assert (a + b)[k] == b[k - |a|];
      }
    }
  }

  /** Loading a file is loading its two halves one after the other, unless a
      line of the first half throws, in which case the second half is never
      reached. */
  lemma LoadAppend(a: seq<string>, b: seq<string>)
    ensures NoThrow(Outcomes(a)) ==> LoadLines(a + b) == LoadLines(a) + LoadLines(b)
    ensures !NoThrow(Outcomes(a)) ==> LoadLines(a + b) == LoadLines(a)
  {
    OutcomesAppend(a, b);
    CollectAppend(Outcomes(a), Outcomes(b));
  }

  /** A contact whose line `AddContact` wrote loads back: no field holds a
      `|`, every field is tight text, the phone has at least two characters
      and the e-mail is given. */
  predicate Loadable(c: Contact) {
    BarFree(c) && Tight(c.name) && Tight(c.phoneNumber) && |c.phoneNumber| >= 2
    && c.email.Some? && Tight(c.email.value)
  }

  /** What the loader makes of a loadable contact's line: the phone loses its
      first two characters. */
  function Reloaded(c: Contact): Contact
    requires |c.phoneNumber| >= 2
  {
    c.(phoneNumber := c.phoneNumber[2..])
  }

  /** Collecting a run of decoded lines keeps every contact, in order. */
  lemma {:induction false} CollectDecoded(outs: seq<LineOutcome>)
    requires forall k :: 0 <= k < |outs| ==> outs[k].Decoded?
    ensures |Collect(outs)| == |outs|
    ensures forall k :: 0 <= k < |outs| ==> Collect(outs)[k] == outs[k].contact
  {
    if outs != [] {
      CollectDecoded(outs[1..]);
      forall k | 0 <= k < |outs| ensures Collect(outs)[k] == outs[k].contact {
        if k > 0 {
          assert outs[k] == outs[1..][k - 1];
        }
      }
    }
  }

  /** The line written for a loadable contact decodes to it, less two phone characters. */
  lemma WrittenLoads(c: Contact)
    requires Loadable(c)
    ensures DecodeLoaded(Encode(c)) == Decoded(Reloaded(c))
  {
    LoadedDecodeOfEncode(c);
  }

  /** The line written for a contact with an empty name or e-mail throws. */
  lemma WrittenThrows(c: Contact)
    requires BarFree(c) && (c.phoneNumber == "" || Tight(c.phoneNumber)) && (c.name == "" || Tight(c.name))
    requires EmailText(c) == "" || Tight(EmailText(c))
    requires c.name == "" || EmailText(c) == ""
    ensures DecodeLoaded(Encode(c)) == Thrown
  {
    LoadedDecodeOfEncode(c);
  }

  lemma WrittenOutcomeAt(cs: seq<Contact>, k: nat)
    requires k < |cs| && Loadable(cs[k])
    ensures Outcomes(Written(cs))[k] == Decoded(Reloaded(cs[k]))
  {
    OutcomeAt(Written(cs), k);
    WrittenAt(cs, k);
    WrittenLoads(cs[k]);
  }

  lemma WrittenOutcomes(cs: seq<Contact>)
    requires forall k :: 0 <= k < |cs| ==> Loadable(cs[k])
    ensures forall k :: 0 <= k < |cs| ==>
              |cs[k].phoneNumber| >= 2 && Outcomes(Written(cs))[k] == Decoded(Reloaded(cs[k]))
  {
    forall k | 0 <= k < |cs| ensures Outcomes(Written(cs))[k] == Decoded(Reloaded(cs[k])) {
      WrittenOutcomeAt(cs, k);
    }
  }

  /** A file of lines written for loadable contacts loads back every contact,
      in order, each with the first two characters of its phone cut off. */
  lemma LoadWritten(cs: seq<Contact>)
    requires forall k :: 0 <= k < |cs| ==> Loadable(cs[k])
    ensures |LoadLines(Written(cs))| == |cs|
    ensures forall k :: 0 <= k < |cs| ==>
              |cs[k].phoneNumber| >= 2 && LoadLines(Written(cs))[k] == Reloaded(cs[k])
  {
    WrittenOutcomes(cs);
    CollectDecoded(Outcomes(Written(cs)));
  }

  lemma WrittenNoThrow(cs: seq<Contact>)
    requires forall k :: 0 <= k < |cs| ==> Loadable(cs[k])
    ensures NoThrow(Outcomes(Written(cs)))
  {
    forall k | 0 <= k < |cs| ensures !Outcomes(Written(cs))[k].Thrown? {
      WrittenOutcomeAt(cs, k);
    }
  }

  /** A line that throws ends the load: what follows it is never read. */
  lemma LoadStopsAtThrow(prefix: seq<string>, line: string, after: seq<string>)
    requires NoThrow(Outcomes(prefix)) && DecodeLoaded(line).Thrown?
    ensures LoadLines(prefix + [line] + after) == LoadLines(prefix)
  {
    var rest := [line] + after;
    assert prefix + [line] + after == prefix + rest;
    LoadAppend(prefix, rest);
    OutcomeAt(rest, 0);
    assert LoadLines(rest) == [];
  }

  /** A line written for a contact without an e-mail, or with an empty name,
      throws: the load returns only the contacts of the lines before it. */
  lemma LoadStopsAtEmptyField(before: seq<Contact>, c: Contact, after: seq<string>)
    requires forall k :: 0 <= k < |before| ==> Loadable(before[k])
    requires BarFree(c) && (c.phoneNumber == "" || Tight(c.phoneNumber)) && (c.name == "" || Tight(c.name))
    requires EmailText(c) == "" || Tight(EmailText(c))
    requires c.name == "" || EmailText(c) == ""
    ensures LoadLines(Written(before) + [Encode(c)] + after) == LoadLines(Written(before))
  {
    WrittenNoThrow(before);
    WrittenThrows(c);
    LoadStopsAtThrow(Written(before), Encode(c), after);
  }

  /** One step of the loader over the outcome run. */
  lemma CollectStep(outs: seq<LineOutcome>, i: nat)
    requires i < |outs|
    ensures Collect(outs[i..]) == match outs[i]
      case Thrown => []
      case Skipped => Collect(outs[i + 1..])
      case Decoded(c) => [c] + Collect(outs[i + 1..])
  {
    assert outs[i..][0] == outs[i] && outs[i..][1..] == outs[i + 1..];
  }

  // ---------------------------------------------------------------------------
  // UpdateContact
  // ---------------------------------------------------------------------------

  datatype UpdateOutcome =
    | Updated
      /** The matching line has fewer than six segments; nothing is written. */
    | Malformed
    | NotInFile
      /** The file could not be read or written; the exception is caught. */
    | UpdateFailed

  /** `UpdateContact`: splice the new name and e-mail into the first line
      mentioning the phone and write the file back. The list is not touched. */
  function UpdateFile(file: seq<string>, phone: string, name: string, email: string, readOk: bool, writeOk: bool)
    : (r: (seq<string>, UpdateOutcome))
  {
    if !readOk then (file, UpdateFailed)
    else match FirstMention(file, phone)
      case None => (file, NotInFile)
      case Some(i) =>
        match SpliceLine(file[i], name, email)
        case None => (file, Malformed)
        case Some(line) => if writeOk then (file[i := line], Updated) else (file, UpdateFailed)
  }

  /** The update keeps the number of lines and every line but the first
      matching one; that one becomes the spliced line. Any outcome other than
      `Updated` leaves the file as it was. */
  lemma UpdateFileShape(file: seq<string>, phone: string, name: string, email: string, readOk: bool, writeOk: bool)
    ensures var (r, outcome) := UpdateFile(file, phone, name, email, readOk, writeOk);
            && |r| == |file|
            && (outcome != Updated ==> r == file)
            && (outcome == Updated <==>
                  readOk && writeOk && FirstMention(file, phone).Some?
                  && Count(file[FirstMention(file, phone).value], '|') >= 5)
            && (outcome == Updated ==>
                  var i := FirstMention(file, phone).value;
                  && r[i] == SpliceLine(file[i], name, email).value
                  && forall k :: 0 <= k < |file| && k != i ==> r[k] == file[k])
  {
  }

  /** Updating a line `AddContact` wrote keeps it findable by the same phone:
      `FindContact` then decodes the new name (upper-cased) and e-mail, and
      the old id, phone, type and creation time; the rejoin with `" |"`
      leaves one more space after the phone. */
  lemma UpdateThenFind(file: seq<string>, i: nat, c: Contact, name: string, email: string, now: Timestamp)
    requires Plain(c) && PlainText(name) && PlainText(email)
    requires FirstMention(file, c.phoneNumber) == Some(i) && file[i] == Encode(c)
    ensures UpdateFile(file, c.phoneNumber, name, email, true, true).1 == Updated
    ensures FileLookup(UpdateFile(file, c.phoneNumber, name, email, true, true).0, c.phoneNumber, now) ==
            Some(Contact(c.id, " " + ToUpper(name) + " ", " " + c.phoneNumber + "  ", Some(" " + email + " "),
                         c.contactType, c.createdAt))
  {
    UpdateEncodedLine(file, i, c, name, email);
    SpliceOfEncoded(c, name, email, now);
    var line := SpliceLine(Encode(c), name, email).value;
    assert Mentions(line, c.phoneNumber);
    FileLookupReplaced(file, c.phoneNumber, i, line, now);
  }

  /** The update of a line `AddContact` wrote goes through, and replaces that
      line by its splice. */
  lemma UpdateEncodedLine(file: seq<string>, i: nat, c: Contact, name: string, email: string)
    requires Plain(c) && PlainText(name) && PlainText(email)
    requires FirstMention(file, c.phoneNumber) == Some(i) && file[i] == Encode(c)
    ensures SpliceLine(Encode(c), name, email).Some?
    ensures UpdateFile(file, c.phoneNumber, name, email, true, true) ==
            (file[i := SpliceLine(Encode(c), name, email).value], Updated)
  {
    SpliceOfEncoded(c, name, email, c.createdAt);
  }

  // ---------------------------------------------------------------------------
  // The manager
  // ---------------------------------------------------------------------------

  class ContactManager {
    /** The static `Contacts` list. */
    var contacts: seq<Contact>
    /** The lines of `Contact.txt`. */
    var file: seq<string>

    function Snapshot(): State
      reads this
    {
      State(contacts, file)
    }

    /** The list never holds two contacts with the same phone. */
    predicate Valid()
      reads this
    {
      DistinctPhones(contacts)
    }

    /** A fresh process: an empty list and whatever the file holds. */
    constructor(lines: seq<string>)
      ensures contacts == [] && file == lines
      ensures Valid()
    {
      contacts := [];
      file := lines;
    }

    method AddContact(name: string, phone: string, email: Option<string>, contactType: ContactType,
                      now: Timestamp, readOk: bool, writeOk: bool) returns (outcome: AddOutcome)
      requires Valid()
      modifies this
      ensures Valid()
      ensures (Snapshot(), outcome) == Add(old(Snapshot()), name, phone, email, contactType, now, readOk, writeOk)
    {
      AddKeepsDistinct(Snapshot(), name, phone, email, contactType, now, readOk, writeOk);
      if HasPhone(contacts, phone) {
        return ExistsInMemory;
      }
      if !readOk {
        return AddFailed;
      }
      if FirstMention(file, phone).Some? {
        return ExistsInFile;
      }
      var c := NewContact(contacts, name, phone, email, contactType, now);
      contacts := contacts + [c];
      if !writeOk {
        return NotSaved(c);
      }
      file := file + [Encode(c)];
      outcome := Added(c);
    }

    method FindContact(phone: string, now: Timestamp, readOk: bool) returns (r: Lookup)
      ensures r == Find(Snapshot(), phone, now, readOk)
    {
      var i := FindIndex(contacts, phone);
      if i.Some? {
        return InMemory(i.value, contacts[i.value]);
      }
      if !readOk {
        return NotFound;
      }
      var fromFile := ScanFile(file, phone, now);
      r := if fromFile.Some? then FromFile(fromFile.value) else NotFound;
    }

    method RefreshContactFile(phone: string, readOk: bool, writeOk: bool) returns (outcome: RefreshOutcome)
      modifies this
      ensures contacts == old(contacts)
      ensures (file, outcome) == Refresh(old(file), phone, readOk, writeOk)
    {
      if !readOk {
        return RefreshEscaped;
      }
      var lines := file;
      var found := FirstMention(lines, phone);
      if found.None? {
        return NoLine;
      }
      lines := RemoveFirst(lines, lines[found.value]);
      if !writeOk {
        return RefreshEscaped;
      }
      file := lines;
      outcome := LineRemoved;
    }

    method DeleteContact(phone: string, now: Timestamp, readOk: bool, writeOk: bool) returns (outcome: DeleteOutcome)
      requires Valid()
      modifies this
      ensures Valid()
      ensures (Snapshot(), outcome) == Delete(old(Snapshot()), phone, now, readOk, writeOk)
    {
      DeleteKeepsDistinct(Snapshot(), phone, now, readOk, writeOk);
      var found := FindContact(phone, now, readOk);
      if found.NotFound? {
        return DeleteNotFound;
      }
      if found.InMemory? {
        contacts := RemoveAt(contacts, found.index);
      }
      var refreshed := RefreshContactFile(phone, readOk, writeOk);
      outcome := match refreshed
        case LineRemoved => Deleted
        case NoLine => DeletedNoLine
        case RefreshEscaped => DeleteEscaped;
    }

    /** The loop over the file's lines, appending each decoded contact,
        continuing past skipped lines and leaving at the first throw. */
    method LoadContactsFromFile(readOk: bool) returns (loaded: seq<Contact>)
      ensures loaded == if readOk then LoadLines(file) else []
    {
      if !readOk {
        return [];
      }
      loaded := [];
      ghost var outs := Outcomes(file);
      var i := 0;
      while i < |file|
        invariant 0 <= i <= |file|
        invariant LoadLines(file) == loaded + Collect(outs[i..])
      {
        CollectStep(outs, i);
        OutcomeAt(file, i);
        var outcome := DecodeLoaded(file[i]);
        if outcome.Thrown? {
          break;
        }
        if outcome.Decoded? {
          loaded := loaded + [outcome.contact];
        }
        i := i + 1;
      }
      assert i == |file| ==> outs[i..] == [];
    }

    /** The indexed loop over the file's lines: the first matching line is
        spliced and the file written back, then the loop stops. */
    method UpdateContact(phone: string, name: string, email: string, readOk: bool, writeOk: bool)
      returns (outcome: UpdateOutcome)
      modifies this
      ensures contacts == old(contacts)
      ensures (file, outcome) == UpdateFile(old(file), phone, name, email, readOk, writeOk)
    {
      if !readOk {
        return UpdateFailed;
      }
      var i := 0;
      while i < |file|
        invariant 0 <= i <= |file|
        invariant forall k :: 0 <= k < i ==> !Mentions(file[k], phone)
      {
        if Contains(file[i], Label(phone)) {
          FirstMentionAt(file, phone, i);
          var spliced := SpliceLine(file[i], name, email);
          if spliced.None? {
            return Malformed;
          }
          if !writeOk {
            return UpdateFailed;
          }
          file := file[i := spliced.value];
          return Updated;
        }
        i := i + 1;
      }
      outcome := NotInFile;
    }
  }
}
