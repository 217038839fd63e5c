/**
  `BasicContactList.ContactManager` as written in ContactManager.cs: the
  shared add, find and delete logic, and an update that changes the found
  contact's name and e-mail and then re-encodes the whole contact over the
  first file line that mentions its phone.
 */
module ManagerVariant {
  import opened Wrappers
  import opened Text
  import opened Numerals
  import opened Records
  import opened ContactStore

  // ---------------------------------------------------------------------------
  // UpdateContactFile
  // ---------------------------------------------------------------------------

  datatype FileUpdateOutcome =
    | LineReplaced
      /** No line mentions the contact's phone: reported, nothing written. */
    | NoLineToReplace
      /** The file could not be read or written; the exception is caught. */
    | FileUpdateFailed

  /** `UpdateContactFile`: find the first line mentioning the contact's phone,
      look its text up again with `IndexOf`, put the contact's full encoding
      at that index and write the file back. */
  function ReplaceLine(file: seq<string>, contact: Contact, readOk: bool, writeOk: bool)
    : (r: (seq<string>, FileUpdateOutcome))
  {
    if !readOk then (file, FileUpdateFailed)
    else match FirstMention(file, contact.phoneNumber)
      case None => (file, NoLineToReplace)
      case Some(i) =>
        var index := FirstIndexOf(file, file[i]).value;
        if writeOk then (file[index := Encode(contact)], LineReplaced) else (file, FileUpdateFailed)
  }

  /** The replacement keeps the number of lines and every line but the first
      one mentioning the phone, which becomes the contact's encoding; any
      other outcome leaves the file as it was. */
  lemma ReplaceLineShape(file: seq<string>, contact: Contact, readOk: bool, writeOk: bool)
    ensures var (r, outcome) := ReplaceLine(file, contact, readOk, writeOk);
            && |r| == |file|
            && (outcome != LineReplaced ==> r == file)
            && (outcome == LineReplaced <==> readOk && writeOk && FirstMention(file, contact.phoneNumber).Some?)
            && (outcome == NoLineToReplace <==>
                  readOk && forall k :: 0 <= k < |file| ==> !Mentions(file[k], contact.phoneNumber))
            && (outcome == LineReplaced ==>
                  var i := FirstMention(file, contact.phoneNumber).value;
                  && r[i] == Encode(contact)
                  && forall k :: 0 <= k < |file| && k != i ==> r[k] == file[k])
  {
    if readOk && FirstMention(file, contact.phoneNumber).Some? {
      IndexOfFirstMention(file, contact.phoneNumber);
    }
  }

  /** With no line mentioning the phone, a readable file is left alone. */
  lemma ReplaceLineMissing(file: seq<string>, contact: Contact, writeOk: bool)
    requires FirstMention(file, contact.phoneNumber) == None
    ensures ReplaceLine(file, contact, true, writeOk) == (file, NoLineToReplace)
  {
  }

  // ---------------------------------------------------------------------------
  // UpdateContact
  // ---------------------------------------------------------------------------

  datatype UpdateOutcome =
    | ContactMissing
    | FileUpdated(fileOutcome: FileUpdateOutcome)

  /** The contact with its name and e-mail set, as `UpdateContact` does to the found object. */
  function Renamed(c: Contact, name: string, email: string): Contact {
    c.(name := name, email := Some(email))
  }

  /** `UpdateContact`: look the contact up with `FindContact`; change the name
      and e-mail of the object found, which is the list element itself when it
      came from memory and a detached copy when it came from the file; then
      rewrite its line. */
  function Update(s: State, phone: string, name: string, email: string, now: Timestamp, readOk: bool, writeOk: bool)
    : (r: (State, UpdateOutcome))
  {
    match Find(s, phone, now, readOk)
    case NotFound => (s, ContactMissing)
    case InMemory(i, c) =>
      var updated := Renamed(c, name, email);
      var (newFile, outcome) := ReplaceLine(s.file, updated, readOk, writeOk);
      (State(s.contacts[i := updated], newFile), FileUpdated(outcome))
    case FromFile(c) =>
      var (newFile, outcome) := ReplaceLine(s.file, Renamed(c, name, email), readOk, writeOk);
      (State(s.contacts, newFile), FileUpdated(outcome))
  }

  /** A contact `FindContact` cannot see is not updated anywhere. */
  lemma UpdateMissingNoop(s: State, phone: string, name: string, email: string, now: Timestamp, readOk: bool, writeOk: bool)
    requires Find(s, phone, now, readOk) == NotFound
    ensures Update(s, phone, name, email, now, readOk, writeOk) == (s, ContactMissing)
  {
  }

  /** For a contact held in memory, the update overwrites the name and e-mail
      of that one list element and nothing else in the list, whatever then
      happens to the file; a complete update puts the new encoding on the
      first line mentioning the phone. */
  lemma UpdateInMemory(s: State, phone: string, name: string, email: string, now: Timestamp, readOk: bool, writeOk: bool)
    requires HasPhone(s.contacts, phone)
    ensures var i := FindIndex(s.contacts, phone).value;
            var (t, outcome) := Update(s, phone, name, email, now, readOk, writeOk);
            && |t.contacts| == |s.contacts|
            && t.contacts[i] == s.contacts[i].(name := name, email := Some(email))
            && (forall k :: 0 <= k < |s.contacts| && k != i ==> t.contacts[k] == s.contacts[k])
            && t.file == ReplaceLine(s.file, t.contacts[i], readOk, writeOk).0
            && (readOk && writeOk && FirstMention(s.file, phone).Some? ==>
                  t.file[FirstMention(s.file, phone).value] == Encode(t.contacts[i]))
  {
    var i := FindIndex(s.contacts, phone).value;
    ReplaceLineShape(s.file, Renamed(s.contacts[i], name, email), readOk, writeOk);
  }

  /** The update never changes a phone, so the list's phones stay distinct. */
  lemma UpdateKeepsDistinct(s: State, phone: string, name: string, email: string, now: Timestamp, readOk: bool, writeOk: bool)
    requires DistinctPhones(s.contacts)
    ensures DistinctPhones(Update(s, phone, name, email, now, readOk, writeOk).0.contacts)
  {
    match Find(s, phone, now, readOk)
    case InMemory(i, c) =>
      var t := Update(s, phone, name, email, now, readOk, writeOk).0.contacts;
      assert SamePhones(t, s.contacts);
      forall a, b | 0 <= a < b < |t| ensures t[a].phoneNumber != t[b].phoneNumber {
        assert s.contacts[a].phoneNumber != s.contacts[b].phoneNumber;
      }
    case _ =>
  }

  /** After updating a contact held in memory, `FindContact` returns the same
      element with the new name and e-mail. */
  lemma UpdateThenFind(s: State, phone: string, name: string, email: string, now: Timestamp, readOk: bool, writeOk: bool,
                       now2: Timestamp, readOk2: bool)
    requires HasPhone(s.contacts, phone)
    ensures var i := FindIndex(s.contacts, phone).value;
            Find(Update(s, phone, name, email, now, readOk, writeOk).0, phone, now2, readOk2) ==
            InMemory(i, s.contacts[i].(name := name, email := Some(email)))
  {
    var i := FindIndex(s.contacts, phone).value;
    var t := Update(s, phone, name, email, now, readOk, writeOk).0;
    UpdateInMemory(s, phone, name, email, now, readOk, writeOk);
    assert SamePhones(t.contacts, s.contacts);
    FindIndexSamePhones(t.contacts, s.contacts, phone);
  }

  /** A contact found in the file whose phone, as found, no line mentions is
      left where it was. */
  lemma UpdateFromFileMissing(s: State, phone: string, name: string, email: string, now: Timestamp,
                              readOk: bool, writeOk: bool, c: Contact)
    requires Find(s, phone, now, readOk) == FromFile(c)
    requires FirstMention(s.file, c.phoneNumber) == None
    ensures Update(s, phone, name, email, now, readOk, writeOk) == (s, FileUpdated(NoLineToReplace))
  {
    ReplaceLineMissing(s.file, Renamed(c, name, email), writeOk);
  }

  /** A contact that only the file holds is never rewritten. `FindContact`
      hands back its phone with the space on each side that `Replace` leaves
      behind, so `UpdateContactFile` looks for the phone label followed by
      that padded phone, and no line `AddContact` wrote holds one: the file
      stays as it was and the outcome is the missing line. */
  lemma UpdateFileOnlyNoop(s: State, cs: seq<Contact>, phone: string, name: string, email: string, now: Timestamp,
                           readOk: bool, writeOk: bool)
    requires !HasPhone(s.contacts, phone)
    requires s.file == Written(cs)
    requires forall k :: 0 <= k < |cs| ==> Plain(cs[k]) && Tight(cs[k].phoneNumber)
    ensures Update(s, phone, name, email, now, readOk, writeOk).0 == s
    ensures Update(s, phone, name, email, now, readOk, writeOk).1 ==
            if Find(s, phone, now, readOk).FromFile? then FileUpdated(NoLineToReplace) else ContactMissing
  {
    var found := Find(s, phone, now, readOk);
    if found.FromFile? {
      var j := FoundInWrittenIsPadded(cs, phone, now);
      WrittenMissesPadded(cs, cs[j].phoneNumber);
      UpdateFromFileMissing(s, phone, name, email, now, readOk, writeOk, found.contact);
    } else {
      UpdateMissingNoop(s, phone, name, email, now, readOk, writeOk);
    }
  }

  // ---------------------------------------------------------------------------
  // The manager
  // ---------------------------------------------------------------------------

  class ContactManager {
    /** The static `Contacts` list. */
    var contacts: seq<Contact>
    /** The lines of `Contact.txt`. */
    var file: seq<string>

    function Snapshot(): State
      reads this
    {
      State(contacts, file)
    }

    /** The list never holds two contacts with the same phone. */
    predicate Valid()
      reads this
    {
      DistinctPhones(contacts)
    }

    /** A fresh process: an empty list and whatever the file holds. */
    constructor(lines: seq<string>)
      ensures contacts == [] && file == lines
      ensures Valid()
    {
      contacts := [];
      file := lines;
    }

    method AddContact(name: string, phone: string, email: Option<string>, contactType: ContactType,
                      now: Timestamp, readOk: bool, writeOk: bool) returns (outcome: AddOutcome)
      requires Valid()
      modifies this
      ensures Valid()
      ensures (Snapshot(), outcome) == Add(old(Snapshot()), name, phone, email, contactType, now, readOk, writeOk)
    {
      AddKeepsDistinct(Snapshot(), name, phone, email, contactType, now, readOk, writeOk);
      if HasPhone(contacts, phone) {
        return ExistsInMemory;
      }
      if !readOk {
        return AddFailed;
      }
      if FirstMention(file, phone).Some? {
        return ExistsInFile;
      }
      var c := NewContact(contacts, name, phone, email, contactType, now);
      contacts := contacts + [c];
      if !writeOk {
        return NotSaved(c);
      }
      file := file + [Encode(c)];
      outcome := Added(c);
    }

    method FindContact(phone: string, now: Timestamp, readOk: bool) returns (r: Lookup)
      ensures r == Find(Snapshot(), phone, now, readOk)
    {
      var i := FindIndex(contacts, phone);
      if i.Some? {
        return InMemory(i.value, contacts[i.value]);
      }
      if !readOk {
        return NotFound;
      }
      var fromFile := ScanFile(file, phone, now);
      r := if fromFile.Some? then FromFile(fromFile.value) else NotFound;
    }

    method RefreshContactFile(phone: string, readOk: bool, writeOk: bool) returns (outcome: RefreshOutcome)
      modifies this
      ensures contacts == old(contacts)
      ensures (file, outcome) == Refresh(old(file), phone, readOk, writeOk)
    {
      if !readOk {
        return RefreshEscaped;
      }
      var lines := file;
      var found := FirstMention(lines, phone);
      if found.None? {
        return NoLine;
      }
      lines := RemoveFirst(lines, lines[found.value]);
      if !writeOk {
        return RefreshEscaped;
      }
      file := lines;
      outcome := LineRemoved;
    }

    method DeleteContact(phone: string, now: Timestamp, readOk: bool, writeOk: bool) returns (outcome: DeleteOutcome)
      requires Valid()
      modifies this
      ensures Valid()
      ensures (Snapshot(), outcome) == Delete(old(Snapshot()), phone, now, readOk, writeOk)
    {
      DeleteKeepsDistinct(Snapshot(), phone, now, readOk, writeOk);
      var found := FindContact(phone, now, readOk);
      if found.NotFound? {
        return DeleteNotFound;
      }
      if found.InMemory? {
        contacts := RemoveAt(contacts, found.index);
      }
      var refreshed := RefreshContactFile(phone, readOk, writeOk);
      outcome := match refreshed
        case LineRemoved => Deleted
        case NoLine => DeletedNoLine
        case RefreshEscaped => DeleteEscaped;
    }

    /** `UpdateContact`: the found list element is overwritten in place; a
        contact decoded from the file is a detached object. */
    method UpdateContact(phone: string, name: string, email: string, now: Timestamp, readOk: bool, writeOk: bool)
      returns (outcome: UpdateOutcome)
      requires Valid()
      modifies this
      ensures Valid()
      ensures (Snapshot(), outcome) == Update(old(Snapshot()), phone, name, email, now, readOk, writeOk)
    {
      UpdateKeepsDistinct(Snapshot(), phone, name, email, now, readOk, writeOk);
      var found := FindContact(phone, now, readOk);
      if found.NotFound? {
        return ContactMissing;
      }
      var updated := Renamed(found.contact, name, email);
      if found.InMemory? {
        contacts := contacts[found.index := updated];
      }
      var written := UpdateContactFile(updated, readOk, writeOk);
      outcome := FileUpdated(written);
    }

    method UpdateContactFile(contact: Contact, readOk: bool, writeOk: bool) returns (outcome: FileUpdateOutcome)
      modifies this
      ensures contacts == old(contacts)
      ensures (file, outcome) == ReplaceLine(old(file), contact, readOk, writeOk)
    {
      if !readOk {
        return FileUpdateFailed;
      }
      var lines := file;
      var found := FirstMention(lines, contact.phoneNumber);
      if found.None? {
        return NoLineToReplace;
      }
      var index := FirstIndexOf(lines, lines[found.value]).value;
      lines := lines[index := Encode(contact)];
      if !writeOk {
        return FileUpdateFailed;
      }
      file := lines;
      outcome := LineReplaced;
    }
  }
}
