/**
  The parts of the contact store that both versions of `ContactManager`
  share: the in-memory list and the line file as one state, the lookups
  they use (`IsContactExist`, `Contacts.Find`, `FirstOrDefault` over the
  file's lines, `List.Remove`), the id rule, and the operations whose code
  is the same in both versions (`AddContact`, `FindContact`,
  `RefreshContactFile`, `DeleteContact`), each as a transition from the old
  state to the new state and an outcome.

  A failing file read or write is the flag `readOk` / `writeOk`; the clock
  `DateTime.Now` is the parameter `now`.
 */
module ContactStore {
  import opened Wrappers
  import opened Text
  import opened Numerals
  import opened Records

  /** The static `Contacts` list and the lines of `Contact.txt`. */
  datatype State = State(contacts: seq<Contact>, file: seq<string>)

  // ---------------------------------------------------------------------------
  // Lookups in the list
  // ---------------------------------------------------------------------------

  /** `IsContactExist`: some contact in the list has exactly this phone. */
  function HasPhone(contacts: seq<Contact>, phone: string): (r: bool)
    ensures r <==> exists k :: 0 <= k < |contacts| && contacts[k].phoneNumber == phone
  {
    if contacts == [] then false
    else contacts[0].phoneNumber == phone || HasPhone(contacts[1..], phone)
  }

  /** The position of the contact `Contacts.Find(c => c.PhoneNumber == phone)` returns. */
  function FindIndex(contacts: seq<Contact>, phone: string): (r: Option<nat>)
    ensures r.None? <==> !HasPhone(contacts, phone)
    ensures r.Some? ==> r.value < |contacts| && contacts[r.value].phoneNumber == phone
    ensures r.Some? ==> forall k :: 0 <= k < r.value ==> contacts[k].phoneNumber != phone
  {
    if contacts == [] then None
    else if contacts[0].phoneNumber == phone then Some(0)
    else match FindIndex(contacts[1..], phone)
      case None => None
      case Some(i) => Some(i + 1)
  }

  /** Two lists whose contacts have the same phones, position by position. */
  predicate SamePhones(a: seq<Contact>, b: seq<Contact>) {
    |a| == |b| && forall k :: 0 <= k < |a| ==> a[k].phoneNumber == b[k].phoneNumber
  }

  /** Lookups by phone only see phones: lists with the same phones give the same position. */
  lemma {:induction false} FindIndexSamePhones(a: seq<Contact>, b: seq<Contact>, phone: string)
    requires SamePhones(a, b)
    ensures FindIndex(a, phone) == FindIndex(b, phone)
  {
    if a != [] {
      assert SamePhones(a[1..], b[1..]) by {
        forall k | 0 <= k < |a| - 1 ensures a[1..][k].phoneNumber == b[1..][k].phoneNumber {
          assert a[1..][k] == a[k + 1] && b[1..][k] == b[k + 1];
        }
      }
      FindIndexSamePhones(a[1..], b[1..], phone);
    }
  }

  /** No two contacts in the list share a phone. */
  predicate DistinctPhones(contacts: seq<Contact>) {
    forall i, j :: 0 <= i < j < |contacts| ==> contacts[i].phoneNumber != contacts[j].phoneNumber
  }

  /** A position holding the largest id in the list. */
  function MaxIndex(contacts: seq<Contact>): (k: nat)
    requires |contacts| > 0
    ensures k < |contacts|
    ensures forall j :: 0 <= j < |contacts| ==> contacts[j].id <= contacts[k].id
  {
    if |contacts| == 1 then 0
    else
      var k := MaxIndex(contacts[..|contacts| - 1]);
      if contacts[|contacts| - 1].id > contacts[k].id then |contacts| - 1 else k
  }

  /** `Contacts.Max(c => c.Id)`: an id in the list, and no id is larger. */
  function MaxId(contacts: seq<Contact>): (m: Int32)
    requires |contacts| > 0
    ensures exists k :: 0 <= k < |contacts| && contacts[k].id == m
    ensures forall k :: 0 <= k < |contacts| ==> contacts[k].id <= m
  {
    contacts[MaxIndex(contacts)].id
  }

  /** The id `AddContact` gives a new contact: 1 for an empty list, otherwise
      the largest id plus one in unchecked 32-bit arithmetic. Ids in the file
      play no part. */
  function NextId(contacts: seq<Contact>): (r: Int32)
    ensures |contacts| == 0 ==> r == 1
    ensures |contacts| > 0 ==> r == Wrap32(MaxId(contacts) + 1)
    ensures |contacts| > 0 && MaxId(contacts) < INT32_MAX ==>
              r == MaxId(contacts) + 1 && forall k :: 0 <= k < |contacts| ==> contacts[k].id < r
    ensures |contacts| > 0 && MaxId(contacts) == INT32_MAX ==> r == INT32_MIN
  {
    if |contacts| == 0 then 1
    else
      var m := MaxId(contacts);
      assert Wrap32(m + 1) == if m == INT32_MAX then INT32_MIN else m + 1;
      if m == INT32_MAX then INT32_MIN else m + 1
  }

  /** The list without its element at `i`, the others in order. */
  function RemoveAt<T>(s: seq<T>, i: nat): (r: seq<T>)
    requires i < |s|
    ensures |r| == |s| - 1
    ensures forall k :: 0 <= k < i ==> r[k] == s[k]
    ensures forall k :: i <= k < |r| ==> r[k] == s[k + 1]
  {
    s[..i] + s[i + 1..]
  }

  // ---------------------------------------------------------------------------
  // Lookups in the file
  // ---------------------------------------------------------------------------

  /** The text every existence check looks for. */
  function Label(phone: string): string {
    "Phone No: " + phone
  }

  /** `line.Contains($"Phone No: {phone}")`. */
  predicate Mentions(line: string, phone: string) {
    Contains(line, Label(phone))
  }

  /** The index of the line `FirstOrDefault(line => line.Contains(...))` picks. */
  function FirstMention(lines: seq<string>, phone: string): (r: Option<nat>)
    ensures r.None? <==> forall k :: 0 <= k < |lines| ==> !Mentions(lines[k], phone)
    ensures r.Some? ==> r.value < |lines| && Mentions(lines[r.value], phone)
    ensures r.Some? ==> forall k :: 0 <= k < r.value ==> !Mentions(lines[k], phone)
  {
    if lines == [] then None
    else if Mentions(lines[0], phone) then Some(0)
    else match FirstMention(lines[1..], phone)
      case None =>
        assert forall k :: 1 <= k < |lines| ==> lines[k] == lines[1..][k - 1];
        None
      case Some(i) => Some(i + 1)
  }

  /** The index of the first line equal to `line`: where `List.Remove` and
      `List.IndexOf` act. */
  function FirstIndexOf(lines: seq<string>, line: string): (r: Option<nat>)
    ensures r.None? <==> line !in lines
    ensures r.Some? ==> r.value < |lines| && lines[r.value] == line
    ensures r.Some? ==> forall k :: 0 <= k < r.value ==> lines[k] != line
  {
    if lines == [] then None
    else if lines[0] == line then Some(0)
    else match FirstIndexOf(lines[1..], line)
      case None => None
      case Some(i) => Some(i + 1)
  }

  /** `lines.Remove(line)`: the first line equal to `line` removed, or nothing when there is none. */
  function RemoveFirst(lines: seq<string>, line: string): (r: seq<string>)
    ensures line in lines ==> exists i :: 0 <= i < |lines| && lines[i] == line
                                && (forall k :: 0 <= k < i ==> lines[k] != line)
                                && r == lines[..i] + lines[i + 1..]
    ensures line !in lines ==> r == lines
  {
    match FirstIndexOf(lines, line)
    case None => lines
    case Some(i) => RemoveAt(lines, i)
  }

  /** Looking up the text of the first mentioning line finds that same line:
      no earlier line can be equal to it, since none mentions the phone. */
  lemma IndexOfFirstMention(lines: seq<string>, phone: string)
    requires FirstMention(lines, phone).Some?
    ensures FirstIndexOf(lines, lines[FirstMention(lines, phone).value]) == FirstMention(lines, phone)
  {
  }

  /** A line that mentions a phone also mentions every prefix of it: the
      existence checks treat a phone as present when a longer stored phone
      starts with it. */
  lemma MentionsPrefix(line: string, phone: string, more: string)
    requires Mentions(line, phone + more)
    ensures Mentions(line, phone)
  {
    assert Label(phone + more) == Label(phone) + more;
    ContainsPrefixOfPattern(line, Label(phone), more);
  }

  /** The line `AddContact` writes mentions the contact's phone. */
  lemma EncodeMentions(c: Contact)
    ensures Mentions(Encode(c), c.phoneNumber)
  {
    EncodeHasPhoneLabel(c);
  }

  /** The lines `AddContact` writes for `cs`, in order. */
  function Written(cs: seq<Contact>): (r: seq<string>)
    ensures |r| == |cs|
  {
    if cs == [] then [] else [Encode(cs[0])] + Written(cs[1..])
  }

  lemma {:induction false} WrittenAt(cs: seq<Contact>, k: nat)
    requires k < |cs|
    ensures Written(cs)[k] == Encode(cs[k])
  {
    if k > 0 {
      WrittenAt(cs[1..], k - 1);
    }
  }

  /** No line of a file `AddContact` wrote mentions a phone with a space on
      each side, as long as every stored phone is tight and no phone holds
      the delimiter. */
  lemma WrittenMissesPadded(cs: seq<Contact>, phone: string)
    requires forall k :: 0 <= k < |cs| ==> Plain(cs[k]) && Tight(cs[k].phoneNumber)
    requires '|' !in phone
    ensures FirstMention(Written(cs), " " + phone + " ") == None
  {
    forall k | 0 <= k < |cs|
      ensures !Mentions(Written(cs)[k], " " + phone + " ")
    {
      WrittenAt(cs, k);
      EncodeMissesPaddedPhone(cs[k], phone);
    }
  }

  // ---------------------------------------------------------------------------
  // AddContact
  // ---------------------------------------------------------------------------

  datatype AddOutcome =
    | Added(contact: Contact)
      /** The contact joined the list but its line could not be written. */
    | NotSaved(contact: Contact)
    | ExistsInMemory
    | ExistsInFile
      /** The file could not be read before anything changed. */
    | AddFailed

  /** The contact `AddContact` creates. */
  function NewContact(contacts: seq<Contact>, name: string, phone: string, email: Option<string>,
                      contactType: ContactType, now: Timestamp): Contact
  {
    Contact(NextId(contacts), name, phone, email, contactType, now)
  }

  /** `AddContact`: reject a phone already in the list, or mentioned by any
      line of the file; otherwise append the new contact to the list and then
      its line to the file. A failed write does not undo the list append. */
  function Add(s: State, name: string, phone: string, email: Option<string>, contactType: ContactType,
               now: Timestamp, readOk: bool, writeOk: bool): (r: (State, AddOutcome))
  {
    if HasPhone(s.contacts, phone) then (s, ExistsInMemory)
    else if !readOk then (s, AddFailed)
    else if FirstMention(s.file, phone).Some? then (s, ExistsInFile)
    else
      var c := NewContact(s.contacts, name, phone, email, contactType, now);
      if writeOk then (State(s.contacts + [c], s.file + [Encode(c)]), Added(c))
      else (State(s.contacts + [c], s.file), NotSaved(c))
  }

  /** A phone found in the list, or mentioned anywhere in a readable file,
      leaves list and file as they were. */
  lemma AddRejectsDuplicate(s: State, name: string, phone: string, email: Option<string>,
                            contactType: ContactType, now: Timestamp, readOk: bool, writeOk: bool)
    requires HasPhone(s.contacts, phone) || (readOk && exists k :: 0 <= k < |s.file| && Mentions(s.file[k], phone))
    ensures Add(s, name, phone, email, contactType, now, readOk, writeOk).0 == s
    ensures Add(s, name, phone, email, contactType, now, readOk, writeOk).1 ==
              if HasPhone(s.contacts, phone) then ExistsInMemory else ExistsInFile
  {
  }

  /** An unreadable file stops a new phone before anything changes. */
  lemma AddUnreadableNoop(s: State, name: string, phone: string, email: Option<string>,
                          contactType: ContactType, now: Timestamp, writeOk: bool)
    requires !HasPhone(s.contacts, phone)
    ensures Add(s, name, phone, email, contactType, now, false, writeOk) == (s, AddFailed)
  {
  }

  /** A successful add appends exactly the new contact to the list and exactly
      its encoded line to the end of the file; the new id is above every id
      in the list unless the largest is `int.MaxValue`. */
  lemma AddAppends(s: State, name: string, phone: string, email: Option<string>,
                   contactType: ContactType, now: Timestamp, readOk: bool, writeOk: bool)
    requires !HasPhone(s.contacts, phone) && readOk
    requires forall k :: 0 <= k < |s.file| ==> !Mentions(s.file[k], phone)
    ensures var (t, outcome) := Add(s, name, phone, email, contactType, now, readOk, writeOk);
            var c := outcome.contact;
            && (outcome == Added(c) || outcome == NotSaved(c))
            && t.contacts == s.contacts + [c]
            && t.file == (if writeOk then s.file + [Encode(c)] else s.file)
            && c == Contact(NextId(s.contacts), name, phone, email, contactType, now)
            && (|s.contacts| == 0 ==> c.id == 1)
            && (|s.contacts| > 0 && MaxId(s.contacts) < INT32_MAX ==>
                  forall k :: 0 <= k < |s.contacts| ==> s.contacts[k].id < c.id)
  {
  }

  /** Adding keeps the phones in the list pairwise distinct. */
  lemma AddKeepsDistinct(s: State, name: string, phone: string, email: Option<string>,
                         contactType: ContactType, now: Timestamp, readOk: bool, writeOk: bool)
    requires DistinctPhones(s.contacts)
    ensures DistinctPhones(Add(s, name, phone, email, contactType, now, readOk, writeOk).0.contacts)
  {
    var (t, outcome) := Add(s, name, phone, email, contactType, now, readOk, writeOk);
    if t.contacts != s.contacts {
      var c := NewContact(s.contacts, name, phone, email, contactType, now);
      assert t.contacts == s.contacts + [c];
      forall i, j | 0 <= i < j < |t.contacts|
        ensures t.contacts[i].phoneNumber != t.contacts[j].phoneNumber
      {
        if j == |s.contacts| {
          assert t.contacts[i] == s.contacts[i];
        }
      }
    }
  }

  /** Adding the same phone again right after it was accepted is rejected. */
  lemma AddTwiceRejected(s: State, name: string, phone: string, email: Option<string>,
                         contactType: ContactType, now: Timestamp, readOk: bool, writeOk: bool,
                         name2: string, email2: Option<string>, contactType2: ContactType,
                         now2: Timestamp, readOk2: bool, writeOk2: bool)
    requires Add(s, name, phone, email, contactType, now, readOk, writeOk).1.Added?
    ensures var t := Add(s, name, phone, email, contactType, now, readOk, writeOk).0;
            Add(t, name2, phone, email2, contactType2, now2, readOk2, writeOk2) == (t, ExistsInMemory)
  {
    var t := Add(s, name, phone, email, contactType, now, readOk, writeOk).0;
    assert t.contacts[|t.contacts| - 1].phoneNumber == phone;
  }

  /** The file check is a substring test: a phone that is a prefix of a
      phone written earlier counts as already present, so the add is
      rejected and nothing changes. */
  lemma AddRejectsPrefix(s: State, cs: seq<Contact>, k: nat, more: string, name: string, phone: string,
                         email: Option<string>, contactType: ContactType, now: Timestamp, writeOk: bool)
    requires s.file == Written(cs) && k < |cs| && cs[k].phoneNumber == phone + more
    requires !HasPhone(s.contacts, phone)
    ensures Add(s, name, phone, email, contactType, now, true, writeOk) == (s, ExistsInFile)
  {
    WrittenAt(cs, k);
    EncodeMentions(cs[k]);
    MentionsPrefix(s.file[k], phone, more);
    AddRejectsDuplicate(s, name, phone, email, contactType, now, true, writeOk);
  }

  // ---------------------------------------------------------------------------
  // FindContact
  // ---------------------------------------------------------------------------

  /** What `FindContact` returns: an element of the list (identified by its
      position), a contact decoded from a file line, or null. */
  datatype Lookup = NotFound | InMemory(index: nat, contact: Contact) | FromFile(contact: Contact)

  /** The file branch of `FindContact`: only the first mentioning line is
      decoded; null when there is none or it does not decode. */
  function FileLookup(lines: seq<string>, phone: string, now: Timestamp): (r: Option<Contact>)
    ensures r.Some? ==> exists k :: 0 <= k < |lines| && Mentions(lines[k], phone) && DecodeFound(lines[k], now) == r
    ensures (forall k :: 0 <= k < |lines| ==> !Mentions(lines[k], phone)) ==> r.None?
  {
    match FirstMention(lines, phone)
    case None => None
    case Some(i) => DecodeFound(lines[i], now)
  }

  /** The first mention is at `i` exactly when line `i` mentions the phone and no earlier line does. */
  lemma FirstMentionAt(lines: seq<string>, phone: string, i: nat)
    requires i < |lines| && Mentions(lines[i], phone)
    requires forall k :: 0 <= k < i ==> !Mentions(lines[k], phone)
    ensures FirstMention(lines, phone) == Some(i)
  {
  }

  /** What the file branch of `FindContact` returns from a file `AddContact`
      wrote is one of the written contacts with its phone padded by a space
      on each side. */
  lemma FoundInWrittenIsPadded(cs: seq<Contact>, phone: string, now: Timestamp) returns (j: nat)
    requires forall k :: 0 <= k < |cs| ==> Plain(cs[k])
    requires FileLookup(Written(cs), phone, now).Some?
    ensures j < |cs| && FileLookup(Written(cs), phone, now).value.phoneNumber == " " + cs[j].phoneNumber + " "
  {
    j := FirstMention(Written(cs), phone).value;
    WrittenAt(cs, j);
    FoundDecodeOfEncode(cs[j], now);
  }

  /** Overwriting the first mentioning line by another line that mentions
      the phone keeps it the first mention, and the file branch of
      `FindContact` then decodes the new line. */
  lemma FileLookupReplaced(lines: seq<string>, phone: string, i: nat, line: string, now: Timestamp)
    requires FirstMention(lines, phone) == Some(i) && Mentions(line, phone)
    ensures FirstMention(lines[i := line], phone) == Some(i)
    ensures FileLookup(lines[i := line], phone, now) == DecodeFound(line, now)
  {
    FirstMentionAt(lines[i := line], phone, i);
  }

  /** The `foreach` over the file's lines in `FindContact`: the first line
      that mentions the phone is decoded and returned, whatever the result. */
  method ScanFile(lines: seq<string>, phone: string, now: Timestamp) returns (r: Option<Contact>)
    ensures r == FileLookup(lines, phone, now)
  {
    var i := 0;
    while i < |lines|
      invariant 0 <= i <= |lines|
      invariant forall k :: 0 <= k < i ==> !Mentions(lines[k], phone)
    {
      if Contains(lines[i], Label(phone)) {
        FirstMentionAt(lines, phone, i);
        return DecodeFound(lines[i], now);
      }
      i := i + 1;
    }
    return None;
  }

  /** `FindContact`: the first list element with exactly this phone; failing
      that, the decoded first mentioning line of a readable file. */
  function Find(s: State, phone: string, now: Timestamp, readOk: bool): (r: Lookup)
    ensures r.InMemory? ==> r.index < |s.contacts| && s.contacts[r.index] == r.contact
    ensures r.InMemory? <==> HasPhone(s.contacts, phone)
    ensures r.InMemory? ==> r.contact.phoneNumber == phone
                            && forall k :: 0 <= k < r.index ==> s.contacts[k].phoneNumber != phone
    ensures !HasPhone(s.contacts, phone) ==>
              && (r.FromFile? <==> readOk && FileLookup(s.file, phone, now).Some?)
              && (r.FromFile? ==> FileLookup(s.file, phone, now) == Some(r.contact))
    ensures r.FromFile? ==> readOk && r.contact.email.Some?
  {
    match FindIndex(s.contacts, phone)
    case Some(i) => InMemory(i, s.contacts[i])
    case None =>
      if !readOk then NotFound
      else match FileLookup(s.file, phone, now)
        case None => NotFound
        case Some(c) => FromFile(c)
  }

  /** A contact `AddContact` has just added is found in memory, at the end of the list. */
  lemma FindAfterAdd(s: State, name: string, phone: string, email: Option<string>,
                     contactType: ContactType, now: Timestamp, readOk: bool, writeOk: bool,
                     now2: Timestamp, readOk2: bool)
    requires Add(s, name, phone, email, contactType, now, readOk, writeOk).1.Added?
    ensures var (t, outcome) := Add(s, name, phone, email, contactType, now, readOk, writeOk);
            Find(t, phone, now2, readOk2) == InMemory(|s.contacts|, outcome.contact)
  {
    var (t, outcome) := Add(s, name, phone, email, contactType, now, readOk, writeOk);
    assert t.contacts == s.contacts + [outcome.contact];
    FindIndexAppend(s.contacts, outcome.contact);
  }

  /** A phone absent from the list is found at the contact appended with it. */
  lemma {:induction false} FindIndexAppend(contacts: seq<Contact>, c: Contact)
    requires !HasPhone(contacts, c.phoneNumber)
    ensures FindIndex(contacts + [c], c.phoneNumber) == Some(|contacts|)
  {
    if contacts != [] {
      assert (contacts + [c])[1..] == contacts[1..] + [c];
      FindIndexAppend(contacts[1..], c);
    }
  }

  /** A file-sourced contact's name has no lower-case letters, and its phone,
      name and e-mail keep the spaces around them: for a line `AddContact`
      wrote, the phone comes back as `" " + phone + " "`. */
  lemma FindFromWrittenLine(c: Contact, contacts: seq<Contact>, now: Timestamp)
    requires Plain(c) && !HasPhone(contacts, c.phoneNumber)
    ensures Find(State(contacts, [Encode(c)]), c.phoneNumber, now, true) ==
            FromFile(Contact(c.id, " " + ToUpper(c.name) + " ", " " + c.phoneNumber + " ",
                             Some(" " + EmailText(c) + " "), c.contactType, c.createdAt))
  {
    EncodeMentions(c);
    FoundDecodeOfEncode(c, now);
  }

  // ---------------------------------------------------------------------------
  // RefreshContactFile and DeleteContact
  // ---------------------------------------------------------------------------

  datatype RefreshOutcome =
    | LineRemoved
      /** No line mentions the phone: reported, nothing written. */
    | NoLine
      /** A read or write failed; the exception leaves `RefreshContactFile`. */
    | RefreshEscaped

  /** `RefreshContactFile`: remove the first line mentioning the phone. */
  function Refresh(file: seq<string>, phone: string, readOk: bool, writeOk: bool): (r: (seq<string>, RefreshOutcome))
    ensures r.1 != LineRemoved ==> r.0 == file
    ensures r.1 == NoLine <==> readOk && forall k :: 0 <= k < |file| ==> !Mentions(file[k], phone)
  {
    if !readOk then (file, RefreshEscaped)
    else match FirstMention(file, phone)
      case None => (file, NoLine)
      case Some(i) =>
        if writeOk then (RemoveFirst(file, file[i]), LineRemoved) else (file, RefreshEscaped)
  }

  /** The line removed is exactly the first one mentioning the phone; the
      others stay, in order. */
  lemma RefreshRemovesFirstMention(file: seq<string>, phone: string, readOk: bool, writeOk: bool)
    requires Refresh(file, phone, readOk, writeOk).1 == LineRemoved
    ensures FirstMention(file, phone).Some?
    ensures Refresh(file, phone, readOk, writeOk).0 == RemoveAt(file, FirstMention(file, phone).value)
  {
    IndexOfFirstMention(file, phone);
  }

  datatype DeleteOutcome =
    | Deleted
    | DeleteNotFound
      /** The contact was found but no file line mentions it. */
    | DeletedNoLine
      /** A file read or write failed in `RefreshContactFile`; `DeleteContact`
          only catches `ContactsException`, so the exception escapes it. */
    | DeleteEscaped

  /** `DeleteContact`: find the contact, remove it from the list (a no-op for
      a contact decoded from the file, which is a new object), then refresh
      the file. */
  function Delete(s: State, phone: string, now: Timestamp, readOk: bool, writeOk: bool): (r: (State, DeleteOutcome))
  {
    match Find(s, phone, now, readOk)
    case NotFound => (s, DeleteNotFound)
    case InMemory(i, _) => DeleteFromFile(RemoveAt(s.contacts, i), s.file, phone, readOk, writeOk)
    case FromFile(_) => DeleteFromFile(s.contacts, s.file, phone, readOk, writeOk)
  }

  function DeleteFromFile(contacts: seq<Contact>, file: seq<string>, phone: string, readOk: bool, writeOk: bool)
    : (r: (State, DeleteOutcome))
  {
    var (newFile, outcome) := Refresh(file, phone, readOk, writeOk);
    (State(contacts, newFile),
     match outcome
     case LineRemoved => Deleted
     case NoLine => DeletedNoLine
     case RefreshEscaped => DeleteEscaped)
  }

  /** Deleting a contact `FindContact` cannot see changes nothing. */
  lemma DeleteNotFoundNoop(s: State, phone: string, now: Timestamp, readOk: bool, writeOk: bool)
    requires Find(s, phone, now, readOk) == NotFound
    ensures Delete(s, phone, now, readOk, writeOk) == (s, DeleteNotFound)
  {
  }

  /** Otherwise the list loses exactly the found element (nothing when it came
      from the file) and the file loses exactly its first mentioning line,
      when it was read and written. */
  lemma DeleteEffect(s: State, phone: string, now: Timestamp, readOk: bool, writeOk: bool)
    requires Find(s, phone, now, readOk) != NotFound
    ensures var (t, outcome) := Delete(s, phone, now, readOk, writeOk);
            && t.contacts == (match Find(s, phone, now, readOk)
                              case InMemory(i, _) => RemoveAt(s.contacts, i)
                              case _ => s.contacts)
            && (outcome == Deleted <==> readOk && writeOk && FirstMention(s.file, phone).Some?)
            && (outcome == Deleted ==> t.file == RemoveAt(s.file, FirstMention(s.file, phone).value))
            && (outcome != Deleted ==> t.file == s.file)
  {
    var contacts := match Find(s, phone, now, readOk)
                    case InMemory(i, _) => RemoveAt(s.contacts, i)
                    case _ => s.contacts;
    assert Delete(s, phone, now, readOk, writeOk) == DeleteFromFile(contacts, s.file, phone, readOk, writeOk);
    DeleteFromFileEffect(contacts, s.file, phone, readOk, writeOk);
  }

  /** The file side of a delete: the list it is given stays as it is, only a
      complete refresh changes the file, and it drops the first mentioning
      line. */
  lemma DeleteFromFileEffect(contacts: seq<Contact>, file: seq<string>, phone: string, readOk: bool, writeOk: bool)
    ensures var (t, outcome) := DeleteFromFile(contacts, file, phone, readOk, writeOk);
            && t.contacts == contacts
            && (outcome == Deleted <==> readOk && writeOk && FirstMention(file, phone).Some?)
            && (outcome == Deleted ==> t.file == RemoveAt(file, FirstMention(file, phone).value))
            && (outcome != Deleted ==> t.file == file)
  {
    if readOk && writeOk && FirstMention(file, phone).Some? {
      RefreshRemovesFirstMention(file, phone, readOk, writeOk);
    }
  }

  /** Deleting keeps the phones in the list pairwise distinct. */
  lemma DeleteKeepsDistinct(s: State, phone: string, now: Timestamp, readOk: bool, writeOk: bool)
    requires DistinctPhones(s.contacts)
    ensures DistinctPhones(Delete(s, phone, now, readOk, writeOk).0.contacts)
  {
    match Find(s, phone, now, readOk)
    case InMemory(i, _) => RemoveAtKeepsDistinct(s.contacts, i);
    case _ =>
  }

  lemma RemoveAtKeepsDistinct(contacts: seq<Contact>, i: nat)
    requires i < |contacts| && DistinctPhones(contacts)
    ensures DistinctPhones(RemoveAt(contacts, i))
  {
    var r := RemoveAt(contacts, i);
    forall a, b | 0 <= a < b < |r| ensures r[a].phoneNumber != r[b].phoneNumber {
      var a' := if a < i then a else a + 1;
      var b' := if b < i then b else b + 1;
      assert r[a] == contacts[a'] && r[b] == contacts[b'];
    }
  }

  /** Removing the one element with a phone leaves no element with it. */
  lemma RemoveAtDropsPhone(contacts: seq<Contact>, i: nat)
    requires i < |contacts| && DistinctPhones(contacts)
    ensures !HasPhone(RemoveAt(contacts, i), contacts[i].phoneNumber)
  {
    var r := RemoveAt(contacts, i);
    forall k | 0 <= k < |r| ensures r[k].phoneNumber != contacts[i].phoneNumber {
      var k' := if k < i then k else k + 1;
      assert r[k] == contacts[k'];
    }
  }

  /** Removing the one line that mentions a phone leaves no line mentioning it. */
  lemma RemoveAtDropsMention(lines: seq<string>, j: nat, phone: string)
    requires j < |lines|
    requires forall k :: 0 <= k < |lines| && k != j ==> !Mentions(lines[k], phone)
    ensures FirstMention(RemoveAt(lines, j), phone) == None
  {
    var r := RemoveAt(lines, j);
    forall k | 0 <= k < |r| ensures !Mentions(r[k], phone) {
      var k' := if k < j then k else k + 1;
      assert r[k] == lines[k'];
    }
  }

  /** After a complete delete of a contact held in memory whose phone one file
      line mentions, `FindContact` no longer finds it. */
  lemma DeleteThenFind(s: State, phone: string, now: Timestamp, now2: Timestamp)
    requires DistinctPhones(s.contacts) && HasPhone(s.contacts, phone)
    requires FirstMention(s.file, phone).Some?
    requires forall k :: 0 <= k < |s.file| && k != FirstMention(s.file, phone).value ==> !Mentions(s.file[k], phone)
    ensures Delete(s, phone, now, true, true).1 == Deleted
    ensures Find(Delete(s, phone, now, true, true).0, phone, now2, true) == NotFound
  {
    var i := FindIndex(s.contacts, phone).value;
    var j := FirstMention(s.file, phone).value;
    DeleteEffect(s, phone, now, true, true);
    RemoveAtDropsPhone(s.contacts, i);
    RemoveAtDropsMention(s.file, j, phone);
  }
}
