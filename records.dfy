/**
  The contact record and its one-line text format

    Id: {id} | Name: {name} | Phone No: {phone} | E-mail: {email} | Type: {type} | Time Created: {createdAt}

  with the two readers the store uses: the one of `FindContact`, which strips
  each segment's label with `Replace`, and the one of `LoadContactsFromFile`,
  which trims each segment and cuts it at a fixed offset with `Substring`.
  A `DateTime` is represented by its formatted text (see `Timestamp`).
 */
module Records {
  import opened Wrappers
  import opened Text
  import opened Numerals

  // ---------------------------------------------------------------------------
  // Contact type and timestamps
  // ---------------------------------------------------------------------------

  datatype ContactType = Personal | Work | Family

  /** `{contactType}` in an interpolated string: the member name. */
  function TypeName(t: ContactType): string {
    match t
    case Personal => "Personal"
    case Work => "Work"
    case Family => "Family"
  }

  /** `Enum.Parse<ContactType>` / `Enum.TryParse`: surrounding white space is
      ignored and the member name must match exactly, case included. */
  function ParseContactType(s: string): (r: Option<ContactType>)
    ensures r.Some? ==> TypeName(r.value) == Trim(s)
  {
    var t := Trim(s);
    if t == "Personal" then Some(Personal)
    else if t == "Work" then Some(Work)
    else if t == "Family" then Some(Family)
    else None
  }

  /** Every member name parses back to its member, whatever white space surrounds it. */
  lemma ParseTypeName(s: string, t: ContactType)
    requires Trim(s) == TypeName(t)
    ensures ParseContactType(s) == Some(t)
  {
    match t
    case Personal =>
    case Work => assert TypeName(t) != "Personal" by { assert |TypeName(t)| == 4; }
    case Family =>
      assert TypeName(t) != "Personal" by { assert |TypeName(t)| == 6; }
      assert TypeName(t) != "Work" by { assert |TypeName(t)| == 6; }
  }

  predicate TimestampChar(c: char) {
    IsDigit(c) || c == '/' || c == ':' || c == '-' || c == '.' || c == ' ' || c == 'A' || c == 'P' || c == 'M'
  }

  /** The text `{createdAt}` produces for a `DateTime`, e.g. `10/15/2026 3:04:05 PM`. */
  predicate IsTimestampText(s: string) {
    Tight(s) && TimestampChars(s)
  }

  predicate TimestampChars(s: string) {
    s == [] || (TimestampChar(s[0]) && TimestampChars(s[1..]))
  }

  /** A creation time, represented by its formatted text. */
  type Timestamp = s: string | IsTimestampText(s) witness "0"

  /** `DateTime.Parse` / `DateTime.TryParse`: surrounding white space is ignored. */
  function ParseTimestamp(s: string): Option<Timestamp> {
    var t := Trim(s);
    if IsTimestampText(t) then Some(t) else None
  }

  // ---------------------------------------------------------------------------
  // Contact and its line
  // ---------------------------------------------------------------------------

  /** A contact; a `null` e-mail is `None`. */
  datatype Contact = Contact(
    id: Int32,
    name: string,
    phoneNumber: string,
    email: Option<string>,
    contactType: ContactType,
    createdAt: Timestamp)

  /** A `null` e-mail prints as nothing. */
  function EmailText(c: Contact): string {
    c.email.GetOr("")
  }

  /** The line `AddContact` appends and variant B's `UpdateContactFile` writes. */
  function Encode(c: Contact): string {
    "Id: " + IntToString(c.id) + " | Name: " + c.name + " | Phone No: " + c.phoneNumber
    + " | E-mail: " + EmailText(c) + " | Type: " + TypeName(c.contactType)
    + " | Time Created: " + c.createdAt
  }

  /** A contact whose line splits into exactly six segments: no `|`, the
      delimiter, in its name, phone or e-mail. */
  predicate BarFree(c: Contact) {
    '|' !in c.name && '|' !in c.phoneNumber && '|' !in EmailText(c)
  }

  /** Field text the substring tests and `Replace` calls carry through: no
      `|`, the delimiter, and no `:`, which stands in for "no field label
      occurs inside it". */
  predicate PlainText(s: string) {
    '|' !in s && ':' !in s
  }

  predicate Plain(c: Contact) {
    PlainText(c.name) && PlainText(c.phoneNumber) && PlainText(EmailText(c))
  }

  /** The six `|`-separated segments of `Encode(c)`. */
  function Segments(c: Contact): seq<string> {
    [ "Id: " + IntToString(c.id) + " ",
      " Name: " + c.name + " ",
      " Phone No: " + c.phoneNumber + " ",
      " E-mail: " + EmailText(c) + " ",
      " Type: " + TypeName(c.contactType) + " ",
      " Time Created: " + c.createdAt ]
  }

  lemma SegmentParts(c: Contact)
    ensures |Segments(c)| == 6
    ensures Segments(c)[0] == "Id: " + IntToString(c.id) + " "
    ensures Segments(c)[1] == " Name: " + c.name + " "
    ensures Segments(c)[2] == " Phone No: " + c.phoneNumber + " "
    ensures Segments(c)[3] == " E-mail: " + EmailText(c) + " "
    ensures Segments(c)[4] == " Type: " + TypeName(c.contactType) + " "
    ensures Segments(c)[5] == " Time Created: " + c.createdAt
  {
  }

  lemma Join6(p: seq<string>, sep: string)
    requires |p| == 6
    ensures Join(p, sep) == p[0] + sep + p[1] + sep + p[2] + sep + p[3] + sep + p[4] + sep + p[5]
  {
    assert Join(p[5..], sep) == p[5];
    assert Join(p[4..], sep) == p[4] + sep + p[5] by { assert p[4..][1..] == p[5..]; }
    assert Join(p[3..], sep) == p[3] + sep + p[4] + sep + p[5] by { assert p[3..][1..] == p[4..]; }
    assert Join(p[2..], sep) == p[2] + sep + p[3] + sep + p[4] + sep + p[5] by { assert p[2..][1..] == p[3..]; }
    assert Join(p[1..], sep) == p[1] + sep + p[2] + sep + p[3] + sep + p[4] + sep + p[5] by { assert p[1..][1..] == p[2..]; }
  }

  lemma Joint(e: string, tag: string, x: string)
    ensures e + (" | " + tag) + x == (e + " ") + "|" + (" " + tag + x)
  {
  }

  lemma LineShape(x0: string, x1: string, x2: string, x3: string, x4: string, x5: string)
    ensures "Id: " + x0 + " | Name: " + x1 + " | Phone No: " + x2 + " | E-mail: " + x3
            + " | Type: " + x4 + " | Time Created: " + x5
         == Join(["Id: " + x0 + " ", " Name: " + x1 + " ", " Phone No: " + x2 + " ",
                  " E-mail: " + x3 + " ", " Type: " + x4 + " ", " Time Created: " + x5], "|")
  {
    JointLabels();
    JointLabelsTail();
    NameLabel();
    PhoneLabel();
    EmailLabel();
    TypeLabel();
    TimeLabel();
    var p := ["Id: " + x0 + " ", " Name: " + x1 + " ", " Phone No: " + x2 + " ",
              " E-mail: " + x3 + " ", " Type: " + x4 + " ", " Time Created: " + x5];
    var e1 := "Id: " + x0;
    var e2 := e1 + " | Name: " + x1;
    assert e2 + " " == p[0] + "|" + p[1] by { Joint(e1, "Name: ", x1); }
    var e3 := e2 + " | Phone No: " + x2;
    assert e3 + " " == p[0] + "|" + p[1] + "|" + p[2] by { Joint(e2, "Phone No: ", x2); }
    var e4 := e3 + " | E-mail: " + x3;
    assert e4 + " " == p[0] + "|" + p[1] + "|" + p[2] + "|" + p[3] by { Joint(e3, "E-mail: ", x3); }
    var e5 := e4 + " | Type: " + x4;
    assert e5 + " " == p[0] + "|" + p[1] + "|" + p[2] + "|" + p[3] + "|" + p[4] by { Joint(e4, "Type: ", x4); }
    assert e5 + " | Time Created: " + x5 == p[0] + "|" + p[1] + "|" + p[2] + "|" + p[3] + "|" + p[4] + "|" + p[5] by {
      Joint(e5, "Time Created: ", x5);
    }
    Join6(p, "|");
  }

  lemma JointLabels()
    ensures " | Name: " == " | " + "Name: " && " | Phone No: " == " | " + "Phone No: "
    ensures " | E-mail: " == " | " + "E-mail: "
  {
  }

  lemma JointLabelsTail()
    ensures " | Type: " == " | " + "Type: " && " | Time Created: " == " | " + "Time Created: "
  {
  }

  /** The encoded line is its six segments joined by `|`. */
  lemma EncodeIsJoin(c: Contact)
    ensures Encode(c) == Join(Segments(c), "|")
  {
    LineShape(IntToString(c.id), c.name, c.phoneNumber, EmailText(c), TypeName(c.contactType), c.createdAt);
  }

  lemma {:induction false} TimestampHasNo(ts: string, ch: char)
    requires TimestampChars(ts) && !TimestampChar(ch)
    ensures ch !in ts
  {
    if ts != [] {
      TimestampHasNo(ts[1..], ch);
      assert ts == [ts[0]] + ts[1..];
    }
  }

  /** The encoded line splits into exactly the six labelled segments. */
  lemma EncodeSplits(c: Contact)
    requires BarFree(c)
    ensures Split(Encode(c), '|') == Segments(c)
  {
    EncodeIsJoin(c);
    SegmentsBarFree(c);
    SplitJoin(Segments(c), '|');
  }

  lemma SegmentsBarFree(c: Contact)
    requires BarFree(c)
    ensures forall k :: 0 <= k < |Segments(c)| ==> '|' !in Segments(c)[k]
  {
    var p := Segments(c);
    SegmentParts(c);
    LabelsBarFree();
    assert '|' !in IntToString(c.id);
    assert '|' !in TypeName(c.contactType);
    TimestampHasNo(c.createdAt, '|');
    BarFree3("Id: ", IntToString(c.id), " ");
    BarFree3(" Name: ", c.name, " ");
    BarFree3(" Phone No: ", c.phoneNumber, " ");
    BarFree3(" E-mail: ", EmailText(c), " ");
    BarFree3(" Type: ", TypeName(c.contactType), " ");
    BarFree3(" Time Created: ", c.createdAt, "");
    assert p[5] == " Time Created: " + c.createdAt + "";
  }

  lemma LabelsBarFree()
    ensures '|' !in "Id: " && '|' !in " Name: " && '|' !in " Phone No: " && '|' !in " E-mail: "
    ensures '|' !in " Type: " && '|' !in " Time Created: " && '|' !in " " && '|' !in ""
  {
  }

  lemma BarFree3(a: string, b: string, c: string)
    requires '|' !in a && '|' !in b && '|' !in c
    ensures '|' !in a + b + c
  {
  }

  /** The encoded line carries the phone label that every existence check looks for. */
  lemma EncodeHasPhoneLabel(c: Contact)
    ensures Contains(Encode(c), "Phone No: " + c.phoneNumber)
  {
    SegmentParts(c);
    PhoneLabelInside(Segments(c)[2], c.phoneNumber, " ");
    EncodeIsJoin(c);
    ContainsInJoin(Segments(c), 2, "|", "Phone No: " + c.phoneNumber);
  }

  // ---------------------------------------------------------------------------
  // The reader of FindContact
  // ---------------------------------------------------------------------------

  /** The contact `FindContact` builds from a matching file line, or `None`
      where it returns null: fewer than six segments, or an id, type or time
      that does not parse. */
  function DecodeFound(line: string, now: Timestamp): (r: Option<Contact>)
    ensures Count(line, '|') < 5 ==> r == None
    ensures Count(line, '|') >= 5 ==>
              var segs := Split(line, '|');
              (r.None? <==> || ParseInt32(ReplaceAll(segs[0], "Id: ", "")).None?
                            || ParseContactType(ReplaceAll(segs[4], "Type: ", "")).None?
                            || FoundTime(ReplaceAll(segs[5], "Time Created: ", ""), now).None?)
    ensures r.Some? ==> r.value.email.Some?
    ensures r.Some? ==> forall k :: 0 <= k < |r.value.name| ==> !('a' <= r.value.name[k] <= 'z')
  {
    var segs := Split(line, '|');
    if |segs| < 6 then None else FoundSegments(segs, now)
  }

  /** `DecodeFound` once the line is split into at least six segments. Each
      label is removed with `Replace`, which keeps the spaces around the
      value, and the name is upper-cased. */
  function FoundSegments(segs: seq<string>, now: Timestamp): (r: Option<Contact>)
    requires |segs| >= 6
    ensures r.None? <==> || ParseInt32(ReplaceAll(segs[0], "Id: ", "")).None?
                         || ParseContactType(ReplaceAll(segs[4], "Type: ", "")).None?
                         || FoundTime(ReplaceAll(segs[5], "Time Created: ", ""), now).None?
    ensures r.Some? ==> r.value.email.Some?
    ensures r.Some? ==> forall k :: 0 <= k < |r.value.name| ==> !('a' <= r.value.name[k] <= 'z')
  {
    var id := ParseInt32(ReplaceAll(segs[0], "Id: ", ""));
    var name := ReplaceAll(segs[1], "Name: ", "");
    var phone := ReplaceAll(segs[2], "Phone No: ", "");
    var email := ReplaceAll(segs[3], "E-mail: ", "");
    var contactType := ParseContactType(ReplaceAll(segs[4], "Type: ", ""));
    var createdAt := FoundTime(ReplaceAll(segs[5], "Time Created: ", ""), now);
    if id.None? || contactType.None? || createdAt.None? then None
    else Some(Contact(id.value, ToUpper(name), phone, Some(email), contactType.value, createdAt.value))
  }

  /** The creation time of a found line: text reading `now` in any case is the
      current time `now`, anything else goes through `DateTime.Parse`. */
  function FoundTime(text: string, now: Timestamp): (r: Option<Timestamp>)
    ensures ToLower(text) == "now" ==> r == Some(now)
    ensures ToLower(text) != "now" ==> r == ParseTimestamp(text)
  {
    if ToLower(text) == "now" then Some(now) else ParseTimestamp(text)
  }

  /** The `now` branch never applies to a time segment in the written form:
      `Replace` leaves the space after the label, so the text compared with
      `now` starts with a space and goes to `DateTime.Parse`. */
  lemma FoundTimeAfterSpace(t: string, now: Timestamp)
    ensures FoundTime(" " + t, now) == ParseTimestamp(" " + t)
  {
    assert ToLower(" " + t)[0] == ' ';
  }

  /** A segment reading ` Time Created: now` does not decode, so `FindContact`
      returns null for its line instead of taking the current time. */
  lemma NowSegmentFails(now: Timestamp)
    ensures FoundTime(ReplaceAll(" Time Created: " + "now", "Time Created: ", ""), now) == None
  {
    var nowText := "now";
    NowStrip(nowText);
    FoundTimeAfterSpace(nowText, now);
    NowNotTimestamp(nowText);
  }

  lemma NowStrip(nowText: string)
    requires nowText == "now"
    ensures ReplaceAll(" Time Created: " + nowText, "Time Created: ", "") == " " + nowText
  {
    TimeLabel();
    assert 'T' !in nowText;
    NotContainsWithout(nowText, "Time Created: ", 'T');
    StripLabel(' ', "Time Created: ", nowText);
  }

  lemma NowNotTimestamp(nowText: string)
    requires nowText == "now"
    ensures ParseTimestamp(" " + nowText) == None
  {
    assert Tight(nowText) && !TimestampChar(nowText[0]);
    TrimPadded(" ", nowText, "");
    assert " " + nowText + "" == " " + nowText;
  }

  lemma UpperPadded(x: string)
    ensures ToUpper(" " + x + " ") == " " + ToUpper(x) + " "
  {
  }

  lemma IdSegment(seg: string, id: Int32, pad: string)
    requires seg == "Id: " + IntToString(id) + pad
    requires pad == " " || pad == "  "
    ensures ParseInt32(ReplaceAll(seg, "Id: ", "")) == Some(id)
  {
    IdStrip(IntToString(id), pad);
    assert AllWhiteSpace(pad);
    ParseFormatted(id, pad);
  }

  lemma IdStrip(idText: string, pad: string)
    requires forall k :: 0 <= k < |idText| ==> IsDigit(idText[k]) || idText[k] == '-'
    requires pad == " " || pad == "  "
    ensures ReplaceAll("Id: " + idText + pad, "Id: ", "") == idText + pad
  {
    var rest := idText + pad;
    assert 'I' !in rest by {
      assert forall k :: 0 <= k < |rest| ==> rest[k] == if k < |idText| then idText[k] else ' ';
    }
    NotContainsWithout(rest, "Id: ", 'I');
    StripLabel(' ', "Id: ", rest);
    assert "Id: " + idText + pad == "Id: " + rest;
  }

  lemma ValueSegment(lead: string, tag: string, v: string, pad: string)
    requires lead == " " + tag
    requires |tag| > 0 && tag[0] != ' ' && ':' in tag && ':' !in v
    requires pad == " " || pad == "  "
    ensures ReplaceAll(lead + v + pad, tag, "") == " " + v + pad
  {
    NotContainsWithout(v + pad, tag, ':');
    StripLabel(' ', tag, v + pad);
    assert lead + v + pad == [' '] + tag + (v + pad);
  }

  lemma NameLabel()
    ensures " Name: " == " " + "Name: " && ':' in "Name: " && "Name: "[0] != ' '
  {
  }

  lemma PhoneLabel()
    ensures " Phone No: " == " " + "Phone No: " && ':' in "Phone No: " && "Phone No: "[0] != ' '
  {
  }

  lemma EmailLabel()
    ensures " E-mail: " == " " + "E-mail: " && ':' in "E-mail: " && "E-mail: "[0] != ' '
  {
  }

  /** A phone segment carries the label the existence checks look for. */
  lemma PhoneLabelInside(seg: string, v: string, pad: string)
    requires seg == " Phone No: " + v + pad
    ensures Contains(seg, "Phone No: " + v)
  {
    var pat := "Phone No: " + v;
    assert Contains(pat, pat) by { assert pat <= pat; }
    ContainsInside(" ", pat, pad, pat);
    PhoneLabel();
    assert seg == " " + pat + pad;
  }

  lemma NameSegment(seg: string, v: string, pad: string)
    requires seg == " Name: " + v + pad
    requires ':' !in v && (pad == " " || pad == "  ")
    ensures ReplaceAll(seg, "Name: ", "") == " " + v + pad
  {
    NameLabel();
    ValueSegment(" Name: ", "Name: ", v, pad);
  }

  lemma PhoneSegment(seg: string, v: string, pad: string)
    requires seg == " Phone No: " + v + pad
    requires ':' !in v && (pad == " " || pad == "  ")
    ensures ReplaceAll(seg, "Phone No: ", "") == " " + v + pad
  {
    PhoneLabel();
    ValueSegment(" Phone No: ", "Phone No: ", v, pad);
  }

  lemma EmailSegment(seg: string, v: string, pad: string)
    requires seg == " E-mail: " + v + pad
    requires ':' !in v && (pad == " " || pad == "  ")
    ensures ReplaceAll(seg, "E-mail: ", "") == " " + v + pad
  {
    EmailLabel();
    ValueSegment(" E-mail: ", "E-mail: ", v, pad);
  }

  lemma TypeSegment(seg: string, t: ContactType, pad: string)
    requires seg == " Type: " + TypeName(t) + pad
    requires pad == " " || pad == "  "
    ensures ParseContactType(ReplaceAll(seg, "Type: ", "")) == Some(t)
  {
    TypeStrip(seg, t, pad);
    TypeParse(t, pad);
  }

  lemma TypeLabel()
    ensures " Type: " == [' '] + "Type: "
    ensures 'T' in "Type: " && "Type: "[0] != ' '
  {
  }

  lemma TypeStrip(seg: string, t: ContactType, pad: string)
    requires seg == " Type: " + TypeName(t) + pad
    requires pad == " " || pad == "  "
    ensures ReplaceAll(seg, "Type: ", "") == " " + TypeName(t) + pad
  {
    var rest := TypeName(t) + pad;
    TypeLabel();
    assert !Contains(rest, "Type: ") by {
      assert 'T' !in rest by { assert 'T' !in TypeName(t); assert 'T' !in pad; }
      NotContainsWithout(rest, "Type: ", 'T');
    }
    assert seg == [' '] + "Type: " + rest;
    StripLabel(' ', "Type: ", rest);
  }

  lemma TypeParse(t: ContactType, pad: string)
    requires pad == " " || pad == "  "
    ensures ParseContactType(" " + TypeName(t) + pad) == Some(t)
  {
    var typeText := TypeName(t);
    assert Tight(typeText);
    assert AllWhiteSpace(pad);
    TrimPadded(" ", typeText, pad);
    ParseTypeName(" " + typeText + pad, t);
  }

  lemma TimeSegment(seg: string, createdAt: Timestamp, now: Timestamp)
    requires seg == " Time Created: " + createdAt
    ensures FoundTime(ReplaceAll(seg, "Time Created: ", ""), now) == Some(createdAt)
  {
    TimeStrip(seg, createdAt);
    TimeParse(createdAt, now);
  }

  lemma TimeLabel()
    ensures " Time Created: " == [' '] + "Time Created: "
    ensures 'T' in "Time Created: " && "Time Created: "[0] != ' '
  {
  }

  lemma TimeStrip(seg: string, createdAt: Timestamp)
    requires seg == " Time Created: " + createdAt
    ensures ReplaceAll(seg, "Time Created: ", "") == " " + createdAt
  {
    TimeLabel();
    assert !Contains(createdAt, "Time Created: ") by {
      TimestampHasNo(createdAt, 'T');
      NotContainsWithout(createdAt, "Time Created: ", 'T');
    }
    StripLabel(' ', "Time Created: ", createdAt);
  }

  lemma TimeParse(createdAt: Timestamp, now: Timestamp)
    ensures FoundTime(" " + createdAt, now) == Some(createdAt)
  {
    assert ToLower(" " + createdAt) != "now" by {
      assert ToLower(" " + createdAt)[0] == ' ';
    }
    TimestampPadded(createdAt);
  }

  /** `FoundSegments` when the id, type and time segments parse. */
  lemma FoundOfSegments(segs: seq<string>, now: Timestamp, id: Int32, name: string, phone: string,
                        email: string, contactType: ContactType, createdAt: Timestamp)
    requires |segs| >= 6
    requires ParseInt32(ReplaceAll(segs[0], "Id: ", "")) == Some(id)
    requires ReplaceAll(segs[1], "Name: ", "") == name
    requires ReplaceAll(segs[2], "Phone No: ", "") == phone
    requires ReplaceAll(segs[3], "E-mail: ", "") == email
    requires ParseContactType(ReplaceAll(segs[4], "Type: ", "")) == Some(contactType)
    requires FoundTime(ReplaceAll(segs[5], "Time Created: ", ""), now) == Some(createdAt)
    ensures FoundSegments(segs, now) == Some(Contact(id, ToUpper(name), phone, Some(email), contactType, createdAt))
  {
  }

  /** What `FindContact` reads back from a line `AddContact` wrote: the same
      id, type and time, the name upper-cased, and name, phone and e-mail each
      with the space before and after it that `Replace` leaves behind. */
  lemma FoundDecodeOfEncode(c: Contact, now: Timestamp)
    requires Plain(c)
    ensures DecodeFound(Encode(c), now) == Some(Contact(
      c.id, " " + ToUpper(c.name) + " ", " " + c.phoneNumber + " ",
      Some(" " + EmailText(c) + " "), c.contactType, c.createdAt))
  {
    EncodeSplits(c);
    var p := Segments(c);
    SegmentParts(c);
    IdSegment(p[0], c.id, " ");
    NameSegment(p[1], c.name, " ");
    PhoneSegment(p[2], c.phoneNumber, " ");
    EmailSegment(p[3], EmailText(c), " ");
    TypeSegment(p[4], c.contactType, " ");
    TimeSegment(p[5], c.createdAt, now);
    FoundOfSegments(p, now, c.id, " " + c.name + " ", " " + c.phoneNumber + " ", " " + EmailText(c) + " ",
                    c.contactType, c.createdAt);
    UpperPadded(c.name);
  }

  // ---------------------------------------------------------------------------
  // The reader of LoadContactsFromFile
  // ---------------------------------------------------------------------------

  /** What the bulk loader makes of one line: a contact, a line it skips and
      continues after, or an exception that ends the whole load. */
  datatype LineOutcome = Decoded(contact: Contact) | Skipped | Thrown

  /** The body of `LoadContactsFromFile`'s loop for one line. Each segment is
      trimmed and cut at a fixed offset (`Substring` throws when the segment is
      shorter); the phone is cut at 12 although its label is 10 characters long. */
  function DecodeLoaded(line: string): (r: LineOutcome)
    ensures Count(line, '|') < 5 ==> r == Skipped
    ensures r.Decoded? ==> r.contact.email.Some?
  {
    var segs := Split(line, '|');
    if |segs| < 6 then Skipped else DecodeSegments(segs)
  }

  /** `DecodeLoaded` once the line is split into at least six segments: the id first. */
  function DecodeSegments(segs: seq<string>): (r: LineOutcome)
    requires |segs| >= 6
    ensures |Trim(segs[0])| < 4 ==> r == Thrown
    ensures |Trim(segs[0])| >= 4 && ParseInt32(Trim(segs[0])[4..]).None? ==> r == Skipped
    ensures r.Decoded? ==> Some(r.contact.id) == ParseInt32(Trim(segs[0])[4..])
    ensures r.Decoded? ==> r.contact.email.Some?
  {
    match Substring(Trim(segs[0]), 4)
    case None => Thrown
    case Some(idText) =>
      match ParseInt32(idText)
      case None => Skipped
      case Some(id) => DecodeFields(id, segs)
  }

  /** The name, phone, e-mail and type cuts, after the id. */
  function DecodeFields(id: Int32, segs: seq<string>): (r: LineOutcome)
    requires |segs| >= 6
    ensures |Trim(segs[1])| < 6 || |Trim(segs[2])| < 12 || |Trim(segs[3])| < 8 || |Trim(segs[4])| < 6 ==> r == Thrown
    ensures (|Trim(segs[1])| >= 6 && |Trim(segs[2])| >= 12 && |Trim(segs[3])| >= 8 && |Trim(segs[4])| >= 6
             && ParseContactType(Trim(segs[4])[6..]).None?) ==> r == Skipped
    ensures r.Decoded? ==> && r.contact.id == id
                           && r.contact.name == Trim(segs[1])[6..]
                           && r.contact.phoneNumber == Trim(segs[2])[12..]
                           && r.contact.email == Some(Trim(segs[3])[8..])
                           && Some(r.contact.contactType) == ParseContactType(Trim(segs[4])[6..])
    ensures r.Decoded? ==> r.contact.email.Some?
  {
    var name := Substring(Trim(segs[1]), 6);
    var phone := Substring(Trim(segs[2]), 12);
    var email := Substring(Trim(segs[3]), 8);
    var typeText := Substring(Trim(segs[4]), 6);
    if name.None? || phone.None? || email.None? || typeText.None? then Thrown
    else
      match ParseContactType(typeText.value)
      case None => Skipped
      case Some(contactType) => DecodeTime(id, name.value, phone.value, email.value, contactType, segs[5])
  }

  /** The time cut, last. */
  function DecodeTime(id: Int32, name: string, phone: string, email: string, contactType: ContactType,
                      seg: string): (r: LineOutcome)
    ensures |Trim(seg)| < 13 ==> r == Thrown
    ensures |Trim(seg)| >= 13 && ParseTimestamp(Trim(seg)[13..]).None? ==> r == Skipped
    ensures r.Decoded? ==> r.contact == Contact(id, name, phone, Some(email), contactType, r.contact.createdAt)
                           && Some(r.contact.createdAt) == ParseTimestamp(Trim(seg)[13..])
    ensures r.Decoded? ==> r.contact.email.Some?
  {
    match Substring(Trim(seg), 13)
    case None => Thrown
    case Some(createdText) =>
      match ParseTimestamp(createdText)
      case None => Skipped
      case Some(createdAt) => Decoded(Contact(id, name, phone, Some(email), contactType, createdAt))
  }

  /** A segment `" Label: value "` trimmed and cut at the label's length plus
      `extra`: the cut throws when the value is empty or shorter than `extra`. */
  lemma LoadField(tag: string, v: string, extra: nat)
    requires |tag| >= 2 && tag[|tag| - 1] == ' ' && !IsWhiteSpace(tag[0]) && !IsWhiteSpace(tag[|tag| - 2])
    requires v == "" || Tight(v)
    ensures Substring(Trim(" " + tag + v + " "), |tag| + extra) ==
      if v == "" || |v| < extra then None else Some(v[extra..])
  {
    if v == "" {
      LoadEmptyField(tag, extra);
    } else {
      LoadValueField(tag, v, extra);
    }
  }

  lemma LoadEmptyField(tag: string, extra: nat)
    requires |tag| >= 2 && tag[|tag| - 1] == ' ' && !IsWhiteSpace(tag[0]) && !IsWhiteSpace(tag[|tag| - 2])
    ensures Substring(Trim(" " + tag + ""  + " "), |tag| + extra) == None
  {
    var head := tag[..|tag| - 1];
    assert " " + tag + "" + " " == " " + head + "  ";
    TrimPadded(" ", head, "  ");
  }

  lemma LoadValueField(tag: string, v: string, extra: nat)
    requires |tag| >= 1 && !IsWhiteSpace(tag[0]) && Tight(v)
    ensures Substring(Trim(" " + tag + v + " "), |tag| + extra) == if |v| < extra then None else Some(v[extra..])
  {
    TrimLabelled(tag, v);
    if |v| >= extra {
      assert (tag + v)[|tag| + extra..] == v[extra..];
    }
  }

  lemma TrimLabelled(tag: string, v: string)
    requires |tag| >= 1 && !IsWhiteSpace(tag[0]) && Tight(v)
    ensures Trim(" " + tag + v + " ") == tag + v
  {
    var body := tag + v;
    assert body[0] == tag[0] && body[|body| - 1] == v[|v| - 1];
    TrimPadded(" ", body, " ");
    assert " " + body + " " == " " + tag + v + " ";
  }

  lemma LoadId(seg: string, id: Int32)
    requires seg == "Id: " + IntToString(id) + " "
    ensures Substring(Trim(seg), 4) == Some(IntToString(id))
    ensures ParseInt32(IntToString(id)) == Some(id)
  {
    var idText := IntToString(id);
    TrimPadded("", "Id: " + idText, " ");
    assert "" + ("Id: " + idText) + " " == seg;
    assert ("Id: " + idText)[4..] == idText;
    ParseFormatted(id, "");
    assert idText + "" == idText;
  }

  lemma LoadName(seg: string, v: string)
    requires seg == " Name: " + v + " "
    requires v == "" || Tight(v)
    ensures Substring(Trim(seg), 6) == if v == "" then None else Some(v)
  {
    NameLabel();
    assert seg == " " + "Name: " + v + " ";
    LoadField("Name: ", v, 0);
  }

  lemma LoadPhone(seg: string, v: string)
    requires seg == " Phone No: " + v + " "
    requires v == "" || Tight(v)
    ensures Substring(Trim(seg), 12) == if |v| < 2 then None else Some(v[2..])
  {
    PhoneLabel();
    assert seg == " " + "Phone No: " + v + " ";
    LoadField("Phone No: ", v, 2);
  }

  lemma LoadEmail(seg: string, v: string)
    requires seg == " E-mail: " + v + " "
    requires v == "" || Tight(v)
    ensures Substring(Trim(seg), 8) == if v == "" then None else Some(v)
  {
    EmailLabel();
    assert seg == " " + "E-mail: " + v + " ";
    LoadField("E-mail: ", v, 0);
  }

  lemma LoadType(seg: string, t: ContactType)
    requires seg == " Type: " + TypeName(t) + " "
    ensures Substring(Trim(seg), 6) == Some(TypeName(t))
    ensures ParseContactType(TypeName(t)) == Some(t)
  {
    var typeText := TypeName(t);
    TypeLabel();
    assert seg == " " + "Type: " + typeText + " ";
    LoadField("Type: ", typeText, 0);
    TrimPadded("", typeText, "");
    assert "" + typeText + "" == typeText;
    ParseTypeName(typeText, t);
  }

  lemma LoadTime(seg: string, ts: Timestamp)
    requires seg == " Time Created: " + ts
    ensures Substring(Trim(seg), 13) == Some(" " + ts)
    ensures ParseTimestamp(" " + ts) == Some(ts)
  {
    var tail := " " + ts;
    var body := "Time Created:" + tail;
    assert |"Time Created:"| == 13;
    assert "Time Created: " + ts == body;
    TrimTimeSegment(ts);
    assert body[13..] == tail;
    TimestampPadded(ts);
  }

  lemma TrimTimeSegment(ts: Timestamp)
    ensures Trim(" Time Created: " + ts) == "Time Created: " + ts
  {
    var body := "Time Created: " + ts;
    assert " Time Created: " + ts == " " + body + "";
    TrimPadded(" ", body, "");
  }

  /** A formatted time parses back, with the space `Replace` leaves before it. */
  lemma TimestampPadded(ts: Timestamp)
    ensures ParseTimestamp(" " + ts) == Some(ts)
  {
    TrimPadded(" ", ts, "");
    assert " " + ts + "" == " " + ts;
  }

  /** What the bulk loader reads back from a line `AddContact` wrote, for
      values without white space at their ends: the load throws when the name
      or e-mail is empty or the phone is shorter than two characters, and
      otherwise yields the contact with the first two characters of its phone
      dropped. */
  lemma LoadedDecodeOfEncode(c: Contact)
    requires BarFree(c)
    requires c.name == "" || Tight(c.name)
    requires c.phoneNumber == "" || Tight(c.phoneNumber)
    requires EmailText(c) == "" || Tight(EmailText(c))
    ensures DecodeLoaded(Encode(c)) ==
      if c.name == "" || |c.phoneNumber| < 2 || EmailText(c) == "" then Thrown
      else Decoded(c.(phoneNumber := c.phoneNumber[2..], email := Some(EmailText(c))))
  {
    EncodeSplits(c);
    LoadedSegments(c);
  }

  lemma LoadedSegments(c: Contact)
    requires c.name == "" || Tight(c.name)
    requires c.phoneNumber == "" || Tight(c.phoneNumber)
    requires EmailText(c) == "" || Tight(EmailText(c))
    ensures DecodeSegments(Segments(c)) ==
      if c.name == "" || |c.phoneNumber| < 2 || EmailText(c) == "" then Thrown
      else Decoded(c.(phoneNumber := c.phoneNumber[2..], email := Some(EmailText(c))))
  {
    var segs := Segments(c);
    SegmentParts(c);
    LoadId(segs[0], c.id);
    LoadName(segs[1], c.name);
    LoadPhone(segs[2], c.phoneNumber);
    LoadEmail(segs[3], EmailText(c));
    LoadType(segs[4], c.contactType);
    LoadTime(segs[5], c.createdAt);
    if c.name == "" || |c.phoneNumber| < 2 || EmailText(c) == "" {
      assert DecodeFields(c.id, segs) == Thrown;
    } else {
      var phone := c.phoneNumber[2..];
      var email := EmailText(c);
      DecodeCuts(segs, IntToString(c.id), c.id, c.name, phone, email, TypeName(c.contactType),
                 c.contactType, " " + c.createdAt, c.createdAt);
      assert c.(phoneNumber := phone, email := Some(email))
          == Contact(c.id, c.name, phone, Some(email), c.contactType, c.createdAt);
    }
  }

  /** `DecodeSegments` when every cut succeeds and every parse succeeds. */
  lemma DecodeCuts(segs: seq<string>, idText: string, id: Int32, name: string, phone: string, email: string,
                   typeText: string, contactType: ContactType, createdText: string, createdAt: Timestamp)
    requires |segs| >= 6
    requires Substring(Trim(segs[0]), 4) == Some(idText) && ParseInt32(idText) == Some(id)
    requires Substring(Trim(segs[1]), 6) == Some(name)
    requires Substring(Trim(segs[2]), 12) == Some(phone)
    requires Substring(Trim(segs[3]), 8) == Some(email)
    requires Substring(Trim(segs[4]), 6) == Some(typeText) && ParseContactType(typeText) == Some(contactType)
    requires Substring(Trim(segs[5]), 13) == Some(createdText) && ParseTimestamp(createdText) == Some(createdAt)
    ensures DecodeSegments(segs) == Decoded(Contact(id, name, phone, Some(email), contactType, createdAt))
  {
    IdCut(segs, idText, id);
    FieldsCut(id, segs, name, phone, email, typeText, contactType);
    TimeCut(id, name, phone, email, contactType, segs[5], createdText, createdAt);
  }

  lemma IdCut(segs: seq<string>, idText: string, id: Int32)
    requires |segs| >= 6
    requires Substring(Trim(segs[0]), 4) == Some(idText) && ParseInt32(idText) == Some(id)
    ensures DecodeSegments(segs) == DecodeFields(id, segs)
  {
  }

  lemma FieldsCut(id: Int32, segs: seq<string>, name: string, phone: string, email: string,
                  typeText: string, contactType: ContactType)
    requires |segs| >= 6
    requires Substring(Trim(segs[1]), 6) == Some(name)
    requires Substring(Trim(segs[2]), 12) == Some(phone)
    requires Substring(Trim(segs[3]), 8) == Some(email)
    requires Substring(Trim(segs[4]), 6) == Some(typeText) && ParseContactType(typeText) == Some(contactType)
    ensures DecodeFields(id, segs) == DecodeTime(id, name, phone, email, contactType, segs[5])
  {
  }

  lemma TimeCut(id: Int32, name: string, phone: string, email: string, contactType: ContactType,
                seg: string, createdText: string, createdAt: Timestamp)
    requires Substring(Trim(seg), 13) == Some(createdText) && ParseTimestamp(createdText) == Some(createdAt)
    ensures DecodeTime(id, name, phone, email, contactType, seg) ==
            Decoded(Contact(id, name, phone, Some(email), contactType, createdAt))
  {
  }

  // ---------------------------------------------------------------------------
  // Variant A's rewrite of a line
  // ---------------------------------------------------------------------------

  /** The line variant A's `UpdateContact` writes for a matching line: the
      name and e-mail segments replaced, the segments joined again with `" |"`;
      `None` when the line has fewer than six segments. */
  function SpliceLine(line: string, name: string, email: string): (r: Option<string>)
    ensures r.None? <==> Count(line, '|') < 5
  {
    var segs := Split(line, '|');
    if |segs| < 6 then None
    else Some(Join(segs[1 := " Name: " + name][3 := " E-mail: " + email], " |"))
  }

  /** After the splice the line has as many segments as before: the name and
      e-mail segments are the new ones, every other segment is kept, and every
      segment but the last gains one trailing space from the `" |"` joint. */
  lemma SpliceSegments(line: string, name: string, email: string)
    requires '|' !in name && '|' !in email
    requires Count(line, '|') >= 5
    ensures var segs := Split(line, '|');
            var after := Split(SpliceLine(line, name, email).value, '|');
            && |after| == |segs|
            && after[1] == " Name: " + name + " "
            && after[3] == " E-mail: " + email + " "
            && (forall k :: 0 <= k < |segs| - 1 && k != 1 && k != 3 ==> after[k] == segs[k] + " ")
            && after[|segs| - 1] == segs[|segs| - 1]
  {
    var segs := Split(line, '|');
    var nameSeg := " Name: " + name;
    var emailSeg := " E-mail: " + email;
    assert '|' !in nameSeg && '|' !in emailSeg by { SpliceLabels(); }
    var parts := segs[1 := nameSeg][3 := emailSeg];
    assert forall k :: 0 <= k < |parts| ==> '|' !in parts[k];
    SplitJoinSpaced(parts);
    assert SpliceLine(line, name, email).value == Join(parts, " |");
    var after := PadAllButLast(parts);
    forall k | 0 <= k < |segs| - 1 && k != 1 && k != 3
      ensures after[k] == segs[k] + " "
    {
      assert parts[k] == segs[k];
    }
  }

  lemma SpliceLabels()
    ensures '|' !in " Name: " && '|' !in " E-mail: "
  {
  }

  /** The segments of a spliced line `AddContact` wrote. */
  lemma SplicedParts(c: Contact, name: string, email: string)
    requires Plain(c) && PlainText(name) && PlainText(email)
    ensures SpliceLine(Encode(c), name, email).Some?
    ensures var after := Split(SpliceLine(Encode(c), name, email).value, '|');
            && |after| == 6
            && after[0] == "Id: " + IntToString(c.id) + "  "
            && after[1] == " Name: " + name + " "
            && after[2] == " Phone No: " + c.phoneNumber + "  "
            && after[3] == " E-mail: " + email + " "
            && after[4] == " Type: " + TypeName(c.contactType) + "  "
            && after[5] == " Time Created: " + c.createdAt
  {
    EncodeSplits(c);
    SegmentParts(c);
    SpliceSegments(Encode(c), name, email);
  }

  /** Variant A's update of a line `AddContact` wrote, read back by
      `FindContact`: id, type and time kept, the new name and e-mail, and the
      phone label still present, now followed by two spaces. */
  lemma SpliceOfEncoded(c: Contact, name: string, email: string, now: Timestamp)
    requires Plain(c) && PlainText(name) && PlainText(email)
    ensures SpliceLine(Encode(c), name, email).Some?
    ensures Contains(SpliceLine(Encode(c), name, email).value, "Phone No: " + c.phoneNumber)
    ensures DecodeFound(SpliceLine(Encode(c), name, email).value, now) == Some(Contact(
      c.id, " " + ToUpper(name) + " ", " " + c.phoneNumber + "  ",
      Some(" " + email + " "), c.contactType, c.createdAt))
  {
    SplicedParts(c, name, email);
    var spliced := SpliceLine(Encode(c), name, email).value;
    var after := Split(spliced, '|');
    // The phone label is still there.
    PhoneLabelInside(after[2], c.phoneNumber, "  ");
    ContainsInJoin(after, 2, "|", "Phone No: " + c.phoneNumber);
    JoinSplit(spliced, '|');
    // Read back.
    IdSegment(after[0], c.id, "  ");
    NameSegment(after[1], name, " ");
    PhoneSegment(after[2], c.phoneNumber, "  ");
    EmailSegment(after[3], email, " ");
    TypeSegment(after[4], c.contactType, "  ");
    TimeSegment(after[5], c.createdAt, now);
    FoundOfSegments(after, now, c.id, " " + name + " ", " " + c.phoneNumber + "  ", " " + email + " ",
                    c.contactType, c.createdAt);
    UpperPadded(name);
  }

  // ---------------------------------------------------------------------------
  // A space-padded phone is never found in a written line
  // ---------------------------------------------------------------------------

  /** No written line holds the phone label followed by a phone that starts
      with white space: that is where the label's `:` would have to sit
      two places before a space, and only the phone's own text, which is
      tight, follows the label's `:`. */
  lemma EncodeMissesPaddedPhone(c: Contact, p: string)
    requires Plain(c) && Tight(c.phoneNumber) && '|' !in p
    ensures !Contains(Encode(c), "Phone No: " + (" " + p + " "))
  {
    var pat := "Phone No: " + (" " + p + " ");
    assert pat[1] == 'h' && pat[8] == ':' && pat[10] == ' ';
    assert '|' !in pat;
    EncodeIsJoin(c);
    assert "|" == ['|'];
    SegmentsMiss(c, pat);
    if Contains(Join(Segments(c), ['|']), pat) {
      var k := ContainsInJoinedPart(Segments(c), '|', pat);
    }
  }

  lemma SegmentsMiss(c: Contact, pat: string)
    requires Plain(c) && Tight(c.phoneNumber)
    requires |pat| > 10 && pat[1] == 'h' && pat[8] == ':' && pat[10] == ' '
    ensures forall k :: 0 <= k < |Segments(c)| ==> !Contains(Segments(c)[k], pat)
  {
    forall k | 0 <= k < |Segments(c)|
      ensures !Contains(Segments(c)[k], pat)
    {
      SegmentMisses(c, k, pat);
    }
  }

  lemma SegmentMisses(c: Contact, k: nat, pat: string)
    requires Plain(c) && Tight(c.phoneNumber) && k < 6
    requires |pat| > 10 && pat[1] == 'h' && pat[8] == ':' && pat[10] == ' '
    ensures !Contains(Segments(c)[k], pat)
  {
    SegmentParts(c);
    if k == 0 {
      IdSegmentMisses(c.id, pat);
    } else if k == 1 {
      ValueSegmentMisses(" Name:", c.name, pat);
      assert " Name: " + c.name + " " == " Name:" + " " + c.name + " ";
    } else if k == 2 {
      PhoneSegmentMisses(c.phoneNumber, pat);
    } else if k == 3 {
      ValueSegmentMisses(" E-mail:", EmailText(c), pat);
      assert " E-mail: " + EmailText(c) + " " == " E-mail:" + " " + EmailText(c) + " ";
    } else if k == 4 {
      TypeSegmentMisses(c.contactType, pat);
    } else {
      TimeSegmentMisses(c.createdAt, pat);
    }
  }

  lemma IdSegmentMisses(id: int, pat: string)
    requires 'h' in pat
    ensures !Contains("Id: " + IntToString(id) + " ", pat)
  {
    NotContainsWithout("Id: " + IntToString(id) + " ", pat, 'h');
  }

  lemma TypeSegmentMisses(t: ContactType, pat: string)
    requires 'h' in pat
    ensures !Contains(" Type: " + TypeName(t) + " ", pat)
  {
    NotContainsWithout(" Type: " + TypeName(t) + " ", pat, 'h');
  }

  lemma TimeSegmentMisses(ts: Timestamp, pat: string)
    requires 'h' in pat
    ensures !Contains(" Time Created: " + ts, pat)
  {
    TimestampHasNo(ts, 'h');
    NotContainsWithout(" Time Created: " + ts, pat, 'h');
  }

  /** A label of at most eight characters, then a `:`-free value between spaces. */
  lemma ValueSegmentMisses(tag: string, v: string, pat: string)
    requires |tag| <= 8 && ':' !in v && |pat| > 8 && pat[8] == ':'
    ensures !Contains(tag + " " + v + " ", pat)
  {
    var s := tag + " " + v + " ";
    forall m | 8 <= m < |s|
      ensures s[m] != ':'
    {
      if |tag| + 1 <= m < |tag| + 1 + |v| {
        assert s[m] == v[m - |tag| - 1];
      } else {
        assert m == |tag| || m == |s| - 1;
      }
    }
    NotContainsLate(s, pat, 8, ':');
  }

  lemma PhoneSegmentMisses(v: string, pat: string)
    requires Tight(v) && ':' !in v && |pat| > 10 && pat[8] == ':' && pat[10] == ' '
    ensures !Contains(" Phone No: " + v + " ", pat)
  {
    var s := " Phone No: " + v + " ";
    forall m | 8 <= m < |s|
      ensures s[m] == ':' ==> m == 9
    {
      if 11 <= m < 11 + |v| {
        assert s[m] == v[m - 11];
      }
    }
    assert s[11] == v[0];
    NotContainsPair(s, pat, 8, ':', 2, ' ');
  }
}
