# Contact store of BasicContactList, in Dafny

`BasicContactList.ContactManager` keeps a static in-memory `List<Contact>` and
the text file `Contact.txt` in step. The file holds one line per contact:

    Id: 7 | Name: Ada | Phone No: 0803 | E-mail: a@b.c | Type: Work | Time Created: 10/15/2026 9:41:00 AM

The repository holds two versions of the class. This project models both on a
shared record codec:

- `ContactStore` (store.dfy) holds what both versions share:
  - the two sequences as a `State`;
  - `IsContactExist` and the list search `Contacts.Find`;
  - the id rule;
  - the `FirstOrDefault` line search over the file;
  - `AddContact`, `FindContact`, `RefreshContactFile` and `DeleteContact`, each as a function from the old
    state to the new state and an outcome.
- `FileHandlerVariant` (file_handler.dfy) is ContactFileHandler.cs:
  - a class `ContactManager` with fields `contacts: seq<Contact>` and `file: seq<string>`;
  - its methods `AddContact`, `FindContact`, `RefreshContactFile`, `DeleteContact`, the bulk loader
    `LoadContactsFromFile` (a loop with `continue` and an exception exit) and the indexed-loop
    `UpdateContact`, which splices the name and e-mail segments of a line.
- `ManagerVariant` (manager.dfy) is ContactManager.cs:
  - the same class shape;
  - an `UpdateContact` that renames the found object in place;
  - `UpdateContactFile`, which writes the whole re-encoded contact over the first matching line.
- `Records` (records.dfy) is the line format:
  - `Contact` and `ContactType`;
  - the encoding of lines 45 and 47/256;
  - the `Split`/`Replace` reader of `FindContact`;
  - the `Trim`/`Substring` reader of `LoadContactsFromFile`;
  - the segment splice of variant A's update.
- `Text` (text.dfy) and `Numerals` (numerals.dfy) restate the .NET operations the code relies on:
  - `Contains`, `Replace`, `Split`, `Join`, `Trim`, `Substring`, `ToUpper`/`ToLower`;
  - `{int}` formatting, `int.Parse`/`int.TryParse`;
  - unchecked 32-bit addition.

Each class method is proved against its transition function. Its `ensures` is
`(Snapshot(), outcome) == Spec(old(Snapshot()), …)`. The lemmas then state what
the source promises about those functions. The class invariant `Valid()` says
the list's phones are pairwise distinct; `AddContact`, `DeleteContact` and
`UpdateContact` keep it.

A failing read or write is a boolean parameter: `readOk` covers the reads of
one call and `writeOk` its writes. The clock `DateTime.Now` is the parameter
`now`.

Behaviours of the code that the lemmas pin down:

- The bulk loader cuts the phone at offset 12, but the label `Phone No: ` is 10
  characters long. Every phone it loads therefore lacks its first two
  characters (`LoadWritten`).
- `FindContact`'s file branch keeps the space on each side of every value that
  `Replace` leaves, and upper-cases the name (`FoundDecodeOfEncode`).
- In ContactManager.cs, `UpdateContact` of a contact that only the file holds
  never rewrites the file. The phone it searches for is that padded phone, and
  no written line holds `Phone No:` followed by two spaces
  (`ManagerVariant.UpdateFileOnlyNoop`).
- Existence checks on the file are substring tests. A phone that is a prefix of
  a stored phone counts as present (`ContactStore.AddRejectsPrefix`).
- The new id is the largest id in the list plus one (`NextId`). The file's ids
  are ignored. After a delete, the next id is the new largest id plus one, which
  can be an id already given out, and every process starts with an empty list,
  so ids start again at 1. The model follows the code here, not the idea that
  ids are never reused.
- An I/O failure inside `RefreshContactFile` escapes `DeleteContact`, which
  catches only `ContactsException`. The list removal has already happened by
  then (`DeleteEscaped`).
- `FindContact` compares the time text with `now` after `Replace` has removed
  the label, which leaves the space in front of it. In the written form that
  text never equals `now`, so the clock branch is never taken, and a line whose
  time reads `now` is not decoded at all: `FindContact` returns null
  (`FoundTimeAfterSpace`, `NowSegmentFails`).
- A contact found in the file is a new object. `Contacts.Remove` of it changes
  nothing, and renaming it changes nothing in the list. The model identifies a
  list element by its position.

## Model

| member | source | states |
|---|---|---|
| ContactStore.HasPhone | ContactFileHandler.cs:354-357 | `IsContactExist` holds exactly when some list element has that phone |
| ContactStore.FindIndex | ContactFileHandler.cs:118 | `Contacts.Find`: none exactly when no element has the phone, else the first such index |
| ContactStore.FindIndexSamePhones | ContactManager.cs:120 | the list search depends only on the phones, so renaming elements does not move it |
| ContactStore.MaxId | ContactFileHandler.cs:28 | `Contacts.Max(c => c.Id)` is some element's id and no id is larger |
| ContactStore.NextId | ContactFileHandler.cs:28 | the new id is 1 for an empty list, else the maximum plus one with 32-bit wrap-around; it exceeds every id unless the maximum is `int.MaxValue` |
| ContactStore.FirstMention | ContactFileHandler.cs:95 | `FirstOrDefault(line => line.Contains("Phone No: " + phone))`: none exactly when no line mentions the phone, else the first line that does |
| ContactStore.RemoveFirst | ContactFileHandler.cs:99 | `List.Remove(line)` takes out the first line equal to `line` and keeps the others in order; without such a line the lines stay as they are |
| ContactStore.IndexOfFirstMention | ContactManager.cs:255 | `IndexOf` of the first mentioning line's text finds that same line |
| ContactStore.MentionsPrefix | ContactFileHandler.cs:23 | a line that mentions a phone also mentions each prefix of that phone |
| ContactStore.EncodeMentions | ContactFileHandler.cs:45 | the line `AddContact` writes mentions the contact's phone |
| ContactStore.WrittenAt | ContactFileHandler.cs:43-48 | line k of a file written by successive adds is the encoding of contact k |
| ContactStore.AddRejectsDuplicate | ContactFileHandler.cs:16-26 | a phone in the list, or mentioned by any line of a readable file, leaves list and file unchanged, with the matching outcome |
| ContactStore.AddRejectsPrefix | ContactManager.cs:25-28 | adding a prefix of a phone already written is rejected as present in the file, and nothing changes |
| ContactStore.AddUnreadableNoop | ContactFileHandler.cs:21 | for a phone not in the list, a file that cannot be read fails the add and changes nothing |
| ContactStore.AddAppends | ContactFileHandler.cs:28-48 | otherwise exactly the new contact is appended to the list and, when the write succeeds, exactly its line to the file; a failed write keeps the list append |
| ContactStore.AddKeepsDistinct | ContactFileHandler.cs:16-19 | adding keeps the list's phones pairwise distinct |
| ContactStore.AddTwiceRejected | ContactManager.cs:18-21 | adding the same phone right after a successful add is rejected and changes nothing |
| ContactStore.FileLookup | ContactFileHandler.cs:130-163 | a contact from the file comes from a line that mentions the phone; no mentioning line gives null |
| ContactStore.FirstMentionAt | ContactFileHandler.cs:307-309 | a line i that mentions the phone, with no earlier line that does, is the first mention |
| ContactStore.ScanFile | ContactFileHandler.cs:130-163 | the `foreach` over the lines returns the decoding of the first mentioning line, or null |
| ContactStore.Find | ContactFileHandler.cs:116-175 | `FindContact` returns a list element exactly when the list holds the phone, and then the first element with that phone and its index; otherwise it returns a file contact exactly when the file is readable and the first mentioning line decodes, and that contact is the decoding |
| ContactStore.FindAfterAdd | ContactFileHandler.cs:118-123 | after a successful add, `FindContact` returns the new list element |
| ContactStore.FindFromWrittenLine | ContactFileHandler.cs:143-161 | for a `Plain` contact, a phone only the file's written line holds is found with id, type and time kept, the name upper-cased and each value padded by the spaces `Replace` leaves |
| ContactStore.FoundInWrittenIsPadded | ContactManager.cs:147 | the phone the file branch returns from a written file is a stored phone with a space on each side |
| ContactStore.FileLookupReplaced | ContactFileHandler.cs:327 | overwriting the first mentioning line by another mentioning line keeps it first, and the lookup decodes the new line |
| ContactStore.WrittenMissesPadded | ContactManager.cs:251 | no line of a written file mentions a phone padded by spaces |
| ContactStore.Refresh | ContactFileHandler.cs:88-114 | only a removal changes the file; "no line" holds exactly when the file was read and no line mentions the phone |
| ContactStore.RefreshRemovesFirstMention | ContactFileHandler.cs:95-102 | the removal takes out exactly the first mentioning line |
| ContactStore.DeleteNotFoundNoop | ContactFileHandler.cs:65-70 | when `FindContact` returns null, the delete changes nothing |
| ContactStore.DeleteEffect | ContactManager.cs:75-77 | otherwise the list loses the found element, or nothing for a file contact; the file loses exactly its first mentioning line when read and write succeed, and is unchanged otherwise |
| ContactStore.DeleteFromFileEffect | ContactFileHandler.cs:73-108 | the list it is given stays as it is, only a complete refresh changes the file, and it drops the first mentioning line |
| ContactStore.DeleteKeepsDistinct | ContactFileHandler.cs:73 | deleting keeps the list's phones pairwise distinct |
| ContactStore.RemoveAtDropsPhone | ContactFileHandler.cs:73 | removing the one element with a phone leaves none with it |
| ContactStore.RemoveAtDropsMention | ContactFileHandler.cs:99 | removing the one line that mentions a phone leaves none that does |
| ContactStore.DeleteThenFind | ContactFileHandler.cs:61-114 | after a complete delete of a list contact with one mentioning line, `FindContact` returns null |
| Records.ParseContactType | ContactFileHandler.cs:157 | a parsed member's name is the trimmed text |
| Records.ParseTypeName | ContactFileHandler.cs:266 | every member name parses back to its member, whatever white space surrounds it |
| Records.EncodeIsJoin | ContactFileHandler.cs:45 | the written line is its six labelled segments joined by the delimiter |
| Records.EncodeSplits | ContactManager.cs:136 | splitting the line written for a contact with no `\|` in its fields (`BarFree`) gives back exactly its six segments |
| Records.EncodeHasPhoneLabel | ContactManager.cs:47 | a written line holds the phone label followed by the phone |
| Records.DecodeFound | ContactFileHandler.cs:134-159 | fewer than six segments gives null; otherwise null exactly when the id, the type or the time does not parse; a decoded contact has an e-mail and no lower-case letter in its name |
| Records.FoundSegments | ContactFileHandler.cs:143-159 | once split, the line gives null exactly when the id, the type or the time does not parse |
| Records.FoundTime | ContactFileHandler.cs:158 | text reading "now" in any case is the clock's time; any other text goes through the time parse |
| Records.FoundTimeAfterSpace | ContactFileHandler.cs:148-158 | time text that starts with a space, as every stripped segment does, always goes through the time parse |
| Records.NowSegmentFails | ContactFileHandler.cs:148-158 | a segment reading ` Time Created: now` does not decode |
| Records.FoundDecodeOfEncode | ContactManager.cs:145-161 | for a `Plain` contact (no `\|` or `:` in its fields), the reader of `FindContact` gives back its written line's id, type and time, the name upper-cased, and name, phone and e-mail each between spaces |
| Records.DecodeLoaded | ContactFileHandler.cs:250-252 | a line with fewer than six segments is skipped; a decoded contact has an e-mail; the rest is stated per cut by `DecodeSegments`, `DecodeFields` and `DecodeTime` |
| Records.DecodeSegments | ContactFileHandler.cs:254-259 | an id segment shorter than its label throws, an id that does not parse skips the line, and a decoded contact has the parsed id |
| Records.DecodeFields | ContactFileHandler.cs:261-270 | a name, phone, e-mail or type segment shorter than its cut throws; a type that does not parse skips the line; a decoded contact has the cut name, phone and e-mail and the parsed type |
| Records.DecodeTime | ContactFileHandler.cs:272-287 | a time segment shorter than its cut throws, a time that does not parse skips the line, and a decoded contact has the parsed time |
| Records.LoadPhone | ContactFileHandler.cs:262 | the phone cut throws below two characters, the empty phone included, and otherwise drops the first two |
| Records.LoadName | ContactFileHandler.cs:261 | the name cut throws on an empty name and otherwise keeps it |
| Records.LoadEmail | ContactFileHandler.cs:263 | the e-mail cut throws on an empty e-mail and otherwise keeps it |
| Records.LoadId | ContactFileHandler.cs:255 | the id cut and parse give back the written id |
| Records.LoadType | ContactFileHandler.cs:265-266 | the type cut and parse give back the written member |
| Records.LoadTime | ContactFileHandler.cs:273 | the time cut keeps one leading space, and the parse still gives back the written time |
| Records.LoadedDecodeOfEncode | ContactFileHandler.cs:250-287 | for a `BarFree` contact whose fields are each empty or tight, its written line throws when the name or e-mail is empty or the phone has fewer than two characters, and otherwise decodes to the contact less two phone characters |
| Records.SpliceLine | ContactFileHandler.cs:311-324 | the splice fails exactly when the line has fewer than six segments |
| Records.SpliceSegments | ContactFileHandler.cs:320-324 | the splice keeps the segment count, puts in the new name and e-mail segments and adds one space after every other segment but the last |
| Records.SplicedParts | ContactFileHandler.cs:320-324 | the six segments of a spliced written line |
| Records.SpliceOfEncoded | ContactFileHandler.cs:320-324 | for a `Plain` contact and `Plain` new name and e-mail, a spliced written line still mentions the phone and reads back with the new name and e-mail and one more space after the phone |
| Records.EncodeMissesPaddedPhone | ContactManager.cs:251 | a written line of a tight phone never holds the phone label followed by a space-padded phone |
| Numerals.Wrap32 | ContactFileHandler.cs:28 | unchecked `+ 1` gives the value congruent modulo 2^32 in the `int` range, unchanged inside that range |
| Numerals.ParseFormatted | ContactFileHandler.cs:153 | `int.Parse` of a formatted `int`, even with trailing white space, gives it back |
| Text.Split | ContactFileHandler.cs:134 | `Split("|")` gives one more piece than there are delimiters, none of them containing the delimiter |
| Text.JoinSplit | ContactFileHandler.cs:134 | joining the pieces with the delimiter gives back the line |
| Text.SplitJoinSpaced | ContactFileHandler.cs:324 | splitting a `" \|"` join of delimiter-free pieces gives the pieces, each but the last with one more trailing space |
| Text.StripLabel | ContactFileHandler.cs:143-148 | `Replace(label, "")` on a segment whose value lacks the label removes only the label |
| Text.TrimKeepsMiddle | ContactFileHandler.cs:255 | `Trim` keeps the middle of the text character for character, and what it drops on either side is white space |
| Text.Substring | ContactFileHandler.cs:255 | `Substring(start)` throws exactly when start is past the end, and otherwise gives the rest |
| Text.ToUpper | ContactFileHandler.cs:154 | upper-casing maps every character on its own, keeps the length and leaves no lower-case ASCII letter |
| FileHandlerVariant.Outcomes | ContactFileHandler.cs:248-289 | one loader outcome per line |
| FileHandlerVariant.OutcomeAt | ContactFileHandler.cs:248-289 | outcome k is the decoding of line k |
| FileHandlerVariant.Collect | ContactFileHandler.cs:244-296 | the loader returns at most one contact per line |
| FileHandlerVariant.LoadLines | ContactFileHandler.cs:240-297 | `LoadContactsFromFile` returns at most one contact per line |
| FileHandlerVariant.CollectAppend | ContactFileHandler.cs:244-294 | collecting a run is collecting its halves in turn, unless the first half throws, in which case the second is never reached |
| FileHandlerVariant.LoadAppend | ContactFileHandler.cs:248-289 | loading a file is loading its halves in order, unless a line of the first half throws, in which case the load stops there |
| FileHandlerVariant.WrittenLoads | ContactFileHandler.cs:250-287 | the line of a loadable contact decodes to it less two phone characters |
| FileHandlerVariant.WrittenThrows | ContactFileHandler.cs:261-263 | the line of a contact with an empty name or e-mail throws |
| FileHandlerVariant.LoadWritten | ContactFileHandler.cs:240-297 | a file of loadable contacts' lines (`BarFree`, tight fields, phone of two or more characters, e-mail given) loads back every contact, in order, each without the first two phone characters |
| FileHandlerVariant.WrittenNoThrow | ContactFileHandler.cs:248-289 | no line of a loadable contact throws |
| FileHandlerVariant.LoadStopsAtThrow | ContactFileHandler.cs:291-296 | a line that throws ends the load; only earlier lines' contacts are returned |
| FileHandlerVariant.LoadStopsAtEmptyField | ContactFileHandler.cs:261-263 | a written contact with an empty name or no e-mail stops the load at its line |
| FileHandlerVariant.UpdateFileShape | ContactFileHandler.cs:307-341 | the update keeps the line count and every line but the first matching one, which becomes its splice; a match with fewer than six segments, no match or an I/O failure leaves the file unchanged |
| FileHandlerVariant.UpdateEncodedLine | ContactFileHandler.cs:307-334 | updating a written line goes through and puts its splice at that index |
| FileHandlerVariant.UpdateThenFind | ContactFileHandler.cs:299-347 | for a `Plain` contact and `Plain` new name and e-mail, after updating its written line, `FindContact` reads the new name upper-cased and the new e-mail, with id, phone, type and time kept |
| FileHandlerVariant.ContactManager.constructor | ContactFileHandler.cs:10 | a fresh list is empty and the file is as given |
| FileHandlerVariant.ContactManager.AddContact | ContactFileHandler.cs:12-59 | the new list, file and outcome are `Add` of the old ones, and the list phones stay distinct |
| FileHandlerVariant.ContactManager.FindContact | ContactFileHandler.cs:116-175 | returns `Find` of the current state: the first list element with the phone, else the decoding of the first mentioning line of a readable file, else null |
| FileHandlerVariant.ContactManager.RefreshContactFile | ContactFileHandler.cs:88-114 | the list is unchanged and the new file and outcome are `Refresh` of the old file |
| FileHandlerVariant.ContactManager.DeleteContact | ContactFileHandler.cs:61-86 | the new state and outcome are `Delete` of the old state, and the list phones stay distinct |
| FileHandlerVariant.ContactManager.LoadContactsFromFile | ContactFileHandler.cs:240-297 | returns `LoadLines` of the file, or nothing when the file cannot be read |
| FileHandlerVariant.ContactManager.UpdateContact | ContactFileHandler.cs:299-347 | the list is unchanged and the new file and outcome are `UpdateFile` of the old file |
| ManagerVariant.ReplaceLineShape | ContactManager.cs:245-277 | the replacement keeps the line count and every line but the first mentioning one, which becomes the contact's full encoding; "no line" holds exactly when the file was read and no line mentions the phone; any other outcome leaves the file unchanged |
| ManagerVariant.UpdateMissingNoop | ContactManager.cs:227-233 | when `FindContact` returns null, the update changes nothing |
| ManagerVariant.UpdateInMemory | ContactManager.cs:227-240 | for a list contact, exactly that element gets the new name and e-mail; the file gets its re-encoding on the first mentioning line when read and write succeed |
| ManagerVariant.UpdateKeepsDistinct | ContactManager.cs:236-237 | the update keeps the list's phones pairwise distinct |
| ManagerVariant.UpdateThenFind | ContactManager.cs:120-124 | after updating a list contact, `FindContact` returns that element with the new name and e-mail |
| ManagerVariant.UpdateFileOnlyNoop | ContactManager.cs:225-277 | for a phone not in the list, over a file of lines written for `Plain` contacts with tight phones, the update leaves list and file unchanged; the outcome is "no line" when the file holds the contact |
| ManagerVariant.ContactManager.constructor | ContactManager.cs:12 | a fresh list is empty and the file is as given |
| ManagerVariant.ContactManager.AddContact | ContactManager.cs:14-61 | the new list, file and outcome are `Add` of the old ones, and the list phones stay distinct |
| ManagerVariant.ContactManager.FindContact | ContactManager.cs:118-177 | returns `Find` of the current state: the first list element with the phone, else the decoding of the first mentioning line of a readable file, else null |
| ManagerVariant.ContactManager.RefreshContactFile | ContactManager.cs:90-116 | the list is unchanged and the new file and outcome are `Refresh` of the old file |
| ManagerVariant.ContactManager.DeleteContact | ContactManager.cs:63-88 | the new state and outcome are `Delete` of the old state, and the list phones stay distinct |
| ManagerVariant.ContactManager.UpdateContact | ContactManager.cs:225-243 | the new state and outcome are `Update` of the old state, and the list phones stay distinct |
| ManagerVariant.ContactManager.UpdateContactFile | ContactManager.cs:245-277 | the list is unchanged and the new file and outcome are `ReplaceLine` of the old file |

## Left out

- Console output: every `Console.WriteLine`, `Print`, `GetContact` and both `GetAllContacts`. The ConsoleTable and Humanizer rendering only reports; each message is an outcome value or an unchanged state.
- File I/O: the file is the `file` field. A failing `File.ReadAllLines`, `StreamWriter` or `File.WriteAllLines` is `readOk`/`writeOk = false`, with one flag for all the reads and one for all the writes of a call. A line break inside a field, which would split a record over two lines, is not modelled.
- `DateTime`: a time is its formatted text (`Timestamp`: digits, `/`, `:`, `-`, `.`, space, `A`, `P`, `M`, with no white space at the ends). Parsing it is trimming it and checking that form. Culture-dependent formats and the calendar are not modelled. `DateTime.Now` is the parameter `now`.
- Numeric forms: `Enum.Parse` and `Enum.TryParse` of a number or of a comma-separated list of names (`Work, Family`), both of which they accept and `Records.ParseContactType` rejects, culture-specific signs and digits in `int.Parse`, and non-ASCII white space and case mapping are not modelled.
- Field text outside the two restrictions on the round-trip lemmas:
  - `BarFree`: no `|` in the name, phone or e-mail. `EncodeSplits`, `LoadedDecodeOfEncode` and the loader lemmas (`Loadable`: `WrittenLoads`, `WrittenThrows`, `LoadWritten`, `WrittenNoThrow`, `LoadStopsAtEmptyField`) assume it. A `|` inside a value gives a line with seven or more segments, so `FindContact` and the loader read shifted segments; the model's `DecodeFound` and `DecodeLoaded` still define that reading, but no lemma states its outcome.
  - `Plain`: no `|` and no `:` in the name, phone or e-mail. The `:` ban stands in for "no field label such as `Phone No: ` occurs inside a value". `FoundDecodeOfEncode`, `FindFromWrittenLine`, `SpliceOfEncoded`, `FileHandlerVariant.UpdateThenFind` and `UpdateFileOnlyNoop` assume it. A value holding label text falls outside those lemmas. A name `Name: Ada` loses its inner label to the `Replace` call at ContactFileHandler.cs:144. A name `Phone No: 123` makes the substring tests at ContactFileHandler.cs:23, 95, 132 and 309 match that line for the phone `123`. The model's `Contains`, `ReplaceAll` and `FirstMention` define both behaviours, but no lemma states them.
- Tight fields: `LoadedDecodeOfEncode`, `Loadable` and the lemmas built on it assume that the name, phone and e-mail are empty or have no white space at either end. The loader's `Trim` of a segment also removes white space at the ends of its value, so a name ` Ada ` loads back as `Ada`; `DecodeLoaded` and `TrimKeepsMiddle` define that reading, but no round-trip lemma states it.
- `ContactsException` and the `IContactManager` interface: the exception is an outcome value, and the interface adds no behaviour.
- `ContactType`'s members are not part of this model's source. The model declares `Personal`, `Work` and `Family`.
- Object identity: a list element is identified by its position. Reference equality of a detached copy is not modelled beyond "`Remove` of it changes nothing".
- Records.ParseContactType: its own contract states only the soundness direction. The converse, that every member name parses, is `Records.ParseTypeName`.
- ContactStore.FileLookup: its own contract states only where a found contact comes from. Its exact value is the contract of `ContactStore.ScanFile` and the lemmas `FindFromWrittenLine` and `FileLookupReplaced`.
- FileHandlerVariant.Outcomes: its own contract states only the length. Its content is stated by `OutcomeAt`.
- FileHandlerVariant.Collect: its own contract bounds only the length. Its content is stated by `CollectAppend` and `LoadWritten`.
- FileHandlerVariant.LoadLines: its own contract bounds only the length. Its content is stated by `LoadAppend` and `LoadWritten`.
- The static list: `Contacts` is `static`, so every instance shares one list. The model gives each `ContactManager` object its own `contacts` field, and the constructor starts it empty, as at the start of a process.
- Sub-second time: `{CreatedAt}` writes the time without its fraction of a second. The model's time is that text, so "time kept" in `FindFromWrittenLine` and both `UpdateThenFind` lemmas holds of the written text, not of the `DateTime` in memory.
- A file without a final line break: `StreamWriter(path, true).WriteLine` then joins the new record onto the last line. The model appends a new line (`file + [Encode(c)]`), as for a file whose last line ends with a line break.
