# Contact manager model (dz12.py)

A model of the console contact manager in `dz12.py`:

- **Phone and birthday validation.** The validators run every time a value is assigned. A phone must be exactly ten digits. A birthday must be a `YYYY-MM-DD` text that `strptime` accepts, with a year from 1900 to 2100. Assigning `None` is always accepted.
- **`Record`.** A name, an ordered list of phones changed in place, and an optional birthday. It can add, remove, edit and find phones, render itself as text, and serialize and deserialize.
- **`AddressBook`.** An insertion-ordered dictionary from name to record. It supports add, delete and find, batching of the values, and substring search. It also builds the `contacts` list that save and load exchange.
- **The command functions.** `add_contact`, `change_phone`, `find_phone`, `show_all_contacts` and `show_contacts_batch`, together with the `input_error` decorator that turns exceptions into replies.
- **The command recognition of `main`.** The lowered input line goes through the `if`/`elif` chain to a command and the arguments it unpacks.

Modules:

- `Wrappers` and `Errors` (`wrappers.dfy`): `Option`, `Result`, and Python's exceptions as data. An `Outcome` is either `Done` or `Raised(error)`.
- `Text` (`text.dfy`): the string operations the program uses. These are `str.isdigit` on ASCII digits, `in` on strings, `str.join`, `str.split()` on the white space of `str.isspace`, and `str.lower` on ASCII letters.
- `Fields` (`fields.dfy`): the setters of `Phone.value` and `Birthday.value`, and `strptime`'s `%Y-%m-%d` written out directive by directive, on ASCII digits.
- `Records` (`records.dfy`): the class `Record`. Its value is the `Contact` datatype, which is the dictionary that `serialize` writes.
- `Book` (`book.dfy`): the class `AddressBook`. It keeps the keys in insertion order in a `seq` beside a `map`.
- `Commands` (`commands.dfy`): the decorated command functions, over an explicit book instead of the global `address_book`.
- `Dispatch` (`dispatch.dfy`): `main`'s classification of one input line.

Three behaviours of the code that are easy to miss:

- **Birthdays are checked against the calendar.** `strptime` rejects `2021-02-30` and `2021-02-29`, and the year range is checked on top of that.
- **`add NAME PHONE` always reaches `add_contact`.** An invalid phone there is answered with the phone message, not with the usage message.
- **`delete` of an absent name changes nothing.** `main` still prints that the contact was deleted.

## Model

| member | source | states |
|---|---|---|
| Fields.ValidPhone | dz12.py:26-28 | Definition, no contract of its own: exactly ten characters, all ASCII digits. Fields.PhonesAreTenDigitNumbers states what it accepts. |
| Fields.SetPhone | dz12.py:20-24 | Assigning a phone succeeds exactly for None or a valid phone, and the stored value is then the assigned one. Otherwise it raises ValueError("Phone number must be 10 digits"). |
| Fields.PhonesAreTenDigitNumbers | dz12.py:26-28 | The phones validate_phone accepts are exactly the zero-padded ten-digit renderings of the numbers below 10^10, in both directions. |
| Fields.ParseDate | dz12.py:44-46 | Every date strptime reads from a text exists in the calendar: month 1..12, and a day within the month, leap years counted. |
| Fields.ParseFormatted | dz12.py:44-46 | strptime reads a zero-padded YYYY-MM-DD text back as the date it was written from, and rejects it exactly when that date does not exist. |
| Fields.ValidBirthdayFormatted | dz12.py:44-50 | On zero-padded texts, validate_birthday holds exactly for the real dates of the years 1900 to 2100. |
| Fields.ValidBirthday | dz12.py:44-50 | Definition, no contract of its own: strptime reads a date, and its year, month and day lie in 1900..2100, 1..12 and 1..31. Fields.ValidBirthdayFormatted and the four concrete lemmas below state what it accepts. |
| Fields.SetBirthday | dz12.py:38-42 | Assigning a birthday succeeds exactly for None or a valid birthday, storing it. Otherwise it raises ValueError("Invalid birthday format. Use YYYY-MM-DD"). |
| Fields.RejectsFebruary30 | dz12.py:44-50 | "2021-02-30" is rejected although its month and day are within 1..12 and 1..31. |
| Fields.AcceptsLeapDay | dz12.py:44-50 | "2020-02-29" is accepted. |
| Fields.RejectsNonLeapDay | dz12.py:44-50 | "2021-02-29" is rejected. |
| Fields.RejectsYear1899 | dz12.py:44-50 | "1899-01-01", a real date, is rejected by the year range. |
| Records.IndexOf | dz12.py:86-90 | The position of the first phone equal to x: no earlier phone equals x, and the result is None exactly when x is not in the list. |
| Records.FirstBadPhone | dz12.py:121-122 | The first phone the setter rejects, with all earlier ones accepted. None exactly when every phone is accepted. |
| Records.Present | dz12.py:121-122 | The phones that add_phone appends: none of them is None, and they are exactly the phones of the list other than None. |
| Records.PresentOrder | dz12.py:121-122 | Those phones keep their order and their repeats: phone k of the result is the list's phone at the k-th position holding a value, and the positions are increasing and are exactly the ones that do not hold None. |
| Records.Deserialized | dz12.py:116-123 | deserialize succeeds exactly when the birthday and every phone pass their setters. The record then has the name, the non-None phones in order, and the birthday. Failure is the birthday error if the birthday is bad, else the phone error. |
| Records.DeserializeSerialized | dz12.py:108-123 | A valid contact without None phones deserializes to itself. |
| Records.Record.constructor | dz12.py:53-56 | A new record has the given name, no phones and no birthday. |
| Records.Record.Serialize | dz12.py:108-113 | Deserializing what serialize writes gives back the record with its None phones left out. It gives back the record itself when no phone is None. |
| Records.Record.AssignBirthday | dz12.py:38-42 | The birthday changes exactly when the setter accepts the value. Otherwise it raises the birthday error. The phones never change. |
| Records.Record.Create | dz12.py:53-56 | Record(name, birthday) raises exactly when the birthday is invalid. Otherwise a fresh valid record holds the name, no phones and the birthday. |
| Records.Record.Deserialize | dz12.py:116-123 | It fails with the error of Deserialized. Otherwise a fresh valid record holds exactly the contact Deserialized gives. |
| Records.Record.AddPhone | dz12.py:58-63 | None leaves the phones unchanged. A valid phone is appended at the end. An invalid one raises the phone error and changes nothing. The birthday never changes. |
| Records.Record.AddPhones | dz12.py:121-122 | Adding phones in order stops at the first invalid one. The phones before it are appended, None left out. |
| Records.Record.RemovePhone | dz12.py:65-69 | Removes exactly the first phone equal to the number and keeps the others in order. With no match nothing changes. |
| Records.Record.EditPhone | dz12.py:71-84 | No match raises "Contact '…' not found" and changes nothing. An invalid new value raises the phone error and changes nothing. Otherwise only the first matching position is replaced. |
| Records.Record.FindPhone | dz12.py:86-90 | Returns the position of the first phone equal to the number, or None when no phone equals it. |
| Records.Record.ToString | dz12.py:104-106 | str(record) is defined exactly when no phone is None; a None phone makes the join raise. |
| Records.Record.PhonesReadBack | dz12.py:104-106 | Each phone can be read back from its fixed position in str(record), in order. |
| Records.JoinedPhonesAt | dz12.py:105 | ", ".join of ten-character phones has length 12n-2, and phone k sits at characters 12k..12k+10. |
| Book.AddressBook.constructor | dz12.py:125 | A new book is empty. |
| Book.AddressBook.Values | dz12.py:138 | The values in insertion order of the keys. |
| Book.AddressBook.Find | dz12.py:133-135 | A record is found exactly when the name is a key, and it is the record stored under that name. |
| Book.Insert | dz12.py:127 | Definition, no contract of its own: `data[name] = record` on the book's value. An existing key keeps its place, a new one goes last. Book.LoadedHoldsLast, Book.LoadedKeepsFirstOrder and Book.AddressBook.AddRecord state its effect. |
| Book.AddressBook.AddRecord | dz12.py:126-127 | Inserts or overwrites under the record's name. An existing key keeps its position, a new key goes last, and afterwards find returns the record. |
| Book.AddressBook.Delete | dz12.py:129-131 | Removes only the key `name` and its position. An absent name changes nothing. |
| Book.AddressBook.Iterator | dz12.py:137-140 | A positive size gives the slices of the values. Zero raises the error `range` raises. A negative size gives no batch. |
| Book.Chunks | dz12.py:139-140 | Definition, no contract of its own: the slices `[i:i+b]` for i = 0, b, 2b, …. Book.ChunksFlatten and Book.ChunksShape state its properties. |
| Book.ChunksFlatten | dz12.py:137-140 | The batches, concatenated, are the values in insertion order. |
| Book.ChunksShape | dz12.py:137-140 | There are no batches exactly when there are no values. Every batch but the last has the batch size, and the last is non-empty and at most that size. |
| Book.AnyPhone | dz12.py:157 | `any` over the phones raises exactly when a None phone is reached before any phone that contains the query. |
| Book.AnyPhoneDecides | dz12.py:157 | When `any` does not raise, it is true exactly when some phone contains the query. |
| Book.MatchOutcome | dz12.py:157 | Definition, no contract of its own: `query in name or any(...)`, with `or` skipping `any` when the name already matches. Book.MatchOutcomeIsHit states what it decides. |
| Book.MatchOutcomeIsHit | dz12.py:157 | When the test does not raise, it holds exactly when the name or some phone contains the query. |
| Book.Matching | dz12.py:154-159 | search raises TypeError exactly when the test raises on some record. |
| Book.SearchExact | dz12.py:154-159 | The results are, in insertion order and without repeats, exactly the records whose name or some phone contains the query. |
| Book.SearchTotal | dz12.py:154-159 | Without None phones the search never raises. |
| Book.AddressBook.SearchContacts | dz12.py:154-159 | The result is the search of the values in insertion order. |
| Book.PayloadOf | dz12.py:143-146 | The contacts list holds one serialized record per key, in key order. |
| Book.AddressBook.Payload | dz12.py:143-146 | The contacts list holds the serialized records in insertion order. |
| Book.Loaded | dz12.py:149-152 | Loading a contacts list succeeds exactly when every contact deserializes. The result has distinct keys, each the name of its valid record. Book.LoadedHoldsLast and Book.LoadedKeepsFirstOrder state which record a name holds and where it sits. |
| Book.LoadedNames | dz12.py:152 | The loaded names are exactly the names in the list. |
| Book.LoadedHoldsLast | dz12.py:152 | A name holds the record deserialized from the last contact that carries it, for any list that loads. |
| Book.LoadedKeepsFirstOrder | dz12.py:152 | A name sits in the keys at its first contact: if contact j is the first with its name, the name of every earlier contact comes before it in the keys. |
| Book.LoadedDistinct | dz12.py:152 | With distinct names, the keys are the names in list order and each name holds its own contact's record. |
| Book.LoadedFailsFromPrefix | dz12.py:152 | An error in a prefix of the list is the error of the whole load. |
| Book.LoadedStep | dz12.py:152 | One step of Loaded on slices: when the first i contacts load to a book, the first i+1 load to that book with contact i inserted. |
| Book.LoadPayloadRoundTrip | dz12.py:142-152 | Loading the contacts list of a well-formed book without None phones gives back the same book: same keys, same order, same records. |
| Book.LoadRecords | dz12.py:152 | The comprehension builds fresh valid records whose value is Loaded of the list, or fails with Loaded's error. |
| Book.AddressBook.LoadPayload | dz12.py:149-152 | A successful load replaces the book by Loaded of the list. A failing load raises that error and leaves the book unchanged. |
| Book.AddressBook.Replace | dz12.py:152 | The assignment to `self.data`: the book then holds exactly the given names, in order, and records, and it is valid. |
| Book.AddressBook.SaveLoadRoundTrip | dz12.py:142-152 | Loading what save writes gives back the book's contents. |
| Book.WithoutAt | dz12.py:129-131 | Among distinct keys, deleting one removes exactly its position. |
| Commands.InputError | dz12.py:161-176 | Definition, no contract of its own: the reply of the wrapper for each kind of exception. Commands.InputErrorReplies states its cases. |
| Commands.InputErrorReplies | dz12.py:161-176 | A ValueError shows its own text. An IndexError shows the unpacking hint exactly when its text contains "unpack", so the empty-list IndexError gives "Invalid input". |
| Commands.SortArgs | dz12.py:183-190 | The phones are exactly the arguments without "-"; Commands.SortArgsOrder adds their order. There is no birthday exactly when no argument with "-" parses as a date. Otherwise the birthday is the last argument that does. |
| Commands.SortArgsOrder | dz12.py:183-191 | The phones keep the arguments' order and repeats: phone k is the argument at the k-th position without "-", and the positions are increasing and are exactly those of the arguments without "-". |
| Commands.AddContactSpec | dz12.py:178-197 | Definition, no contract of its own: add_contact on values, the record that Record(name, birthday) and the add_phone loop build. Commands.AddContactSpecCases states when it succeeds and what it holds. |
| Commands.AddContactSpecCases | dz12.py:178-197 | add_contact succeeds exactly when the chosen birthday and every argument without "-" pass their setters. The record then holds those phones in order and that birthday. |
| Commands.SortedPhonesOk | dz12.py:183-195 | The collected phones all pass the setter exactly when every argument without "-" is a valid phone. |
| Commands.AddContactRejectsInvalidPhone | dz12.py:192-195 | One invalid phone among the arguments is enough for add_contact to refuse. The error is the phone error unless the birthday already failed. |
| Commands.AddContact | dz12.py:178-197 | On any exception it replies input_error's message and the book is unchanged. Otherwise it replies "Contact added successfully" and the new record, holding the contact above, is stored under the name with add_record's key order. |
| Commands.ChangePhone | dz12.py:199-208 | The checks come in the source's order: absent name, empty phone, no phone to edit (IndexError, "Invalid input"), invalid phone. Each failure leaves the phones unchanged. Otherwise only the first phone is replaced. Other records never change. |
| Commands.FindPhones | dz12.py:210-220 | The phone values are returned exactly when the record exists and has phones. A record without phones gets "No phones found for contact '…'". An absent name gets the not-found message. |
| Commands.Texts | dz12.py:228 | The records' texts, one per record and in order. Defined exactly when no record has a None phone. |
| Commands.ShowAll | dz12.py:223-229 | An empty book gets "No contacts found". Otherwise a text exists exactly when no record has a None phone. |
| Commands.ShowAllLines | dz12.py:223-229 | The lines of show_all_contacts are the records' own texts in insertion order, joined by newlines. |
| Commands.Round | dz12.py:237-240 | Definition, no contract of its own: one pass of the loop, printing text idx and then pausing when idx+1 is a multiple of the size and idx is not the last. |
| Commands.BatchEvents | dz12.py:237-240 | Definition, no contract of its own: the events of the first i passes. Commands.BatchShowsAll, Commands.BatchEndsWithShow and Commands.BatchPauseAt state its properties. |
| Commands.BatchShowsAll | dz12.py:236-240 | Every text is shown exactly once, in order. |
| Commands.BatchEndsWithShow | dz12.py:237-240 | The output never ends with a pause. |
| Commands.BatchPauseAt | dz12.py:237-240 | A pause follows text idx exactly when idx+1 is a multiple of the batch size and idx is not the last text. |
| Commands.ShowTexts | dz12.py:237-240 | The events of the loop are BatchEvents. A batch size of zero raises right after the first text. |
| Commands.ShowContactsBatch | dz12.py:231-241 | An empty book gets "No contacts found". A None phone raises TypeError. Otherwise the texts and pauses of BatchEvents, and the empty reply. |
| Commands.PrintEach | dz12.py:303-304 | Looping over a string prints one line per character. |
| Commands.PrintReply | dz12.py:303-304 | The intended printing: at most one non-empty line, which together hold the whole reply. |
| Commands.EmptyBatchAsWritten | dz12.py:302-304 | On an empty book, `show batch` prints 17 one-character lines and never the message itself. |
| Commands.BatchLinesIntended | dz12.py:302-304 | Printed as one line, the empty book gives exactly "No contacts found", and a non-empty book shows exactly its texts in order. |
| Dispatch.Route | dz12.py:250-328 | Definition, no contract of its own: the `if`/`elif` chain on the lowered line, in the source's order. The Classify lemmas below state its cases. |
| Dispatch.Classify | dz12.py:248 | Definition, no contract of its own: the line is lowered, then routed. |
| Dispatch.ClassifyIgnoresCase | dz12.py:248 | The line is lowered first, so commands are recognised in any case. |
| Dispatch.SplitLine | dz12.py:253 | `split()` gives back the words a line was written from, with single spaces between them. |
| Dispatch.CommandLine | dz12.py:248-253 | A line of two or more lower-case words is routed as it is and splits into its words. |
| Dispatch.ClassifyAdd | dz12.py:252-264 | `add` with words: fewer than two words is the usage message. Otherwise the name, the phone, and at most one more word are passed; any further words are dropped. |
| Dispatch.ClassifyChange | dz12.py:265-269 | `change NAME …` passes the name and the other words joined by single spaces, which is empty when there are none. |
| Dispatch.ClassifyPhone | dz12.py:270-276 | `phone` takes exactly one name. Any other count makes the unpacking raise. |
| Dispatch.ClassifyBirthday | dz12.py:280-290 | `birthday` takes exactly one name. Any other count makes the unpacking raise. |
| Dispatch.ClassifyDelete | dz12.py:291-297 | `delete` takes exactly one name. Any other count makes the unpacking raise. |
| Dispatch.ClassifyBatch | dz12.py:298-306 | `show batch` needs exactly one more word, made of digits, read as a decimal number. Otherwise it is the usage message. |
| Dispatch.SearchQuery | dz12.py:315-316 | The query is everything after "search ", lowered, spaces included. |
| Dispatch.ClassifyShowAll | dz12.py:277 | A line is the show-all command exactly when its lowered form is "show all", in both directions. |
| Dispatch.GreetAndQuit | dz12.py:250 | "Hello" is the greeting and "EXIT" quits, in any case. |

## Left out

- Files and JSON (`open`, `json.dump`, `json.load`) are not modelled. save and load are modelled as the `contacts` list they exchange.
- `days_to_birthday` is not modelled; it depends on the clock and on `datetime` arithmetic. The `birthday` command is modelled only as far as classifying it.
- The console is not modelled: the prompts and prints of `main`, and the `input` pause of show_contacts_batch, which appears as a `Pause` event. `main`'s replies for each command are not modelled beyond the command and its arguments.
- The crash when `main`'s tuple unpacking fails is modelled only as the `Unpacking` command. Nothing after it is modelled.
- `str.isdigit`, `str.lower`, the `\d` that `strptime` matches for `%Y`, `%m` and `%d`, and `int()` are modelled on ASCII only. Unicode digits and letters outside ASCII are not covered: `strptime` and `int()` accept "２０２０-01-01" (full-width digits), which the model rejects.
- Commands.ShowContactsBatch: the TypeError text of a None phone is modelled without the item position Python names in it.
- Commands.ShowTexts: the text printed before a zero batch size raises is not part of the failure result.
- Commands.FindPhones: returns the list of values that find_phone builds. The Phone object that Record.find_phone returns is modelled as its position (Records.Record.FindPhone), not as an object identity.
- Book.AddressBook.Iterator: iterator is a generator, so the `values()` snapshot and the ValueError of `range` with a zero step happen at the first `next()`, not at the call; the model returns all batches at once. The default `batch_size=1` is not modelled; the size is always passed. Nothing calls iterator in the program.
- The `UserDict` base class and the global `address_book` are modelled as an explicit AddressBook passed to each command.

## Findings

| source | as written | input that shows it | evidently intended | confidence | as-written member | corrected member |
|---|---|---|---|---|---|---|
| dz12.py:302-304 | `for result in results: print(result)` loops over the string that show_contacts_batch returns | `show batch 2` on an empty book prints "No contacts found" one character per line | print the reply as one line, and nothing for the empty reply of a non-empty book | high, not executed | Commands.EmptyBatchAsWritten | Commands.BatchLinesIntended |
