/**
 * The command functions of the contact manager (dz12.py, lines 161-241):
 * the input_error decorator, add_contact, change_phone, find_phone,
 * show_all_contacts and show_contacts_batch, over an explicit book instead
 * of the global `address_book`.
 */
module Commands {
  import opened Wrappers
  import opened Errors
  import opened Text
  import opened Fields
  import opened Records
  import opened Book

  const AddedReply: string := "Contact added successfully"
  const UpdatedReply: string := "Phone number updated"
  const MissingPhoneMessage: string := "Phone is missing"
  const NoContactsReply: string := "No contacts found"
  /** The TypeError `", ".join` raises on a None phone, without the item number. */
  const JoinNoneMessage: string := "expected str instance, NoneType found"

  /** The text of the ValueError raised for a name the book does not hold. */
  function NotFound(name: string): string {
    "Contact '" + name + "' not found"
  }

  // ----------------------------------------------------------- input_error

  /**
   * input_error: the reply a decorated command returns instead of the
   * exception it raised.
   */
  function InputError(e: Error): string {
    match e
    case KeyError => "Enter user name"
    case ValueError(m) => m
    case IndexError(m) => if Contains(m, "unpack") then "Give me name and phone please" else "Invalid input"
    case TypeError(m) => m
    case ZeroDivisionError(m) => m
  }

  /**
   * The replies input_error gives: a ValueError shows its own text, so the
   * validation messages reach the user unchanged; an IndexError shows the
   * unpacking hint exactly when its text mentions unpacking, which the
   * IndexError of an empty phone list does not.
   */
  lemma InputErrorReplies(m: string)
    ensures InputError(ValueError(m)) == m
    ensures InputError(IndexError(m)) == "Give me name and phone please" <==> Contains(m, "unpack")
    ensures InputError(IndexError("list index out of range")) == "Invalid input"
  {
    MissingChar("list index out of range", "unpack", 'k');
  }

  // ----------------------------------------------------------- add_contact

  /** An argument add_contact takes for the birthday: it has a "-" and strptime reads it. */
  predicate IsDateArg(a: string) {
    '-' in a && ParseDate(a).Some?
  }

  /**
   * The loop of add_contact over its arguments, as a function of them: the
   * phones and the birthday it collects.
   */
  function SortArgs(args: seq<string>): (r: (seq<string>, Option<string>))
    ensures forall p :: p in r.0 <==> p in args && '-' !in p
    ensures r.1.None? <==> forall i :: 0 <= i < |args| ==> !IsDateArg(args[i])
    ensures r.1.Some? ==> exists i :: 0 <= i < |args| && args[i] == r.1.value && IsDateArg(args[i])
                                      && forall j :: i < j < |args| ==> !IsDateArg(args[j])
    decreases |args|
  {
    if args == [] then ([], None)
    else
      var init, a := args[..|args| - 1], args[|args| - 1];
      assert forall i :: 0 <= i < |init| ==> init[i] == args[i];
      assert args == init + [a];
      var prev := SortArgs(init);
      if '-' in a then (prev.0, if ParseDate(a).Some? then Some(a) else prev.1)
      else (prev.0 + [a], prev.1)
  }

  /** The positions of the arguments without "-", in increasing order. */
  function PhonePositions(args: seq<string>): seq<nat>
    decreases |args|
  {
    if args == [] then []
    else PhonePositions(args[..|args| - 1]) + (if '-' !in args[|args| - 1] then [|args| - 1] else [])
  }

  /** The positions are increasing and are exactly those of the arguments without "-". */
  lemma {:induction false} PhonePositionsExact(args: seq<string>)
    ensures var pos := PhonePositions(args);
            && (forall k :: 0 <= k < |pos| ==> pos[k] < |args|)
            && (forall k, l :: 0 <= k < l < |pos| ==> pos[k] < pos[l])
            && (forall i :: 0 <= i < |args| ==> (i in pos <==> '-' !in args[i]))
    decreases |args|
  {
    if args != [] {
      var init := args[..|args| - 1];
      PhonePositionsExact(init);
      assert |args| - 1 !in PhonePositions(init);
      assert forall i :: 0 <= i < |init| ==> init[i] == args[i];
    }
  }

  lemma {:induction false} SortArgsAt(args: seq<string>)
    ensures var r, pos := SortArgs(args).0, PhonePositions(args);
            |r| == |pos| && forall k :: 0 <= k < |pos| ==> pos[k] < |args| && r[k] == args[pos[k]]
    decreases |args|
  {
    if args != [] {
      var init := args[..|args| - 1];
      SortArgsAt(init);
      var r0, p0 := SortArgs(init).0, PhonePositions(init);
      assert forall k :: 0 <= k < |p0| ==> args[p0[k]] == init[p0[k]];
      if '-' !in args[|args| - 1] {
        assert SortArgs(args).0 == r0 + [args[|args| - 1]];
        assert PhonePositions(args) == p0 + [|args| - 1];
      } else {
        assert SortArgs(args).0 == r0;
        assert PhonePositions(args) == p0;
      }
    }
  }

  /**
   * add_contact keeps the phones in the order they were given, repeats
   * included: its k-th phone is the argument at the k-th position without "-".
   */
  lemma SortArgsOrder(args: seq<string>)
    ensures var r, pos := SortArgs(args).0, PhonePositions(args);
            && |r| == |pos|
            && (forall k :: 0 <= k < |pos| ==> pos[k] < |args| && r[k] == args[pos[k]])
            && (forall k, l :: 0 <= k < l < |pos| ==> pos[k] < pos[l])
            && (forall i :: 0 <= i < |args| ==> (i in pos <==> '-' !in args[i]))
  {
    PhonePositionsExact(args);
    SortArgsAt(args);
  }

  /** Each argument as the value of a Phone. */
  function Wrap(ps: seq<string>): (r: seq<Option<string>>)
    ensures |r| == |ps| && AllSet(r)
    ensures forall i :: 0 <= i < |ps| ==> r[i] == Some(ps[i])
  {
    seq(|ps|, i requires 0 <= i < |ps| => Some(ps[i]))
  }

  /**
   * The record add_contact builds, `Record(name, birthday)` followed by one
   * add_phone per phone, or the exception that stops it.
   */
  function AddContactSpec(name: string, args: seq<string>): Result<Contact, Error> {
    var sorted := SortArgs(args);
    Deserialized(Contact(name, Wrap(sorted.0), sorted.1))
  }

  /**
   * add_contact succeeds exactly when every argument without "-" is a valid
   * phone and the chosen birthday passes the Birthday setter; the record
   * then holds those phones in order and that birthday. One invalid phone is
   * enough to refuse it with the phone error.
   */
  lemma AddContactSpecCases(name: string, args: seq<string>)
    ensures var sorted := SortArgs(args);
            && (AddContactSpec(name, args).Success? <==>
                  BirthdayOk(sorted.1) && forall i :: 0 <= i < |args| && '-' !in args[i] ==> ValidPhone(args[i]))
            && (AddContactSpec(name, args).Success? ==>
                  AddContactSpec(name, args).value == Contact(name, Wrap(sorted.0), sorted.1))
  {
    var sorted := SortArgs(args);
    var ps := Wrap(sorted.0);
    PresentAllSet(ps);
    SortedPhonesOk(args);
    assert ContactValid(Contact(name, ps, sorted.1)) <==>
           BirthdayOk(sorted.1) && forall k :: 0 <= k < |ps| ==> PhoneOk(ps[k]);
  }

  /** The phones add_contact collects all pass the setter exactly when every argument without "-" does. */
  lemma SortedPhonesOk(args: seq<string>)
    ensures var ps := Wrap(SortArgs(args).0);
            (forall k :: 0 <= k < |ps| ==> PhoneOk(ps[k]))
            <==> forall i :: 0 <= i < |args| && '-' !in args[i] ==> ValidPhone(args[i])
  {
    var phones := SortArgs(args).0;
    var ps := Wrap(phones);
    assert forall k :: 0 <= k < |ps| ==> (PhoneOk(ps[k]) <==> ValidPhone(phones[k]));
    if forall i :: 0 <= i < |args| && '-' !in args[i] ==> ValidPhone(args[i]) {
      forall k | 0 <= k < |phones| ensures ValidPhone(phones[k]) {
        assert phones[k] in phones;
      }
    }
    if forall k :: 0 <= k < |phones| ==> ValidPhone(phones[k]) {
      forall i | 0 <= i < |args| && '-' !in args[i] ensures ValidPhone(args[i]) {
        assert args[i] in phones;
        var k :| 0 <= k < |phones| && phones[k] == args[i];
      }
    }
  }

  /** An invalid phone among the arguments makes add_contact refuse with the phone error. */
  lemma AddContactRejectsInvalidPhone(name: string, args: seq<string>, i: nat)
    requires i < |args| && '-' !in args[i] && !ValidPhone(args[i])
    ensures AddContactSpec(name, args).Failure?
    ensures AddContactSpec(name, args).error
            == ValueError(if BirthdayOk(SortArgs(args).1) then PhoneMessage else BirthdayMessage)
  {
    AddContactSpecCases(name, args);
  }

  /**
   * add_contact: sorts the arguments, builds the record and stores it. On
   * any exception it replies with input_error's message and the book is
   * unchanged; otherwise the new record is stored under `name`.
   */
  method AddContact(book: AddressBook, name: string, args: seq<string>) returns (reply: string)
    requires book.Valid()
    modifies book
    ensures book.Valid()
    ensures match AddContactSpec(name, args)
              case Failure(e) =>
                reply == InputError(e) && book.keys == old(book.keys) && book.data == old(book.data)
              case Success(c) =>
                && reply == AddedReply
                && name in book.data && fresh(book.data[name])
                && book.data[name].Valid() && book.data[name].Serialize() == c
                && book.data == old(book.data)[name := book.data[name]]
                && book.keys == if name in old(book.data) then old(book.keys) else old(book.keys) + [name]
  {
    var phones: seq<string> := [];
    var birthday: Option<string> := None;
    var i := 0;
    while i < |args|
      invariant 0 <= i <= |args|
      invariant SortArgs(args[..i]) == (phones, birthday)
    {
      var arg := args[i];
      assert args[..i + 1][..i] == args[..i];
      if '-' in arg {
        if ParseDate(arg).Some? {
          birthday := Some(arg);
        }
      } else {
        phones := phones + [arg];
      }
      i := i + 1;
    }
    assert args[..i] == args;
    var created := Record.Create(name, birthday);
    if created.Failure? {
      return InputError(created.error);
    }
    var record := created.value;
    var outcome := record.AddPhones(Wrap(phones));
    if outcome.Raised? {
      return InputError(outcome.error);
    }
    PresentAllSet(Wrap(phones));
    book.AddRecord(record);
    reply := AddedReply;
  }

  // ---------------------------------------------------------- change_phone

  /**
   * change_phone: replaces the first phone of the named record. The checks
   * run in the source's order: the name, the empty phone, the empty phone
   * list (an IndexError), the validity of the new phone. Any failure leaves
   * every record as it was; other records never change.
   */
  method ChangePhone(book: AddressBook, name: string, phone: string) returns (reply: string)
    requires book.Valid()
    requires name in book.data ==> book.data[name].Valid()
    modifies book.data.Values
    ensures forall k :: k in book.data && k != name ==> unchanged(book.data[k])
    ensures name !in book.data ==> reply == NotFound(name)
    ensures name in book.data ==>
              var r := book.data[name];
              && r.Valid() && r.birthday == old(r.birthday)
              && if phone == "" then reply == MissingPhoneMessage && r.phones == old(r.phones)
                 else if old(r.phones) == [] then reply == "Invalid input" && r.phones == old(r.phones)
                 else if !ValidPhone(phone) then reply == PhoneMessage && r.phones == old(r.phones)
                 else reply == UpdatedReply && r.phones == old(r.phones)[0 := Some(phone)]
  {
    if name !in book.data {
      return InputError(ValueError(NotFound(name)));
    }
    if phone == "" {
      return InputError(ValueError(MissingPhoneMessage));
    }
    var record := book.data[name];
    if record.phones == [] {
      InputErrorReplies("");
      return InputError(IndexError("list index out of range"));
    }
    var outcome := record.EditPhone(record.phones[0], Some(phone));
    if outcome.Raised? {
      return InputError(outcome.error);
    }
    reply := UpdatedReply;
  }

  // ------------------------------------------------------------ find_phone

  /** What find_phone returns: the list of phone values, or a message. */
  datatype PhoneReply = PhoneList(values: seq<Option<string>>) | Message(text: string)

  /**
   * find_phone: the phone values of the named record when it has some, and
   * otherwise the message for a missing record or an empty list.
   */
  function FindPhones(book: AddressBook, name: string): (r: PhoneReply)
    reads book, book.data.Values
    requires book.Valid()
    ensures r.PhoneList? <==> book.Find(name).Some? && book.Find(name).value.phones != []
    ensures r.PhoneList? ==> r.values == book.Find(name).value.phones
    ensures book.Find(name).None? ==> r == Message(NotFound(name))
    ensures book.Find(name).Some? && book.Find(name).value.phones == [] ==>
              r == Message("No phones found for contact '" + name + "'")
  {
    if name in book.data then
      var record := book.data[name];
      if record.phones != [] then PhoneList(record.phones)
      else Message("No phones found for contact '" + name + "'")
    else Message(InputError(ValueError(NotFound(name))))
  }

  // ----------------------------------------------------- show_all_contacts

  /** `[str(record) for record in rs]`; None where some `str` raises TypeError. */
  function Texts(rs: seq<Record>): (r: Option<seq<string>>)
    reads rs
    ensures r.Some? <==> forall i :: 0 <= i < |rs| ==> AllSet(rs[i].phones)
    ensures r.Some? ==> |r.value| == |rs| && forall i :: 0 <= i < |rs| ==> Some(r.value[i]) == rs[i].ToString()
  {
    if rs == [] then Some([])
    else
      match rs[0].ToString()
      case None => None
      case Some(t) =>
        match Texts(rs[1..])
        case None => None
        case Some(ts) => Some([t] + ts)
  }

  /**
   * show_all_contacts: "No contacts found" for an empty book, otherwise the
   * text of every record in insertion order, one per line; None where a
   * None phone makes a record's text raise.
   */
  function ShowAll(book: AddressBook): (r: Option<string>)
    reads book, book.data.Values
    requires book.Valid()
    ensures book.keys == [] ==> r == Some(NoContactsReply)
    ensures book.keys != [] ==>
              (r.Some? <==> forall k :: k in book.data ==> AllSet(book.data[k].phones))
  {
    if book.data == map[] then Some(NoContactsReply)
    else
      var rs := book.Values();
      assert forall k :: k in book.data ==> exists i :: 0 <= i < |rs| && rs[i] == book.data[k] by {
        forall k | k in book.data ensures exists i :: 0 <= i < |rs| && rs[i] == book.data[k] {
          var i :| 0 <= i < |book.keys| && book.keys[i] == k;
          assert rs[i] == book.data[k];
        }
      }
      match Texts(rs)
      case None => None
      case Some(ts) => Some(Join(ts, "\n"))
  }

  /** The lines of show_all_contacts are the records' own texts, in insertion order. */
  lemma ShowAllLines(book: AddressBook)
    requires book.Valid() && book.keys != []
    requires forall k :: k in book.data ==> AllSet(book.data[k].phones)
    ensures Texts(book.Values()).Some?
    ensures ShowAll(book) == Some(Join(Texts(book.Values()).value, "\n"))
    ensures forall i :: 0 <= i < |book.keys| ==>
              Some(Texts(book.Values()).value[i]) == book.data[book.keys[i]].ToString()
  {
  }

  // --------------------------------------------------- show_contacts_batch

  /** What show_contacts_batch does on the console: show a text, or wait for Enter. */
  datatype Event = Show(text: string) | Pause

  /** One round of show_contacts_batch's loop: show text `idx`, then pause if it closes a batch. */
  function Round(texts: seq<string>, b: int, idx: nat): seq<Event>
    requires b != 0 && idx < |texts|
  {
    [Show(texts[idx])] + if (idx + 1) % b == 0 && idx < |texts| - 1 then [Pause] else []
  }

  /** The events of the first `i` rounds of show_contacts_batch's loop over `texts`. */
  function BatchEvents(texts: seq<string>, b: int, i: nat): seq<Event>
    requires b != 0 && i <= |texts|
  {
    if i == 0 then [] else BatchEvents(texts, b, i - 1) + Round(texts, b, i - 1)
  }

  /** The texts among the events, in order. */
  function Shown(es: seq<Event>): seq<string> {
    if es == [] then []
    else Shown(es[..|es| - 1]) + (if es[|es| - 1].Show? then [es[|es| - 1].text] else [])
  }

  lemma {:induction false} ShownAppend(a: seq<Event>, b: seq<Event>)
    ensures Shown(a + b) == Shown(a) + Shown(b)
    decreases |b|
  {
    if b != [] {
      assert (a + b)[..|a + b| - 1] == a + b[..|b| - 1];
      ShownAppend(a, b[..|b| - 1]);
    } else {
      assert a + b == a;
    }
  }

  lemma ShownRound(texts: seq<string>, b: int, idx: nat)
    requires b != 0 && idx < |texts|
    ensures Shown(Round(texts, b, idx)) == [texts[idx]]
  {
    var r := Round(texts, b, idx);
    assert Shown([Show(texts[idx])]) == [texts[idx]];
    if |r| == 2 {
      assert r[..1] == [Show(texts[idx])];
    } else {
      assert r == [Show(texts[idx])];
    }
  }

  /** show_contacts_batch shows every text exactly once, in order. */
  lemma {:induction false} BatchShowsAll(texts: seq<string>, b: int, i: nat)
    requires b != 0 && i <= |texts|
    ensures Shown(BatchEvents(texts, b, i)) == texts[..i]
    decreases i
  {
    if i > 0 {
      BatchShowsAll(texts, b, i - 1);
      ShownAppend(BatchEvents(texts, b, i - 1), Round(texts, b, i - 1));
      ShownRound(texts, b, i - 1);
      assert texts[..i] == texts[..i - 1] + [texts[i - 1]];
    }
  }

  /** It never waits after the last text: the pauses only separate batches. */
  lemma BatchEndsWithShow(texts: seq<string>, b: int)
    requires b != 0 && |texts| > 0
    ensures var es := BatchEvents(texts, b, |texts|);
            |es| > 0 && es[|es| - 1] == Show(texts[|texts| - 1])
  {
  }

  /** The events of rounds `j` to `i - 1`. */
  function BatchFrom(texts: seq<string>, b: int, j: nat, i: nat): seq<Event>
    requires b != 0 && j <= i <= |texts|
    decreases i - j
  {
    if j == i then [] else Round(texts, b, j) + BatchFrom(texts, b, j + 1, i)
  }

  lemma {:induction false} BatchSplit(texts: seq<string>, b: int, j: nat, i: nat)
    requires b != 0 && j <= i <= |texts|
    ensures BatchEvents(texts, b, i) == BatchEvents(texts, b, j) + BatchFrom(texts, b, j, i)
    decreases i - j
  {
    if j < i {
      BatchSplit(texts, b, j + 1, i);
      assert BatchEvents(texts, b, j + 1) == BatchEvents(texts, b, j) + Round(texts, b, j);
    }
  }

  /**
   * A pause comes right after text `idx` exactly when `idx + 1` is a
   * multiple of the batch size and `idx` is not the last text.
   */
  lemma BatchPauseAt(texts: seq<string>, b: int, idx: nat)
    requires b != 0 && idx < |texts|
    ensures var es := BatchEvents(texts, b, |texts|);
            var at := |BatchEvents(texts, b, idx)|;
            at < |es| && es[at] == Show(texts[idx])
            && (at + 1 < |es| && es[at + 1] == Pause <==> (idx + 1) % b == 0 && idx < |texts| - 1)
  {
    var n := |texts|;
    BatchSplit(texts, b, idx, n);
    var rest := BatchFrom(texts, b, idx + 1, n);
    assert BatchFrom(texts, b, idx, n) == Round(texts, b, idx) + rest;
    assert rest != [] ==> rest[0] == Show(texts[idx + 1]);
  }

  /**
   * show_contacts_batch without the console: "No contacts found" for an
   * empty book; otherwise the texts of all records (a None phone raises
   * before anything is shown), each followed by a pause when its position
   * closes a batch and is not the last. A batch size of zero raises
   * ZeroDivisionError right after the first text.
   */
  method ShowContactsBatch(book: AddressBook, batchSize: int) returns (res: Result<(seq<Event>, string), Error>)
    requires book.Valid()
    ensures book.keys == [] ==> res == Success(([], NoContactsReply))
    ensures book.keys != [] ==>
              match Texts(book.Values())
              case None => res == Failure(TypeError(JoinNoneMessage))
              case Some(ts) =>
                if batchSize != 0 then res == Success((BatchEvents(ts, batchSize, |ts|), ""))
                else res == Failure(ZeroDivisionError("integer modulo by zero"))
  {
    if book.data == map[] {
      return Success(([], NoContactsReply));
    }
    var texts := Texts(book.Values());
    if texts.None? {
      return Failure(TypeError(JoinNoneMessage));
    }
    var ts := texts.value;
    assert |ts| > 0;
    var shown := ShowTexts(ts, batchSize);
    if shown.Failure? {
      return Failure(shown.error);
    }
    return Success((shown.value, ""));
  }

  /**
   * The loop of show_contacts_batch over the texts: show each, and pause
   * after it when `(idx + 1) % batch_size == 0` and it is not the last.
   */
  method ShowTexts(ts: seq<string>, batchSize: int) returns (res: Result<seq<Event>, Error>)
    ensures batchSize != 0 ==> res == Success(BatchEvents(ts, batchSize, |ts|))
    ensures batchSize == 0 ==> res == if ts == [] then Success([]) else Failure(ZeroDivisionError("integer modulo by zero"))
  {
    var events: seq<Event> := [];
    var idx := 0;
    while idx < |ts|
      invariant 0 <= idx <= |ts|
      invariant batchSize != 0 ==> events == BatchEvents(ts, batchSize, idx)
      invariant batchSize == 0 ==> idx == 0 && events == []
    {
      ghost var prev := events;
      events := events + [Show(ts[idx])];
      if batchSize == 0 {
        return Failure(ZeroDivisionError("integer modulo by zero"));
      }
      // Python's remainder and Dafny's differ for a negative divisor, but
      // they are zero for the same operands.
      if (idx + 1) % batchSize == 0 && idx < |ts| - 1 {
        events := events + [Pause];
      }
      assert events == prev + Round(ts, batchSize, idx);
      idx := idx + 1;
    }
    return Success(events);
  }

  // ------------------------------------------- printing the batch reply

  /**
   * The `show batch` branch of main prints what show_contacts_batch returns
   * with `for result in results: print(result)`. The result is a string,
   * so this prints one line per character.
   */
  function PrintEach(reply: string): (lines: seq<string>)
    ensures |lines| == |reply|
    ensures forall i :: 0 <= i < |lines| ==> lines[i] == [reply[i]]
  {
    if reply == "" then [] else [[reply[0]]] + PrintEach(reply[1..])
  }

  /**
   * What the loop is evidently meant to do with the reply: print it as one
   * line, and print nothing for the empty reply of a non-empty book.
   */
  function PrintReply(reply: string): (lines: seq<string>)
    ensures |lines| <= 1
    ensures Concat(lines) == reply
    ensures forall i :: 0 <= i < |lines| ==> lines[i] != ""
  {
    if reply == "" then [] else [reply]
  }

  /** The lines the `show batch` branch leaves on the console. */
  function BatchLines(events: seq<Event>, reply: string): seq<string> {
    Shown(events) + PrintReply(reply)
  }

  /**
   * As written, `show batch 2` on an empty book prints "No contacts found"
   * one character per line, so the message itself never appears as a line.
   */
  lemma EmptyBatchAsWritten()
    ensures var lines := PrintEach(NoContactsReply);
            |lines| == 17 && lines[0] == "N"
            && forall i :: 0 <= i < |lines| ==> lines[i] != NoContactsReply
  {
  }

  /**
   * Printed as one line, the reply of an empty book is the message, and a
   * non-empty book shows exactly its texts, in order, and nothing else.
   */
  lemma BatchLinesIntended(ts: seq<string>, b: int)
    requires b != 0
    ensures BatchLines([], NoContactsReply) == [NoContactsReply]
    ensures BatchLines(BatchEvents(ts, b, |ts|), "") == ts
  {
    BatchShowsAll(ts, b, |ts|);
    assert ts[..|ts|] == ts;
  }
}
