/**
 * One contact (dz12.py, class Record): a name, an ordered list of phone
 * values changed in place, and an optional birthday. A phone value is
 * Option<string> because edit_phone may store None in a Phone.
 */
module Records {
  import opened Wrappers
  import opened Errors
  import opened Text
  import opened Fields

  /**
   * The dictionary Record.serialize produces and Record.deserialize reads
   * (`name`, `phones`, `birthday`); it is also the value of a record.
   */
  datatype Contact = Contact(name: string, phones: seq<Option<string>>, birthday: Option<string>)

  /** What the Phone setter accepts. */
  predicate PhoneOk(p: Option<string>) {
    p.None? || ValidPhone(p.value)
  }

  /** What the Birthday setter accepts. */
  predicate BirthdayOk(b: Option<string>) {
    b.None? || ValidBirthday(b.value)
  }

  /** Every field of the contact passed its setter. */
  predicate ContactValid(c: Contact) {
    BirthdayOk(c.birthday) && forall i :: 0 <= i < |c.phones| ==> PhoneOk(c.phones[i])
  }

  /** No phone holds None. */
  predicate AllSet(ps: seq<Option<string>>) {
    forall i :: 0 <= i < |ps| ==> ps[i].Some?
  }

  /** The position of the first phone equal to `x` (the loops at dz12.py:66-69, 73-76, 87-90). */
  function IndexOf(ps: seq<Option<string>>, x: Option<string>): (r: Option<nat>)
    ensures r.None? <==> x !in ps
    ensures r.Some? ==> r.value < |ps| && ps[r.value] == x && x !in ps[..r.value]
  {
    if ps == [] then None
    else if ps[0] == x then Some(0)
    else
      match IndexOf(ps[1..], x)
      case None => None
      case Some(i) =>
        assert ps[..i + 1] == [ps[0]] + ps[1..][..i];
        Some(i + 1)
  }

  /** A position holding `x` with no `x` before it is the one IndexOf finds. */
  lemma IndexOfFirst(ps: seq<Option<string>>, x: Option<string>, i: nat)
    requires i < |ps| && ps[i] == x && x !in ps[..i]
    ensures IndexOf(ps, x) == Some(i)
  {
  }

  /** The position of the first phone the setter refuses, if any. */
  function FirstBadPhone(ps: seq<Option<string>>): (r: Option<nat>)
    ensures r.None? <==> forall i :: 0 <= i < |ps| ==> PhoneOk(ps[i])
    ensures r.Some? ==> r.value < |ps| && !PhoneOk(ps[r.value])
                        && forall i :: 0 <= i < r.value ==> PhoneOk(ps[i])
  {
    if ps == [] then None
    else if !PhoneOk(ps[0]) then Some(0)
    else
      match FirstBadPhone(ps[1..])
      case None => None
      case Some(i) => Some(i + 1)
  }

  /** The phones other than None, in order: what add_phone keeps of a list. */
  function Present(ps: seq<Option<string>>): (r: seq<Option<string>>)
    ensures AllSet(r)
    ensures forall x :: x in r <==> x in ps && x.Some?
    decreases |ps|
  {
    if ps == [] then []
    else
      var init := Present(ps[..|ps| - 1]);
      assert ps == ps[..|ps| - 1] + [ps[|ps| - 1]];
      init + (if ps[|ps| - 1].Some? then [ps[|ps| - 1]] else [])
  }

  lemma {:induction false} PresentAllSet(ps: seq<Option<string>>)
    ensures AllSet(ps) ==> Present(ps) == ps
    decreases |ps|
  {
    if ps != [] {
      PresentAllSet(ps[..|ps| - 1]);
      assert ps == ps[..|ps| - 1] + [ps[|ps| - 1]];
    }
  }

  lemma FirstBadAt(ps: seq<Option<string>>, i: nat)
    requires i < |ps| && !PhoneOk(ps[i]) && forall j :: 0 <= j < i ==> PhoneOk(ps[j])
    ensures FirstBadPhone(ps) == Some(i)
  {
    var r := FirstBadPhone(ps);
    assert r.Some?;
    assert !(r.value < i) && !(i < r.value);
  }

  lemma PresentSnoc(ps: seq<Option<string>>, i: nat)
    requires i < |ps|
    ensures Present(ps[..i + 1]) == Present(ps[..i]) + if ps[i].Some? then [ps[i]] else []
  {
    assert ps[..i + 1][..i] == ps[..i];
  }

  /** The positions of the phones other than None, in increasing order. */
  function SetPositions(ps: seq<Option<string>>): seq<nat>
    decreases |ps|
  {
    if ps == [] then []
    else SetPositions(ps[..|ps| - 1]) + (if ps[|ps| - 1].Some? then [|ps| - 1] else [])
  }

  /** The positions are increasing and are exactly those of the phones other than None. */
  lemma {:induction false} SetPositionsExact(ps: seq<Option<string>>)
    ensures var pos := SetPositions(ps);
            && (forall k :: 0 <= k < |pos| ==> pos[k] < |ps|)
            && (forall k, l :: 0 <= k < l < |pos| ==> pos[k] < pos[l])
            && (forall i :: 0 <= i < |ps| ==> (i in pos <==> ps[i].Some?))
    decreases |ps|
  {
    if ps != [] {
      var init := ps[..|ps| - 1];
      SetPositionsExact(init);
      var p0 := SetPositions(init);
      assert |ps| - 1 !in p0;
      assert forall i :: 0 <= i < |init| ==> init[i] == ps[i];
    }
  }

  /**
   * Present keeps the phones other than None in their order, repeats
   * included: its k-th entry is the phone at the k-th such position.
   */
  lemma {:induction false} PresentOrder(ps: seq<Option<string>>)
    ensures var r, pos := Present(ps), SetPositions(ps);
            && |r| == |pos|
            && (forall k :: 0 <= k < |pos| ==> pos[k] < |ps| && r[k] == ps[pos[k]])
            && (forall k, l :: 0 <= k < l < |pos| ==> pos[k] < pos[l])
            && (forall i :: 0 <= i < |ps| ==> (i in pos <==> ps[i].Some?))
    decreases |ps|
  {
    SetPositionsExact(ps);
    PresentAt(ps);
  }

  lemma {:induction false} PresentAt(ps: seq<Option<string>>)
    ensures var r, pos := Present(ps), SetPositions(ps);
            |r| == |pos| && forall k :: 0 <= k < |pos| ==> pos[k] < |ps| && r[k] == ps[pos[k]]
    decreases |ps|
  {
    if ps != [] {
      var init := ps[..|ps| - 1];
      PresentAt(init);
      var r0, p0 := Present(init), SetPositions(init);
      assert forall k :: 0 <= k < |p0| ==> ps[p0[k]] == init[p0[k]];
      if ps[|ps| - 1].Some? {
        assert Present(ps) == r0 + [ps[|ps| - 1]];
        assert SetPositions(ps) == p0 + [|ps| - 1];
      } else {
        assert Present(ps) == r0;
        assert SetPositions(ps) == p0;
      }
    }
  }

  /**
   * Record.deserialize as a function of the dictionary: the record built by
   * `Record(name, birthday)` and one add_phone per listed phone. It fails
   * with the birthday error first, then with the phone error; None phones
   * are skipped.
   */
  function Deserialized(c: Contact): (r: Result<Contact, Error>)
    ensures r.Success? <==> ContactValid(c)
    ensures r.Success? ==> r.value == Contact(c.name, Present(c.phones), c.birthday)
                           && ContactValid(r.value)
    ensures r.Failure? ==>
              r.error == ValueError(if BirthdayOk(c.birthday) then PhoneMessage else BirthdayMessage)
  {
    match SetBirthday(c.birthday)
    case Failure(e) => Failure(e)
    case Success(_) =>
      match FirstBadPhone(c.phones)
      case Some(_) => Failure(ValueError(PhoneMessage))
      case None => Success(Contact(c.name, Present(c.phones), c.birthday))
  }

  /**
   * deserialize(serialize(r)) rebuilds r: same name, same phones in the same
   * order, same birthday, for every valid record without None phones.
   */
  lemma {:induction false} DeserializeSerialized(c: Contact)
    requires ContactValid(c) && AllSet(c.phones)
    ensures Deserialized(c) == Success(c)
  {
    PresentAllSet(c.phones);
  }

  /** How an f-string shows an optional value. */
  function ShowValue(v: Option<string>): string {
    match v
    case None => "None"
    case Some(s) => s
  }

  function Values(ps: seq<Option<string>>): (r: seq<string>)
    requires AllSet(ps)
  {
    seq(|ps|, i requires 0 <= i < |ps| => ps[i].value)
  }

  /** The text of the record's phones in `__str__`, joined with ", ". */
  lemma {:induction false} JoinedPhonesAt(ps: seq<string>, k: nat)
    requires forall i :: 0 <= i < |ps| ==> |ps[i]| == 10
    requires k < |ps|
    ensures |Join(ps, ", ")| == 12 * |ps| - 2
    ensures Join(ps, ", ")[12 * k..12 * k + 10] == ps[k]
    decreases |ps|
  {
    if |ps| > 1 {
      JoinedPhonesAt(ps[1..], if k > 0 then k - 1 else 0);
      var rest := Join(ps[1..], ", ");
      assert Join(ps, ", ") == ps[0] + ", " + rest;
      if k > 0 {
        assert Join(ps, ", ")[12 * k..12 * k + 10] == rest[12 * (k - 1)..12 * (k - 1) + 10];
      }
    }
  }

  class Record {
    const name: string
    var phones: seq<Option<string>>
    var birthday: Option<string>

    /** Every phone and the birthday went through their setters. */
    ghost predicate Valid()
      reads this
    {
      ContactValid(Contact(name, phones, birthday))
    }

    /** `Record(name)`: no phones yet, no birthday. */
    constructor (name: string)
      ensures Valid() && this.name == name && phones == [] && birthday == None
    {
      this.name := name;
      phones := [];
      birthday := None;
    }

    /**
     * Record.serialize. What it produces, deserialize turns back into this
     * record (None phones left out).
     */
    function Serialize(): (c: Contact)
      reads this
      ensures Valid() ==> Deserialized(c) == Success(Contact(name, Present(phones), birthday))
      ensures Valid() && AllSet(phones) ==> Deserialized(c) == Success(c)
    {
      PresentAllSet(phones);
      Contact(name, phones, birthday)
    }

    /** `record.birthday.value = value`, through the Birthday setter. */
    method AssignBirthday(value: Option<string>) returns (outcome: Outcome)
      requires Valid()
      modifies this
      ensures Valid() && phones == old(phones)
      ensures outcome == Done <==> BirthdayOk(value)
      ensures outcome != Done ==> outcome == Raised(ValueError(BirthdayMessage))
      ensures birthday == if outcome == Done then value else old(birthday)
    {
      match SetBirthday(value)
      case Failure(e) =>
        outcome := Raised(e);
      case Success(v) =>
        birthday := v;
        outcome := Done;
    }

    /**
     * `Record(name, birthday)`: the Birthday setter runs at construction, so
     * an invalid birthday makes the constructor raise.
     */
    static method Create(name: string, birthday: Option<string>) returns (res: Result<Record, Error>)
      ensures res.Success? <==> BirthdayOk(birthday)
      ensures res.Failure? ==> res.error == ValueError(BirthdayMessage)
      ensures res.Success? ==> fresh(res.value) && res.value.Valid()
                               && res.value.Serialize() == Contact(name, [], birthday)
    {
      var r := new Record(name);
      var outcome := r.AssignBirthday(birthday);
      if outcome.Raised? {
        return Failure(outcome.error);
      }
      return Success(r);
    }

    /**
     * Record.deserialize: `Record(name, birthday)`, then add_phone for each
     * listed phone. The new record holds exactly Deserialized(data).
     */
    static method Deserialize(data: Contact) returns (res: Result<Record, Error>)
      ensures match Deserialized(data)
                case Failure(e) => res == Failure(e)
                case Success(c) => res.Success? && fresh(res.value) && res.value.Valid()
                                   && res.value.Serialize() == c
    {
      var created := Create(data.name, data.birthday);
      if created.Failure? {
        return Failure(created.error);
      }
      var r := created.value;
      var outcome := r.AddPhones(data.phones);
      if outcome.Raised? {
        return Failure(outcome.error);
      }
      return Success(r);
    }

    /**
     * add_phone: None is ignored, a valid phone is appended at the end, an
     * invalid one raises and leaves the list as it was.
     */
    method AddPhone(phone: Option<string>) returns (outcome: Outcome)
      requires Valid()
      modifies this
      ensures Valid() && birthday == old(birthday)
      ensures outcome == Done <==> PhoneOk(phone)
      ensures outcome != Done ==> outcome == Raised(ValueError(PhoneMessage))
      ensures phones == if phone.Some? && outcome == Done then old(phones) + [phone] else old(phones)
    {
      if phone.Some? {
        if ValidPhone(phone.value) {
          phones := phones + [phone];
        } else {
          return Raised(ValueError(PhoneMessage));
        }
      }
      outcome := Done;
    }

    /**
     * `for phone in phones: record.add_phone(phone)`: the phones up to the
     * first invalid one are appended, and that one raises.
     */
    method AddPhones(ps: seq<Option<string>>) returns (outcome: Outcome)
      requires Valid()
      modifies this
      ensures Valid() && birthday == old(birthday)
      ensures match FirstBadPhone(ps)
                case None => outcome == Done && phones == old(phones) + Present(ps)
                case Some(k) => outcome == Raised(ValueError(PhoneMessage))
                                && phones == old(phones) + Present(ps[..k])
    {
      ghost var start := phones;
      var i := 0;
      while i < |ps|
        invariant 0 <= i <= |ps|
        invariant Valid() && birthday == old(birthday)
        invariant forall j :: 0 <= j < i ==> PhoneOk(ps[j])
        invariant phones == start + Present(ps[..i])
      {
        ghost var prev := phones;
        outcome := AddPhone(ps[i]);
        if outcome != Done {
          FirstBadAt(ps, i);
          return;
        }
        var added := if ps[i].Some? then [ps[i]] else [];
        assert phones == prev + added;
        PresentSnoc(ps, i);
        assert start + Present(ps[..i]) + added == start + (Present(ps[..i]) + added);
        i := i + 1;
      }
      assert ps[..i] == ps;
      assert FirstBadPhone(ps).None?;
      outcome := Done;
    }

    /**
     * remove_phone: drops the first phone equal to `number` and keeps the
     * others in order; with no such phone nothing changes.
     */
    method RemovePhone(number: Option<string>)
      requires Valid()
      modifies this
      ensures Valid() && birthday == old(birthday)
      ensures match IndexOf(old(phones), number)
                case None => phones == old(phones)
                case Some(i) => phones == old(phones)[..i] + old(phones)[i + 1..]
    {
      var i := 0;
      while i < |phones|
        invariant 0 <= i <= |phones| && phones == old(phones)
        invariant number !in phones[..i]
      {
        if phones[i] == number {
          phones := phones[..i] + phones[i + 1..];
          return;
        }
        assert phones[..i + 1] == phones[..i] + [phones[i]];
        i := i + 1;
      }
      assert phones[..i] == phones;
    }

    /**
     * edit_phone: with no phone equal to `oldValue` it raises "Contact '…'
     * not found"; with an invalid new value it raises the phone error; in
     * both cases nothing changes. Otherwise only the first matching position
     * takes the new value.
     */
    method EditPhone(oldValue: Option<string>, newValue: Option<string>) returns (outcome: Outcome)
      requires Valid()
      modifies this
      ensures Valid() && birthday == old(birthday)
      ensures match IndexOf(old(phones), oldValue)
                case None =>
                  outcome == Raised(ValueError("Contact '" + ShowValue(oldValue) + "' not found"))
                  && phones == old(phones)
                case Some(i) =>
                  if PhoneOk(newValue) then outcome == Done && phones == old(phones)[i := newValue]
                  else outcome == Raised(ValueError(PhoneMessage)) && phones == old(phones)
    {
      var found: Option<nat> := None;
      var i := 0;
      while i < |phones|
        invariant 0 <= i <= |phones|
        invariant oldValue !in phones[..i]
      {
        if phones[i] == oldValue {
          found := Some(i);
          break;
        }
        assert phones[..i + 1] == phones[..i] + [phones[i]];
        i := i + 1;
      }
      if found.None? {
        assert phones[..i] == phones;
        return Raised(ValueError("Contact '" + ShowValue(oldValue) + "' not found"));
      }
      if newValue.Some? && !ValidPhone(newValue.value) {
        return Raised(ValueError(PhoneMessage));
      }
      phones := phones[found.value := newValue];
      outcome := Done;
    }

    /** find_phone: the position of the first phone equal to `number`, or None. */
    method FindPhone(number: Option<string>) returns (position: Option<nat>)
      ensures position == IndexOf(phones, number)
    {
      var i := 0;
      while i < |phones|
        invariant 0 <= i <= |phones|
        invariant number !in phones[..i]
      {
        if phones[i] == number {
          IndexOfFirst(phones, number, i);
          return Some(i);
        }
        assert phones[..i + 1] == phones[..i] + [phones[i]];
        i := i + 1;
      }
      assert phones[..i] == phones;
      return None;
    }

    /**
     * `__str__`; None where a None phone makes `", ".join` raise TypeError.
     * The phones are joined with ", " and a missing birthday shows as None.
     */
    function ToString(): (s: Option<string>)
      reads this
      ensures s.Some? <==> AllSet(phones)
    {
      if AllSet(phones) then
        Some("Contact name: " + name + ", phones: " + Join(Values(phones), ", ")
             + ", birthday: " + ShowValue(birthday))
      else None
    }

    /**
     * In the text of a valid record, phone k stands at a fixed offset after
     * the "phones: " label: the phone list can be read back from `__str__`.
     */
    lemma PhonesReadBack(k: nat)
      requires Valid() && AllSet(phones) && k < |phones|
      ensures var prefix := "Contact name: " + name + ", phones: ";
              var s := ToString().value;
              |prefix| + 12 * k + 10 <= |s|
              && s[|prefix| + 12 * k..|prefix| + 12 * k + 10] == phones[k].value
    {
      var vs := Values(phones);
      assert forall i :: 0 <= i < |vs| ==> vs[i] == phones[i].value && PhoneOk(phones[i]);
      JoinedPhonesAt(vs, k);
      var prefix := "Contact name: " + name + ", phones: ";
      var j := Join(vs, ", ");
      Infix(prefix, j, ", birthday: ", ShowValue(birthday), 12 * k, 12 * k + 10);
    }
  }

  /** A slice of the second part of `a + b + c + d` is the slice of `b`. */
  lemma Infix(a: string, b: string, c: string, d: string, lo: nat, hi: nat)
    requires lo <= hi <= |b|
    ensures |a| + hi <= |a + b + c + d|
    ensures (a + b + c + d)[|a| + lo..|a| + hi] == b[lo..hi]
  {
    var s := a + b + c + d;
    assert forall i :: 0 <= i < |b| ==> s[|a| + i] == b[i];
  }
}
