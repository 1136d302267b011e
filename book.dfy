/**
 * The address book (dz12.py, class AddressBook): an insertion-ordered
 * dictionary from a contact's name to its Record. The dictionary is kept
 * as the sequence of its keys in insertion order and a map; overwriting a
 * key keeps its position, deleting it removes the position, as with a
 * Python dict.
 */
module Book {
  import opened Wrappers
  import opened Errors
  import opened Text
  import opened Fields
  import opened Records

  /** The value of a book: its names in order and a snapshot of each record. */
  datatype Snapshot = Snapshot(keys: seq<string>, entries: map<string, Contact>)

  predicate Distinct<T(==)>(s: seq<T>) {
    forall i, j :: 0 <= i < j < |s| ==> s[i] != s[j]
  }

  /** Keys unique, in the map, each the name of its record, every record valid. */
  ghost predicate WellFormed(s: Snapshot) {
    && Distinct(s.keys)
    && (forall k :: k in s.entries <==> k in s.keys)
    && (forall k :: k in s.entries ==> s.entries[k].name == k && ContactValid(s.entries[k]))
  }

  /** `data[c.name] = c` on the value of a book. */
  function Insert(s: Snapshot, c: Contact): Snapshot {
    Snapshot(if c.name in s.entries then s.keys else s.keys + [c.name], s.entries[c.name := c])
  }

  /** The `contacts` list that save_to_file writes: every record serialized, in order. */
  function PayloadOf(s: Snapshot): (p: seq<Contact>)
    requires forall i :: 0 <= i < |s.keys| ==> s.keys[i] in s.entries
    ensures |p| == |s.keys| && forall i :: 0 <= i < |p| ==> p[i] == s.entries[s.keys[i]]
  {
    seq(|s.keys|, i requires 0 <= i < |s.keys| => s.entries[s.keys[i]])
  }

  /**
   * What load_from_file puts in the book for a `contacts` list: the
   * dictionary comprehension `{c['name']: Record.deserialize(c) for c in
   * contacts}`. The first contact that does not deserialize makes the whole
   * load fail with its error; a repeated name keeps its first position and
   * its last record.
   */
  function Loaded(cs: seq<Contact>): (r: Result<Snapshot, Error>)
    ensures r.Success? <==> forall i :: 0 <= i < |cs| ==> ContactValid(cs[i])
    ensures r.Success? ==> WellFormed(r.value)
    decreases |cs|
  {
    if cs == [] then Success(Snapshot([], map[]))
    else
      var init, last := cs[..|cs| - 1], cs[|cs| - 1];
      assert forall i :: 0 <= i < |cs| - 1 ==> cs[i] == init[i];
      match Loaded(init)
      case Failure(e) => Failure(e)
      case Success(s) =>
        match Deserialized(last)
        case Failure(e) => Failure(e)
        case Success(c) => Success(Insert(s, c))
  }

  /** The names of a loaded book are exactly the names in the list. */
  lemma LoadedNames(cs: seq<Contact>)
    requires Loaded(cs).Success?
    ensures forall k :: k in Loaded(cs).value.entries <==> exists i :: 0 <= i < |cs| && cs[i].name == k
  {
    LoadedKeysNamed(cs);
    LoadedNamesKept(cs);
  }

  /** Every key of a loaded book is the name of some contact of the list. */
  lemma {:induction false} LoadedKeysNamed(cs: seq<Contact>)
    requires Loaded(cs).Success?
    ensures forall k :: k in Loaded(cs).value.entries ==> exists i :: 0 <= i < |cs| && cs[i].name == k
    decreases |cs|
  {
    if cs != [] {
      var init := cs[..|cs| - 1];
      LoadedSnoc(cs);
      LoadedKeysNamed(init);
      var s0, c := Loaded(init).value, Deserialized(cs[|cs| - 1]).value;
      forall k | k in Insert(s0, c).entries
        ensures exists i :: 0 <= i < |cs| && cs[i].name == k
      {
        if k == c.name {
          assert cs[|cs| - 1].name == k;
        } else {
          var i :| 0 <= i < |init| && init[i].name == k;
          assert cs[i] == init[i];
        }
      }
    }
  }

  /** The name of every contact of the list is a key of the loaded book. */
  lemma {:induction false} LoadedNamesKept(cs: seq<Contact>)
    requires Loaded(cs).Success?
    ensures forall i :: 0 <= i < |cs| ==> cs[i].name in Loaded(cs).value.entries
    decreases |cs|
  {
    if cs != [] {
      var init := cs[..|cs| - 1];
      LoadedSnoc(cs);
      LoadedNamesKept(init);
      assert forall i :: 0 <= i < |init| ==> init[i] == cs[i];
    }
  }

  /** Once a prefix of the list fails to load, the whole list fails with the same error. */
  lemma {:induction false} LoadedFailsFromPrefix(cs: seq<Contact>, j: nat, e: Error)
    requires j <= |cs| && Loaded(cs[..j]) == Failure(e)
    ensures Loaded(cs) == Failure(e)
    decreases |cs|
  {
    if j < |cs| {
      var init := cs[..|cs| - 1];
      assert init[..j] == cs[..j];
      LoadedFailsFromPrefix(init, j, e);
    } else {
      assert cs[..j] == cs;
    }
  }

  /** One more contact that deserializes is inserted into what the prefix loaded. */
  lemma LoadedStep(cs: seq<Contact>, i: nat, s: Snapshot, c: Contact)
    requires i < |cs| && Loaded(cs[..i]) == Success(s) && Deserialized(cs[i]) == Success(c)
    ensures Loaded(cs[..i + 1]) == Success(Insert(s, c))
  {
    assert cs[..i + 1][..i] == cs[..i];
  }

  /** A loaded non-empty list: its prefix loads, and its last contact is inserted into that. */
  lemma LoadedSnoc(cs: seq<Contact>)
    requires |cs| > 0 && Loaded(cs).Success?
    ensures Loaded(cs[..|cs| - 1]).Success? && Deserialized(cs[|cs| - 1]).Success?
    ensures Loaded(cs).value == Insert(Loaded(cs[..|cs| - 1]).value, Deserialized(cs[|cs| - 1]).value)
  {
  }

  /** A name holds the record of the last contact in the list that carries it. */
  lemma {:induction false} LoadedHoldsLast(cs: seq<Contact>, i: nat)
    requires Loaded(cs).Success? && i < |cs|
    requires forall j :: i < j < |cs| ==> cs[j].name != cs[i].name
    ensures cs[i].name in Loaded(cs).value.entries
    ensures Loaded(cs).value.entries[cs[i].name] == Deserialized(cs[i]).value
    decreases |cs|
  {
    var init := cs[..|cs| - 1];
    LoadedSnoc(cs);
    if i < |cs| - 1 {
      assert init[i] == cs[i];
      assert forall j :: i < j < |init| ==> init[j] == cs[j];
      LoadedHoldsLast(init, i);
    }
  }

  /** Inserting keeps the keys already there, in their places. */
  lemma InsertKeepsKeys(s: Snapshot, c: Contact)
    ensures s.keys <= Insert(s, c).keys
    ensures c.name !in s.entries ==> Insert(s, c).keys == s.keys + [c.name]
  {
  }

  /**
   * A name takes its place in the keys at its first contact: the name of
   * any earlier contact comes before it.
   */
  lemma {:induction false} LoadedKeepsFirstOrder(cs: seq<Contact>, i: nat, j: nat)
    requires Loaded(cs).Success? && i < j < |cs|
    requires forall l :: 0 <= l < j ==> cs[l].name != cs[j].name
    ensures var keys := Loaded(cs).value.keys;
            exists p, q :: 0 <= p < q < |keys| && keys[p] == cs[i].name && keys[q] == cs[j].name
    decreases |cs|
  {
    var init := cs[..|cs| - 1];
    LoadedSnoc(cs);
    var s0, c := Loaded(init).value, Deserialized(cs[|cs| - 1]).value;
    assert Loaded(cs).value == Insert(s0, c);
    InsertKeepsKeys(s0, c);
    var keys := Insert(s0, c).keys;
    if j == |cs| - 1 {
      assert init[i] == cs[i];
      LoadedNames(init);
      assert forall l :: 0 <= l < |init| ==> init[l].name != c.name;
      assert c.name !in s0.entries;
      assert cs[i].name in s0.entries;
      assert cs[i].name in s0.keys;
      var p :| 0 <= p < |s0.keys| && s0.keys[p] == cs[i].name;
      assert keys[p] == cs[i].name && keys[|s0.keys|] == cs[j].name;
    } else {
      assert init[i] == cs[i] && init[j] == cs[j];
      assert forall l :: 0 <= l < j ==> init[l] == cs[l];
      LoadedKeepsFirstOrder(init, i, j);
      var p, q :| 0 <= p < q < |s0.keys| && s0.keys[p] == cs[i].name && s0.keys[q] == cs[j].name;
      assert keys[p] == cs[i].name && keys[q] == cs[j].name;
    }
  }

  /** The names of the contacts, in list order. */
  function Names(cs: seq<Contact>): (r: seq<string>)
    ensures |r| == |cs| && forall i :: 0 <= i < |cs| ==> r[i] == cs[i].name
  {
    seq(|cs|, i requires 0 <= i < |cs| => cs[i].name)
  }

  /** With distinct names, the keys are the names in list order. */
  lemma {:induction false} LoadedDistinctKeys(cs: seq<Contact>)
    requires Loaded(cs).Success?
    requires forall i, j :: 0 <= i < j < |cs| ==> cs[i].name != cs[j].name
    ensures Loaded(cs).value.keys == Names(cs)
    decreases |cs|
  {
    if cs != [] {
      var init := cs[..|cs| - 1];
      LoadedSnoc(cs);
      var s0, c := Loaded(init).value, Deserialized(cs[|cs| - 1]).value;
      assert forall l :: 0 <= l < |init| ==> init[l] == cs[l];
      LoadedDistinctKeys(init);
      LoadedNames(init);
      assert c.name !in s0.entries;
      InsertKeepsKeys(s0, c);
      NamesSnoc(cs);
    }
  }

  lemma NamesSnoc(cs: seq<Contact>)
    requires |cs| > 0
    ensures Names(cs) == Names(cs[..|cs| - 1]) + [cs[|cs| - 1].name]
  {
  }

  /** With distinct names, the keys are the names in list order and each holds its own record. */
  lemma LoadedDistinct(cs: seq<Contact>)
    requires Loaded(cs).Success?
    requires forall i, j :: 0 <= i < j < |cs| ==> cs[i].name != cs[j].name
    ensures Loaded(cs).value.keys == Names(cs)
    ensures forall i :: 0 <= i < |cs| ==>
              cs[i].name in Loaded(cs).value.entries
              && Loaded(cs).value.entries[cs[i].name] == Deserialized(cs[i]).value
  {
    LoadedDistinctKeys(cs);
    forall i | 0 <= i < |cs|
      ensures cs[i].name in Loaded(cs).value.entries
      ensures Loaded(cs).value.entries[cs[i].name] == Deserialized(cs[i]).value
    {
      LoadedHoldsLast(cs, i);
    }
  }

  /** The book without its last name. */
  function DropLast(s: Snapshot): Snapshot
    requires |s.keys| > 0
  {
    Snapshot(s.keys[..|s.keys| - 1], s.entries - {s.keys[|s.keys| - 1]})
  }

  lemma DropLastWellFormed(s: Snapshot)
    requires WellFormed(s) && |s.keys| > 0
    ensures WellFormed(DropLast(s))
    ensures PayloadOf(s)[..|s.keys| - 1] == PayloadOf(DropLast(s))
    ensures Insert(DropLast(s), s.entries[s.keys[|s.keys| - 1]]) == s
  {
    var n := |s.keys|;
    var k := s.keys[n - 1];
    var d := DropLast(s);
    assert k !in d.keys;
    assert d.keys + [k] == s.keys;
    assert d.entries[k := s.entries[k]] == s.entries;
  }

  /**
   * Saving then loading gives back the same book: the same names in the
   * same order and, per name, the same phones and birthday, whenever the
   * records hold no None phone.
   */
  lemma {:induction false} LoadPayloadRoundTrip(s: Snapshot)
    requires WellFormed(s)
    requires forall k :: k in s.entries ==> AllSet(s.entries[k].phones)
    ensures Loaded(PayloadOf(s)) == Success(s)
    decreases |s.keys|
  {
    var p := PayloadOf(s);
    if |s.keys| == 0 {
      assert s.entries == map[];
    } else {
      var n := |s.keys|;
      DropLastWellFormed(s);
      LoadPayloadRoundTrip(DropLast(s));
      DeserializeSerialized(s.entries[s.keys[n - 1]]);
      assert Loaded(p[..n - 1]) == Success(DropLast(s));
      assert p[n - 1] == s.entries[s.keys[n - 1]];
    }
  }

  // -------------------------------------------------------------- batches

  function Flatten<T>(ss: seq<seq<T>>): seq<T> {
    if ss == [] then [] else ss[0] + Flatten(ss[1..])
  }

  /** The slices `s[i:i + b]` for i in `range(0, len(s), b)`. */
  function Chunks<T>(s: seq<T>, b: nat): seq<seq<T>>
    requires b >= 1
    decreases |s|
  {
    if |s| == 0 then [] else if |s| <= b then [s] else [s[..b]] + Chunks(s[b..], b)
  }

  /** Putting the batches back together gives the values, in order. */
  lemma {:induction false} ChunksFlatten<T>(s: seq<T>, b: nat)
    requires b >= 1
    ensures Flatten(Chunks(s, b)) == s
    decreases |s|
  {
    if |s| > b {
      ChunksFlatten(s[b..], b);
      assert s[..b] + s[b..] == s;
    }
  }

  /** Every batch but the last is full; the last is non-empty and at most full. */
  lemma {:induction false} ChunksShape<T>(s: seq<T>, b: nat)
    requires b >= 1
    ensures var c := Chunks(s, b);
            && (|c| == 0 <==> |s| == 0)
            && (forall i :: 0 <= i < |c| - 1 ==> |c[i]| == b)
            && (|c| > 0 ==> 0 < |c[|c| - 1]| <= b)
    decreases |s|
  {
    if |s| > b {
      ChunksShape(s[b..], b);
      var c := Chunks(s, b);
      assert c[1..] == Chunks(s[b..], b);
    }
  }

  // --------------------------------------------------------------- search

  const NoneNotIterable: string := "argument of type 'NoneType' is not iterable"

  /**
   * `any(query in phone.value for phone in phones)`, which stops at the
   * first match and raises TypeError (None here) on a None phone it reaches.
   */
  function AnyPhone(q: string, ps: seq<Option<string>>): (r: Option<bool>)
    ensures r.None? <==>
              exists j :: 0 <= j < |ps| && ps[j].None?
                       && forall i :: 0 <= i < j ==> ps[i].Some? && !Contains(ps[i].value, q)
    decreases |ps|
  {
    if ps == [] then Some(false)
    else if ps[0].None? then None
    else if Contains(ps[0].value, q) then Some(true)
    else
      var r := AnyPhone(q, ps[1..]);
      assert forall j :: 0 < j < |ps| ==> ps[j] == ps[1..][j - 1];
      r
  }

  /** The test search_contacts applies to one contact. */
  function MatchOutcome(q: string, name: string, ps: seq<Option<string>>): Option<bool> {
    if Contains(name, q) then Some(true) else AnyPhone(q, ps)
  }

  /** The contact answers the query: its name or one of its phones contains it. */
  predicate Hit(q: string, name: string, ps: seq<Option<string>>) {
    Contains(name, q) || exists j :: 0 <= j < |ps| && ps[j].Some? && Contains(ps[j].value, q)
  }

  /** When `any` does not raise, it says whether some phone contains the query. */
  lemma {:induction false} AnyPhoneDecides(q: string, ps: seq<Option<string>>)
    requires AnyPhone(q, ps).Some?
    ensures AnyPhone(q, ps).value <==> exists j :: 0 <= j < |ps| && ps[j].Some? && Contains(ps[j].value, q)
    decreases |ps|
  {
    if ps != [] && !Contains(ps[0].value, q) {
      AnyPhoneDecides(q, ps[1..]);
      assert forall j :: 0 < j < |ps| ==> ps[j] == ps[1..][j - 1];
      if exists j :: 0 <= j < |ps| && ps[j].Some? && Contains(ps[j].value, q) {
        var j :| 0 <= j < |ps| && ps[j].Some? && Contains(ps[j].value, q);
        assert ps[1..][j - 1] == ps[j];
      }
    }
  }

  /** When the test does not raise, it decides Hit. */
  lemma MatchOutcomeIsHit(q: string, name: string, ps: seq<Option<string>>)
    requires MatchOutcome(q, name, ps).Some?
    ensures MatchOutcome(q, name, ps).value == Hit(q, name, ps)
  {
    if !Contains(name, q) {
      AnyPhoneDecides(q, ps);
    }
  }

  /** The records search_contacts returns, in order; it raises where a test raises. */
  function Matching(q: string, rs: seq<Record>): (r: Result<seq<Record>, Error>)
    reads rs
    ensures r.Failure? ==> r.error == TypeError(NoneNotIterable)
    ensures r.Failure? <==> exists i :: 0 <= i < |rs| && MatchOutcome(q, rs[i].name, rs[i].phones).None?
    decreases |rs|
  {
    if rs == [] then Success([])
    else
      var init, r := rs[..|rs| - 1], rs[|rs| - 1];
      assert forall i :: 0 <= i < |rs| - 1 ==> rs[i] == init[i];
      match Matching(q, init)
      case Failure(e) => Failure(e)
      case Success(acc) =>
        match MatchOutcome(q, r.name, r.phones)
        case None => Failure(TypeError(NoneNotIterable))
        case Some(hit) => Success(if hit then acc + [r] else acc)
  }

  /** The positions of the records that answer the query, in increasing order. */
  ghost function HitPositions(q: string, rs: seq<Record>): (ps: seq<nat>)
    reads rs
    decreases |rs|
  {
    if rs == [] then []
    else
      var n := |rs| - 1;
      HitPositions(q, rs[..n]) + (if Hit(q, rs[n].name, rs[n].phones) then [n] else [])
  }

  /**
   * When no None phone is reached, search_contacts returns exactly the
   * records whose name or some phone contains the query, in the order of
   * the book.
   */
  lemma {:induction false} SearchExact(q: string, rs: seq<Record>)
    requires Matching(q, rs).Success?
    ensures var res, pos := Matching(q, rs).value, HitPositions(q, rs);
            && |res| == |pos|
            && (forall k :: 0 <= k < |pos| ==> pos[k] < |rs| && res[k] == rs[pos[k]])
            && (forall k, l :: 0 <= k < l < |pos| ==> pos[k] < pos[l])
            && (forall i :: 0 <= i < |rs| ==> (i in pos <==> Hit(q, rs[i].name, rs[i].phones)))
    decreases |rs|
  {
    if rs != [] {
      var n := |rs| - 1;
      var init := rs[..n];
      assert forall i :: 0 <= i < n ==> rs[i] == init[i];
      SearchExact(q, init);
      MatchOutcomeIsHit(q, rs[n].name, rs[n].phones);
    }
  }

  /** Without None phones the search never raises. */
  lemma SearchTotal(q: string, rs: seq<Record>)
    requires forall i :: 0 <= i < |rs| ==> AllSet(rs[i].phones)
    ensures Matching(q, rs).Success?
  {
  }

  function ValuesOf(ks: seq<string>, m: map<string, Record>): (vs: seq<Record>)
    requires forall i :: 0 <= i < |ks| ==> ks[i] in m
    ensures |vs| == |ks| && forall i :: 0 <= i < |ks| ==> vs[i] == m[ks[i]]
  {
    seq(|ks|, i requires 0 <= i < |ks| => m[ks[i]])
  }

  /** `ks` without the name `x`. */
  function Without(ks: seq<string>, x: string): (r: seq<string>)
    ensures forall y :: y in r <==> y in ks && y != x
    decreases |ks|
  {
    if ks == [] then [] else (if ks[0] == x then [] else [ks[0]]) + Without(ks[1..], x)
  }

  lemma {:induction false} WithoutAbsent(ks: seq<string>, x: string)
    requires x !in ks
    ensures Without(ks, x) == ks
    decreases |ks|
  {
    if ks != [] {
      WithoutAbsent(ks[1..], x);
    }
  }

  /** In a list of distinct names, removing one takes out exactly its position. */
  lemma {:induction false} WithoutAt(ks: seq<string>, i: nat)
    requires Distinct(ks) && i < |ks|
    ensures Without(ks, ks[i]) == ks[..i] + ks[i + 1..]
    decreases |ks|
  {
    if i == 0 {
      WithoutAbsent(ks[1..], ks[0]);
    } else {
      var tail := ks[1..];
      assert tail[i - 1] == ks[i];
      assert Distinct(tail) by {
        assert forall a :: 0 <= a < |tail| ==> tail[a] == ks[a + 1];
      }
      assert ks[0] != ks[i];
      WithoutAt(tail, i - 1);
      assert Without(ks, ks[i]) == [ks[0]] + (tail[..i - 1] + tail[i..]);
      assert ks[..i] == [ks[0]] + tail[..i - 1];
      assert ks[i + 1..] == tail[i..];
      assert [ks[0]] + (tail[..i - 1] + tail[i..]) == ([ks[0]] + tail[..i - 1]) + tail[i..];
    }
  }

  /** Removing the key at position `i` of distinct keys: only that position goes, and the rest stay distinct. */
  lemma WithoutDistinct(ks: seq<string>, i: nat)
    requires Distinct(ks) && i < |ks|
    ensures Without(ks, ks[i]) == ks[..i] + ks[i + 1..]
    ensures Distinct(Without(ks, ks[i]))
    ensures forall j :: 0 <= j < |ks| && ks[j] == ks[i] ==> j == i
  {
    WithoutAt(ks, i);
    DistinctRemove(ks, i);
  }

  lemma DistinctRemove(ks: seq<string>, i: nat)
    requires Distinct(ks) && i < |ks|
    ensures Distinct(ks[..i] + ks[i + 1..])
  {
    var rest := ks[..i] + ks[i + 1..];
    assert forall a :: 0 <= a < i ==> rest[a] == ks[a];
    assert forall a :: i <= a < |rest| ==> rest[a] == ks[a + 1];
  }

  function SnapshotOf(m: map<string, Record>): (e: map<string, Contact>)
    reads m.Values
    ensures e.Keys == m.Keys && forall k :: k in m ==> e[k] == m[k].Serialize()
  {
    map k | k in m :: m[k].Serialize()
  }

  lemma WellFormedKeys(s: Snapshot)
    requires WellFormed(s)
    ensures Distinct(s.keys) && forall k :: k in s.entries <==> k in s.keys
  {
  }

  lemma SnapshotOfUpdate(m: map<string, Record>, k: string, r: Record)
    ensures SnapshotOf(m[k := r]) == SnapshotOf(m)[k := r.Serialize()]
  {
  }

  /**
   * The dictionary comprehension of load_from_file: the names in order and
   * a fresh record per name, or the error of the first contact that does
   * not deserialize.
   */
  method LoadRecords(contacts: seq<Contact>) returns (res: Result<(seq<string>, map<string, Record>), Error>)
    ensures match Loaded(contacts)
              case Failure(e) => res == Failure(e)
              case Success(s) =>
                && res.Success? && Snapshot(res.value.0, SnapshotOf(res.value.1)) == s
                && forall k :: k in res.value.1 ==>
                     fresh(res.value.1[k]) && res.value.1[k].Valid() && res.value.1[k].name == k
  {
    var newKeys: seq<string> := [];
    var newData: map<string, Record> := map[];
    var i := 0;
    while i < |contacts|
      invariant 0 <= i <= |contacts|
      invariant Loaded(contacts[..i]) == Success(Snapshot(newKeys, SnapshotOf(newData)))
      invariant Named(newData) && forall k :: k in newData ==> fresh(newData[k])
    {
      var step := LoadNext(contacts, i, newKeys, newData);
      if step.Failure? {
        LoadedFailsFromPrefix(contacts, i + 1, step.error);
        return Failure(step.error);
      }
      newKeys, newData := step.value.0, step.value.1;
      i := i + 1;
    }
    assert contacts[..i] == contacts;
    return Success((newKeys, newData));
  }

  /**
   * The comprehension after its first `i + 1` contacts, from its state
   * after the first `i`: every record it holds is either one it already
   * held or a new one.
   */
  method LoadNext(contacts: seq<Contact>, i: nat, keys: seq<string>, data: map<string, Record>)
    returns (res: Result<(seq<string>, map<string, Record>), Error>)
    requires i < |contacts| && Named(data)
    requires Loaded(contacts[..i]) == Success(Snapshot(keys, SnapshotOf(data)))
    ensures match Loaded(contacts[..i + 1])
              case Failure(e) => res == Failure(e)
              case Success(s) =>
                && res.Success? && Named(res.value.1)
                && Snapshot(res.value.0, SnapshotOf(res.value.1)) == s
                && forall k :: k in res.value.1 ==>
                     (k in data && res.value.1[k] == data[k]) || fresh(res.value.1[k])
  {
    ghost var before := Snapshot(keys, SnapshotOf(data));
    res := LoadOne(contacts[i], keys, data);
    if res.Failure? {
      assert contacts[..i + 1][..i] == contacts[..i];
      return;
    }
    LoadedStep(contacts, i, before, Deserialized(contacts[i]).value);
  }

  /** Every record is valid and stored under its own name. */
  ghost predicate Named(m: map<string, Record>)
    reads m.Values
  {
    forall k :: k in m ==> m[k].Valid() && m[k].name == k
  }

  lemma NamedUpdate(m: map<string, Record>, k: string, r: Record)
    requires Named(m) && r.Valid() && r.name == k
    ensures Named(m[k := r])
  {
  }

  /**
   * One step of the comprehension: `data[c['name']] = Record.deserialize(c)`
   * on the names and records built so far, or the error of deserialize.
   */
  method LoadOne(c: Contact, keys: seq<string>, data: map<string, Record>)
    returns (res: Result<(seq<string>, map<string, Record>), Error>)
    requires Named(data)
    ensures match Deserialized(c)
              case Failure(e) => res == Failure(e)
              case Success(v) =>
                && res.Success? && Named(res.value.1)
                && Snapshot(res.value.0, SnapshotOf(res.value.1)) == Insert(Snapshot(keys, old(SnapshotOf(data))), v)
                && c.name in res.value.1 && fresh(res.value.1[c.name])
                && res.value.1 == data[c.name := res.value.1[c.name]]
  {
    ghost var entries := SnapshotOf(data);
    var rec := Record.Deserialize(c);
    assert SnapshotOf(data) == entries && Named(data);
    if rec.Failure? {
      return Failure(rec.error);
    }
    var r := rec.value;
    assert r.name == c.name by {
      assert r.Serialize().name == r.name;
    }
    SnapshotOfUpdate(data, c.name, r);
    NamedUpdate(data, c.name, r);
    var newKeys := if c.name in data then keys else keys + [c.name];
    res := Success((newKeys, data[c.name := r]));
  }

  class AddressBook {
    var keys: seq<string>
    var data: map<string, Record>

    /** Keys unique and in insertion order, and every key is its record's name. */
    ghost predicate Valid()
      reads this
    {
      && Distinct(keys)
      && (forall k :: k in data <==> k in keys)
      && (forall k :: k in data ==> data[k].name == k)
    }

    constructor ()
      ensures Valid() && keys == [] && data == map[]
    {
      keys := [];
      data := map[];
    }

    function Contents(): Snapshot
      reads this, data.Values
    {
      Snapshot(keys, SnapshotOf(data))
    }

    /** `list(self.data.values())`: the records in insertion order. */
    function Values(): (vs: seq<Record>)
      reads this
      requires Valid()
      ensures |vs| == |keys| && forall i :: 0 <= i < |keys| ==> vs[i] == data[keys[i]]
    {
      ValuesOf(keys, data)
    }

    /** find: the record stored under `name`, or None when there is none. */
    function Find(name: string): (r: Option<Record>)
      reads this
      requires Valid()
      ensures r.Some? <==> name in keys
      ensures r.Some? ==> r.value == data[name] && r.value.name == name
    {
      if name in data then Some(data[name]) else None
    }

    /**
     * add_record: stores the record under its name. A new name goes to the
     * end; an existing one keeps its position and gets the new record.
     */
    method AddRecord(r: Record)
      requires Valid()
      modifies this
      ensures Valid()
      ensures data == old(data)[r.name := r]
      ensures keys == if r.name in old(data) then old(keys) else old(keys) + [r.name]
      ensures Find(r.name) == Some(r)
    {
      if r.name !in data {
        keys := keys + [r.name];
      }
      data := data[r.name := r];
    }

    /** delete: removes `name` and its position; an absent name changes nothing. */
    method Delete(name: string)
      requires Valid()
      modifies this
      ensures Valid()
      ensures data == old(data) - {name}
      ensures name !in old(data) ==> keys == old(keys)
      ensures forall i :: 0 <= i < |old(keys)| && old(keys)[i] == name ==>
                keys == old(keys)[..i] + old(keys)[i + 1..]
    {
      if name in data {
        ghost var i :| 0 <= i < |keys| && keys[i] == name;
        WithoutDistinct(keys, i);
        keys := Without(keys, name);
        data := data - {name};
      }
    }

    /**
     * iterator: the values in batches of `batchSize`. A size of zero
     * raises, as `range` does; a negative size gives no batch.
     */
    method Iterator(batchSize: int) returns (res: Result<seq<seq<Record>>, Error>)
      requires Valid()
      ensures batchSize == 0 ==> res == Failure(ValueError("range() arg 3 must not be zero"))
      ensures batchSize < 0 ==> res == Success([])
      ensures batchSize > 0 ==> res == Success(Chunks(Values(), batchSize))
    {
      if batchSize == 0 {
        return Failure(ValueError("range() arg 3 must not be zero"));
      }
      if batchSize < 0 {
        return Success([]);
      }
      var values := Values();
      var n := |values|;
      var batches: seq<seq<Record>> := [];
      var i := 0;
      while i < n
        invariant 0 <= i <= n
        invariant batches + Chunks(values[i..], batchSize) == Chunks(values, batchSize)
      {
        var stop := if i + batchSize < n then i + batchSize else n;
        if stop < n {
          assert values[i..][..batchSize] == values[i..stop];
          assert values[i..][batchSize..] == values[stop..];
        } else {
          assert values[i..stop] == values[i..];
          assert values[stop..] == [];
        }
        batches := batches + [values[i..stop]];
        i := stop;
      }
      assert values[i..] == [] && batches + [] == batches;
      return Success(batches);
    }

    /** search_contacts: the records whose name or some phone contains `q`, in order. */
    method SearchContacts(q: string) returns (res: Result<seq<Record>, Error>)
      requires Valid()
      ensures res == Matching(q, Values())
    {
      var values := Values();
      var results: seq<Record> := [];
      var i := 0;
      while i < |values|
        invariant 0 <= i <= |values|
        invariant Matching(q, values[..i]) == Success(results)
      {
        var contact := values[i];
        assert values[..i + 1][..i] == values[..i];
        match MatchOutcome(q, contact.name, contact.phones)
        case None =>
          return Failure(TypeError(NoneNotIterable));
        case Some(hit) =>
          if hit {
            results := results + [contact];
          }
        i := i + 1;
      }
      assert values[..i] == values;
      return Success(results);
    }

    /** The `contacts` list save_to_file writes, without the file. */
    function Payload(): (p: seq<Contact>)
      reads this, data.Values
      requires Valid()
      ensures |p| == |keys| && forall i :: 0 <= i < |keys| ==> p[i] == data[keys[i]].Serialize()
    {
      PayloadOf(Contents())
    }

    /**
     * load_from_file without the file: on success the book holds exactly
     * Loaded(contacts), in fresh records; on failure it is unchanged.
     */
    method LoadPayload(contacts: seq<Contact>) returns (outcome: Outcome)
      requires Valid()
      modifies this
      ensures Valid()
      ensures match Loaded(contacts)
                case Failure(e) => outcome == Raised(e) && keys == old(keys) && data == old(data)
                case Success(s) =>
                  && outcome == Done && Contents() == s
                  && forall k :: k in data ==> fresh(data[k]) && data[k].Valid()
    {
      var built := LoadRecords(contacts);
      if built.Failure? {
        return Raised(built.error);
      }
      var newKeys, newData := built.value.0, built.value.1;
      WellFormedKeys(Snapshot(newKeys, SnapshotOf(newData)));
      Replace(newKeys, newData);
      outcome := Done;
    }

    /** The assignment to `self.data`: the book now holds exactly the given names and records. */
    method Replace(newKeys: seq<string>, newData: map<string, Record>)
      requires Distinct(newKeys) && forall k :: k in newData <==> k in newKeys
      requires forall k :: k in newData ==> newData[k].name == k
      modifies this
      ensures Valid() && keys == newKeys && data == newData
      ensures Contents() == Snapshot(newKeys, old(SnapshotOf(newData)))
    {
      ghost var entries := SnapshotOf(newData);
      keys, data := newKeys, newData;
      assert SnapshotOf(data) == entries;
    }

    /** Loading what was saved gives the same book back, when no record holds a None phone. */
    lemma SaveLoadRoundTrip()
      requires Valid()
      requires forall k :: k in data ==> data[k].Valid() && AllSet(data[k].phones)
      ensures Loaded(Payload()) == Success(Contents())
    {
      LoadPayloadRoundTrip(Contents());
    }
  }
}
