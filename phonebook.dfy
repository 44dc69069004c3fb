/**
 * The in-memory phonebook of the Express server: an ordered list of
 * `{id, name, number}` records and the pure operations over it (lookup by
 * id, id allocation, the POST validation and append, the DELETE filter).
 * The class that owns the list and updates it is in module Directories.
 */
module Phonebook {
  import opened Wrappers
  import opened DecimalIds

  /** One record as it is stored and sent as JSON. */
  datatype Person = Person(id: string, name: string, number: string)

  /** The error replies of the REST surface. */
  datatype Error = PersonNotFound | NameOrNumberMissing | NameMustBeUnique

  const NoContent: nat := 204

  /** HTTP status of an error reply. */
  function Status(e: Error): (code: nat)
    ensures code == 404 <==> e == PersonNotFound
    ensures e != PersonNotFound ==> code == 400
  {
    if e == PersonNotFound then 404 else 400
  }

  /** The `error` text of an error reply; each text belongs to exactly one error. */
  function Message(e: Error): (m: string)
    ensures m == "Person not found" <==> e == PersonNotFound
    ensures m == "name or number missing" <==> e == NameOrNumberMissing
    ensures m == "name must be unique" <==> e == NameMustBeUnique
  {
    match e
    case PersonNotFound => "Person not found"
    case NameOrNumberMissing => "name or number missing"
    case NameMustBeUnique => "name must be unique"
  }

  /** A client can tell every error apart by its status and message. */
  lemma MessagesDistinguishErrors(e: Error, f: Error)
    ensures Status(e) == Status(f) && Message(e) == Message(f) ==> e == f
  {
  }

  /** The four records the server starts with: ids "1" to "4" in order, every field filled. */
  function InitialPhonebook(): (ps: seq<Person>)
    ensures |ps| == 4
    ensures forall i | 0 <= i < |ps| :: ps[i].id == Text(i + 1) && ps[i].name != "" && ps[i].number != ""
  {
    assert Text(1) == "1" && Text(2) == "2" && Text(3) == "3" && Text(4) == "4";
    [ Person("1", "Arto Hellas", "040-123456"),
      Person("2", "Ada Lovelace", "39-44-5323523"),
      Person("3", "Dan Abramov", "12-43-234345"),
      Person("4", "Mary Poppendieck", "39-23-6423122") ]
  }

  // ---------------------------------------------------------------------
  // The directory invariant

  /** Each record has a well-formed numeric id, a name and a number. */
  predicate RecordOk(p: Person) {
    IsCanonical(p.id) && p.name != "" && p.number != ""
  }

  predicate IdsAreDigits(ps: seq<Person>) {
    forall i | 0 <= i < |ps| :: AllDigits(ps[i].id)
  }

  predicate NamesUnique(ps: seq<Person>) {
    forall i, j | 0 <= i < j < |ps| :: ps[i].name != ps[j].name
  }

  predicate IdsUnique(ps: seq<Person>) {
    forall i, j | 0 <= i < j < |ps| :: ps[i].id != ps[j].id
  }

  /** What every reachable list satisfies when requests run one at a time. */
  predicate WellFormed(ps: seq<Person>)
    ensures WellFormed(ps) ==> IdsAreDigits(ps)
  {
    assert forall i | 0 <= i < |ps| :: ps[i] in ps;
    (forall p | p in ps :: RecordOk(p)) && NamesUnique(ps) && IdsUnique(ps)
  }

  lemma InitialWellFormed()
    ensures WellFormed(InitialPhonebook())
  {
    var ps := InitialPhonebook();
    forall i | 0 <= i < |ps| ensures RecordOk(ps[i]) {
      TextInjective(i + 1, i + 1);
    }
    forall i, j | 0 <= i < j < |ps| ensures ps[i].id != ps[j].id {
      TextInjective(i + 1, j + 1);
    }
    SeededNamesUnique();
  }

  lemma SeededNamesUnique()
    ensures NamesUnique(InitialPhonebook())
  {
  }


  // ---------------------------------------------------------------------
  // Lookup: `phonebooks.find(p => p.id === id)` and the 404 branch

  /** The two fields the handlers search on. */
  datatype Field = Id | Name

  /** The field a `find` callback compares: `p.id` at the lookup, `p.name` at the POST check. */
  function KeyOf(p: Person, f: Field): string
  {
    match f
    case Id => p.id
    case Name => p.name
  }

  /** `Array.prototype.find` comparing one field: the first record whose field equals `key`. */
  function Find(ps: seq<Person>, f: Field, key: string): (r: Option<Person>)
    ensures r.None? <==> forall i | 0 <= i < |ps| :: KeyOf(ps[i], f) != key
    ensures r.Some? ==> exists i | 0 <= i < |ps| ::
      ps[i] == r.value && KeyOf(ps[i], f) == key && forall j | 0 <= j < i :: KeyOf(ps[j], f) != key
  {
    if ps == [] then None
    else if KeyOf(ps[0], f) == key then Some(ps[0])
    else
      var r := Find(ps[1..], f, key);
      assert r.Some? ==> exists i | 1 <= i < |ps| ::
        ps[i] == r.value && KeyOf(ps[i], f) == key && forall j | 0 <= j < i :: KeyOf(ps[j], f) != key by {
        if r.Some? {
          var k :| 0 <= k < |ps[1..]| && ps[1..][k] == r.value && KeyOf(ps[1..][k], f) == key
            && forall j | 0 <= j < k :: KeyOf(ps[1..][j], f) != key;
          assert ps[k + 1] == r.value;
        }
      }
      r
  }

  /** GET /api/persons/:id: the record, or 404 'Person not found'. */
  function LookupPerson(ps: seq<Person>, id: string): (r: Result<Person, Error>)
    ensures r.Failure? <==> forall i | 0 <= i < |ps| :: ps[i].id != id
    ensures r.Failure? ==> r.error == PersonNotFound
    ensures r.Success? ==> r.value in ps && r.value.id == id
  {
    match Find(ps, Id, id)
    case Some(p) => Success(p)
    case None => Failure(PersonNotFound)
  }

  /** With unique ids, a successful lookup answers the one record carrying that id. */
  lemma LookupUnique(ps: seq<Person>, id: string, k: nat)
    requires IdsUnique(ps)
    requires k < |ps| && ps[k].id == id
    ensures LookupPerson(ps, id) == Success(ps[k])
  {
    var r := Find(ps, Id, id);
    assert KeyOf(ps[k], Id) == id;
    assert r.Some?;
    var i :| 0 <= i < |ps| && ps[i] == r.value && KeyOf(ps[i], Id) == id
      && forall j | 0 <= j < i :: KeyOf(ps[j], Id) != id;
    assert ps[i].id == id;
    assert i == k;
  }

  // ---------------------------------------------------------------------
  // Id allocation: `generateId`

  /** `Math.max(...phonebooks.map(n => Number(n.id)))` on a non-empty list. */
  function MaxIdValue(ps: seq<Person>): (m: nat)
    requires |ps| > 0 && IdsAreDigits(ps)
    ensures forall i | 0 <= i < |ps| :: Value(ps[i].id) <= m
    ensures exists i | 0 <= i < |ps| :: Value(ps[i].id) == m
  {
    if |ps| == 1 then Value(ps[0].id)
    else
      var rest := MaxIdValue(ps[1..]);
      assert forall i | 1 <= i < |ps| :: ps[1..][i - 1] == ps[i];
      if Value(ps[0].id) >= rest then Value(ps[0].id) else rest
  }

  /** The maximum is attained at any position holding the largest value. */
  lemma MaxIdValueAt(ps: seq<Person>, k: nat)
    requires IdsAreDigits(ps) && k < |ps|
    requires forall i | 0 <= i < |ps| :: Value(ps[i].id) <= Value(ps[k].id)
    ensures MaxIdValue(ps) == Value(ps[k].id)
  {
  }

  /** `generateId`: one more than the largest id, "1" for an empty list. */
  function NextId(ps: seq<Person>): (id: string)
    requires IdsAreDigits(ps)
    ensures IsCanonical(id)
    ensures ps == [] ==> id == "1"
    ensures ps != [] ==> Value(id) == MaxIdValue(ps) + 1
    ensures forall i | 0 <= i < |ps| :: Value(ps[i].id) < Value(id) && ps[i].id != id
  {
    var n := (if |ps| > 0 then MaxIdValue(ps) else 0) + 1;
    TextInjective(n, n);
    ValueOfText(n);
    Text(n)
  }

  // ---------------------------------------------------------------------
  // Add: POST /api/persons

  /** `!body.name` / `!body.number`: the field is absent or the empty string. */
  predicate Missing(field: Option<string>)
  {
    field.None? || field.value == ""
  }

  /** The reply to one request and the list the server holds afterwards. */
  datatype Step = Step(reply: Result<Person, Error>, after: seq<Person>)

  /** POST /api/persons: validate, reject a taken name, else append with a fresh id. */
  function AddPerson(ps: seq<Person>, name: Option<string>, number: Option<string>): (s: Step)
    requires IdsAreDigits(ps)
    ensures Missing(name) || Missing(number) ==> s == Step(Failure(NameOrNumberMissing), ps)
    ensures !Missing(name) && !Missing(number) && (exists i | 0 <= i < |ps| :: ps[i].name == name.value)
      ==> s == Step(Failure(NameMustBeUnique), ps)
    ensures s.reply.Success? <==>
      !Missing(name) && !Missing(number) && forall i | 0 <= i < |ps| :: ps[i].name != name.value
    ensures s.reply.Success? ==>
      && s.after == ps + [s.reply.value]
      && s.reply.value.name == name.value
      && s.reply.value.number == number.value
      && s.reply.value.id == NextId(ps)
      && forall i | 0 <= i < |ps| :: ps[i].id != s.reply.value.id
  {
    if Missing(name) || Missing(number) then
      Step(Failure(NameOrNumberMissing), ps)
    else if Find(ps, Name, name.value).Some? then
      Step(Failure(NameMustBeUnique), ps)
    else
      var p := Person(NextId(ps), name.value, number.value);
      Step(Success(p), ps + [p])
  }

  /** Appending a complete record whose name and id are new keeps the list well formed. */
  lemma AppendKeepsWellFormed(ps: seq<Person>, p: Person)
    requires WellFormed(ps) && RecordOk(p)
    requires forall i | 0 <= i < |ps| :: ps[i].name != p.name && ps[i].id != p.id
    ensures WellFormed(ps + [p])
  {
    var q := ps + [p];
    assert forall i | 0 <= i < |ps| :: q[i] == ps[i];
    assert q[|ps|] == p;
  }

  /** Add keeps the ids numeric and unique, the names unique, and every field present. */
  lemma AddPreservesWellFormed(ps: seq<Person>, name: Option<string>, number: Option<string>)
    requires WellFormed(ps)
    ensures WellFormed(AddPerson(ps, name, number).after)
  {
    var s := AddPerson(ps, name, number);
    if s.reply.Success? {
      AppendKeepsWellFormed(ps, s.reply.value);
    }
  }

  /** Round trip: the record a successful add returns is what a lookup of its id answers. */
  lemma LookupAfterAdd(ps: seq<Person>, name: Option<string>, number: Option<string>)
    requires WellFormed(ps)
    requires AddPerson(ps, name, number).reply.Success?
    ensures var s := AddPerson(ps, name, number);
      LookupPerson(s.after, s.reply.value.id) == s.reply
  {
    var s := AddPerson(ps, name, number);
    AddPreservesWellFormed(ps, name, number);
    LookupUnique(s.after, s.reply.value.id, |ps|);
  }

  // ---------------------------------------------------------------------
  // Delete: `phonebooks.filter(p => p.id !== id)`

  /** DELETE /api/persons/:id: keep the records whose id differs, in order. */
  function DeletePerson(ps: seq<Person>, id: string): (r: seq<Person>)
    ensures forall q :: q in r <==> q in ps && q.id != id
    ensures |r| <= |ps|
  {
    if ps == [] then []
    else (if ps[0].id != id then [ps[0]] else []) + DeletePerson(ps[1..], id)
  }

  /** The filter works piecewise, so it keeps the order of the survivors. */
  lemma {:induction false} DeleteDistributes(a: seq<Person>, b: seq<Person>, id: string)
    ensures DeletePerson(a + b, id) == DeletePerson(a, id) + DeletePerson(b, id)
  {
    if a != [] {
      assert (a + b)[1..] == a[1..] + b;
      DeleteDistributes(a[1..], b, id);
    } else {
      assert a + b == b;
    }
  }

  /** Deleting an id nobody carries leaves the list exactly as it was. */
  lemma {:induction false} DeleteAbsent(ps: seq<Person>, id: string)
    requires forall i | 0 <= i < |ps| :: ps[i].id != id
    ensures DeletePerson(ps, id) == ps
  {
    if ps != [] {
      DeleteAbsent(ps[1..], id);
    }
  }

  /**
   * Deleting a record whose id no other record carries removes just that
   * record: the ones before it and the ones after it stay, in order.
   */
  lemma DeleteFromMiddle(front: seq<Person>, p: Person, back: seq<Person>)
    requires forall i | 0 <= i < |front| :: front[i].id != p.id
    requires forall i | 0 <= i < |back| :: back[i].id != p.id
    ensures DeletePerson(front + [p] + back, p.id) == front + back
  {
    var head := front + [p];
    DeleteDistributes(front, [p], p.id);
    DeleteAbsent(front, p.id);
    assert DeletePerson([p], p.id) == [];
    assert DeletePerson(head, p.id) == front;
    DeleteDistributes(head, back, p.id);
    DeleteAbsent(back, p.id);
  }

  /** With unique ids, delete removes one record when the id is present and none otherwise. */
  lemma {:induction false} DeleteCount(ps: seq<Person>, id: string)
    requires IdsUnique(ps)
    ensures |DeletePerson(ps, id)| ==
      if exists i | 0 <= i < |ps| :: ps[i].id == id then |ps| - 1 else |ps|
  {
    if ps != [] {
      assert IdsUnique(ps[1..]) by {
        assert forall i | 0 <= i < |ps[1..]| :: ps[1..][i] == ps[i + 1];
      }
      DeleteCount(ps[1..], id);
      if ps[0].id == id {
        assert forall i | 0 <= i < |ps[1..]| :: ps[1..][i].id != id by {
          assert forall i | 0 <= i < |ps[1..]| :: ps[1..][i] == ps[i + 1];
        }
      } else {
        assert (exists i | 0 <= i < |ps| :: ps[i].id == id)
          <==> (exists i | 0 <= i < |ps[1..]| :: ps[1..][i].id == id) by {
          assert forall i | 0 <= i < |ps[1..]| :: ps[1..][i] == ps[i + 1];
        }
      }
    }
  }

  /** Both uniqueness facts, split at the head of a non-empty list. */
  lemma UniqueAtHead(ps: seq<Person>)
    requires ps != []
    ensures NamesUnique(ps) && IdsUnique(ps) <==>
      && NamesUnique(ps[1..]) && IdsUnique(ps[1..])
      && forall q | q in ps[1..] :: q.name != ps[0].name && q.id != ps[0].id
  {
    var rest := ps[1..];
    assert forall i | 0 <= i < |rest| :: rest[i] == ps[i + 1];
  }

  /** Delete keeps the ids unique and the names unique. */
  lemma {:induction false} DeleteKeepsUnique(ps: seq<Person>, id: string)
    requires NamesUnique(ps) && IdsUnique(ps)
    ensures var r := DeletePerson(ps, id); NamesUnique(r) && IdsUnique(r)
  {
    if ps != [] {
      UniqueAtHead(ps);
      DeleteKeepsUnique(ps[1..], id);
      var r := DeletePerson(ps[1..], id);
      if ps[0].id != id {
        var q := [ps[0]] + r;
        assert q[1..] == r;
        UniqueAtHead(q);
      } else {
        assert DeletePerson(ps, id) == r;
      }
    }
  }

  /** Delete keeps the ids numeric and unique, the names unique, and every field present. */
  lemma DeletePreservesWellFormed(ps: seq<Person>, id: string)
    requires WellFormed(ps)
    ensures WellFormed(DeletePerson(ps, id))
  {
    DeleteKeepsUnique(ps, id);
  }

  /** After a delete, the id is gone. */
  lemma LookupAfterDelete(ps: seq<Person>, id: string)
    ensures LookupPerson(DeletePerson(ps, id), id) == Failure(PersonNotFound)
  {
    var r := DeletePerson(ps, id);
    assert forall i | 0 <= i < |r| :: r[i] in r;
  }

  /** A delete leaves every other id answering the same record. */
  lemma {:induction false} LookupOthersAfterDelete(ps: seq<Person>, id: string, other: string)
    requires other != id
    ensures Find(DeletePerson(ps, id), Id, other) == Find(ps, Id, other)
    ensures LookupPerson(DeletePerson(ps, id), other) == LookupPerson(ps, other)
  {
    if ps != [] {
      LookupOthersAfterDelete(ps[1..], id, other);
      var r := DeletePerson(ps[1..], id);
      if ps[0].id != id {
        assert DeletePerson(ps, id) == [ps[0]] + r;
        assert ([ps[0]] + r)[1..] == r;
      } else {
        assert DeletePerson(ps, id) == r;
      }
    }
  }

  /**
   * The allocator reuses ids: deleting the record an add just created and
   * adding again hands out the same id, because the next id is computed from
   * the records currently live.
   */
  lemma IdReusedAfterDelete(ps: seq<Person>, name: Option<string>, number: Option<string>)
    requires WellFormed(ps)
    requires AddPerson(ps, name, number).reply.Success?
    ensures var s := AddPerson(ps, name, number);
      var id := s.reply.value.id;
      DeletePerson(s.after, id) == ps && NextId(DeletePerson(s.after, id)) == id
  {
    var s := AddPerson(ps, name, number);
    var p := s.reply.value;
    DeleteDistributes(ps, [p], p.id);
    DeleteAbsent(ps, p.id);
    assert DeletePerson([p], p.id) == [];
  }

  /** With every id below `v`, the next id is at most `v`, and equals it exactly when some id is `v - 1`. */
  lemma NextIdBelow(ps: seq<Person>, v: nat)
    requires IdsAreDigits(ps) && ps != []
    requires forall i | 0 <= i < |ps| :: Value(ps[i].id) < v
    ensures Value(NextId(ps)) <= v
    ensures Value(NextId(ps)) == v <==> exists i | 0 <= i < |ps| :: Value(ps[i].id) + 1 == v
  {
    var m := MaxIdValue(ps);
    var j :| 0 <= j < |ps| && Value(ps[j].id) == m;
  }

  /**
   * Deleting the record with the largest id does not in general hand that id
   * out again. When some record survives, the next id is at most the deleted
   * one, and equal to it exactly when a survivor holds the value just below it;
   * when none survives, the next id is "1".
   */
  lemma DeleteMaxNextId(ps: seq<Person>, k: nat)
    requires WellFormed(ps) && k < |ps|
    requires forall i | 0 <= i < |ps| :: Value(ps[i].id) <= Value(ps[k].id)
    ensures var rest := DeletePerson(ps, ps[k].id);
      && WellFormed(rest)
      && (forall i | 0 <= i < |rest| :: Value(rest[i].id) < Value(ps[k].id))
      && (rest == [] ==> NextId(rest) == "1")
      && (rest != [] ==> Value(NextId(rest)) <= Value(ps[k].id))
      && (rest != [] ==> (Value(NextId(rest)) == Value(ps[k].id) <==>
            exists i | 0 <= i < |rest| :: Value(rest[i].id) + 1 == Value(ps[k].id)))
  {
    var rest := DeletePerson(ps, ps[k].id);
    DeletePreservesWellFormed(ps, ps[k].id);
    SurvivorsBelowMax(ps, k);
    if rest != [] {
      NextIdBelow(rest, Value(ps[k].id));
    }
  }

  /** Every record surviving the deletion of the largest id has a smaller id. */
  lemma SurvivorsBelowMax(ps: seq<Person>, k: nat)
    requires WellFormed(ps) && k < |ps|
    requires forall i | 0 <= i < |ps| :: Value(ps[i].id) <= Value(ps[k].id)
    ensures forall q | q in DeletePerson(ps, ps[k].id) :: AllDigits(q.id) && Value(q.id) < Value(ps[k].id)
  {
    var m := ps[k];
    forall q | q in DeletePerson(ps, m.id) ensures AllDigits(q.id) && Value(q.id) < Value(m.id) {
      var j :| 0 <= j < |ps| && ps[j] == q;
      assert m in ps;
      assert RecordOk(q) && RecordOk(m) && q.id != m.id;
      CanonicalValuesDiffer(q.id, m.id);
    }
  }

  // ---------------------------------------------------------------------
  // Count: `phonebooks.length` in /info

  function IdSet(ps: seq<Person>): set<string> {
    set i | 0 <= i < |ps| :: ps[i].id
  }

  /** With unique ids the record count is the number of distinct people. */
  lemma {:induction false} CountIsDistinctIds(ps: seq<Person>)
    requires IdsUnique(ps)
    ensures |IdSet(ps)| == |ps|
  {
    if ps != [] {
      var rest := ps[1..];
      assert forall i | 0 <= i < |rest| :: rest[i] == ps[i + 1];
      CountIsDistinctIds(rest);
      assert IdSet(ps) == {ps[0].id} + IdSet(rest) by {
        forall x | x in IdSet(ps) ensures x in {ps[0].id} + IdSet(rest) {
          var i :| 0 <= i < |ps| && ps[i].id == x;
          if i > 0 { assert rest[i - 1].id == x; }
        }
      }
      assert ps[0].id !in IdSet(rest);
    }
  }

  // ---------------------------------------------------------------------
  // Concrete runs

  /** An empty phonebook hands the first record id "1". */
  lemma FirstAddOnEmpty()
    ensures AddPerson([], Some("Ada Lovelace"), Some("39-44-5323523"))
      == Step(Success(Person("1", "Ada Lovelace", "39-44-5323523")),
              [Person("1", "Ada Lovelace", "39-44-5323523")])
  {
  }

  /** The largest id of the seeded list is 4, so the next add there receives "5". */
  lemma SeededNextId()
    ensures NextId(InitialPhonebook()) == "5"
  {
    var ps := InitialPhonebook();
    SeededValues();
    MaxIdValueAt(ps, 3);
    assert Text(5) == "5";
  }

  /** Deleting "2" from the seeded list leaves records 1, 3 and 4, in their original order. */
  lemma SeededDelete()
    ensures var ps := InitialPhonebook(); DeletePerson(ps, "2") == [ps[0], ps[2], ps[3]]
  {
    var ps := InitialPhonebook();
    var front, back := ps[..1], ps[2..];
    assert ps == front + [ps[1]] + back;
    TextInjective(1, 2);
    TextInjective(3, 2);
    TextInjective(4, 2);
    assert Text(2) == "2";
    assert front == [ps[0]] && back == [ps[2], ps[3]];
    assert ps[0].id != ps[1].id && ps[2].id != ps[1].id && ps[3].id != ps[1].id;
    DeleteFromMiddle(front, ps[1], back);
  }

  /** From the seeded list, deleting "3" and then "4", the largest id, makes the next id "3", not "4". */
  lemma SeededMaxDeleteGivesLowerId()
    ensures var rest := DeletePerson(DeletePerson(InitialPhonebook(), "3"), "4");
      rest == InitialPhonebook()[..2] && NextId(rest) == "3"
  {
    SeededDeleteThreeFour();
    SeededFirstTwoNextId();
  }

  lemma SeededDeleteThreeFour()
    ensures DeletePerson(DeletePerson(InitialPhonebook(), "3"), "4") == InitialPhonebook()[..2]
  {
    var ps := InitialPhonebook();
    SeededDeleteThree();
    SeededDeleteFourAfterThree();
    assert DeletePerson(ps, "3") == ps[..2] + [ps[3]];
  }

  lemma SeededDeleteThree()
    ensures var ps := InitialPhonebook(); DeletePerson(ps, "3") == ps[..2] + [ps[3]]
  {
    var ps := InitialPhonebook();
    var front := ps[..2];
    TextInjective(1, 3);
    TextInjective(2, 3);
    TextInjective(4, 3);
    assert Text(3) == "3";
    assert front == [ps[0], ps[1]];
    assert ps == front + [ps[2]] + [ps[3]];
    assert ps[0].id != ps[2].id && ps[1].id != ps[2].id && ps[3].id != ps[2].id;
    DeleteFromMiddle(front, ps[2], [ps[3]]);
  }

  lemma SeededDeleteFourAfterThree()
    ensures var ps := InitialPhonebook(); DeletePerson(ps[..2] + [ps[3]], "4") == ps[..2]
  {
    var ps := InitialPhonebook();
    var front := ps[..2];
    TextInjective(1, 4);
    TextInjective(2, 4);
    assert Text(4) == "4";
    assert front == [ps[0], ps[1]];
    assert ps[0].id != ps[3].id && ps[1].id != ps[3].id;
    assert front + [ps[3]] == front + [ps[3]] + [];
    DeleteFromMiddle(front, ps[3], []);
  }

  lemma SeededFirstTwoNextId()
    ensures IdsAreDigits(InitialPhonebook()[..2]) && NextId(InitialPhonebook()[..2]) == "3"
  {
    var front := InitialPhonebook()[..2];
    SeededValues();
    assert front[0] == InitialPhonebook()[0] && front[1] == InitialPhonebook()[1];
    assert Value(front[0].id) == 1 && Value(front[1].id) == 2;
    MaxIdValueAt(front, 1);
    assert MaxIdValue(front) + 1 == 3;
    assert Text(3) == "3";
  }

  /** The seeded ids are the decimal texts of 1 to 4. */
  lemma SeededValues()
    ensures IdsAreDigits(InitialPhonebook())
    ensures forall i | 0 <= i < 4 :: Value(InitialPhonebook()[i].id) == i + 1
  {
    var ps := InitialPhonebook();
    SingleDigitCanonical('1');
    SingleDigitCanonical('2');
    SingleDigitCanonical('3');
    SingleDigitCanonical('4');
    assert ps[0].id == "1" && ps[1].id == "2" && ps[2].id == "3" && ps[3].id == "4";
  }
}
