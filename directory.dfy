/**
 * The server's state: the module-level `phonebooks` list, which the DELETE
 * and POST handlers reassign, and the two read-only handlers over it.
 */
module Directories {
  import opened Wrappers
  import opened Phonebook

  class Directory {
    var phonebooks: seq<Person>

    /** Unique numeric ids, unique names, name and number present. */
    ghost predicate Valid()
      reads this
    {
      WellFormed(phonebooks)
    }

    /** The server starts with the four seeded records. */
    constructor ()
      ensures Valid()
      ensures phonebooks == InitialPhonebook()
    {
      phonebooks := InitialPhonebook();
      InitialWellFormed();
    }

    /** GET /api/persons/:id: the one record carrying `id`, or 404 when none does. */
    function Lookup(id: string): (r: Result<Person, Error>)
      reads this
      requires Valid()
      ensures r.Failure? <==> forall i | 0 <= i < |phonebooks| :: phonebooks[i].id != id
      ensures r.Failure? ==> Status(r.error) == 404 && Message(r.error) == "Person not found"
      ensures forall i | 0 <= i < |phonebooks| && phonebooks[i].id == id :: r == Success(phonebooks[i])
    {
      var r := LookupPerson(phonebooks, id);
      assert forall i | 0 <= i < |phonebooks| && phonebooks[i].id == id :: r == Success(phonebooks[i]) by {
        forall i | 0 <= i < |phonebooks| && phonebooks[i].id == id
          ensures r == Success(phonebooks[i])
        {
          LookupUnique(phonebooks, id, i);
        }
      }
      r
    }

    /** GET /info: the number of people, which is the number of distinct ids. */
    function Info(): (n: nat)
      reads this
      requires Valid()
      ensures n == |phonebooks|
      ensures n == |IdSet(phonebooks)|
    {
      CountIsDistinctIds(phonebooks);
      |phonebooks|
    }

    /** DELETE /api/persons/:id: drop every record with that id; always 204. */
    method Delete(id: string) returns (status: nat)
      requires Valid()
      modifies this
      ensures Valid()
      ensures phonebooks == DeletePerson(old(phonebooks), id)
      ensures forall i | 0 <= i < |phonebooks| :: phonebooks[i].id != id
      ensures |phonebooks| == if exists i | 0 <= i < |old(phonebooks)| :: old(phonebooks)[i].id == id
        then |old(phonebooks)| - 1 else |old(phonebooks)|
      ensures status == NoContent
    {
      DeletePreservesWellFormed(phonebooks, id);
      DeleteCount(phonebooks, id);
      phonebooks := DeletePerson(phonebooks, id);
      assert forall i | 0 <= i < |phonebooks| :: phonebooks[i] in phonebooks;
      status := NoContent;
    }

    /** POST /api/persons: reject a missing field or a taken name, else append. */
    method Post(name: Option<string>, number: Option<string>) returns (r: Result<Person, Error>)
      requires Valid()
      modifies this
      ensures Valid()
      ensures Step(r, phonebooks) == AddPerson(old(phonebooks), name, number)
      ensures r.Failure? ==> phonebooks == old(phonebooks) && Status(r.error) == 400
      ensures r.Success? ==> phonebooks == old(phonebooks) + [r.value]
      ensures r.Success? ==> r.value.id == NextId(old(phonebooks))
    {
      AddPreservesWellFormed(phonebooks, name, number);
      if Missing(name) || Missing(number) {
        return Failure(NameOrNumberMissing);
      }
      var found := Find(phonebooks, Name, name.value);
      if found.Some? {
        return Failure(NameMustBeUnique);
      }
      var phonebook := Person(NextId(phonebooks), name.value, number.value);
      phonebooks := phonebooks + [phonebook];
      r := Success(phonebook);
    }
  }

  /**
   * A client run against the server: create a person, delete them by the id
   * the server returned, and create them again. The second record is the
   * first one exactly, id included, because ids are allocated from the
   * records that are live at the time.
   */
  method RecreateReusesId(d: Directory, name: string, number: string)
    returns (first: Result<Person, Error>, second: Result<Person, Error>)
    requires d.Valid()
    requires name != "" && number != ""
    requires forall i | 0 <= i < |d.phonebooks| :: d.phonebooks[i].name != name
    modifies d
    ensures d.Valid()
    ensures first.Success? && second.Success? && first.value == second.value
    ensures first.value.id == NextId(old(d.phonebooks))
    ensures d.phonebooks == old(d.phonebooks) + [second.value]
  {
    ghost var before := d.phonebooks;
    first := d.Post(Some(name), Some(number));
    IdReusedAfterDelete(before, Some(name), Some(number));
    var status := d.Delete(first.value.id);
    second := d.Post(Some(name), Some(number));
  }
}
