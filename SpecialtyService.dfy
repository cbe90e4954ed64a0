/** Medical specialties: created under a name no other specialty has, renamed, looked up,
    counted and deleted while no doctor belongs to them. */
module SpecialtyService {
  import opened Domain
  import opened Store

  /** The names in use (findByName finds a row exactly for these). */
  function Names(specialties: map<Id, Specialty>): set<string>
  {
    set id | id in specialties :: specialties[id].name
  }

  /** No two specialties share a name. */
  predicate UniqueNames(specialties: map<Id, Specialty>)
  {
    forall a, b :: a in specialties && b in specialties && specialties[a].name == specialties[b].name ==> a == b
  }

  /** Whether some doctor belongs to the specialty (the doctor's specialty column refers to it). */
  predicate Referenced(t: Tables, id: Id)
  {
    exists d :: d in t.doctors && t.doctors[d].specialtyId == id
  }

  // Queries

  /** getSpecialtyById. */
  function GetSpecialtyById(t: Tables, id: Id): (r: Result<Specialty>)
    ensures r.Failure? <==> id !in t.specialties
    ensures r.Failure? ==> r.error == NotFound
    ensures r.Success? ==> r.value == t.specialties[id] && r.value.name in Names(t.specialties)
  {
    if id in t.specialties then Success(t.specialties[id]) else Failure(NotFound)
  }

  /** getSpecialtiesCount. */
  function SpecialtiesCount(t: Tables): (r: nat)
    ensures r == 0 <==> t.specialties == map[]
  {
    |t.specialties|
  }

  /** Without shared names, the count is the number of names in use. */
  lemma {:induction false} CountIsNames(t: Tables)
    requires UniqueNames(t.specialties)
    ensures SpecialtiesCount(t) == |Names(t.specialties)|
    decreases |t.specialties|
  {
    var specialties := t.specialties;
    if specialties != map[] {
      var id :| id in specialties;
      var rest := specialties - {id};
      CountIsNames(t.(specialties := rest));
      NamesWithout(specialties, id);
      assert |specialties| == |rest| + 1 by {
        assert specialties.Keys == rest.Keys + {id};
      }
    }
  }

  /** Without shared names, taking one specialty out takes exactly its name out. */
  lemma NamesWithout(specialties: map<Id, Specialty>, id: Id)
    requires UniqueNames(specialties) && id in specialties
    ensures UniqueNames(specialties - {id})
    ensures Names(specialties) == Names(specialties - {id}) + {specialties[id].name}
    ensures specialties[id].name !in Names(specialties - {id})
  {
    var rest := specialties - {id};
    forall n | n in Names(specialties) ensures n in Names(rest) + {specialties[id].name} {
      var k :| k in specialties && specialties[k].name == n;
      if k != id {
        assert rest[k].name == n;
      }
    }
    forall n | n in Names(rest) ensures n in Names(specialties) && n != specialties[id].name {
      var k :| k in rest && rest[k].name == n;
      assert specialties[k].name == n;
    }
  }

  // Transitions

  /** createSpecialty: a name already in use is refused; otherwise the specialty is saved under
      the next id. */
  function CreateStep(t: Tables, name: string): (r: Step<Id>)
    ensures r.result.Failure? <==> name in Names(t.specialties)
    ensures r.result.Failure? ==> r.result.error == Rejected && r.after == t
    ensures r.result.Success? ==>
      && r.result.value == t.nextId
      && r.after.specialties == t.specialties[t.nextId := Specialty(name)]
      && r.after == t.(specialties := r.after.specialties, nextId := t.nextId + 1)
  {
    if exists id :: id in t.specialties && t.specialties[id].name == name then Step(t, Failure(Rejected))
    else Step(t.(specialties := t.specialties[t.nextId := Specialty(name)], nextId := t.nextId + 1), Success(t.nextId))
  }

  /** updateSpecialty: renames an existing specialty; the name is not checked against the others. */
  function UpdateStep(t: Tables, id: Id, name: string): (r: Step<Id>)
    ensures r.result.Failure? <==> id !in t.specialties
    ensures r.result.Failure? ==> r.result.error == NotFound && r.after == t
    ensures r.result.Success? ==>
      && r.result.value == id
      && r.after == t.(specialties := t.specialties[id := Specialty(name)])
  {
    if id in t.specialties then Step(t.(specialties := t.specialties[id := Specialty(name)]), Success(id))
    else Step(t, Failure(NotFound))
  }

  /** deleteSpecialty: an unknown id is refused; deleting a specialty a doctor belongs to breaks
      the doctor's foreign key and is rolled back; otherwise the row goes. */
  function DeleteStep(t: Tables, id: Id): (r: Step<()>)
    ensures r.result.Failure? <==> id !in t.specialties || Referenced(t, id)
    ensures r.result.Failure? ==> r.after == t
    ensures r.result == Failure(NotFound) <==> id !in t.specialties
    ensures r.result.Success? ==> r.after == t.(specialties := t.specialties - {id})
  {
    if id !in t.specialties then Step(t, Failure(NotFound))
    else if Referenced(t, id) then Step(t, Failure(ConstraintViolation))
    else Step(t.(specialties := t.specialties - {id}), Success(()))
  }

  // Properties

  lemma CreateKeepsWellformed(t: Tables, name: string)
    requires Wellformed(t)
    ensures Wellformed(CreateStep(t, name).after)
  {
  }

  /** Creating is the only way names are checked, and it keeps them unique. */
  lemma CreateKeepsNamesUnique(t: Tables, name: string)
    requires IdsBelow(t.specialties, t.nextId) && UniqueNames(t.specialties)
    ensures UniqueNames(CreateStep(t, name).after.specialties)
  {
    var r := CreateStep(t, name);
    if r.result.Success? {
      forall id | id in t.specialties ensures t.specialties[id].name != name {
        assert t.specialties[id].name in Names(t.specialties);
      }
    }
  }

  /** A created specialty is found under the id returned, under its name, and counted. */
  lemma CreateThenGet(t: Tables, name: string)
    requires IdsBelow(t.specialties, t.nextId) && name !in Names(t.specialties)
    ensures var r := CreateStep(t, name);
      && r.result == Success(t.nextId)
      && GetSpecialtyById(r.after, t.nextId) == Success(Specialty(name))
      && name in Names(r.after.specialties)
      && SpecialtiesCount(r.after) == SpecialtiesCount(t) + 1
  {
    var r := CreateStep(t, name);
    assert t.nextId !in t.specialties;
    assert Specialty(name) == r.after.specialties[t.nextId];
  }

  /** Creating the same name twice: the second call is refused. */
  lemma CreateTwiceRejected(t: Tables, name: string)
    ensures CreateStep(CreateStep(t, name).after, name).result == Failure(Rejected)
  {
    var once := CreateStep(t, name).after;
    if CreateStep(t, name).result.Success? {
      assert once.specialties[t.nextId].name == name;
    }
    assert name in Names(once.specialties);
  }

  /** Renaming does not look at the other names, so two specialties can end up sharing one. */
  lemma UpdateCanShareName()
    ensures var t := Tables(map[1 := Specialty("Cardiology"), 2 := Specialty("Neurology")],
                            map[], map[], map[], map[], map[], map[], 3);
      && UniqueNames(t.specialties)
      && UpdateStep(t, 2, "Cardiology").result == Success(2)
      && !UniqueNames(UpdateStep(t, 2, "Cardiology").after.specialties)
  {
    var t := Tables(map[1 := Specialty("Cardiology"), 2 := Specialty("Neurology")],
                    map[], map[], map[], map[], map[], map[], 3);
    assert t.specialties[1].name != t.specialties[2].name;
    var after := UpdateStep(t, 2, "Cardiology").after;
    assert after.specialties[1].name == after.specialties[2].name;
  }

  lemma UpdateKeepsWellformed(t: Tables, id: Id, name: string)
    requires Wellformed(t)
    ensures Wellformed(UpdateStep(t, id, name).after)
  {
  }

  /** A delete that goes through leaves no doctor pointing at a missing specialty. */
  lemma DeleteKeepsWellformed(t: Tables, id: Id)
    requires Wellformed(t)
    ensures Wellformed(DeleteStep(t, id).after)
  {
    var r := DeleteStep(t, id);
    if r.result.Success? {
      forall d | d in t.doctors ensures t.doctors[d].specialtyId in r.after.specialties {
        assert t.doctors[d].specialtyId != id;
      }
    }
  }

  /** A delete that goes through lowers the count by one and the id is no longer found. */
  lemma DeleteThenGet(t: Tables, id: Id)
    requires id in t.specialties && !Referenced(t, id)
    ensures var r := DeleteStep(t, id);
      && r.result == Success(())
      && GetSpecialtyById(r.after, id) == Failure(NotFound)
      && SpecialtiesCount(r.after) == SpecialtiesCount(t) - 1
  {
  }

  // The service methods

  method CreateSpecialty(db: Store, name: string) returns (r: Result<Id>)
    requires db.Valid()
    modifies db
    ensures db.Valid()
    ensures Step(db.Snapshot(), r) == CreateStep(old(db.Snapshot()), name)
  {
    if exists id :: id in db.specialties && db.specialties[id].name == name {
      return Failure(Rejected);
    }
    CreateKeepsWellformed(db.Snapshot(), name);
    r := Success(db.nextId);
    db.specialties := db.specialties[db.nextId := Specialty(name)];
    db.nextId := db.nextId + 1;
  }

  method UpdateSpecialty(db: Store, id: Id, name: string) returns (r: Result<Id>)
    requires db.Valid()
    modifies db
    ensures db.Valid()
    ensures Step(db.Snapshot(), r) == UpdateStep(old(db.Snapshot()), id, name)
  {
    if id !in db.specialties {
      return Failure(NotFound);
    }
    UpdateKeepsWellformed(db.Snapshot(), id, name);
    db.specialties := db.specialties[id := Specialty(name)];
    r := Success(id);
  }

  method DeleteSpecialty(db: Store, id: Id) returns (r: Result<()>)
    requires db.Valid()
    modifies db
    ensures db.Valid()
    ensures Step(db.Snapshot(), r) == DeleteStep(old(db.Snapshot()), id)
  {
    if id !in db.specialties {
      return Failure(NotFound);
    }
    if exists d :: d in db.doctors && db.doctors[d].specialtyId == id {
      return Failure(ConstraintViolation);
    }
    DeleteKeepsWellformed(db.Snapshot(), id);
    db.specialties := db.specialties - {id};
    r := Success(());
  }
}
