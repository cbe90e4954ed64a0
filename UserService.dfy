/** Patient profiles of signed-in users: a user is known by the subject (oktaId) of the identity
    provider; the first profile request records their login with the PATIENT role and creates
    the profile, later requests return it. */
module UserService {
  import opened Domain
  import opened Store

  /** The profile form; the subject is filled in from the signed-in user. */
  datatype UserRequest = UserRequest(oktaId: string, firstName: string, lastName: string, dob: Date)

  /** In a wellformed store a subject has at most one login and at most one profile. */
  lemma AtMostOneEach(t: Tables, oktaId: string)
    requires Wellformed(t)
    ensures forall a, b :: a in AuthIdsFor(t.auths, oktaId) && b in AuthIdsFor(t.auths, oktaId) ==> a == b
    ensures forall p, q :: p in PatientIdsFor(t, oktaId) && q in PatientIdsFor(t, oktaId) ==> p == q
    ensures forall p :: p in PatientIdsFor(t, oktaId) ==> t.patients[p].authId in AuthIdsFor(t.auths, oktaId)
  {
  }

  /** authRepository.findByOktaId. */
  function FindAuth(t: Tables, oktaId: string): (r: Option<Id>)
    requires Wellformed(t)
    ensures r.None? <==> AuthIdsFor(t.auths, oktaId) == {}
    ensures r.Some? ==> AuthIdsFor(t.auths, oktaId) == {r.value}
  {
    AtMostOneEach(t, oktaId);
    if AuthIdsFor(t.auths, oktaId) == {} then None
    else
      var a :| a in AuthIdsFor(t.auths, oktaId);
      Some(a)
  }

  /** patientRepository.findByAuth_OktaId. */
  function FindPatient(t: Tables, oktaId: string): (r: Option<Id>)
    requires Wellformed(t)
    ensures r.None? <==> PatientIdsFor(t, oktaId) == {}
    ensures r.Some? ==> PatientIdsFor(t, oktaId) == {r.value}
  {
    AtMostOneEach(t, oktaId);
    if PatientIdsFor(t, oktaId) == {} then None
    else
      var p :| p in PatientIdsFor(t, oktaId);
      Some(p)
  }

  /** getPatientByOktaId: the subject's login must exist, then their profile. */
  function GetPatientByOktaId(t: Tables, oktaId: string): (r: Result<Id>)
    requires Wellformed(t)
    ensures r.Failure? <==> PatientIdsFor(t, oktaId) == {}
    ensures r.Failure? ==> r.error == NotFound
    ensures r.Success? ==>
      && r.value in t.patients
      && t.patients[r.value].authId in AuthIdsFor(t.auths, oktaId)
  {
    AtMostOneEach(t, oktaId);
    match FindAuth(t, oktaId)
    case None => Failure(NotFound)
    case Some(_) =>
      match FindPatient(t, oktaId)
      case None => Failure(NotFound)
      case Some(p) => Success(p)
  }

  /** The login of the subject after the first step of createPatientProfile: the one found, or a
      new one with the PATIENT role under the next id. */
  function LoginStep(t: Tables, oktaId: string): (r: (Tables, Id))
    requires Wellformed(t)
    ensures Wellformed(r.0) && r.1 in r.0.auths && r.0.auths[r.1].oktaId == oktaId
    ensures AuthIdsFor(r.0.auths, oktaId) == {r.1}
    ensures r.0 == t.(auths := r.0.auths, nextId := r.0.nextId)
    ensures FindAuth(t, oktaId).Some? ==> r == (t, FindAuth(t, oktaId).value)
    ensures FindAuth(t, oktaId).None? ==>
      r.0.auths == t.auths[t.nextId := Auth(oktaId, PatientRole)] && r.0.nextId == t.nextId + 1 && r.1 == t.nextId
  {
    match FindAuth(t, oktaId)
    case Some(a) => (t, a)
    case None =>
      NewLoginKeepsWellformed(t, oktaId);
      (t.(auths := t.auths[t.nextId := Auth(oktaId, PatientRole)], nextId := t.nextId + 1), t.nextId)
  }

  /** A PATIENT login for a subject without one commits under the next id. */
  lemma NewLoginKeepsWellformed(t: Tables, oktaId: string)
    requires Wellformed(t) && AuthIdsFor(t.auths, oktaId) == {}
    ensures var t1 := t.(auths := t.auths[t.nextId := Auth(oktaId, PatientRole)], nextId := t.nextId + 1);
      Wellformed(t1) && AuthIdsFor(t1.auths, oktaId) == {t.nextId}
  {
    var t1 := t.(auths := t.auths[t.nextId := Auth(oktaId, PatientRole)], nextId := t.nextId + 1);
    forall b | b in t.auths ensures t.auths[b].oktaId != oktaId {
      assert b !in AuthIdsFor(t.auths, oktaId);
    }
    assert UniqueOktaIds(t1.auths);
    assert t.nextId in AuthIdsFor(t1.auths, oktaId);
  }

  /** The login step yields a non-ADMIN login exactly when the subject has no ADMIN login. */
  lemma LoginRole(t: Tables, oktaId: string)
    requires Wellformed(t)
    ensures var (t1, a) := LoginStep(t, oktaId);
      t1.auths[a].role == AdminRole <==> exists b :: b in t.auths && t.auths[b].oktaId == oktaId && t.auths[b].role == AdminRole
  {
    if FindAuth(t, oktaId).Some? {
      forall b | b in t.auths && t.auths[b].oktaId == oktaId ensures b == FindAuth(t, oktaId).value {
        assert b in AuthIdsFor(t.auths, oktaId);
      }
    } else {
      forall b | b in t.auths ensures t.auths[b].oktaId != oktaId {
        assert b !in AuthIdsFor(t.auths, oktaId);
      }
    }
  }

  /** createPatientProfile: find or create the login; an ADMIN is refused and the transaction,
      the new login included, is rolled back; then find the profile or create it from the form. */
  function CreateProfileStep(t: Tables, req: UserRequest): (r: Step<Id>)
    requires Wellformed(t)
    ensures r.result.Failure? <==>
      exists a :: a in t.auths && t.auths[a].oktaId == req.oktaId && t.auths[a].role == AdminRole
    ensures r.result.Failure? ==> r.result == Failure(Rejected) && r.after == t
    ensures r.result.Success? ==>
      && Wellformed(r.after)
      && r.after == t.(auths := r.after.auths, patients := r.after.patients, nextId := r.after.nextId)
      && PatientIdsFor(r.after, req.oktaId) == {r.result.value}
      && (AuthIdsFor(t.auths, req.oktaId) != {} ==> r.after.auths == t.auths)
      && (AuthIdsFor(t.auths, req.oktaId) == {} ==> r.after.auths == t.auths[t.nextId := Auth(req.oktaId, PatientRole)])
      && (r.result.value in t.patients ==> r.after.patients == t.patients)
      && (r.result.value !in t.patients ==>
            r.after.patients == t.patients[r.result.value := Patient(r.after.patients[r.result.value].authId,
                                                                   req.firstName, req.lastName, req.dob)])
  {
    LoginRole(t, req.oktaId);
    var (t1, a) := LoginStep(t, req.oktaId);
    if t1.auths[a].role == AdminRole then Step(t, Failure(Rejected))
    else
      match FindPatient(t1, req.oktaId)
      case Some(p) => Step(t1, Success(p))
      case None =>
        var t2 := t1.(patients := t1.patients[t1.nextId := Patient(a, req.firstName, req.lastName, req.dob)],
                      nextId := t1.nextId + 1);
        NewProfileKeepsWellformed(t1, a, req);
        Step(t2, Success(t1.nextId))
  }

  /** A profile linked to a login that has none commits, and is the only one of the subject. */
  lemma NewProfileKeepsWellformed(t: Tables, a: Id, req: UserRequest)
    requires Wellformed(t) && AuthIdsFor(t.auths, req.oktaId) == {a} && PatientIdsFor(t, req.oktaId) == {}
    ensures var after := t.(patients := t.patients[t.nextId := Patient(a, req.firstName, req.lastName, req.dob)],
                            nextId := t.nextId + 1);
      && Wellformed(after)
      && PatientIdsFor(after, req.oktaId) == {t.nextId}
  {
    var after := t.(patients := t.patients[t.nextId := Patient(a, req.firstName, req.lastName, req.dob)],
                    nextId := t.nextId + 1);
    forall p | p in t.patients ensures t.patients[p].authId != a {
      assert p !in PatientIdsFor(t, req.oktaId);
    }
    assert OnePatientPerAuth(after.patients);
    assert t.nextId in PatientIdsFor(after, req.oktaId);
  }

  // Properties

  /** The profile created or found is the one getPatientByOktaId then returns. */
  lemma CreateThenGet(t: Tables, req: UserRequest)
    requires Wellformed(t)
    ensures var r := CreateProfileStep(t, req);
      r.result.Success? ==> GetPatientByOktaId(r.after, req.oktaId) == r.result
  {
  }

  /** A second request for the same subject finds the profile the first one made and changes nothing. */
  lemma CreateProfileIdempotent(t: Tables, req: UserRequest, again: UserRequest)
    requires Wellformed(t) && again.oktaId == req.oktaId
    ensures var first := CreateProfileStep(t, req);
      CreateProfileStep(first.after, again) == first
  {
    var first := CreateProfileStep(t, req);
    if first.result.Success? {
      var (t1, a) := LoginStep(first.after, again.oktaId);
      assert t1 == first.after;
      assert FindPatient(t1, again.oktaId) == Some(first.result.value);
    }
  }

  /** A subject with a profile is answered from it: the form's names and date of birth are ignored. */
  lemma ExistingProfileReturned(t: Tables, req: UserRequest)
    requires Wellformed(t) && PatientIdsFor(t, req.oktaId) != {}
    requires forall a :: a in t.auths && t.auths[a].oktaId == req.oktaId ==> t.auths[a].role == PatientRole
    ensures CreateProfileStep(t, req) == Step(t, Success(FindPatient(t, req.oktaId).value))
  {
    var p :| p in PatientIdsFor(t, req.oktaId);
    assert t.patients[p].authId in AuthIdsFor(t.auths, req.oktaId);
  }

  /** A first request creates both the PATIENT login and a profile holding the form's values. */
  lemma FirstRequestCreatesBoth(t: Tables, req: UserRequest)
    requires Wellformed(t) && AuthIdsFor(t.auths, req.oktaId) == {}
    ensures var r := CreateProfileStep(t, req);
      && r.result == Success(t.nextId + 1)
      && r.after.auths == t.auths[t.nextId := Auth(req.oktaId, PatientRole)]
      && r.after.patients == t.patients[t.nextId + 1 := Patient(t.nextId, req.firstName, req.lastName, req.dob)]
  {
    var (t1, a) := LoginStep(t, req.oktaId);
    forall p | p in t1.patients ensures p !in PatientIdsFor(t1, req.oktaId) {
      assert t1.patients[p].authId in t.auths;
      assert t.patients[p].authId != t.nextId;
    }
    assert PatientIdsFor(t1, req.oktaId) == {};
  }

  /** A subject with a PATIENT login but no profile gets a profile holding the form's values,
      linked to that login, under the next id; the login is kept. */
  lemma LoginWithoutProfileCreatesProfile(t: Tables, req: UserRequest, a: Id)
    requires Wellformed(t) && AuthIdsFor(t.auths, req.oktaId) == {a} && t.auths[a].role == PatientRole
    requires PatientIdsFor(t, req.oktaId) == {}
    ensures var r := CreateProfileStep(t, req);
      && r.result == Success(t.nextId)
      && r.after.auths == t.auths
      && r.after.patients == t.patients[t.nextId := Patient(a, req.firstName, req.lastName, req.dob)]
      && r.after.nextId == t.nextId + 1
  {
    assert a in AuthIdsFor(t.auths, req.oktaId);
  }

  // The service methods

  /** createPatientProfile. */
  method CreatePatientProfile(db: Store, req: UserRequest) returns (r: Result<Id>)
    requires db.Valid()
    modifies db
    ensures db.Valid()
    ensures Step(db.Snapshot(), r) == CreateProfileStep(old(db.Snapshot()), req)
  {
    ghost var before := db.Snapshot();
    var login := LoginStep(db.Snapshot(), req.oktaId);
    var a := login.1;
    if login.0.auths[a].role == AdminRole {
      return Failure(Rejected);
    }
    db.auths, db.nextId := login.0.auths, login.0.nextId;
    assert db.Snapshot() == login.0;
    var found := FindPatient(db.Snapshot(), req.oktaId);
    if found.Some? {
      return Success(found.value);
    }
    NewProfileKeepsWellformed(db.Snapshot(), a, req);
    r := Success(db.nextId);
    db.patients := db.patients[db.nextId := Patient(a, req.firstName, req.lastName, req.dob)];
    db.nextId := db.nextId + 1;
  }
}
