/**
 * The back end the core talks to: a Firestore document store, keyed by
 * document path, and the Firebase Auth credential provider.  Every awaited
 * call is one atomic step whose success or failure is an `ok` (or outcome)
 * parameter; each call is appended to `log`, so the order in which a flow
 * talks to the back end, and the calls it never makes, can be stated.
 */
module Firestore {
  import opened Wrappers

  /** A field value: a string or a Timestamp (whole seconds since the epoch). */
  datatype Value = Str(s: string) | Stamp(seconds: int)

  type Doc = map<string, Value>

  /** The document paths the core uses. */
  datatype Path =
    | UsernameDoc(key: string)                          // usernames/{key}
    | UserDoc(uid: string)                              // users/{uid}
    | ClassDoc(classId: string)                         // classes/{id}
    | TeacherClassDoc(owner: string, classId: string)   // users/{uid}/classes/{id}
    | StudentClassroomDoc(student: string, classId: string) // users/{uid}/classrooms/{id}

  /** Firebase's `AuthError`: the codes the core tells apart, and any other member by name. */
  datatype AuthError =
    | MissingEmail | MissingPassword | WrongPassword | InvalidEmail
    | UserNotFound | WeakPassword | EmailAlreadyInUse
    | OtherAuthError(name: string)

  /** `code.ToString()`: the enum member's name. */
  function ErrorName(code: AuthError): string {
    match code
    case MissingEmail => "MissingEmail"
    case MissingPassword => "MissingPassword"
    case WrongPassword => "WrongPassword"
    case InvalidEmail => "InvalidEmail"
    case UserNotFound => "UserNotFound"
    case WeakPassword => "WeakPassword"
    case EmailAlreadyInUse => "EmailAlreadyInUse"
    case OtherAuthError(name) => name
  }

  /** The base exception of a faulted auth task. */
  datatype Exception = FirebaseException(code: AuthError) | OtherException

  /** The result of `SignInWithEmailAndPasswordAsync` / `CreateUserWithEmailAndPasswordAsync`. */
  datatype AuthOutcome = Succeeded(uid: string) | Failed(error: Exception)

  /** One call made to the back end, in the order it was made. */
  datatype Call =
    | Get(path: Path)
    | Set(path: Path)
    | Update(path: Path)
    | Delete(path: Path)
    | FindClassByCode(code: string)
    | ListTeacherClasses(owner: string)
    | ListClassrooms(student: string)
    | SignIn(email: string, password: string)
    | CreateUser(email: string, password: string)
    | UpdateDisplayName(uid: string, displayName: string)

  /** A completed document read: faulted or cancelled, absent, or present. */
  datatype Snapshot = Faulted | Missing | Found(doc: Doc)

  /** `GetValue<string>(field)`; `None` where the SDK would throw. */
  function StrField(d: Doc, field: string): (r: Option<string>)
    ensures r.Some? <==> field in d && d[field].Str?
    ensures r.Some? ==> d[field] == Str(r.value)
  {
    if field in d && d[field].Str? then Some(d[field].s) else None
  }

  function ReadAt(docs: map<Path, Doc>, p: Path, ok: bool): (r: Snapshot)
    ensures r.Faulted? <==> !ok
    ensures r.Found? <==> ok && p in docs
    ensures r.Found? ==> r.doc == docs[p]
  {
    if !ok then Faulted else if p in docs then Found(docs[p]) else Missing
  }

  /** The ids of the documents under users/{owner}/classes. */
  function TeacherClassIds(docs: map<Path, Doc>, owner: string): (ids: set<string>)
    ensures forall id :: id in ids <==> TeacherClassDoc(owner, id) in docs
  {
    set p | p in docs && p.TeacherClassDoc? && p.owner == owner :: p.classId
  }

  /** The ids of the documents under users/{student}/classrooms. */
  function ClassroomIds(docs: map<Path, Doc>, student: string): (ids: set<string>)
    ensures forall id :: id in ids <==> StudentClassroomDoc(student, id) in docs
  {
    set p | p in docs && p.StudentClassroomDoc? && p.student == student :: p.classId
  }

  /** The store after a `SetAsync` whose outcome is `ok`: the whole document is replaced. */
  function AfterSet(docs: map<Path, Doc>, p: Path, d: Doc, ok: bool): (r: map<Path, Doc>)
    ensures ok ==> p in r && r[p] == d
    ensures forall q :: q != p ==> (q in r <==> q in docs) && (q in r ==> r[q] == docs[q])
    ensures !ok ==> r == docs
  {
    if ok then docs[p := d] else docs
  }

  /** The store after an `UpdateAsync`: the fields are merged into an existing document;
      a faulted call, or one on a missing document, changes nothing. */
  function AfterUpdate(docs: map<Path, Doc>, p: Path, fields: Doc, ok: bool): (r: map<Path, Doc>)
    ensures r.Keys == docs.Keys
    ensures ok && p in docs ==> r[p] == docs[p] + fields
    ensures forall q :: q in docs && (q != p || !ok) ==> r[q] == docs[q]
  {
    if ok && p in docs then docs[p := docs[p] + fields] else docs
  }

  /** The store after a `DeleteAsync` whose outcome is `ok`. */
  function AfterDelete(docs: map<Path, Doc>, p: Path, ok: bool): (r: map<Path, Doc>)
    ensures r.Keys == if ok then docs.Keys - {p} else docs.Keys
    ensures forall q :: q in r ==> r[q] == docs[q]
  {
    if ok then docs - {p} else docs
  }

  /** Some document of the classes collection has this join code. */
  predicate CodeInUse(docs: map<Path, Doc>, code: string) {
    exists p :: p in docs && p.ClassDoc? && "code" in docs[p] && docs[p]["code"] == Str(code)
  }

  /** The document ids a listing names. */
  function ListedIds(snap: seq<(string, Doc)>): set<string>
  {
    if snap == [] then {} else ListedIds(snap[..|snap| - 1]) + {snap[|snap| - 1].0}
  }

  lemma ListedIdsAppend(snap: seq<(string, Doc)>, e: (string, Doc))
    ensures ListedIds(snap + [e]) == ListedIds(snap) + {e.0}
  {
    assert (snap + [e])[..|snap|] == snap;
  }

  /** Each entry of `snap` is a document of users/{owner}/classes with its contents. */
  ghost predicate EntriesMatch(docs: map<Path, Doc>, owner: string, snap: seq<(string, Doc)>) {
    forall k :: 0 <= k < |snap| ==>
      TeacherClassDoc(owner, snap[k].0) in docs && snap[k].1 == docs[TeacherClassDoc(owner, snap[k].0)]
  }

  lemma EntriesMatchAppend(docs: map<Path, Doc>, owner: string, snap: seq<(string, Doc)>, e: (string, Doc))
    requires EntriesMatch(docs, owner, snap)
    requires TeacherClassDoc(owner, e.0) in docs && e.1 == docs[TeacherClassDoc(owner, e.0)]
    ensures EntriesMatch(docs, owner, snap + [e])
  {
    forall k | 0 <= k < |snap| + 1
      ensures TeacherClassDoc(owner, (snap + [e])[k].0) in docs
      ensures (snap + [e])[k].1 == docs[TeacherClassDoc(owner, (snap + [e])[k].0)]
    {
      if k < |snap| { assert (snap + [e])[k] == snap[k]; }
    }
  }

  /** `snap` lists every document of users/{owner}/classes exactly once, with its contents. */
  ghost predicate IsListing(docs: map<Path, Doc>, owner: string, snap: seq<(string, Doc)>) {
    && |snap| == |TeacherClassIds(docs, owner)|
    && ListedIds(snap) == TeacherClassIds(docs, owner)
    && EntriesMatch(docs, owner, snap)
  }

  /** Moving one id from the ids still to list to the ids listed. */
  lemma MoveOne(seen: set<string>, rest: set<string>, ids: set<string>, id: string)
    requires seen !! rest && seen + rest == ids && id in rest
    ensures (seen + {id}) !! (rest - {id}) && (seen + {id}) + (rest - {id}) == ids
    ensures |seen + {id}| == |seen| + 1 && rest - {id} < rest
  {
    assert id !in seen;
  }

  /** Enumerates users/{owner}/classes in some order, as a query snapshot does. */
  method ListingOf(docs: map<Path, Doc>, owner: string) returns (snap: seq<(string, Doc)>)
    ensures IsListing(docs, owner, snap)
  {
    var ids := TeacherClassIds(docs, owner);
    var rest := ids;
    ghost var seen: set<string> := {};
    snap := [];
    while rest != {}
      invariant seen !! rest && seen + rest == ids
      invariant |snap| == |seen|
      invariant ListedIds(snap) == seen
      invariant EntriesMatch(docs, owner, snap)
      decreases rest
    {
      var id :| id in rest;
      var entry := (id, docs[TeacherClassDoc(owner, id)]);
      ListedIdsAppend(snap, entry);
      EntriesMatchAppend(docs, owner, snap, entry);
      MoveOne(seen, rest, ids, id);
      snap, rest, seen := snap + [entry], rest - {id}, seen + {id};
    }
  }

  class Backend {
    var docs: map<Path, Doc>
    var log: seq<Call>

    constructor (initial: map<Path, Doc>)
      ensures docs == initial && log == []
    {
      docs := initial;
      log := [];
    }

    /** `GetSnapshotAsync` on one document. */
    method Get(p: Path, ok: bool) returns (r: Snapshot)
      modifies this
      ensures docs == old(docs) && log == old(log) + [Call.Get(p)]
      ensures r == ReadAt(docs, p, ok)
    {
      r := ReadAt(docs, p, ok);
      log := log + [Call.Get(p)];
    }

    /** `SetAsync`: replaces the whole document when the write goes through. */
    method Set(p: Path, d: Doc, ok: bool) returns (faulted: bool)
      modifies this
      ensures log == old(log) + [Call.Set(p)]
      ensures faulted == !ok
      ensures docs == AfterSet(old(docs), p, d, ok)
    {
      if ok { docs := docs[p := d]; }
      faulted := !ok;
      log := log + [Call.Set(p)];
    }

    /** `UpdateAsync`: merges fields into an existing document; it faults on a missing one. */
    method Update(p: Path, fields: Doc, ok: bool) returns (faulted: bool)
      modifies this
      ensures log == old(log) + [Call.Update(p)]
      ensures faulted <==> !ok || p !in old(docs)
      ensures docs == AfterUpdate(old(docs), p, fields, ok)
    {
      faulted := !ok || p !in docs;
      if !faulted { docs := docs[p := docs[p] + fields]; }
      log := log + [Call.Update(p)];
    }

    /** `DeleteAsync`: deleting an absent document succeeds too. */
    method Delete(p: Path, ok: bool) returns (faulted: bool)
      modifies this
      ensures log == old(log) + [Call.Delete(p)]
      ensures faulted == !ok
      ensures docs == AfterDelete(old(docs), p, ok)
    {
      if ok { docs := docs - {p}; }
      faulted := !ok;
      log := log + [Call.Delete(p)];
    }

    /** `classes.WhereEqualTo("code", code).Limit(1)`: `Some(found)`, or `None` when faulted. */
    method FindByCode(code: string, ok: bool) returns (r: Option<bool>)
      modifies this
      ensures docs == old(docs) && log == old(log) + [FindClassByCode(code)]
      ensures r.Some? == ok
      ensures r.Some? ==> (r.value <==> CodeInUse(docs, code))
    {
      var hits := set p | p in docs && p.ClassDoc? && "code" in docs[p] && docs[p]["code"] == Str(code);
      assert CodeInUse(docs, code) ==> hits != {} by {
        if CodeInUse(docs, code) {
          var p :| p in docs && p.ClassDoc? && "code" in docs[p] && docs[p]["code"] == Str(code);
          assert p in hits;
        }
      }
      r := if ok then Some(hits != {}) else None;
      log := log + [FindClassByCode(code)];
    }

    /** `GetSnapshotAsync` on users/{owner}/classes: the documents in some order. */
    method ListClasses(owner: string, ok: bool) returns (r: Option<seq<(string, Doc)>>)
      modifies this
      ensures docs == old(docs) && log == old(log) + [ListTeacherClasses(owner)]
      ensures r.Some? == ok
      ensures r.Some? ==> IsListing(docs, owner, r.value)
    {
      log := log + [ListTeacherClasses(owner)];
      if !ok { return None; }
      var snap := ListingOf(docs, owner);
      r := Some(snap);
    }

    /** `GetSnapshotAsync` on users/{student}/classrooms: `snapshot.Count`, or `None` when faulted. */
    method CountClassrooms(student: string, ok: bool) returns (r: Option<nat>)
      modifies this
      ensures docs == old(docs) && log == old(log) + [ListClassrooms(student)]
      ensures r == if ok then Some(|ClassroomIds(docs, student)|) else None
    {
      r := if ok then Some(|ClassroomIds(docs, student)|) else None;
      log := log + [ListClassrooms(student)];
    }

    /** `SignInWithEmailAndPasswordAsync`; the provider's answer is the `outcome` parameter. */
    method SignIn(email: string, password: string, outcome: AuthOutcome) returns (r: AuthOutcome)
      modifies this
      ensures docs == old(docs) && log == old(log) + [Call.SignIn(email, password)]
      ensures r == outcome
    {
      r := outcome;
      log := log + [Call.SignIn(email, password)];
    }

    /** `CreateUserWithEmailAndPasswordAsync`; the provider's answer is the `outcome` parameter. */
    method CreateUser(email: string, password: string, outcome: AuthOutcome) returns (r: AuthOutcome)
      modifies this
      ensures docs == old(docs) && log == old(log) + [Call.CreateUser(email, password)]
      ensures r == outcome
    {
      r := outcome;
      log := log + [Call.CreateUser(email, password)];
    }

    /** `UpdateUserProfileAsync` with a display name; its result is never inspected. */
    method UpdateDisplayName(uid: string, displayName: string)
      modifies this
      ensures docs == old(docs) && log == old(log) + [Call.UpdateDisplayName(uid, displayName)]
    {
      log := log + [Call.UpdateDisplayName(uid, displayName)];
    }
  }
}
