/**
 * A class lives in two documents: the global classes/{id} and the owner's
 * index users/{uid}/classes/{id}.  Renaming and deleting issue one write to
 * each, side by side, and report failure when either write faulted.  The
 * class list and the class editor share these two routines.
 */
module ClassDocs {
  import opened Wrappers
  import opened Firestore

  /** The fields a rename merges into classes/{id}. */
  function GlobalRename(newName: string, now: int): Doc {
    map["name" := Str(newName), "updatedAt" := Stamp(now)]
  }

  /** The field a rename merges into users/{uid}/classes/{id}. */
  function IndexRename(newName: string): Doc {
    map["name" := Str(newName)]
  }

  /** The store after the two rename writes, each applied only when it went through. */
  function Renamed(docs: map<Path, Doc>, classId: string, owner: string, newName: string, now: int,
                   globalOk: bool, indexOk: bool): map<Path, Doc> {
    AfterUpdate(AfterUpdate(docs, ClassDoc(classId), GlobalRename(newName, now), globalOk),
                TeacherClassDoc(owner, classId), IndexRename(newName), indexOk)
  }

  /** The store after the two delete writes. */
  function Deleted(docs: map<Path, Doc>, classId: string, owner: string, globalOk: bool, indexOk: bool)
    : map<Path, Doc> {
    AfterDelete(AfterDelete(docs, ClassDoc(classId), globalOk), TeacherClassDoc(owner, classId), indexOk)
  }

  /** A rename touches no document but the pair, creates none, and changes only
      name and updatedAt on the global document and only name on the index. */
  lemma {:induction false} RenameTouchesOnlyThePair(
    docs: map<Path, Doc>, classId: string, owner: string, newName: string, now: int, g: bool, i: bool)
    ensures var r := Renamed(docs, classId, owner, newName, now, g, i);
      && r.Keys == docs.Keys
      && (forall q :: q in docs && q != ClassDoc(classId) && q != TeacherClassDoc(owner, classId) ==> r[q] == docs[q])
      && (g && ClassDoc(classId) in docs ==>
            r[ClassDoc(classId)] == docs[ClassDoc(classId)]["name" := Str(newName)]["updatedAt" := Stamp(now)])
      && (i && TeacherClassDoc(owner, classId) in docs ==>
            r[TeacherClassDoc(owner, classId)] == docs[TeacherClassDoc(owner, classId)]["name" := Str(newName)])
      && (!g && ClassDoc(classId) in docs ==> r[ClassDoc(classId)] == docs[ClassDoc(classId)])
      && (!i && TeacherClassDoc(owner, classId) in docs ==>
            r[TeacherClassDoc(owner, classId)] == docs[TeacherClassDoc(owner, classId)])
  {
    var gp, ip := ClassDoc(classId), TeacherClassDoc(owner, classId);
    var mid := AfterUpdate(docs, gp, GlobalRename(newName, now), g);
    if g && gp in docs {
      assert docs[gp] + GlobalRename(newName, now) == docs[gp]["name" := Str(newName)]["updatedAt" := Stamp(now)];
    }
    if i && ip in docs {
      assert mid[ip] == docs[ip];
      assert docs[ip] + IndexRename(newName) == docs[ip]["name" := Str(newName)];
    }
  }

  /** The two documents are renamed together only when both writes go through:
      a faulted global write next to a successful index write leaves them apart. */
  lemma RenameCanSplitThePair()
    ensures var docs := map[ClassDoc("c") := map["name" := Str("Math")],
                            TeacherClassDoc("t", "c") := map["name" := Str("Math")]];
            var r := Renamed(docs, "c", "t", "Physics", 0, false, true);
            && StrField(r[ClassDoc("c")], "name") == Some("Math")
            && StrField(r[TeacherClassDoc("t", "c")], "name") == Some("Physics")
  {
    var docs := map[ClassDoc("c") := map["name" := Str("Math")],
                    TeacherClassDoc("t", "c") := map["name" := Str("Math")]];
    var r := Renamed(docs, "c", "t", "Physics", 0, false, true);
    assert r[TeacherClassDoc("t", "c")] == map["name" := Str("Math")] + IndexRename("Physics");
    assert r[TeacherClassDoc("t", "c")]["name"] == Str("Physics");
  }

  /** A delete whose two writes go through removes exactly the pair. */
  lemma DeleteRemovesExactlyThePair(docs: map<Path, Doc>, classId: string, owner: string, g: bool, i: bool)
    ensures var r := Deleted(docs, classId, owner, g, i);
      && (forall q :: q in r ==> r[q] == docs[q])
      && r.Keys == docs.Keys - (if g then {ClassDoc(classId)} else {})
                             - (if i then {TeacherClassDoc(owner, classId)} else {})
  {
  }

  /** classes/{id} and users/{owner}/classes/{id}: both `UpdateAsync` calls are issued;
      `failed` reports that either faulted (a missing document faults too). */
  method RenamePair(db: Backend, classId: string, owner: string, newName: string, now: int,
                    globalOk: bool, indexOk: bool) returns (failed: bool)
    modifies db
    ensures db.log == old(db.log) + [Call.Update(ClassDoc(classId))] + [Call.Update(TeacherClassDoc(owner, classId))]
    ensures db.docs == Renamed(old(db.docs), classId, owner, newName, now, globalOk, indexOk)
    ensures failed <==> !globalOk || !indexOk || ClassDoc(classId) !in old(db.docs)
                        || TeacherClassDoc(owner, classId) !in old(db.docs)
  {
    var t1 := db.Update(ClassDoc(classId), GlobalRename(newName, now), globalOk);
    var t2 := db.Update(TeacherClassDoc(owner, classId), IndexRename(newName), indexOk);
    failed := t1 || t2;
  }

  /** Both `DeleteAsync` calls are issued; `failed` reports that either faulted. */
  method DeletePair(db: Backend, classId: string, owner: string, globalOk: bool, indexOk: bool)
    returns (failed: bool)
    modifies db
    ensures db.log == old(db.log) + [Call.Delete(ClassDoc(classId))] + [Call.Delete(TeacherClassDoc(owner, classId))]
    ensures db.docs == Deleted(old(db.docs), classId, owner, globalOk, indexOk)
    ensures failed <==> !globalOk || !indexOk
  {
    var d1 := db.Delete(ClassDoc(classId), globalOk);
    var d2 := db.Delete(TeacherClassDoc(owner, classId), indexOk);
    failed := d1 || d2;
  }
}
