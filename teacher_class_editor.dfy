/**
 * The class editor (`TeacherClassEditor`): opened on the class chosen in the
 * teacher's list, it shows "Edit class: <name>", renames the class in both of
 * its documents, and deletes them.  The optional scene references (title
 * label, name input, edit and delete buttons) are flags fixed at
 * construction; a button's listener is a flag set by `Start`.
 */
module ClassEditor {
  import opened Wrappers
  import opened Text
  import opened Firestore
  import opened Selection
  import opened ClassDocs

  /** The title the editor shows for a class name. */
  function Title(name: string): (t: string)
    ensures |t| == 12 + |name| && t[12..] == name
  {
    "Edit class: " + name
  }

  /** Two titles agree exactly when the names do. */
  lemma TitleInjective(a: string, b: string)
    ensures Title(a) == Title(b) <==> a == b
  {
    if Title(a) == Title(b) {
      assert a == Title(a)[12..] == Title(b)[12..] == b;
    }
  }

  /** Whether both documents of the class are renamed: both writes went through
      and both documents exist (an update of a missing document faults). */
  predicate RenameSucceeds(docs: map<Path, Doc>, classId: string, owner: string, globalOk: bool, indexOk: bool) {
    globalOk && indexOk && ClassDoc(classId) in docs && TeacherClassDoc(owner, classId) in docs
  }

  class TeacherClassEditor {
    const db: Backend
    const selection: ClassSelection
    const currentUser: Option<string>   // auth.CurrentUser's uid when someone is signed in
    const hasTitle: bool
    const hasInput: bool
    const hasEditButton: bool
    const hasDeleteButton: bool

    var classId: Option<string>
    var ownerUid: Option<string>
    var titleText: string
    var nameText: string
    var editWired: bool
    var deleteWired: bool

    /** A listener is only ever wired for a selected class and a signed-in owner. The
        title is not tied to the shared selection: the class list may publish another
        class after `Start`, and the listeners keep acting on the class captured then. */
    predicate Valid()
      reads this
    {
      && (editWired || deleteWired ==> !IsNullOrEmpty(classId) && !IsNullOrEmpty(ownerUid))
      && (editWired ==> hasEditButton)
      && (deleteWired ==> hasDeleteButton)
    }

    constructor (db: Backend, selection: ClassSelection, currentUser: Option<string>,
                 hasTitle: bool, hasInput: bool, hasEditButton: bool, hasDeleteButton: bool)
      ensures this.db == db && this.selection == selection && this.currentUser == currentUser
      ensures this.hasTitle == hasTitle && this.hasInput == hasInput
      ensures this.hasEditButton == hasEditButton && this.hasDeleteButton == hasDeleteButton
      ensures classId.None? && ownerUid.None? && titleText == "" && nameText == ""
      ensures !editWired && !deleteWired
      ensures Valid()
    {
      this.db, this.selection, this.currentUser := db, selection, currentUser;
      this.hasTitle, this.hasInput := hasTitle, hasInput;
      this.hasEditButton, this.hasDeleteButton := hasEditButton, hasDeleteButton;
      classId, ownerUid, titleText, nameText := None, None, "", "";
      editWired, deleteWired := false, false;
    }

    /** `Start`: takes the selected class and the signed-in user; without either it wires
        nothing, otherwise it fills the title and the input with the current name and wires
        the buttons that exist. */
    method Start()
      requires !editWired && !deleteWired
      modifies this
      ensures Valid()
      ensures classId == selection.currentClassId && ownerUid == currentUser
      ensures var name := selection.currentClassName.GetOr("");
        if IsNullOrEmpty(classId) || IsNullOrEmpty(ownerUid) then
          titleText == old(titleText) && nameText == old(nameText) && !editWired && !deleteWired
        else
          && titleText == (if hasTitle then Title(name) else old(titleText))
          && nameText == (if hasInput then name else old(nameText))
          && editWired == hasEditButton && deleteWired == hasDeleteButton
    {
      classId := selection.currentClassId;
      ownerUid := currentUser;
      if IsNullOrEmpty(classId) || IsNullOrEmpty(ownerUid) {
        return;
      }
      var currentName := selection.currentClassName.GetOr("");
      if hasTitle {
        titleText := Title(currentName);
      }
      if hasInput {
        nameText := currentName;
      }
      if hasEditButton {
        editWired := true;
      }
      if hasDeleteButton {
        deleteWired := true;
      }
    }

    /** The user types into the name input. */
    method TypeName(text: string)
      requires hasInput
      modifies this
      ensures nameText == text
      ensures classId == old(classId) && ownerUid == old(ownerUid) && titleText == old(titleText)
      ensures editWired == old(editWired) && deleteWired == old(deleteWired)
    {
      nameText := text;
    }

    /** A press of the edit button runs its listener, when one was wired. */
    method PressEdit(now: int, globalOk: bool, indexOk: bool)
      requires Valid()
      modifies this, db, selection
      ensures Valid()
      ensures !editWired ==> db.docs == old(db.docs) && db.log == old(db.log)
                             && selection.currentClassName == old(selection.currentClassName)
      ensures classId == old(classId) && ownerUid == old(ownerUid) && nameText == old(nameText)
      ensures editWired == old(editWired) && deleteWired == old(deleteWired)
      ensures !editWired ==> titleText == old(titleText)
      ensures editWired ==>
        var newName := if hasInput then Trim(nameText) else "";
        if newName == "" then
          && db.docs == old(db.docs) && db.log == old(db.log)
          && selection.currentClassName == old(selection.currentClassName) && titleText == old(titleText)
        else
          && db.docs == Renamed(old(db.docs), classId.value, ownerUid.value, newName, now, globalOk, indexOk)
          && db.log == old(db.log) + [Call.Update(ClassDoc(classId.value))]
                                   + [Call.Update(TeacherClassDoc(ownerUid.value, classId.value))]
          && (RenameSucceeds(old(db.docs), classId.value, ownerUid.value, globalOk, indexOk) ==>
                && selection.currentClassName == Some(newName)
                && titleText == (if hasTitle then Title(newName) else old(titleText)))
          && (!RenameSucceeds(old(db.docs), classId.value, ownerUid.value, globalOk, indexOk) ==>
                selection.currentClassName == old(selection.currentClassName) && titleText == old(titleText))
      ensures selection.currentClassId == old(selection.currentClassId)
      ensures selection.currentClassCode == old(selection.currentClassCode)
    {
      if editWired {
        OnClickEdit(now, globalOk, indexOk);
      }
    }

    /** A press of the delete button runs its listener, when one was wired. */
    method PressDelete(globalOk: bool, indexOk: bool)
      requires Valid()
      modifies db
      ensures !deleteWired ==> db.docs == old(db.docs) && db.log == old(db.log)
      ensures deleteWired ==> db.docs == Deleted(old(db.docs), classId.value, ownerUid.value, globalOk, indexOk)
      ensures deleteWired ==> db.log == old(db.log) + [Call.Delete(ClassDoc(classId.value))]
                                                   + [Call.Delete(TeacherClassDoc(ownerUid.value, classId.value))]
    {
      if deleteWired {
        OnClickDelete(globalOk, indexOk);
      }
    }

    /** `OnClick_Edit`: the trimmed input (empty without an input field) renames the class;
        an empty name does nothing. */
    method OnClickEdit(now: int, globalOk: bool, indexOk: bool)
      requires Valid() && editWired
      modifies this, db, selection
      ensures Valid()
      ensures classId == old(classId) && ownerUid == old(ownerUid) && nameText == old(nameText)
      ensures editWired == old(editWired) && deleteWired == old(deleteWired)
      ensures var newName := if hasInput then Trim(nameText) else "";
        if newName == "" then
          && db.docs == old(db.docs) && db.log == old(db.log)
          && selection.currentClassName == old(selection.currentClassName) && titleText == old(titleText)
        else
          && db.docs == Renamed(old(db.docs), classId.value, ownerUid.value, newName, now, globalOk, indexOk)
          && db.log == old(db.log) + [Call.Update(ClassDoc(classId.value))]
                                   + [Call.Update(TeacherClassDoc(ownerUid.value, classId.value))]
          && (RenameSucceeds(old(db.docs), classId.value, ownerUid.value, globalOk, indexOk) ==>
                && selection.currentClassName == Some(newName)
                && titleText == (if hasTitle then Title(newName) else old(titleText)))
          && (!RenameSucceeds(old(db.docs), classId.value, ownerUid.value, globalOk, indexOk) ==>
                selection.currentClassName == old(selection.currentClassName) && titleText == old(titleText))
      ensures selection.currentClassId == old(selection.currentClassId)
      ensures selection.currentClassCode == old(selection.currentClassCode)
    {
      var newName := if hasInput then Trim(nameText) else "";
      if IsNullOrEmpty(Some(newName)) {
        return;
      }
      RenameRoutine(classId.value, ownerUid.value, newName, now, globalOk, indexOk);
    }

    /** `OnClick_Delete`: deletes the class's two documents. */
    method OnClickDelete(globalOk: bool, indexOk: bool)
      requires Valid() && deleteWired
      modifies db
      ensures db.log == old(db.log) + [Call.Delete(ClassDoc(classId.value))]
                                    + [Call.Delete(TeacherClassDoc(ownerUid.value, classId.value))]
      ensures db.docs == Deleted(old(db.docs), classId.value, ownerUid.value, globalOk, indexOk)
    {
      DeleteRoutine(classId.value, ownerUid.value, globalOk, indexOk);
    }

    /** `RenameRoutine`: updates both documents; only when neither write faulted does the
        selection take the new name and the title show it. */
    method RenameRoutine(classId: string, uid: string, newName: string, now: int, globalOk: bool, indexOk: bool)
      requires Valid()
      modifies this, db, selection
      ensures Valid()
      ensures this.classId == old(this.classId) && ownerUid == old(ownerUid) && nameText == old(nameText)
      ensures editWired == old(editWired) && deleteWired == old(deleteWired)
      ensures db.log == old(db.log) + [Call.Update(ClassDoc(classId))] + [Call.Update(TeacherClassDoc(uid, classId))]
      ensures db.docs == Renamed(old(db.docs), classId, uid, newName, now, globalOk, indexOk)
      ensures RenameSucceeds(old(db.docs), classId, uid, globalOk, indexOk) ==>
                && selection.currentClassName == Some(newName)
                && titleText == (if hasTitle then Title(newName) else old(titleText))
      ensures !RenameSucceeds(old(db.docs), classId, uid, globalOk, indexOk) ==>
                selection.currentClassName == old(selection.currentClassName) && titleText == old(titleText)
      ensures selection.currentClassId == old(selection.currentClassId)
      ensures selection.currentClassCode == old(selection.currentClassCode)
    {
      var failed := RenamePair(db, classId, uid, newName, now, globalOk, indexOk);
      if failed {
        return;
      }
      selection.currentClassName := Some(newName);
      if hasTitle {
        titleText := Title(newName);
      }
    }

    /** `DeleteRoutine`: deletes both documents; the selection is left as it was. */
    method DeleteRoutine(classId: string, uid: string, globalOk: bool, indexOk: bool)
      modifies db
      ensures db.log == old(db.log) + [Call.Delete(ClassDoc(classId))] + [Call.Delete(TeacherClassDoc(uid, classId))]
      ensures db.docs == Deleted(old(db.docs), classId, uid, globalOk, indexOk)
    {
      var failed := DeletePair(db, classId, uid, globalOk, indexOk);
    }
  }
}
