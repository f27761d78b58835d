/**
 * The student's character slots (`StudentCharacterSelect`): the number of
 * classrooms the student belongs to decides which slots are active; active
 * slots are bright and clickable, the others dim and disabled, and a click
 * opens either the class information or, before any classroom exists, the
 * join panel.  The slot list is whatever the scene provides: a slot may lack
 * an image or a button, and there is no fixed number of slots.
 */
module CharacterSelect {
  import opened Wrappers
  import opened Firestore

  /** Colours are opaque: a slot is painted either `normalColor` or `dimColor`. */
  datatype Colour = Normal | Dim

  /** Slot `i` is active: the first slot when the student has no classroom yet,
      otherwise one slot per classroom. */
  predicate IsActiveSlot(count: nat, i: nat) {
    (count == 0 && i == 0) || (count > 0 && i < count)
  }

  /** The colour rule, written as the painting loop decides it, agrees with the
      active-slot rule the listener loop uses. */
  lemma ColourRuleIsActiveRule(count: nat, i: nat)
    ensures (if count == 0 then i == 0 else i < count) <==> IsActiveSlot(count, i)
  {
  }

  /** Active slots form a prefix of the slot list, and the first slot is always active. */
  lemma ActiveSlotsArePrefix(count: nat, i: nat, j: nat)
    requires IsActiveSlot(count, i) && j <= i
    ensures IsActiveSlot(count, j)
    ensures IsActiveSlot(count, 0)
  {
  }

  /** How many of the first `n` slots are active. */
  function ActiveCount(count: nat, n: nat): nat {
    if n == 0 then 0 else ActiveCount(count, n - 1) + (if IsActiveSlot(count, n - 1) then 1 else 0)
  }

  /** Of `n` slots, exactly one is active before the first classroom, and otherwise as many
      as there are classrooms, capped by the number of slots. */
  lemma {:induction false} ActiveCountIs(count: nat, n: nat)
    ensures ActiveCount(count, n) == if count == 0 then (if n == 0 then 0 else 1)
                                     else (if count < n then count else n)
  {
    if n > 0 {
      ActiveCountIs(count, n - 1);
    }
  }

  /** The count is not bounded by the slot list: with at least as many classrooms as
      slots, every slot is active. */
  lemma EveryActiveWhenCountCovers(count: nat, n: nat)
    requires count >= n
    ensures forall i: nat :: i < n ==> IsActiveSlot(count, i)
  {
  }

  class StudentCharacterSelect {
    const db: Backend
    const currentUser: Option<string>   // auth.CurrentUser's uid when someone is signed in
    const hasImage: seq<bool>           // slot i carries an Image
    const hasButton: seq<bool>          // slot i carries a Button

    var colours: seq<Colour>
    var interactable: seq<bool>
    var listeners: seq<seq<nat>>        // the slot indices the button's listeners select
    var classroomCount: nat
    var joinShown: bool
    var infoShown: bool

    /** One colour, one interactable flag and one listener list per slot. */
    predicate Valid()
      reads this
    {
      |hasButton| == |hasImage| && |colours| == |hasImage|
      && |interactable| == |hasImage| && |listeners| == |hasImage|
    }

    constructor (db: Backend, currentUser: Option<string>, hasImage: seq<bool>, hasButton: seq<bool>,
                 colours: seq<Colour>, interactable: seq<bool>, listeners: seq<seq<nat>>,
                 joinShown: bool, infoShown: bool)
      requires |hasButton| == |hasImage| && |colours| == |hasImage|
      requires |interactable| == |hasImage| && |listeners| == |hasImage|
      ensures Valid()
      ensures this.db == db && this.currentUser == currentUser
      ensures this.hasImage == hasImage && this.hasButton == hasButton
      ensures this.colours == colours && this.interactable == interactable && this.listeners == listeners
      ensures classroomCount == 0 && this.joinShown == joinShown && this.infoShown == infoShown
    {
      this.db, this.currentUser := db, currentUser;
      this.hasImage, this.hasButton := hasImage, hasButton;
      this.colours, this.interactable, this.listeners := colours, interactable, listeners;
      classroomCount := 0;
      this.joinShown, this.infoShown := joinShown, infoShown;
    }

    /** `Start`: hides both panels, then checks the student's classrooms. */
    method Start(ok: bool)
      requires Valid()
      modifies this, db
      ensures Valid()
      ensures currentUser.None? ==> db.log == old(db.log) && classroomCount == old(classroomCount)
      ensures currentUser.Some? ==> db.log == old(db.log) + [ListClassrooms(currentUser.value)]
      ensures !joinShown && !infoShown
      ensures db.docs == old(db.docs)
      ensures currentUser.None? || !ok ==>
                && classroomCount == old(classroomCount) && colours == old(colours)
                && interactable == old(interactable) && listeners == old(listeners)
      ensures currentUser.Some? && ok ==>
                && classroomCount == |ClassroomIds(old(db.docs), currentUser.value)|
                && Painted(old(colours)) && Wired(old(interactable), old(listeners))
    {
      joinShown, infoShown := false, false;
      CheckStudentClassrooms(ok);
    }

    /** `CheckStudentClassrooms`: with a signed-in student whose classrooms load, the count is
        the size of users/{uid}/classrooms and the slots are painted and wired from it. */
    method CheckStudentClassrooms(ok: bool)
      requires Valid()
      modifies this, db
      ensures Valid()
      ensures db.docs == old(db.docs)
      ensures joinShown == old(joinShown) && infoShown == old(infoShown)
      ensures currentUser.None? ==> db.log == old(db.log)
      ensures currentUser.Some? ==> db.log == old(db.log) + [ListClassrooms(currentUser.value)]
      ensures currentUser.None? || !ok ==>
                && classroomCount == old(classroomCount) && colours == old(colours)
                && interactable == old(interactable) && listeners == old(listeners)
      ensures currentUser.Some? && ok ==>
                && classroomCount == |ClassroomIds(old(db.docs), currentUser.value)|
                && Painted(old(colours)) && Wired(old(interactable), old(listeners))
    {
      if currentUser.None? {
        return;
      }
      var count := db.CountClassrooms(currentUser.value, ok);
      if count.None? {
        return;
      }
      classroomCount := count.value;
      ApplySlotColors();
      AssignSlotListeners();
    }

    /** Every slot with an image shows whether it is active; the others keep their colour. */
    ghost predicate Painted(before: seq<Colour>)
      reads this
      requires Valid()
    {
      |before| == |colours|
      && forall i :: 0 <= i < |colours| ==>
           colours[i] == (if !hasImage[i] then before[i] else if IsActiveSlot(classroomCount, i) then Normal else Dim)
    }

    /** Every slot with a button selects itself when active, and is disabled with no listener
        when not; an active slot's interactable flag is left as it was. */
    ghost predicate Wired(beforeInteractable: seq<bool>, beforeListeners: seq<seq<nat>>)
      reads this
      requires Valid()
    {
      |beforeInteractable| == |interactable| && |beforeListeners| == |listeners|
      && forall i :: 0 <= i < |listeners| ==>
           && listeners[i] == (if !hasButton[i] then beforeListeners[i] else if IsActiveSlot(classroomCount, i) then [i] else [])
           && interactable[i] == (if hasButton[i] && !IsActiveSlot(classroomCount, i) then false else beforeInteractable[i])
    }

    /** `ApplySlotColors`: paints every slot that has an image. */
    method ApplySlotColors()
      requires Valid()
      modifies this
      ensures Valid() && Painted(old(colours))
      ensures classroomCount == old(classroomCount) && interactable == old(interactable)
      ensures listeners == old(listeners) && joinShown == old(joinShown) && infoShown == old(infoShown)
    {
      for i := 0 to |colours|
        invariant Valid() && |colours| == |old(colours)|
        invariant classroomCount == old(classroomCount) && interactable == old(interactable)
        invariant listeners == old(listeners) && joinShown == old(joinShown) && infoShown == old(infoShown)
        invariant forall k :: i <= k < |colours| ==> colours[k] == old(colours)[k]
        invariant forall k :: 0 <= k < i ==>
          colours[k] == (if !hasImage[k] then old(colours)[k] else if IsActiveSlot(classroomCount, k) then Normal else Dim)
      {
        if !hasImage[i] {
          continue;
        }
        if classroomCount == 0 {
          colours := colours[i := if i == 0 then Normal else Dim];
        } else {
          colours := colours[i := if i < classroomCount then Normal else Dim];
        }
      }
    }

    /** `AssignSlotListeners`: clears every button's listeners, then gives each active slot a
        listener selecting it and disables every inactive one. */
    method AssignSlotListeners()
      requires Valid()
      modifies this
      ensures Valid() && Wired(old(interactable), old(listeners))
      ensures classroomCount == old(classroomCount) && colours == old(colours)
      ensures joinShown == old(joinShown) && infoShown == old(infoShown)
    {
      for i := 0 to |listeners|
        invariant Valid() && |listeners| == |old(listeners)|
        invariant classroomCount == old(classroomCount) && colours == old(colours) && interactable == old(interactable)
        invariant joinShown == old(joinShown) && infoShown == old(infoShown)
        invariant forall k :: i <= k < |listeners| ==> listeners[k] == old(listeners)[k]
        invariant forall k :: 0 <= k < i ==> listeners[k] == (if hasButton[k] then [] else old(listeners)[k])
      {
        if hasButton[i] {
          listeners := listeners[i := []];
        }
      }
      for i := 0 to |listeners|
        invariant Valid() && |listeners| == |old(listeners)| && |interactable| == |old(interactable)|
        invariant classroomCount == old(classroomCount) && colours == old(colours)
        invariant joinShown == old(joinShown) && infoShown == old(infoShown)
        invariant forall k :: i <= k < |listeners| ==>
          listeners[k] == (if hasButton[k] then [] else old(listeners)[k]) && interactable[k] == old(interactable)[k]
        invariant forall k :: 0 <= k < i ==>
          && listeners[k] == (if !hasButton[k] then old(listeners)[k] else if IsActiveSlot(classroomCount, k) then [k] else [])
          && interactable[k] == (if hasButton[k] && !IsActiveSlot(classroomCount, k) then false else old(interactable)[k])
      {
        if !hasButton[i] {
          continue;
        }
        var isActiveSlot := (classroomCount == 0 && i == 0) || (classroomCount > 0 && i < classroomCount);
        if isActiveSlot {
          listeners := listeners[i := listeners[i] + [i]];
        } else {
          interactable := interactable[i := false];
        }
      }
    }

    /** `OnSlotSelected`: an active slot opens the class information once a classroom exists,
        and the join panel before the first one; any other index changes nothing. */
    method OnSlotSelected(index: nat)
      modifies this
      ensures classroomCount == old(classroomCount) && colours == old(colours)
      ensures interactable == old(interactable) && listeners == old(listeners)
      ensures IsActiveSlot(classroomCount, index) ==> joinShown == (classroomCount == 0) && infoShown == (classroomCount > 0)
      ensures !IsActiveSlot(classroomCount, index) ==> joinShown == old(joinShown) && infoShown == old(infoShown)
      ensures joinShown && !old(joinShown) ==> classroomCount == 0 && index == 0
    {
      if index < classroomCount && classroomCount > 0 {
        infoShown, joinShown := true, false;
      } else if classroomCount == 0 && index == 0 {
        joinShown, infoShown := true, false;
      }
    }

    /** A press on slot `i`: a disabled button or a slot without one does nothing; otherwise
        the button's listeners run in order. */
    method PressSlot(i: nat)
      requires Valid() && i < |hasButton|
      modifies this
      ensures Valid()
      ensures classroomCount == old(classroomCount) && colours == old(colours)
      ensures interactable == old(interactable) && listeners == old(listeners)
      ensures !hasButton[i] || !interactable[i] ==> joinShown == old(joinShown) && infoShown == old(infoShown)
      ensures joinShown && !old(joinShown) ==> classroomCount == 0
      ensures hasButton[i] && interactable[i] && listeners[i] == [i] && IsActiveSlot(classroomCount, i) ==>
                joinShown == (classroomCount == 0) && infoShown == (classroomCount > 0)
    {
      if !hasButton[i] || !interactable[i] {
        return;
      }
      var fired := listeners[i];
      for k := 0 to |fired|
        invariant Valid()
        invariant classroomCount == old(classroomCount) && colours == old(colours)
        invariant interactable == old(interactable) && listeners == old(listeners)
        invariant joinShown && !old(joinShown) ==> classroomCount == 0
        invariant 0 < k && fired == [i] && IsActiveSlot(classroomCount, i) ==>
                    joinShown == (classroomCount == 0) && infoShown == (classroomCount > 0)
      {
        OnSlotSelected(fired[k]);
      }
    }

    /** `Update`, one frame: a mouse press outside the join panel closes it.  `inside` is the
        hit test's answer, `None` when the panel has no RectTransform (then nothing closes). */
    method Update(mouseDown: bool, inside: Option<bool>)
      modifies this
      ensures joinShown == (old(joinShown) && !(mouseDown && inside == Some(false)))
      ensures infoShown == old(infoShown) && classroomCount == old(classroomCount)
      ensures colours == old(colours) && interactable == old(interactable) && listeners == old(listeners)
    {
      if joinShown && mouseDown {
        if inside == Some(false) {
          joinShown := false;
        }
      }
    }
  }
}
