/**
 * `ClassSelection`: the static hand-over of the chosen class from the
 * teacher's class list to the scenes opened after it.  Its source file is
 * not part of this model; the three nullable strings it holds are the
 * fields the class list and the class editor read and write.
 */
module Selection {
  import opened Wrappers

  class ClassSelection {
    var currentClassId: Option<string>
    var currentClassName: Option<string>
    var currentClassCode: Option<string>

    constructor ()
      ensures currentClassId.None? && currentClassName.None? && currentClassCode.None?
    {
      currentClassId, currentClassName, currentClassCode := None, None, None;
    }
  }
}
