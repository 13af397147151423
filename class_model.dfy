/** lib/models/class.model.js: the Class document, its required fields and the
  * unique class code. */
module ClassModel {
  import opened Wrappers
  import opened SchemaTypes

  /** One entry of `materials`; `uploadedAt` defaults to the time of creation. */
  datatype Material = Material(title: Option<string>, description: Option<string>,
                               fileUrl: Option<string>, uploadedAt: Millis)

  datatype Class = Class(
    id: ObjectId,
    className: string,
    section: Option<string>,
    subject: string,
    classCode: string,
    creator: ObjectId,
    description: Option<string>,
    materials: seq<Material>,
    enrollments: seq<ObjectId>)

  datatype ClassInput = ClassInput(
    className: Option<string>,
    section: Option<string>,
    subject: Option<string>,
    classCode: Option<string>,
    creator: Option<ObjectId>,
    description: Option<string>)

  function NewMaterial(title: Option<string>, description: Option<string>, fileUrl: Option<string>,
                       uploadedAt: Option<Millis>, now: Millis): (m: Material)
    ensures m.uploadedAt == (if uploadedAt.Some? then uploadedAt.value else now)
    ensures m.title == title && m.description == description && m.fileUrl == fileUrl
  {
    Material(title, description, fileUrl, uploadedAt.GetOr(now))
  }

  /** The paths whose `required` validator fails: className, subject, classCode
    * (Strings, so '' fails too) and the creator reference. */
  function MissingClassPaths(input: ClassInput): set<string> {
    FailsIf(!RequiredString(input.className), "className")
    + FailsIf(!RequiredString(input.subject), "subject")
    + FailsIf(!RequiredString(input.classCode), "classCode")
    + FailsIf(input.creator.None?, "creator")
  }

  /** `Class.create` before it reaches the unique index on classCode. Section and
    * description are optional; materials and enrollments start empty. */
  function NewClass(id: ObjectId, input: ClassInput): (r: Result<Class, DbError>)
    ensures r.Ok? <==> && RequiredString(input.className) && RequiredString(input.subject)
                       && RequiredString(input.classCode) && input.creator.Some?
    ensures r.Err? ==> r.error == ValidationError(MissingClassPaths(input))
    ensures r.Ok? ==> && r.value.id == id
                      && Some(r.value.className) == input.className
                      && Some(r.value.subject) == input.subject
                      && Some(r.value.classCode) == input.classCode
                      && Some(r.value.creator) == input.creator
                      && r.value.section == input.section
                      && r.value.description == input.description
                      && r.value.materials == [] && r.value.enrollments == []
  {
    var failed := MissingClassPaths(input);
    if failed != {} then Err(ValidationError(failed))
    else Ok(Class(id, input.className.value, input.section, input.subject.value,
                  input.classCode.value, input.creator.value, input.description, [], []))
  }

  /** An empty subject, such as the '' that createClass stores for a missing
    * subject, fails the required validator whatever the other fields are. */
  lemma EmptySubjectRejected(id: ObjectId, input: ClassInput)
    requires input.subject == Some("")
    ensures NewClass(id, input).Err?
    ensures "subject" in NewClass(id, input).error.paths
  {
  }

  /** The unique index on `classCode`. */
  predicate ClassCodesUnique(classes: seq<Class>) {
    forall i, j :: 0 <= i < j < |classes| ==> classes[i].classCode != classes[j].classCode
  }
}
