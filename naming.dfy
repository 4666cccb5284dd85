/**
  Display names of course directories: `FileVectorStore._get_course_name`.

  Python's `str.isalnum` is Unicode-aware; the model leaves the character
  class open and takes it as the parameter `isAlnum`.
*/
module Naming {
  import opened Common

  /** A character the sanitiser leaves in place. */
  predicate Kept(c: char, isAlnum: char -> bool) {
    isAlnum(c) || c == '-' || c == '_'
  }

  /** Every character outside the kept class becomes `_`. */
  function Sanitize(raw: string, isAlnum: char -> bool): (r: string)
    ensures |r| == |raw|
    ensures forall i :: 0 <= i < |r| ==> Kept(r[i], isAlnum)
    ensures forall i :: 0 <= i < |raw| && Kept(raw[i], isAlnum) ==> r[i] == raw[i]
    ensures forall i :: 0 <= i < |raw| && !Kept(raw[i], isAlnum) ==> r[i] == '_'
  {
    if raw == [] then []
    else [if Kept(raw[0], isAlnum) then raw[0] else '_'] + Sanitize(raw[1..], isAlnum)
  }

  /** A name is a fixed point of the sanitiser exactly when all its characters are kept. */
  lemma SanitizeFixedPoint(raw: string, isAlnum: char -> bool)
    ensures Sanitize(raw, isAlnum) == raw <==> forall i :: 0 <= i < |raw| ==> Kept(raw[i], isAlnum)
  {
    var r := Sanitize(raw, isAlnum);
    if forall i :: 0 <= i < |raw| ==> Kept(raw[i], isAlnum) {
      assert forall i :: 0 <= i < |raw| ==> r[i] == raw[i];
    }
  }

  /** Sanitising twice is sanitising once. */
  lemma SanitizeIdempotent(raw: string, isAlnum: char -> bool)
    ensures Sanitize(Sanitize(raw, isAlnum), isAlnum) == Sanitize(raw, isAlnum)
  {
    SanitizeFixedPoint(Sanitize(raw, isAlnum), isAlnum);
  }

  /** A row of the `Course` table, as far as naming needs it. */
  datatype CourseRow = CourseRow(code: string, name: string)

  /** The database session handed to the store: absent, a working session, or one whose query raises. */
  datatype Db = NoSession | Session(courses: map<string, CourseRow>) | Failing

  predicate Known(db: Db, courseId: string) {
    db.Session? && courseId in db.courses
  }

  /** `_get_course_name`: the sanitised `"{code}_{name}"` of a known course, otherwise the id itself. */
  function CourseName(courseId: string, db: Db, isAlnum: char -> bool): (name: string)
    ensures !Known(db, courseId) ==> name == courseId
    ensures Known(db, courseId) ==>
      var row := db.courses[courseId];
      && |name| == |row.code| + 1 + |row.name|
      && name[|row.code|] == '_'
      && (forall i :: 0 <= i < |name| ==> Kept(name[i], isAlnum))
      && name == Sanitize(row.code + "_" + row.name, isAlnum)
  {
    match db
    case Session(courses) =>
      if courseId in courses then
        var row := courses[courseId];
        Sanitize(row.code + "_" + row.name, isAlnum)
      else courseId
    case NoSession => courseId
    case Failing => courseId
  }
}
