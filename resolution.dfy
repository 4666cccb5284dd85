/**
  Directory resolution, `FileVectorStore._get_course_dir`: which directory of
  the storage root holds a course's vectors.
*/
module Resolution {
  import opened Common
  import opened Storage

  /** The directory's `course_info.json` parses to a marker whose `id` is `courseId`. */
  predicate HasMarkerFor(items: Dir, courseId: string) {
    && MarkerFile in items
    && items[MarkerFile].File?
    && items[MarkerFile].content.Marker?
    && items[MarkerFile].content.id == courseId
  }

  /** The backward-compatible name rule: the id itself, or the id followed by `_`. */
  predicate LegacyName(name: string, courseId: string) {
    StartsWith(name, courseId + "_") || name == courseId
  }

  /** Directory `name` is taken as the course's directory when the scan reaches it. */
  predicate Claims(root: Root, name: string, courseId: string) {
    IsDir(root, name) && (HasMarkerFor(root[name].items, courseId) || LegacyName(name, courseId))
  }

  /** The first name of the listing whose directory claims the course. */
  function FirstMatch(root: Root, names: seq<string>, courseId: string): (r: Option<string>)
    ensures r.Some? ==> Claims(root, r.value, courseId)
    ensures r.Some? ==> exists i :: 0 <= i < |names| && names[i] == r.value &&
                          forall j :: 0 <= j < i ==> !Claims(root, names[j], courseId)
    ensures r.None? ==> forall n :: n in names ==> !Claims(root, n, courseId)
  {
    if names == [] then None
    else if Claims(root, names[0], courseId) then Some(names[0])
    else
      var r := FirstMatch(root, names[1..], courseId);
      assert r.Some? ==> exists i :: 0 <= i < |names| - 1 && names[1..][i] == r.value &&
                          forall j :: 0 <= j < i ==> !Claims(root, names[1..][j], courseId);
      r
  }

  /** A claiming name with no claiming name before it is the one the scan returns. */
  lemma {:induction false} FirstMatchAt(root: Root, names: seq<string>, courseId: string, i: nat)
    requires i < |names| && Claims(root, names[i], courseId)
    requires forall j :: 0 <= j < i ==> !Claims(root, names[j], courseId)
    ensures FirstMatch(root, names, courseId) == Some(names[i])
  {
    if i > 0 {
      FirstMatchAt(root, names[1..], courseId, i - 1);
    }
  }

  /**
    The directory `_get_course_dir` returns, scanning the root in listing order;
    when nothing claims the course it falls back to `storage_dir/courseId`,
    which `os.makedirs` cannot create over a plain file.
  */
  function Resolve(root: Root, order: seq<string>, courseId: string): (r: Result<string, Fault>)
    ensures r.Ok? && r.value in root ==> root[r.value].Directory?
    ensures r.Ok? && r.value !in root ==> r.value == courseId
    ensures r.Err? ==> courseId in root && root[courseId].PlainFile?
  {
    match FirstMatch(root, Listing(order, root.Keys), courseId)
    case Some(n) => Ok(n)
    case None =>
      if courseId in root && root[courseId].PlainFile? then Err(NotADirectory(courseId))
      else Ok(courseId)
  }

  /** The root after resolution: the fallback directory exists. */
  function AfterResolve(root: Root, r: Result<string, Fault>): (root': Root)
    requires r.Ok? && r.value in root ==> root[r.value].Directory?
    ensures r.Ok? ==> IsDir(root', r.value)
    ensures forall n :: n in root ==> n in root' && root'[n] == root[n]
    ensures forall n :: n in root' ==> n in root || (r.Ok? && n == r.value)
  {
    if r.Ok? && r.value !in root then root[r.value := Directory(map[])] else root
  }

  /**
    With every entry listed, resolution is sound and complete: it fails exactly
    when nothing claims the course and a plain file sits at its fallback name,
    an existing directory it returns claims the course, and it creates a
    directory only when nothing claims the course.
  */
  lemma ResolveSpec(root: Root, order: seq<string>, courseId: string)
    requires ListsAll(order, root)
    ensures var r := Resolve(root, order, courseId);
      && (r.Err? <==> (forall n :: n in root ==> !Claims(root, n, courseId)) && courseId in root && root[courseId].PlainFile?)
      && (r.Ok? && r.value in root ==> Claims(root, r.value, courseId))
      && (r.Ok? && r.value !in root ==> forall n :: n in root ==> !Claims(root, n, courseId))
  {
    var names := Listing(order, root.Keys);
    assert forall n :: n in root ==> n in names;
    if courseId in root && root[courseId].Directory? {
      assert Claims(root, courseId, courseId);
    }
  }

  /**
    Listing order decides between claimants: a directory that claims the course
    only through its marker loses to any claiming directory listed before it,
    for instance a legacy `"{courseId}_..."` directory.
  */
  lemma EarlierClaimWins(root: Root, order: seq<string>, courseId: string, i: nat, j: nat)
    requires Distinct(order)
    requires i < j < |Listing(order, root.Keys)|
    requires Claims(root, Listing(order, root.Keys)[i], courseId)
    ensures Resolve(root, order, courseId) != Ok(Listing(order, root.Keys)[j])
  {
    var names := Listing(order, root.Keys);
    var m := FirstMatch(root, names, courseId);
    assert m.Some?;
    var k :| 0 <= k < |names| && names[k] == m.value && forall l :: 0 <= l < k ==> !Claims(root, names[l], courseId);
    assert k <= i;
    assert names[k] != names[j];
  }
}
