/**
  `FileVectorStore`: a vector store kept as JSON files under a storage root,
  one directory per course. The object's state is the storage root; every
  method works on it step by step, in the order the filesystem calls happen,
  and is proved to end in the state (and with the answer) that the matching
  function of `StoreSpec` describes.

  The enumeration order of `os.listdir` is the parameter `order`; the cosine
  similarity is the parameter `score`; the database is the value `db`.
*/
module VectorStore {
  import opened Common
  import opened Storage
  import opened Naming
  import opened Resolution
  import opened Ranking
  import opened StoreSpec

  /** A document's location: the course directory and the file name in it. */
  datatype DocPath = DocPath(dir: string, file: string)

  class FileVectorStore {
    var root: Root

    /** Opens the store over an existing storage root. */
    constructor(initial: Root)
      ensures root == initial
    {
      root := initial;
    }

    /** `_get_course_dir`: the first listed directory claiming the course, else `<courseId>`, made if missing. */
    method GetCourseDir(courseId: string, order: seq<string>) returns (dir: Result<string, Fault>)
      modifies this
      ensures dir == Resolve(old(root), order, courseId)
      ensures root == AfterResolve(old(root), dir)
    {
      var names := Listing(order, root.Keys);
      var i := 0;
      while i < |names|
        invariant 0 <= i <= |names|
        invariant FirstMatch(root, names, courseId) == FirstMatch(root, names[i..], courseId)
      {
        var name := names[i];
        if name in root && root[name].Directory? {
          var items := root[name].items;
          if MarkerFile in items && items[MarkerFile].File? && items[MarkerFile].content.Marker?
             && items[MarkerFile].content.id == courseId {
            return Ok(name);
          }
          if StartsWith(name, courseId + "_") || name == courseId {
            return Ok(name);
          }
        }
        assert names[i..][1..] == names[i + 1..];
        i := i + 1;
      }
      if courseId in root && root[courseId].PlainFile? {
        return Err(NotADirectory(courseId));
      }
      if courseId !in root {
        root := root[courseId := Directory(map[])];
      }
      return Ok(courseId);
    }

    /** `_get_document_path`: `<documentId>.json` inside the resolved course directory. */
    method GetDocumentPath(courseId: string, documentId: string, order: seq<string>) returns (path: Result<DocPath, Fault>)
      modifies this
      ensures root == AfterResolve(old(root), Resolve(old(root), order, courseId))
      ensures path.Err? <==> Resolve(old(root), order, courseId).Err?
      ensures path.Ok? ==> path.value.dir == Resolve(old(root), order, courseId).value && IsDir(root, path.value.dir)
      ensures path.Ok? ==> IsJson(path.value.file) && path.value.file == DocFile(documentId)
    {
      var dir := GetCourseDir(courseId, order);
      match dir
      case Err(e) => return Err(e);
      case Ok(d) => return Ok(DocPath(d, DocFile(documentId)));
    }

    /**
      `store_vectors`: fills in missing ids in the caller's records (in place, before
      anything can fail), then writes the marker if absent and the document file
      under the course's display name. Returns the ids, or the exception.
    */
    method StoreVectors(vectors: array<Record>, courseId: string, documentId: string, db: Db, isAlnum: char -> bool)
      returns (ids: Result<seq<string>, Fault>)
      modifies this, vectors
      ensures vectors[..] == FillIds(old(vectors[..]), documentId)
      ensures AllHaveIds(vectors[..])
      ensures root == Stored(old(root), vectors[..], courseId, documentId, CourseName(courseId, db, isAlnum)).root
      ensures ids == Stored(old(root), vectors[..], courseId, documentId, CourseName(courseId, db, isAlnum)).out
    {
      FillMissingIds(vectors, documentId);
      var courseName := CourseName(courseId, db, isAlnum);
      ids := WriteDocument(vectors[..], courseId, documentId, courseName);
    }

    /** The id loop of `store_vectors`: a record without an id gets `<document id>_<index>`. */
    static method FillMissingIds(vectors: array<Record>, documentId: string)
      modifies vectors
      ensures vectors[..] == FillIds(old(vectors[..]), documentId)
    {
      ghost var original := vectors[..];
      var i := 0;
      while i < vectors.Length
        invariant 0 <= i <= vectors.Length
        invariant forall k :: 0 <= k < i ==> vectors[k] == FillIds(original, documentId)[k]
        invariant forall k :: i <= k < vectors.Length ==> vectors[k] == original[k]
      {
        if vectors[i].id.None? {
          vectors[i] := vectors[i].(id := Some(documentId + "_" + NatToString(i)));
        }
        i := i + 1;
      }
      assert vectors[..] == FillIds(original, documentId);
    }

    /** The writes of `store_vectors`: the course directory, its marker if absent, and the document file. */
    method WriteDocument(records: seq<Record>, courseId: string, documentId: string, courseName: string)
      returns (ids: Result<seq<string>, Fault>)
      requires AllHaveIds(records)
      modifies this
      ensures root == Stored(old(root), records, courseId, documentId, courseName).root
      ensures ids == Stored(old(root), records, courseId, documentId, courseName).out
    {
      if courseName in root && root[courseName].PlainFile? {
        return Err(NotADirectory(courseName));
      }
      var items := ItemsOf(root, courseName);
      if MarkerFile !in items {
        items := items[MarkerFile := File(Marker(courseId, courseName))];
      }
      root := root[courseName := Directory(items)];
      var doc := DocFile(documentId);
      if doc in items && items[doc].SubDir? {
        return Err(IsADirectory(doc));
      }
      root := root[courseName := Directory(items[doc := File(Records(records))])];
      return Ok(Ids(records));
    }

    /**
      `search_similar`: scores every record of every document file of the resolved
      directory, keeps those reaching the threshold, sorts them by descending score
      and returns the first `limit`; any exception on the way yields `[]`.
    */
    method SearchSimilar(query: seq<real>, courseId: string, limit: int, threshold: real,
                         order: seq<string>, score: (seq<real>, seq<real>) -> Similarity)
      returns (results: seq<Hit>)
      modifies this
      ensures root == AfterResolve(old(root), Resolve(old(root), order, courseId))
      ensures results == SearchResults(old(root), order, courseId, query, limit, threshold, score)
    {
      var dir := GetCourseDir(courseId, order);
      if dir.Err? {
        return [];
      }
      var items := root[dir.value].items;
      assert items == ItemsOf(old(root), dir.value);
      var names := Listing(order, items.Keys);
      var found: seq<Hit> := [];
      var i := 0;
      while i < |names|
        invariant 0 <= i <= |names|
        invariant ScanFiles(items, names, query, threshold, score, []) == ScanFiles(items, names[i..], query, threshold, score, found)
      {
        var n := names[i];
        assert names[i..][1..] == names[i + 1..];
        if IsJson(n) && n != MarkerFile {
          match items[n]
          case SubDir => return [];
          case File(content) =>
            if !content.Records? {
              return [];
            }
            var rs := content.records;
            ghost var before := found;
            var j := 0;
            while j < |rs|
              invariant 0 <= j <= |rs|
              invariant ScanRecords(rs, query, threshold, score, before) == ScanRecords(rs[j..], query, threshold, score, found)
            {
              var rec := rs[j];
              assert rs[j..][1..] == rs[j + 1..];
              var s := score(query, rec.vector);
              if s.Incompatible? {
                return [];
              }
              if s.Score? && s.value >= threshold {
                if rec.id.None? || rec.payload.None? {
                  return [];
                }
                found := found + [Hit(rec.id.value, s.value, rec.payload.value)];
              }
              j := j + 1;
            }
        }
        i := i + 1;
      }
      var sorted := SortByScore(found);
      results := Truncate(sorted, limit);
    }

    /** `delete_document`: removes `<documentId>.json` from the resolved directory; true iff it did. */
    method DeleteDocument(documentId: string, courseId: string, order: seq<string>) returns (deleted: bool)
      modifies this
      ensures root == DocumentDeleted(old(root), order, courseId, documentId).root
      ensures deleted == DocumentDeleted(old(root), order, courseId, documentId).out
    {
      var dir := GetCourseDir(courseId, order);
      if dir.Err? {
        return false;
      }
      var d := dir.value;
      var f := DocFile(documentId);
      var items := root[d].items;
      if f in items {
        if items[f].SubDir? {
          return false;
        }
        root := root[d := Directory(items - {f})];
        return true;
      }
      return false;
    }

    /**
      `delete_course`: removes every listed `*.json` entry of the resolved directory,
      then the directory itself if anything was removed and it is empty.
    */
    method DeleteCourse(courseId: string, order: seq<string>) returns (ok: bool)
      modifies this
      ensures root == CourseDeleted(old(root), order, courseId).root
      ensures ok == CourseDeleted(old(root), order, courseId).out
    {
      var dir := GetCourseDir(courseId, order);
      if dir.Err? {
        return false;
      }
      ok := ClearCourseDir(dir.value, order);
    }

    /** The removal loop of `delete_course` and the `rmdir` after it, on the existing directory `d`. */
    method ClearCourseDir(d: string, order: seq<string>) returns (ok: bool)
      requires IsDir(root, d)
      modifies this
      ensures root == DirCleared(old(root), d, order).root
      ensures ok == DirCleared(old(root), d, order).out
    {
      var items := root[d].items;
      ghost var items0 := items;
      assert root == old(root)[d := Directory(items)];
      var names := Listing(order, items.Keys);
      var fileCount: nat := 0;
      var i := 0;
      while i < |names|
        invariant 0 <= i <= |names|
        invariant SweepJson(items0, names, 0) == SweepJson(items, names[i..], fileCount)
        invariant root == old(root)[d := Directory(items)]
      {
        var n := names[i];
        assert names[i..][1..] == names[i + 1..];
        if IsJson(n) {
          if n !in items || items[n].SubDir? {
            return false;
          }
          items := items - {n};
          root := root[d := Directory(items)];
          fileCount := fileCount + 1;
        }
        i := i + 1;
      }
      if fileCount > 0 && items == map[] {
        root := root - {d};
      }
      return true;
    }

    /** One iteration of `migrate_to_named_folders`, on the directory `dirName`. */
    method MigrateDirectory(dirName: string, order: seq<string>, db: Db, isAlnum: char -> bool) returns (outcome: Outcome)
      requires IsDir(root, dirName)
      modifies this
      ensures root == MigratedDir(old(root), dirName, order, db, isAlnum).root
      ensures outcome == MigratedDir(old(root), dirName, order, db, isAlnum).out
    {
      var items := root[dirName].items;
      if MarkerFile in items {
        return NotNeeded;
      }
      var id := BeforeFirst(dirName, '_');
      var target := CourseName(id, db, isAlnum);
      if target == id {
        return NotNeeded;
      }
      if target == dirName {
        root := root[dirName := Directory(items[MarkerFile := File(Marker(id, target))])];
        return NotNeeded;
      }
      outcome := MoveInto(items, Listing(order, items.Keys), id, target);
    }

    /** Creates the target directory, writes its marker and copies the listed documents into it. */
    method MoveInto(items: Dir, names: seq<string>, id: string, target: string) returns (outcome: Outcome)
      modifies this
      ensures root == MovedInto(old(root), items, names, id, target).root
      ensures outcome == MovedInto(old(root), items, names, id, target).out
    {
      if target in root && root[target].PlainFile? {
        return Failed;
      }
      var existing := ItemsOf(root, target);
      if MarkerFile in existing && existing[MarkerFile].SubDir? {
        root := root[target := Directory(existing)];
        return Failed;
      }
      var copied := CopyDocuments(items, names, target, existing[MarkerFile := File(Marker(id, target))]);
      return if copied then Migrated else Failed;
    }

    /** The copy loop of the migration: the listed `*.json` entries of `src` into directory `target`. */
    method CopyDocuments(src: Dir, names: seq<string>, target: string, dst: Dir) returns (ok: bool)
      modifies this
      ensures root == old(root)[target := Directory(CopyJson(src, names, dst).items)]
      ensures ok == CopyJson(src, names, dst).ok
    {
      var cur := dst;
      root := root[target := Directory(cur)];
      var i := 0;
      while i < |names|
        invariant 0 <= i <= |names|
        invariant CopyJson(src, names, dst) == CopyJson(src, names[i..], cur)
        invariant root == old(root)[target := Directory(cur)]
      {
        var n := names[i];
        assert names[i..][1..] == names[i + 1..];
        if IsJson(n) {
          if n !in src || src[n].SubDir? {
            return false;
          }
          if n in cur && cur[n].SubDir? {
            return false;
          }
          cur := cur[n := src[n]];
          root := root[target := Directory(cur)];
        }
        i := i + 1;
      }
      return true;
    }

    /** `migrate_to_named_folders`: migrates every listed directory and counts the outcomes. */
    method MigrateToNamedFolders(db: Db, isAlnum: char -> bool, order: seq<string>) returns (stats: MigrationStats)
      modifies this
      ensures root == Migration(old(root), order, db, isAlnum).root
      ensures stats == Migration(old(root), order, db, isAlnum).out
    {
      var names := Listing(order, root.Keys);
      stats := MigrationStats(0, 0, 0);
      var i := 0;
      while i < |names|
        invariant 0 <= i <= |names|
        invariant Migration(old(root), order, db, isAlnum) == MigrationFrom(root, names[i..], order, db, isAlnum, stats)
      {
        var n := names[i];
        assert names[i..][1..] == names[i + 1..];
        if n in root && root[n].Directory? {
          var o := MigrateDirectory(n, order, db, isAlnum);
          stats := stats.Add(o);
        }
        i := i + 1;
      }
    }

    /**
      `reinitialize`: empties every directory of its files and removes it; a directory
      that still holds a subdirectory makes `rmdir` raise and the answer `False`.
    */
    method Reinitialize(order: seq<string>) returns (ok: bool)
      modifies this
      ensures root == Wiped(old(root), order).root
      ensures ok == Wiped(old(root), order).out
    {
      var names := Listing(order, root.Keys);
      var i := 0;
      while i < |names|
        invariant 0 <= i <= |names|
        invariant Wiped(old(root), order) == WipeFrom(root, names[i..], order)
      {
        var n := names[i];
        assert names[i..][1..] == names[i + 1..];
        if n in root && root[n].Directory? {
          ghost var before := root;
          var left := EmptyDirectory(n, order);
          if left != map[] {
            return false;
          }
          root := root - {n};
          assert root == before - {n};
        }
        i := i + 1;
      }
      return true;
    }

    /** The inner loop of `reinitialize`: removes the regular files of directory `n`, returning what is left. */
    method EmptyDirectory(n: string, order: seq<string>) returns (left: Dir)
      requires IsDir(root, n)
      modifies this
      ensures left == ClearFiles(old(root)[n].items, Listing(order, old(root)[n].items.Keys))
      ensures root == old(root)[n := Directory(left)]
    {
      var items := root[n].items;
      var files := Listing(order, items.Keys);
      left := items;
      assert root == old(root)[n := Directory(left)];
      var j := 0;
      while j < |files|
        invariant 0 <= j <= |files|
        invariant ClearFiles(items, files) == ClearFiles(left, files[j..])
        invariant root == old(root)[n := Directory(left)]
      {
        var f := files[j];
        assert files[j..][1..] == files[j + 1..];
        if f in left && left[f].File? {
          left := left - {f};
          root := root[n := Directory(left)];
        }
        j := j + 1;
      }
    }
  }
}
