/**
  What each operation of `FileVectorStore` does to the storage root, as
  functions of the root before the call. The class in vector_store.dfy runs
  the operations step by step and is proved to agree with these functions;
  the lemmas here state what the operations promise.
*/
module StoreSpec {
  import opened Common
  import opened Storage
  import opened Naming
  import opened Resolution
  import opened Ranking

  /** The root after an operation, and what the operation returned. */
  datatype Effect<T> = Effect(root: Root, out: T)

  // ---------------------------------------------------------------- store_vectors

  /** The id `store_vectors` gives the record at index `i` that has none: `f"{document_id}_{i}"`. */
  function GeneratedId(documentId: string, i: nat): string {
    documentId + "_" + NatToString(i)
  }

  /** Generated ids of one document never collide with each other. */
  lemma GeneratedIdsDistinct(documentId: string, i: nat, j: nat)
    requires i != j
    ensures GeneratedId(documentId, i) != GeneratedId(documentId, j)
  {
    var p := documentId + "_";
    if GeneratedId(documentId, i) == GeneratedId(documentId, j) {
      assert NatToString(i) == GeneratedId(documentId, i)[|p|..];
      assert NatToString(j) == GeneratedId(documentId, j)[|p|..];
      NatToStringInjective(i, j);
    }
  }

  /** Every record ends up with an id: existing ids stay, missing ones are generated from the index. */
  function FillIds(records: seq<Record>, documentId: string): (r: seq<Record>)
    ensures |r| == |records|
    ensures forall i :: 0 <= i < |r| ==> r[i].id.Some?
    ensures forall i :: 0 <= i < |r| && records[i].id.Some? ==> r[i] == records[i]
    ensures forall i :: 0 <= i < |r| && records[i].id.None? ==>
              r[i] == records[i].(id := Some(GeneratedId(documentId, i)))
  {
    seq(|records|, i requires 0 <= i < |records| =>
      if records[i].id.Some? then records[i] else records[i].(id := Some(GeneratedId(documentId, i))))
  }

  predicate AllHaveIds(records: seq<Record>) {
    forall i :: 0 <= i < |records| ==> records[i].id.Some?
  }

  /** `[v["id"] for v in vectors]`. */
  function Ids(records: seq<Record>): (ids: seq<string>)
    requires AllHaveIds(records)
    ensures |ids| == |records|
    ensures forall i :: 0 <= i < |ids| ==> records[i].id == Some(ids[i])
  {
    if records == [] then [] else [records[0].id.value] + Ids(records[1..])
  }

  /**
    Storing a document under the directory `courseName`: the directory is made
    if missing, the marker is written only if absent, and the document file is
    replaced by exactly the records. A plain file where the directory should be,
    or a directory where the document file should be, raises.
  */
  function Stored(root: Root, records: seq<Record>, courseId: string, documentId: string, courseName: string)
    : Effect<Result<seq<string>, Fault>>
    requires AllHaveIds(records)
  {
    if courseName in root && root[courseName].PlainFile? then
      Effect(root, Err(NotADirectory(courseName)))
    else
      var items := ItemsOf(root, courseName);
      var marked := if MarkerFile in items then items else items[MarkerFile := File(Marker(courseId, courseName))];
      var doc := DocFile(documentId);
      if doc in marked && marked[doc].SubDir? then
        Effect(root[courseName := Directory(marked)], Err(IsADirectory(doc)))
      else
        Effect(root[courseName := Directory(marked[doc := File(Records(records))])], Ok(Ids(records)))
  }

  /**
    What storing does: the return is the ids; it raises exactly when a plain file
    holds the directory's place or a directory holds the document file's; on
    success the document file holds exactly the records; an existing marker entry
    is never rewritten; nothing else changes.
  */
  lemma StoredSpec(root: Root, records: seq<Record>, courseId: string, documentId: string, courseName: string)
    requires AllHaveIds(records)
    ensures var e := Stored(root, records, courseId, documentId, courseName);
      var items := ItemsOf(root, courseName);
      var doc := DocFile(documentId);
      && (e.out.Ok? ==> e.out.value == Ids(records))
      && (e.out.Err? <==> (courseName in root && root[courseName].PlainFile?) || (doc in items && items[doc].SubDir?))
      && (e.out.Ok? ==> IsDir(e.root, courseName) && doc in e.root[courseName].items &&
                        e.root[courseName].items[doc] == File(Records(records)))
      // first writer wins: an existing marker entry is never rewritten
      && (IsDir(e.root, courseName) && doc != MarkerFile ==>
            && MarkerFile in e.root[courseName].items
            && e.root[courseName].items[MarkerFile] ==
                 (if MarkerFile in items then items[MarkerFile] else File(Marker(courseId, courseName))))
      // nothing else changes
      && (forall d :: d in root && d != courseName ==> d in e.root && e.root[d] == root[d])
      && (forall d :: d in e.root ==> d in root || d == courseName)
      && (IsDir(e.root, courseName) ==>
            forall f :: f in items && f != MarkerFile && f != doc ==>
              f in e.root[courseName].items && e.root[courseName].items[f] == items[f])
      && (IsDir(e.root, courseName) ==>
            forall f :: f in e.root[courseName].items ==> f in items || f == MarkerFile || f == doc)
  {
  }

  /** When the caller supplies no ids, the ids `store_vectors` returns are pairwise distinct. */
  lemma FillIdsDistinct(records: seq<Record>, documentId: string)
    requires forall i :: 0 <= i < |records| ==> records[i].id.None?
    ensures var r := FillIds(records, documentId);
      forall i, j :: 0 <= i < j < |r| ==> r[i].id != r[j].id
  {
    var r := FillIds(records, documentId);
    forall i, j | 0 <= i < j < |r| ensures r[i].id != r[j].id {
      GeneratedIdsDistinct(documentId, i, j);
    }
  }

  /**
    Store, then resolve: once `store_vectors` succeeds, `_get_course_dir` finds the
    directory it wrote to, provided no other directory claims the course and the
    directory is recognisable (its marker was written by this call, or its name is
    the id itself or starts with `<courseId>_`).
  */
  lemma StoreThenResolve(root: Root, records: seq<Record>, courseId: string, documentId: string,
                         courseName: string, order: seq<string>)
    requires AllHaveIds(records)
    requires Stored(root, records, courseId, documentId, courseName).out.Ok?
    requires ListsAll(order, Stored(root, records, courseId, documentId, courseName).root)
    requires DocFile(documentId) != MarkerFile
    requires MarkerFile !in ItemsOf(root, courseName) || LegacyName(courseName, courseId)
    requires forall d :: d in root && d != courseName ==> !Claims(root, d, courseId)
    ensures Resolve(Stored(root, records, courseId, documentId, courseName).root, order, courseId) == Ok(courseName)
  {
    StoredSpec(root, records, courseId, documentId, courseName);
    var after := Stored(root, records, courseId, documentId, courseName).root;
    assert Claims(after, courseName, courseId);
    assert courseName in Listing(order, after.Keys);
    var m := FirstMatch(after, Listing(order, after.Keys), courseId);
    assert m.Some?;
  }

  // ---------------------------------------------------------------- search_similar

  /** Record `rec` produces hit `h` for query `q`. */
  predicate Yields(rec: Record, h: Hit, q: seq<real>, score: (seq<real>, seq<real>) -> Similarity) {
    rec.id == Some(h.id) && rec.payload == Some(h.payload) && score(q, rec.vector) == Score(h.score)
  }

  /** Hit `h` comes from a record of the document file `n` of a course directory. */
  predicate FromDocument(items: Dir, n: string, h: Hit, q: seq<real>, score: (seq<real>, seq<real>) -> Similarity) {
    && n in items && IsJson(n) && n != MarkerFile
    && items[n].File? && items[n].content.Records?
    && exists rec :: rec in items[n].content.records && Yields(rec, h, q, score)
  }

  /**
    The hits of one document file, appended to `acc` in file order. An incompatible
    vector raises; a NaN score never passes the threshold; a passing record
    without "id" or "payload" raises.
  */
  function ScanRecords(rs: seq<Record>, q: seq<real>, threshold: real,
                       score: (seq<real>, seq<real>) -> Similarity, acc: seq<Hit>): Result<seq<Hit>, Fault>
    decreases |rs|
  {
    if rs == [] then Ok(acc)
    else
      var rec, tail := rs[0], rs[1..];
      match score(q, rec.vector)
      case Incompatible => Err(ShapeMismatch)
      case NaN => ScanRecords(tail, q, threshold, score, acc)
      case Score(s) =>
        if s < threshold then ScanRecords(tail, q, threshold, score, acc)
        else if rec.id.None? then Err(MissingKey("id"))
        else if rec.payload.None? then Err(MissingKey("payload"))
        else ScanRecords(tail, q, threshold, score, acc + [Hit(rec.id.value, s, rec.payload.value)])
  }

  /**
    Scanning a file only appends to `acc`, and every appended hit passes the
    threshold and is produced by a record of the file.
  */
  lemma {:induction false} ScanRecordsSpec(rs: seq<Record>, q: seq<real>, threshold: real,
                                           score: (seq<real>, seq<real>) -> Similarity, acc: seq<Hit>)
    ensures var r := ScanRecords(rs, q, threshold, score, acc);
      && (r.Ok? ==> |acc| <= |r.value| && r.value[..|acc|] == acc)
      && (r.Ok? ==> forall i :: |acc| <= i < |r.value| ==>
            r.value[i].score >= threshold && exists rec :: rec in rs && Yields(rec, r.value[i], q, score))
    decreases |rs|
  {
    if rs != [] {
      var rec, tail := rs[0], rs[1..];
      assert forall x :: x in tail ==> x in rs;
      match score(q, rec.vector)
      case Incompatible =>
      case NaN => ScanRecordsSpec(tail, q, threshold, score, acc);
      case Score(s) =>
        if s < threshold {
          ScanRecordsSpec(tail, q, threshold, score, acc);
        } else if rec.id.Some? && rec.payload.Some? {
          var h := Hit(rec.id.value, s, rec.payload.value);
          assert Yields(rec, h, q, score);
          ScanRecordsSpec(tail, q, threshold, score, acc + [h]);
          var r := ScanRecords(tail, q, threshold, score, acc + [h]);
          if r.Ok? {
            assert r.value[|acc|] == (acc + [h])[|acc|] == h;
            assert r.value[..|acc|] == (acc + [h])[..|acc|] == acc;
          }
        }
    }
  }

  /**
    The hits of a course directory, scanning its files in listing order and
    skipping everything but `*.json` document files. A file that cannot be
    opened or parsed, or that is not a list of records, raises.
  */
  function ScanFiles(items: Dir, names: seq<string>, q: seq<real>, threshold: real,
                     score: (seq<real>, seq<real>) -> Similarity, acc: seq<Hit>): Result<seq<Hit>, Fault>
    requires forall n :: n in names ==> n in items
    decreases |names|
  {
    if names == [] then Ok(acc)
    else
      var n, rest := names[0], names[1..];
      assert forall m :: m in rest ==> m in names;
      if !IsJson(n) || n == MarkerFile then ScanFiles(items, rest, q, threshold, score, acc)
      else match items[n]
        case SubDir => Err(IsADirectory(n))
        case File(Unparseable) => Err(Malformed(n))
        case File(Marker(_, _)) => Err(Malformed(n))
        case File(Records(rs)) =>
          match ScanRecords(rs, q, threshold, score, acc)
          case Err(e) => Err(e)
          case Ok(acc') => ScanFiles(items, rest, q, threshold, score, acc')
  }

  /**
    Scanning a directory only appends to `acc`, and every appended hit passes the
    threshold and comes from a listed `*.json` document file other than the marker.
  */
  lemma {:induction false} ScanFilesSpec(items: Dir, names: seq<string>, q: seq<real>, threshold: real,
                                         score: (seq<real>, seq<real>) -> Similarity, acc: seq<Hit>)
    requires forall n :: n in names ==> n in items
    ensures var r := ScanFiles(items, names, q, threshold, score, acc);
      && (r.Ok? ==> |acc| <= |r.value| && r.value[..|acc|] == acc)
      && (r.Ok? ==> forall i :: |acc| <= i < |r.value| ==>
            r.value[i].score >= threshold && exists n :: n in names && FromDocument(items, n, r.value[i], q, score))
    decreases |names|
  {
    if names != [] {
      var n, rest := names[0], names[1..];
      assert forall m :: m in rest ==> m in names;
      if !IsJson(n) || n == MarkerFile {
        ScanFilesSpec(items, rest, q, threshold, score, acc);
      } else if items[n].File? && items[n].content.Records? {
        var rs := items[n].content.records;
        ScanRecordsSpec(rs, q, threshold, score, acc);
        var c := ScanRecords(rs, q, threshold, score, acc);
        if c.Ok? {
          ScanFilesSpec(items, rest, q, threshold, score, c.value);
          var r := ScanFiles(items, rest, q, threshold, score, c.value);
          if r.Ok? {
            assert forall i :: |acc| <= i < |c.value| ==> r.value[i] == c.value[i] && FromDocument(items, n, r.value[i], q, score);
            assert r.value[..|acc|] == c.value[..|c.value|][..|acc|];
          }
        }
      }
    }
  }

  /** Record `rec` passes the threshold: its similarity is a number, at least `threshold`. */
  predicate Passes(rec: Record, q: seq<real>, threshold: real, score: (seq<real>, seq<real>) -> Similarity) {
    score(q, rec.vector).Score? && score(q, rec.vector).value >= threshold
  }

  /**
    The hits of the records that pass the threshold and carry both keys, in
    record order: what a scan of `rs` finds, stated without its exceptions and
    its accumulator.
  */
  function Passing(rs: seq<Record>, q: seq<real>, threshold: real,
                   score: (seq<real>, seq<real>) -> Similarity): seq<Hit>
  {
    if rs == [] then []
    else
      var rec := rs[0];
      (if Passes(rec, q, threshold, score) && rec.id.Some? && rec.payload.Some?
       then [Hit(rec.id.value, score(q, rec.vector).value, rec.payload.value)] else [])
      + Passing(rs[1..], q, threshold, score)
  }

  /**
    Every hit of `Passing` passes the threshold and is produced by a record, and
    every passing record with both keys produces its hit there.
  */
  lemma {:induction false} PassingSpec(rs: seq<Record>, q: seq<real>, threshold: real,
                                       score: (seq<real>, seq<real>) -> Similarity)
    ensures forall h :: h in Passing(rs, q, threshold, score) ==>
              h.score >= threshold && exists rec :: rec in rs && Yields(rec, h, q, score)
    ensures forall i :: 0 <= i < |rs| && Passes(rs[i], q, threshold, score) && rs[i].id.Some? && rs[i].payload.Some? ==>
              Hit(rs[i].id.value, score(q, rs[i].vector).value, rs[i].payload.value) in Passing(rs, q, threshold, score)
  {
    if rs != [] {
      var rec, tail := rs[0], rs[1..];
      var head := if Passes(rec, q, threshold, score) && rec.id.Some? && rec.payload.Some?
                  then [Hit(rec.id.value, score(q, rec.vector).value, rec.payload.value)] else [];
      PassingSpec(tail, q, threshold, score);
      assert Passing(rs, q, threshold, score) == head + Passing(tail, q, threshold, score);
      assert forall x :: x in tail ==> x in rs;
      if head != [] {
        assert Yields(rec, head[0], q, score);
      }
      forall i | 1 <= i < |rs| ensures rs[i] == tail[i - 1] { }
    }
  }

  /** A scan of `rs` raises nowhere: no vector is incompatible and every passing record has "id" and "payload". */
  predicate Scannable(rs: seq<Record>, q: seq<real>, threshold: real, score: (seq<real>, seq<real>) -> Similarity) {
    forall i :: 0 <= i < |rs| ==>
      && !score(q, rs[i].vector).Incompatible?
      && (Passes(rs[i], q, threshold, score) ==> rs[i].id.Some? && rs[i].payload.Some?)
  }

  lemma ScannableCons(rs: seq<Record>, q: seq<real>, threshold: real, score: (seq<real>, seq<real>) -> Similarity)
    requires rs != []
    ensures Scannable(rs, q, threshold, score) <==>
      && !score(q, rs[0].vector).Incompatible?
      && (Passes(rs[0], q, threshold, score) ==> rs[0].id.Some? && rs[0].payload.Some?)
      && Scannable(rs[1..], q, threshold, score)
  {
    forall i | 1 <= i < |rs| ensures rs[i] == rs[1..][i - 1] { }
  }

  /**
    The scan of a document file raises exactly when the file is not scannable,
    and otherwise appends exactly the passing hits, in record order.
  */
  lemma {:induction false} ScanRecordsPassing(rs: seq<Record>, q: seq<real>, threshold: real,
                                              score: (seq<real>, seq<real>) -> Similarity, acc: seq<Hit>)
    ensures var r := ScanRecords(rs, q, threshold, score, acc);
      && (r.Ok? <==> Scannable(rs, q, threshold, score))
      && (r.Ok? ==> r.value == acc + Passing(rs, q, threshold, score))
    decreases |rs|
  {
    if rs == [] {
      assert acc + [] == acc;
    } else {
      var rec, tail := rs[0], rs[1..];
      var head := if Passes(rec, q, threshold, score) && rec.id.Some? && rec.payload.Some?
                  then [Hit(rec.id.value, score(q, rec.vector).value, rec.payload.value)] else [];
      ScannableCons(rs, q, threshold, score);
      ScanRecordsPassing(tail, q, threshold, score, acc + head);
      assert Passing(rs, q, threshold, score) == head + Passing(tail, q, threshold, score);
      AppendAssoc(acc, head, Passing(tail, q, threshold, score));
      if head == [] {
        assert acc + head == acc;
      }
    }
  }

  /**
    The hits of the listed document files, file after file: every `*.json` entry
    other than the marker that holds a list of records contributes its passing hits.
  */
  function FilesPassing(items: Dir, names: seq<string>, q: seq<real>, threshold: real,
                        score: (seq<real>, seq<real>) -> Similarity): seq<Hit>
    requires forall n :: n in names ==> n in items
  {
    if names == [] then []
    else
      var n := names[0];
      assert forall m :: m in names[1..] ==> m in names;
      (if IsJson(n) && n != MarkerFile && items[n].File? && items[n].content.Records?
       then Passing(items[n].content.records, q, threshold, score) else [])
      + FilesPassing(items, names[1..], q, threshold, score)
  }

  /** A scan of the listed files raises nowhere: every listed document file is a list of records that scans cleanly. */
  predicate FilesScannable(items: Dir, names: seq<string>, q: seq<real>, threshold: real,
                           score: (seq<real>, seq<real>) -> Similarity)
  {
    forall n :: n in names && IsJson(n) && n != MarkerFile ==>
      n in items && items[n].File? && items[n].content.Records? &&
      Scannable(items[n].content.records, q, threshold, score)
  }

  /**
    The scan of a directory raises exactly when a listed document file is not a
    scannable list of records, and otherwise appends exactly the passing hits of
    the listed document files, in listing order.
  */
  lemma {:induction false} ScanFilesPassing(items: Dir, names: seq<string>, q: seq<real>, threshold: real,
                                            score: (seq<real>, seq<real>) -> Similarity, acc: seq<Hit>)
    requires forall n :: n in names ==> n in items
    ensures var r := ScanFiles(items, names, q, threshold, score, acc);
      && (r.Ok? <==> FilesScannable(items, names, q, threshold, score))
      && (r.Ok? ==> r.value == acc + FilesPassing(items, names, q, threshold, score))
    decreases |names|
  {
    if names == [] {
      assert acc + [] == acc;
    } else {
      var n, rest := names[0], names[1..];
      assert forall m :: m in rest ==> m in names;
      assert forall m :: m in names ==> m == n || m in rest;
      var doc := IsJson(n) && n != MarkerFile;
      if !doc {
        ScanFilesPassing(items, rest, q, threshold, score, acc);
        assert FilesPassing(items, names, q, threshold, score) == [] + FilesPassing(items, rest, q, threshold, score);
      } else if items[n].File? && items[n].content.Records? {
        var rs := items[n].content.records;
        ScanRecordsPassing(rs, q, threshold, score, acc);
        if Scannable(rs, q, threshold, score) {
          ScanFilesPassing(items, rest, q, threshold, score, acc + Passing(rs, q, threshold, score));
          AppendAssoc(acc, Passing(rs, q, threshold, score), FilesPassing(items, rest, q, threshold, score));
        }
      }
    }
  }

  /** Every passing hit of every listed document file is among the directory's hits. */
  lemma {:induction false} FilesPassingComplete(items: Dir, names: seq<string>, q: seq<real>, threshold: real,
                                                score: (seq<real>, seq<real>) -> Similarity, n: string, h: Hit)
    requires forall m :: m in names ==> m in items
    requires n in names && IsJson(n) && n != MarkerFile && items[n].File? && items[n].content.Records?
    requires h in Passing(items[n].content.records, q, threshold, score)
    ensures h in FilesPassing(items, names, q, threshold, score)
    decreases |names|
  {
    assert forall m :: m in names[1..] ==> m in names;
    if names[0] != n {
      FilesPassingComplete(items, names[1..], q, threshold, score, n, h);
    }
  }

  /** Resolution followed by the scan of the resolved directory. */
  function Scan(root: Root, order: seq<string>, courseId: string, q: seq<real>, threshold: real,
                score: (seq<real>, seq<real>) -> Similarity): Result<seq<Hit>, Fault>
  {
    match Resolve(root, order, courseId)
    case Err(e) => Err(e)
    case Ok(d) =>
      var items := ItemsOf(root, d);
      ScanFiles(items, Listing(order, items.Keys), q, threshold, score, [])
  }

  /** `search_similar`: any exception yields `[]`; otherwise the ranked, truncated hits. */
  function SearchResults(root: Root, order: seq<string>, courseId: string, q: seq<real>, limit: int,
                         threshold: real, score: (seq<real>, seq<real>) -> Similarity): seq<Hit>
  {
    match Scan(root, order, courseId, q, threshold, score)
    case Err(_) => []
    case Ok(hits) => Truncate(SortDesc(hits), limit)
  }

  /**
    Every result passes the threshold and comes from a `*.json` document file other
    than the marker in the resolved directory; results are in non-increasing score
    order; for a non-negative limit there are `min(limit, len(hits))` of them, and
    no hit left out scores more than one returned; hits with equal scores keep
    scan order; a scan that raises yields no results at all. Which hits the scan
    finds is `ScanSpec`'s.
  */
  lemma SearchContract(root: Root, order: seq<string>, courseId: string, q: seq<real>, limit: int,
                       threshold: real, score: (seq<real>, seq<real>) -> Similarity)
    ensures var r := SearchResults(root, order, courseId, q, limit, threshold, score);
      && SortedDesc(r)
      && (limit >= 0 ==> |r| <= limit)
      && (forall h :: h in r ==> h.score >= threshold)
      && (r != [] ==> (Resolve(root, order, courseId).Ok? &&
            forall h :: h in r ==> exists n :: FromDocument(ItemsOf(root, Resolve(root, order, courseId).value), n, h, q, score)))
      && (Scan(root, order, courseId, q, threshold, score).Err? ==> r == [])
      && (Scan(root, order, courseId, q, threshold, score).Ok? ==>
            var hits := Scan(root, order, courseId, q, threshold, score).value;
            && (limit >= 0 ==> |r| == Min(limit, |hits|))
            && multiset(r) <= multiset(hits)
            && (forall h, x :: h in multiset(hits) - multiset(r) && x in r ==> h.score <= x.score)
            && forall k :: |WithScore(r, k)| <= |WithScore(hits, k)| && WithScore(r, k) == WithScore(hits, k)[..|WithScore(r, k)|])
  {
    var s := Scan(root, order, courseId, q, threshold, score);
    if s.Ok? {
      SearchSound(root, order, courseId, q, limit, threshold, score);
      RankedPage(s.value, limit);
    }
  }

  /** Every result passes the threshold and comes from a document file of the resolved directory. */
  lemma SearchSound(root: Root, order: seq<string>, courseId: string, q: seq<real>, limit: int,
                    threshold: real, score: (seq<real>, seq<real>) -> Similarity)
    ensures var r := SearchResults(root, order, courseId, q, limit, threshold, score);
      && (forall h :: h in r ==> h.score >= threshold)
      && (r != [] ==> (Resolve(root, order, courseId).Ok? &&
            forall h :: h in r ==> exists n :: FromDocument(ItemsOf(root, Resolve(root, order, courseId).value), n, h, q, score)))
  {
    var s := Scan(root, order, courseId, q, threshold, score);
    if s.Ok? {
      var d := Resolve(root, order, courseId).value;
      var items := ItemsOf(root, d);
      ScanFilesSpec(items, Listing(order, items.Keys), q, threshold, score, []);
      var hits := s.value;
      SortDescPermutes(hits);
      var sorted := SortDesc(hits);
      var r := Truncate(sorted, limit);
      forall h | h in r ensures h.score >= threshold && exists n :: FromDocument(items, n, h, q, score) {
        assert h in multiset(sorted);
        assert h in multiset(hits);
        var i :| 0 <= i < |hits| && hits[i] == h;
      }
    }
  }

  /**
    The scan of a course raises exactly when resolution does or a listed document
    file of the resolved directory is not a scannable list of records; otherwise
    it finds exactly the passing hits of the listed document files, file by file
    in listing order and record by record within a file.
  */
  lemma ScanSpec(root: Root, order: seq<string>, courseId: string, q: seq<real>, threshold: real,
                 score: (seq<real>, seq<real>) -> Similarity)
    ensures var s := Scan(root, order, courseId, q, threshold, score);
      var d := Resolve(root, order, courseId);
      && (s.Ok? <==> d.Ok? && FilesScannable(ItemsOf(root, d.value), Listing(order, ItemsOf(root, d.value).Keys), q, threshold, score))
      && (s.Ok? ==> s.value == FilesPassing(ItemsOf(root, d.value), Listing(order, ItemsOf(root, d.value).Keys), q, threshold, score))
  {
    var d := Resolve(root, order, courseId);
    if d.Ok? {
      var items := ItemsOf(root, d.value);
      ScanFilesPassing(items, Listing(order, items.Keys), q, threshold, score, []);
      assert [] + FilesPassing(items, Listing(order, items.Keys), q, threshold, score)
          == FilesPassing(items, Listing(order, items.Keys), q, threshold, score);
    }
  }

  /**
    Store then search: once the records of a document are stored in a directory
    that resolution finds, a search of that course that does not raise finds
    every stored record that passes the threshold, and returns it whenever the
    limit covers all the hits.
  */
  lemma StoreThenSearch(root: Root, records: seq<Record>, courseId: string, documentId: string,
                        courseName: string, order: seq<string>, q: seq<real>, limit: int, threshold: real,
                        score: (seq<real>, seq<real>) -> Similarity, h: Hit)
    requires AllHaveIds(records)
    requires Stored(root, records, courseId, documentId, courseName).out.Ok?
    requires ListsAll(order, Stored(root, records, courseId, documentId, courseName).root)
    requires DocFile(documentId) != MarkerFile
    requires MarkerFile !in ItemsOf(root, courseName) || LegacyName(courseName, courseId)
    requires forall d :: d in root && d != courseName ==> !Claims(root, d, courseId)
    requires h in Passing(records, q, threshold, score)
    ensures var after := Stored(root, records, courseId, documentId, courseName).root;
      var s := Scan(after, order, courseId, q, threshold, score);
      && (s.Ok? ==> h in s.value)
      && (s.Ok? && limit >= |s.value| ==> h in SearchResults(after, order, courseId, q, limit, threshold, score))
  {
    var after := Stored(root, records, courseId, documentId, courseName).root;
    StoreThenResolve(root, records, courseId, documentId, courseName, order);
    StoredSpec(root, records, courseId, documentId, courseName);
    var s := Scan(after, order, courseId, q, threshold, score);
    if s.Ok? {
      var items := ItemsOf(after, courseName);
      var doc := DocFile(documentId);
      ScanSpec(after, order, courseId, q, threshold, score);
      assert doc in Listing(order, items.Keys);
      FilesPassingComplete(items, Listing(order, items.Keys), q, threshold, score, doc, h);
      if limit >= |s.value| {
        SortDescPermutes(s.value);
        assert h in multiset(SortDesc(s.value));
      }
    }
  }

  lemma {:induction false} ScanRecordsMonotone(rs: seq<Record>, q: seq<real>, t1: real, t2: real,
                                               score: (seq<real>, seq<real>) -> Similarity, acc1: seq<Hit>, acc2: seq<Hit>)
    requires t1 <= t2 && |acc2| <= |acc1|
    requires ScanRecords(rs, q, t1, score, acc1).Ok?
    ensures ScanRecords(rs, q, t2, score, acc2).Ok?
    ensures |ScanRecords(rs, q, t2, score, acc2).value| <= |ScanRecords(rs, q, t1, score, acc1).value|
    decreases |rs|
  {
    if rs != [] {
      var rec := rs[0];
      match score(q, rec.vector)
      case Incompatible =>
      case NaN => ScanRecordsMonotone(rs[1..], q, t1, t2, score, acc1, acc2);
      case Score(s) =>
        var acc1' := if s < t1 then acc1 else acc1 + [Hit(rec.id.value, s, rec.payload.value)];
        if s < t2 {
          ScanRecordsMonotone(rs[1..], q, t1, t2, score, acc1', acc2);
        } else {
          ScanRecordsMonotone(rs[1..], q, t1, t2, score, acc1', acc2 + [Hit(rec.id.value, s, rec.payload.value)]);
        }
    }
  }

  lemma {:induction false} ScanFilesMonotone(items: Dir, names: seq<string>, q: seq<real>, t1: real, t2: real,
                                             score: (seq<real>, seq<real>) -> Similarity, acc1: seq<Hit>, acc2: seq<Hit>)
    requires forall n :: n in names ==> n in items
    requires t1 <= t2 && |acc2| <= |acc1|
    requires ScanFiles(items, names, q, t1, score, acc1).Ok?
    ensures ScanFiles(items, names, q, t2, score, acc2).Ok?
    ensures |ScanFiles(items, names, q, t2, score, acc2).value| <= |ScanFiles(items, names, q, t1, score, acc1).value|
    decreases |names|
  {
    if names != [] {
      var n := names[0];
      assert forall m :: m in names[1..] ==> m in names;
      if !IsJson(n) || n == MarkerFile {
        ScanFilesMonotone(items, names[1..], q, t1, t2, score, acc1, acc2);
      } else {
        var rs := items[n].content.records;
        ScanRecordsMonotone(rs, q, t1, t2, score, acc1, acc2);
        ScanFilesMonotone(items, names[1..], q, t1, t2, score,
                          ScanRecords(rs, q, t1, score, acc1).value, ScanRecords(rs, q, t2, score, acc2).value);
      }
    }
  }

  /**
    Raising the threshold never adds results, provided the scan at the lower
    threshold did not raise. (It can raise at the lower threshold alone: a
    record lacking "id" is only looked at when it passes.)
  */
  lemma ThresholdMonotone(root: Root, order: seq<string>, courseId: string, q: seq<real>, limit: int,
                          t1: real, t2: real, score: (seq<real>, seq<real>) -> Similarity)
    requires t1 <= t2
    requires Scan(root, order, courseId, q, t1, score).Ok?
    ensures |SearchResults(root, order, courseId, q, limit, t2, score)| <= |SearchResults(root, order, courseId, q, limit, t1, score)|
  {
    var d := Resolve(root, order, courseId).value;
    var items := ItemsOf(root, d);
    ScanFilesMonotone(items, Listing(order, items.Keys), q, t1, t2, score, [], []);
  }

  // ---------------------------------------------------------------- delete_document

  /** `delete_document`: removes `<documentId>.json` from the resolved directory if it is a file there. */
  function DocumentDeleted(root: Root, order: seq<string>, courseId: string, documentId: string): (e: Effect<bool>)
    ensures var r := Resolve(root, order, courseId);
      && (r.Err? ==> e.root == root)
      && (r.Ok? ==> var base := AfterResolve(root, r);
            && (e.out <==> DocFile(documentId) in base[r.value].items && base[r.value].items[DocFile(documentId)].File?)
            && (e.out ==> e.root == base[r.value := Directory(base[r.value].items - {DocFile(documentId)})])
            && (!e.out ==> e.root == base))
  {
    var r := Resolve(root, order, courseId);
    if r.Err? then Effect(root, false)
    else
      var base := AfterResolve(root, r);
      var items := base[r.value].items;
      var f := DocFile(documentId);
      if f in items && items[f].File? then Effect(base[r.value := Directory(items - {f})], true)
      else Effect(base, false)
  }

  /** Deleting one document leaves every other document of every course in place. */
  lemma DeleteDocumentScope(root: Root, order: seq<string>, courseId: string, documentId: string)
    ensures var e := DocumentDeleted(root, order, courseId, documentId);
      forall d, f :: d in root && root[d].Directory? && f in root[d].items &&
                     !(Resolve(root, order, courseId) == Ok(d) && f == DocFile(documentId)) ==>
        IsDir(e.root, d) && f in e.root[d].items && e.root[d].items[f] == root[d].items[f]
  {
  }

  // ---------------------------------------------------------------- delete_course

  /** The state of the removal loop of `delete_course`. */
  datatype Sweep = Sweep(items: Dir, removed: nat, ok: bool)

  /**
    Removes the listed `*.json` entries one after another, counting them; removing
    a directory (or a name that is gone) raises and stops the loop.
  */
  function SweepJson(items: Dir, names: seq<string>, removed: nat): Sweep
    decreases |names|
  {
    if names == [] then Sweep(items, removed, true)
    else
      var n := names[0];
      if !IsJson(n) then SweepJson(items, names[1..], removed)
      else if n !in items || items[n].SubDir? then Sweep(items, removed, false)
      else SweepJson(items - {n}, names[1..], removed + 1)
  }

  /**
    The loop only removes `*.json` files it was given, counting each once; when it
    runs to the end, every given `*.json` name was a file and is gone.
  */
  lemma {:induction false} SweepJsonFacts(items: Dir, names: seq<string>, removed: nat)
    ensures var s := SweepJson(items, names, removed);
      && (forall n :: n in s.items ==> n in items && s.items[n] == items[n])
      && (forall n :: n in items && n !in s.items ==> n in names && IsJson(n) && items[n].File?)
      && s.removed == removed + (|items| - |s.items|)
      && (s.ok ==> forall n :: n in items ==> (n in s.items <==> !(n in names && IsJson(n))))
      && (s.ok ==> forall n :: n in names && IsJson(n) ==> n in items && items[n].File?)
    decreases |names|
  {
    if names != [] {
      var n := names[0];
      assert forall m :: m in names[1..] ==> m in names;
      if !IsJson(n) {
        SweepJsonFacts(items, names[1..], removed);
      } else if n in items && items[n].File? {
        assert (items - {n}).Keys == items.Keys - {n};
        SweepJsonFacts(items - {n}, names[1..], removed + 1);
      }
    }
  }

  /** With every entry listed once, the loop fails exactly when a `*.json` entry is a directory. */
  lemma {:induction false} SweepFails(items: Dir, names: seq<string>, removed: nat)
    requires Distinct(names)
    requires forall n :: n in names ==> n in items
    ensures !SweepJson(items, names, removed).ok <==> exists n :: n in names && IsJson(n) && items[n].SubDir?
    decreases |names|
  {
    if names != [] {
      var n := names[0];
      assert forall m :: m in names[1..] ==> m != n && m in names;
      if !IsJson(n) {
        SweepFails(items, names[1..], removed);
      } else if items[n].File? {
        SweepFails(items - {n}, names[1..], removed + 1);
        assert forall m :: m in names[1..] ==> (items - {n})[m] == items[m];
      }
    }
  }

  /**
    `delete_course`: removes every listed `*.json` entry of the resolved directory,
    the marker included, then tries `rmdir` if anything was removed (a failing
    `rmdir` is swallowed). The answer is true unless an exception escaped the loop.
  */
  function CourseDeleted(root: Root, order: seq<string>, courseId: string): (e: Effect<bool>)
  {
    var r := Resolve(root, order, courseId);
    if r.Err? then Effect(root, false)
    else DirCleared(AfterResolve(root, r), r.value, order)
  }

  /** The removal loop and the `rmdir` of `delete_course`, on directory `d`. */
  function DirCleared(root: Root, d: string, order: seq<string>): (e: Effect<bool>)
    requires IsDir(root, d)
  {
    var items := root[d].items;
    var s := SweepJson(items, Listing(order, items.Keys), 0);
    if !s.ok then Effect(root[d := Directory(s.items)], false)
    else if s.removed > 0 && s.items == map[] then Effect(root - {d}, true)
    else Effect(root[d := Directory(s.items)], true)
  }

  /** The removal loop over a listing of the whole directory. */
  lemma SweepListed(items: Dir, order: seq<string>)
    requires Distinct(order)
    requires forall n :: n in items ==> n in order
    ensures var s := SweepJson(items, Listing(order, items.Keys), 0);
      && (s.ok <==> forall n :: n in items && IsJson(n) ==> items[n].File?)
      && (s.ok ==> forall n :: n in s.items <==> n in items && !IsJson(n))
      && (s.ok && s.removed > 0 && s.items == map[] ==> (forall n :: n in items ==> IsJson(n)) && |items| > 0)
  {
    var names := Listing(order, items.Keys);
    SweepFails(items, names, 0);
    SweepJsonFacts(items, names, 0);
  }

  /** `delete_course` touches no directory other than the resolved one. */
  lemma CourseDeletedScope(root: Root, order: seq<string>, courseId: string)
    ensures var e := CourseDeleted(root, order, courseId);
      var r := Resolve(root, order, courseId);
      forall d :: d in root && !(r.Ok? && d == r.value) ==> d in e.root && e.root[d] == root[d]
  {
  }

  /**
    With every entry listed: `delete_course` answers true exactly when the course
    resolves and no `*.json` entry of its directory is a directory; then the
    directory keeps exactly its other entries, and it is gone when nothing else
    was in it and something was removed.
  */
  lemma CourseDeletedSpec(root: Root, order: seq<string>, courseId: string)
    requires ListsAll(order, root)
    requires Resolve(root, order, courseId).Ok?
    ensures var e := CourseDeleted(root, order, courseId);
      var d := Resolve(root, order, courseId).value;
      var items := ItemsOf(root, d);
      && (e.out <==> forall n :: n in items && IsJson(n) ==> items[n].File?)
      && (e.out && IsDir(e.root, d) ==> forall n :: n in e.root[d].items <==> n in items && !IsJson(n))
      && (e.out && !IsDir(e.root, d) ==> (forall n :: n in items ==> IsJson(n)) && |items| > 0)
  {
    var r := Resolve(root, order, courseId);
    var d := r.value;
    var items := AfterResolve(root, r)[d].items;
    assert items == ItemsOf(root, d);
    SweepListed(items, order);
  }

  // ---------------------------------------------------------------- migrate_to_named_folders

  datatype Outcome = Migrated | Failed | NotNeeded

  datatype MigrationStats = MigrationStats(migrated: nat, errors: nat, notNeeded: nat) {
    function Total(): nat { migrated + errors + notNeeded }
    function Add(o: Outcome): (s: MigrationStats)
      ensures s.Total() == Total() + 1
    {
      match o
      case Migrated => this.(migrated := migrated + 1)
      case Failed => this.(errors := errors + 1)
      case NotNeeded => this.(notNeeded := notNeeded + 1)
    }
  }

  /** The state of a copy loop: the target's entries so far, and whether it ran to the end. */
  datatype Copy = Copy(items: Dir, ok: bool)

  /**
    Copies the listed `*.json` entries of `src` into `dst` in order
    (`open(old, 'r')` then `open(new, 'w')`); a directory at either end raises.
  */
  function CopyJson(src: Dir, names: seq<string>, dst: Dir): Copy
    decreases |names|
  {
    if names == [] then Copy(dst, true)
    else
      var n := names[0];
      if !IsJson(n) then CopyJson(src, names[1..], dst)
      else if n !in src || src[n].SubDir? then Copy(dst, false)
      else if n in dst && dst[n].SubDir? then Copy(dst, false)
      else CopyJson(src, names[1..], dst[n := src[n]])
  }

  /**
    The copy only adds entries, each a listed `*.json` entry of the source; every
    entry is the destination's or the source's; and a completed copy holds every
    listed `*.json` entry of the source.
  */
  lemma {:induction false} CopyJsonSpec(src: Dir, names: seq<string>, dst: Dir)
    ensures var c := CopyJson(src, names, dst);
      && (forall n :: n in dst ==> n in c.items)
      && (forall n :: n in c.items ==> n in dst || (n in names && IsJson(n) && n in src))
      && (forall n :: n in c.items ==> (n in dst && c.items[n] == dst[n]) || (n in src && c.items[n] == src[n]))
      && (c.ok ==> forall n :: n in names && IsJson(n) ==> n in src && n in c.items && c.items[n] == src[n])
    decreases |names|
  {
    if names != [] {
      var n := names[0];
      assert forall m :: m in names ==> m == n || m in names[1..];
      if !IsJson(n) {
        CopyJsonSpec(src, names[1..], dst);
      } else if n in src && src[n].File? && !(n in dst && dst[n].SubDir?) {
        CopyJsonSpec(src, names[1..], dst[n := src[n]]);
      }
    }
  }

  /** A copy that ran to the end met no directory among the listed `*.json` entries of the source. */
  lemma {:induction false} CopyJsonOk(src: Dir, names: seq<string>, dst: Dir)
    requires CopyJson(src, names, dst).ok
    ensures forall n :: n in names && IsJson(n) ==> n in src && src[n].File?
    decreases |names|
  {
    if names != [] {
      var n := names[0];
      assert forall m :: m in names ==> m == n || m in names[1..];
      if !IsJson(n) {
        CopyJsonOk(src, names[1..], dst);
      } else {
        CopyJsonOk(src, names[1..], dst[n := src[n]]);
      }
    }
  }

  /**
    A copy runs to the end exactly when every listed `*.json` entry is a file of
    the source and no directory of that name sits in the destination.
  */
  lemma {:induction false} CopyJsonOutcome(src: Dir, names: seq<string>, dst: Dir)
    ensures CopyJson(src, names, dst).ok <==>
      forall n :: n in names && IsJson(n) ==> n in src && src[n].File? && !(n in dst && dst[n].SubDir?)
    decreases |names|
  {
    if names != [] {
      var n := names[0];
      assert forall m :: m in names ==> m == n || m in names[1..];
      assert forall m :: m in names[1..] ==> m in names;
      if !IsJson(n) {
        CopyJsonOutcome(src, names[1..], dst);
      } else if n in src && src[n].File? && !(n in dst && dst[n].SubDir?) {
        CopyJsonOutcome(src, names[1..], dst[n := src[n]]);
      }
    }
  }

  /** Copying into a directory that already holds every copy changes nothing. */
  lemma {:induction false} CopyJsonFixed(src: Dir, names: seq<string>, d: Dir)
    requires forall n :: n in names && IsJson(n) ==> n in src && src[n].File? && n in d && d[n] == src[n]
    ensures CopyJson(src, names, d) == Copy(d, true)
    decreases |names|
  {
    if names != [] {
      var n := names[0];
      assert forall m :: m in names[1..] ==> m in names;
      if IsJson(n) {
        assert d[n := src[n]] == d;
      }
      CopyJsonFixed(src, names[1..], d);
    }
  }

  /** Directory names never disappear and never change kind; directories only gain entries. */
  ghost predicate Grows(before: Root, after: Root) {
    forall n :: n in before ==>
      && n in after
      && (before[n].PlainFile? ==> after[n].PlainFile?)
      && (before[n].Directory? ==> after[n].Directory? && before[n].items.Keys <= after[n].items.Keys)
  }

  lemma GrowsTransitive(a: Root, b: Root, c: Root)
    requires Grows(a, b) && Grows(b, c)
    ensures Grows(a, c)
  {
  }

  /** The id a directory name stands for: the text before its first `_`. */
  function CandidateId(dirName: string): string {
    BeforeFirst(dirName, '_')
  }

  /**
    One iteration of `migrate_to_named_folders` on directory `dirName`: directories
    with a marker, or whose candidate id has no known name, or whose target is the
    directory itself (which then gets its marker) are not migrated; otherwise the
    target directory gets a marker and a copy of every listed `*.json` file.
  */
  function MigratedDir(root: Root, dirName: string, order: seq<string>, db: Db, isAlnum: char -> bool): Effect<Outcome>
    requires IsDir(root, dirName)
  {
    var items := root[dirName].items;
    if MarkerFile in items then Effect(root, NotNeeded)
    else
      var id := CandidateId(dirName);
      var target := CourseName(id, db, isAlnum);
      if target == id then Effect(root, NotNeeded)
      else if target == dirName then
        Effect(root[dirName := Directory(items[MarkerFile := File(Marker(id, target))])], NotNeeded)
      else MovedInto(root, items, Listing(order, items.Keys), id, target)
  }

  /**
    The second half of a migration, once the target name differs from both the
    directory name and the id: `os.makedirs` of the target, the marker written
    into it, and the listed documents copied across.
  */
  function MovedInto(root: Root, items: Dir, names: seq<string>, id: string, target: string): Effect<Outcome>
  {
    if target in root && root[target].PlainFile? then Effect(root, Failed)
    else
      var existing := ItemsOf(root, target);
      if MarkerFile in existing && existing[MarkerFile].SubDir? then
        Effect(root[target := Directory(existing)], Failed)
      else
        var c := CopyJson(items, names, existing[MarkerFile := File(Marker(id, target))]);
        Effect(root[target := Directory(c.items)], if c.ok then Migrated else Failed)
  }

  /**
    The root only grows, and only the target directory can be new. A migrated
    directory had no marker and a known name different from its id and its own
    name; afterwards its target holds the marker `{id, name}` and a copy of
    every listed `*.json` file, and the directory itself is unchanged. A
    directory not needing migration is left alone, or only gains its marker.
  */
  lemma MigratedDirSpec(root: Root, dirName: string, order: seq<string>, db: Db, isAlnum: char -> bool)
    requires IsDir(root, dirName)
    ensures var e := MigratedDir(root, dirName, order, db, isAlnum);
      && Grows(root, e.root)
      && (forall d :: d in e.root ==> d in root || d == CourseName(CandidateId(dirName), db, isAlnum))
      && (e.out == Migrated ==>
            var id := CandidateId(dirName);
            var target := CourseName(id, db, isAlnum);
            && MarkerFile !in root[dirName].items
            && Known(db, id) && target != id && target != dirName
            && IsDir(e.root, target)
            && MarkerFile in e.root[target].items
            && e.root[target].items[MarkerFile] == File(Marker(id, target))
            && e.root[dirName] == root[dirName]
            && forall f :: f in root[dirName].items && IsJson(f) && f in order ==>
                 f in e.root[target].items && e.root[target].items[f] == root[dirName].items[f])
      && (e.out == NotNeeded ==>
            || e.root == root
            || e.root == root[dirName := Directory(root[dirName].items[MarkerFile := File(Marker(CandidateId(dirName), dirName))])])
  {
    var items := root[dirName].items;
    var id := CandidateId(dirName);
    var target := CourseName(id, db, isAlnum);
    if MarkerFile !in items && target != id && target != dirName && !(target in root && root[target].PlainFile?) {
      var existing := ItemsOf(root, target);
      if !(MarkerFile in existing && existing[MarkerFile].SubDir?) {
        CopyJsonSpec(items, Listing(order, items.Keys), existing[MarkerFile := File(Marker(id, target))]);
      }
    }
  }

  /**
    How a directory is counted: not needed exactly when it has a marker, its id
    has no known name, or the name is the directory's own; migrated exactly when
    none of these holds, no plain file takes the target's name, the target has
    no directory in the marker's place, and every listed `*.json` entry is a
    file with no directory of its name in the target; failed otherwise.
  */
  lemma MigratedDirOutcome(root: Root, dirName: string, order: seq<string>, db: Db, isAlnum: char -> bool)
    requires IsDir(root, dirName)
    ensures var items := root[dirName].items;
      var id := CandidateId(dirName);
      var target := CourseName(id, db, isAlnum);
      var existing := ItemsOf(root, target);
      var e := MigratedDir(root, dirName, order, db, isAlnum);
      && (e.out == NotNeeded <==> MarkerFile in items || target == id || target == dirName)
      && (e.out == Migrated <==>
            && MarkerFile !in items && target != id && target != dirName
            && !(target in root && root[target].PlainFile?)
            && !(MarkerFile in existing && existing[MarkerFile].SubDir?)
            && forall n :: n in Listing(order, items.Keys) && IsJson(n) ==>
                 n in items && items[n].File? && !(n in existing && existing[n].SubDir?))
  {
    var items := root[dirName].items;
    var id := CandidateId(dirName);
    var target := CourseName(id, db, isAlnum);
    var existing := ItemsOf(root, target);
    if MarkerFile !in items && target != id && target != dirName && !(target in root && root[target].PlainFile?)
       && !(MarkerFile in existing && existing[MarkerFile].SubDir?) {
      var names := Listing(order, items.Keys);
      var dst := existing[MarkerFile := File(Marker(id, target))];
      CopyJsonOutcome(items, names, dst);
      assert forall n :: n in names ==> n in items && n != MarkerFile;
    }
  }

  /**
    A migrated directory keeps no trace of its migration (its marker goes to the
    target), so running the migration over it again finds it still unmigrated:
    it is counted as migrated once more and copies the same files again, leaving
    the state as it was.
  */
  lemma MigratedDirRerun(root: Root, dirName: string, order: seq<string>, db: Db, isAlnum: char -> bool)
    requires IsDir(root, dirName)
    requires MigratedDir(root, dirName, order, db, isAlnum).out == Migrated
    ensures var e := MigratedDir(root, dirName, order, db, isAlnum);
      IsDir(e.root, dirName) && MigratedDir(e.root, dirName, order, db, isAlnum) == e
  {
    var e := MigratedDir(root, dirName, order, db, isAlnum);
    MigratedDirSpec(root, dirName, order, db, isAlnum);
    var items := root[dirName].items;
    var id := CandidateId(dirName);
    var target := CourseName(id, db, isAlnum);
    var names := Listing(order, items.Keys);
    var c := CopyJson(items, names, ItemsOf(root, target)[MarkerFile := File(Marker(id, target))]);
    CopyJsonSpec(items, names, ItemsOf(root, target)[MarkerFile := File(Marker(id, target))]);
    assert e.root == root[target := Directory(c.items)];
    var marked := c.items[MarkerFile := File(Marker(id, target))];
    assert marked == c.items;
    CopyJsonOk(items, names, ItemsOf(root, target)[MarkerFile := File(Marker(id, target))]);
    CopyJsonFixed(items, names, c.items);
  }

  /** The migration loop over the listing taken at the start, from the current root and counters. */
  function MigrationFrom(root: Root, names: seq<string>, order: seq<string>, db: Db, isAlnum: char -> bool,
                         stats: MigrationStats): (e: Effect<MigrationStats>)
    ensures Grows(root, e.root)
    decreases |names|
  {
    if names == [] then Effect(root, stats)
    else if IsDir(root, names[0]) then
      var step := MigratedDir(root, names[0], order, db, isAlnum);
      MigratedDirSpec(root, names[0], order, db, isAlnum);
      var e := MigrationFrom(step.root, names[1..], order, db, isAlnum, stats.Add(step.out));
      GrowsTransitive(root, step.root, e.root);
      e
    else MigrationFrom(root, names[1..], order, db, isAlnum, stats)
  }

  function Migration(root: Root, order: seq<string>, db: Db, isAlnum: char -> bool): Effect<MigrationStats> {
    MigrationFrom(root, Listing(order, root.Keys), order, db, isAlnum, MigrationStats(0, 0, 0))
  }

  /** The number of names in `names` that are directories of `root`. */
  function CountDirs(root: Root, names: seq<string>): nat {
    if names == [] then 0 else (if IsDir(root, names[0]) then 1 else 0) + CountDirs(root, names[1..])
  }

  lemma {:induction false} MigrationFromCounts(root: Root, names: seq<string>, order: seq<string>, db: Db,
                                               isAlnum: char -> bool, stats: MigrationStats)
    requires forall n :: n in names ==> n in root
    ensures MigrationFrom(root, names, order, db, isAlnum, stats).out.Total() == stats.Total() + CountDirs(root, names)
    decreases |names|
  {
    if names != [] {
      assert forall n :: n in names[1..] ==> n in names;
      if IsDir(root, names[0]) {
        var step := MigratedDir(root, names[0], order, db, isAlnum);
        MigratedDirSpec(root, names[0], order, db, isAlnum);
        MigrationFromCounts(step.root, names[1..], order, db, isAlnum, stats.Add(step.out));
        CountDirsGrows(root, step.root, names[1..]);
      } else {
        MigrationFromCounts(root, names[1..], order, db, isAlnum, stats);
      }
    }
  }

  lemma {:induction false} CountDirsGrows(a: Root, b: Root, names: seq<string>)
    requires Grows(a, b)
    requires forall n :: n in names ==> n in a
    ensures CountDirs(b, names) == CountDirs(a, names)
    decreases |names|
  {
    if names != [] {
      CountDirsGrows(a, b, names[1..]);
    }
  }

  /**
    `migrated + errors + not_needed` is the number of directories of the root,
    and the migration never deletes anything: every directory and every entry of
    it is still there afterwards.
  */
  lemma MigrationSpec(root: Root, order: seq<string>, db: Db, isAlnum: char -> bool)
    requires Distinct(order) && forall n :: n in root ==> n in order
    ensures var e := Migration(root, order, db, isAlnum);
      && e.out.Total() == |set n | n in root && root[n].Directory?|
      && Grows(root, e.root)
  {
    var names := Listing(order, root.Keys);
    MigrationFromCounts(root, names, order, db, isAlnum, MigrationStats(0, 0, 0));
    CountListedDirs(root, order);
  }

  /** Counting the directories of a full listing counts the directories of the root. */
  lemma CountListedDirs(root: Root, order: seq<string>)
    requires Distinct(order) && forall n :: n in root ==> n in order
    ensures CountDirs(root, Listing(order, root.Keys)) == |set n | n in root && root[n].Directory?|
  {
    var names := Listing(order, root.Keys);
    CountDirsIsCard(root, names);
    assert (set n | n in names && IsDir(root, n)) == (set n | n in root && root[n].Directory?);
  }

  lemma {:induction false} CountDirsIsCard(root: Root, names: seq<string>)
    requires Distinct(names)
    ensures CountDirs(root, names) == |set n | n in names && IsDir(root, n)|
    decreases |names|
  {
    if names == [] {
      assert (set n | n in names && IsDir(root, n)) == {};
    } else {
      var rest := set n | n in names[1..] && IsDir(root, n);
      CountDirsIsCard(root, names[1..]);
      assert names[0] !in names[1..];
      if IsDir(root, names[0]) {
        assert (set n | n in names && IsDir(root, n)) == rest + {names[0]};
      } else {
        assert (set n | n in names && IsDir(root, n)) == rest;
      }
    }
  }

  // ---------------------------------------------------------------- reinitialize

  /** Removes the listed regular files of a directory; subdirectories stay. */
  function ClearFiles(items: Dir, names: seq<string>): Dir
    decreases |names|
  {
    if names == [] then items
    else if names[0] in items && items[names[0]].File? then ClearFiles(items - {names[0]}, names[1..])
    else ClearFiles(items, names[1..])
  }

  /** Exactly the given regular files go; everything else stays as it was. */
  lemma {:induction false} ClearFilesFacts(items: Dir, names: seq<string>)
    ensures var left := ClearFiles(items, names);
      && (forall n :: n in left <==> n in items && !(n in names && items[n].File?))
      && (forall n :: n in left ==> left[n] == items[n])
    decreases |names|
  {
    if names != [] {
      if names[0] in items && items[names[0]].File? {
        ClearFilesFacts(items - {names[0]}, names[1..]);
      } else {
        ClearFilesFacts(items, names[1..]);
      }
    }
  }

  /**
    The loop of `reinitialize` over the root listing: each directory loses its files
    and is then removed; `rmdir` of a directory that still holds a subdirectory
    raises, which ends the loop with `False` and nothing restored.
  */
  function WipeFrom(root: Root, names: seq<string>, order: seq<string>): Effect<bool>
    decreases |names|
  {
    if names == [] then Effect(root, true)
    else
      var n := names[0];
      if IsDir(root, n) then
        var items := root[n].items;
        var left := ClearFiles(items, Listing(order, items.Keys));
        if left == map[] then WipeFrom(root - {n}, names[1..], order)
        else Effect(root[n := Directory(left)], false)
      else WipeFrom(root, names[1..], order)
  }

  /** Nothing is added, top-level plain files stay, and directories only lose entries. */
  lemma {:induction false} WipeFromFacts(root: Root, names: seq<string>, order: seq<string>)
    ensures var e := WipeFrom(root, names, order);
      && (forall n :: n in e.root ==> n in root)
      && (forall n :: n in root && root[n].PlainFile? ==> n in e.root && e.root[n] == root[n])
      && (forall n :: n in e.root && e.root[n].Directory? ==>
            root[n].Directory? && e.root[n].items.Keys <= root[n].items.Keys)
    decreases |names|
  {
    if names != [] {
      var n := names[0];
      if IsDir(root, n) {
        var items := root[n].items;
        ClearFilesFacts(items, Listing(order, items.Keys));
        if ClearFiles(items, Listing(order, items.Keys)) == map[] {
          WipeFromFacts(root - {n}, names[1..], order);
        }
      } else {
        WipeFromFacts(root, names[1..], order);
      }
    }
  }

  function Wiped(root: Root, order: seq<string>): Effect<bool> {
    WipeFrom(root, Listing(order, root.Keys), order)
  }

  predicate HasSubDir(items: Dir) {
    exists n :: n in items && items[n].SubDir?
  }

  lemma ClearListed(items: Dir, order: seq<string>)
    requires forall n :: n in items ==> n in order
    ensures ClearFiles(items, Listing(order, items.Keys)) == map[] <==> !HasSubDir(items)
  {
    var left := ClearFiles(items, Listing(order, items.Keys));
    ClearFilesFacts(items, Listing(order, items.Keys));
    if HasSubDir(items) {
      var m :| m in items && items[m].SubDir?;
      assert m in left;
    } else {
      assert forall m :: m !in left;
    }
  }

  lemma {:induction false} WipeFromSpec(root: Root, names: seq<string>, order: seq<string>)
    requires Distinct(names)
    requires forall n :: n in names ==> n in root
    requires forall n :: n in root && root[n].Directory? ==> n in names
    requires forall d, n :: d in root && root[d].Directory? && n in root[d].items ==> n in order
    ensures WipeFrom(root, names, order).out <==> forall d :: d in root && root[d].Directory? ==> !HasSubDir(root[d].items)
    ensures WipeFrom(root, names, order).out ==> forall n :: n in WipeFrom(root, names, order).root ==> n in root && root[n].PlainFile?
    decreases |names|
  {
    if names != [] {
      var n := names[0];
      var rest := names[1..];
      assert forall m :: m in rest ==> m in names && m != n;
      if IsDir(root, n) {
        var items := root[n].items;
        ClearListed(items, order);
        if !HasSubDir(items) {
          var root' := root - {n};
          assert forall m :: m in root' ==> root'[m] == root[m];
          assert forall m :: m in root' && root'[m].Directory? ==> m in rest by {
            forall m | m in root' && root'[m].Directory? ensures m in rest {
              assert m in names && m != n;
            }
          }
          WipeFromSpec(root', rest, order);
        }
      } else {
        assert forall m :: m in root && root[m].Directory? ==> m in rest by {
          forall m | m in root && root[m].Directory? ensures m in rest {
            assert m in names && m != n;
          }
        }
        WipeFromSpec(root, rest, order);
      }
    }
  }

  /**
    With every entry listed: `reinitialize` succeeds exactly when no course directory
    holds a subdirectory, and then exactly the root's top-level plain files remain.
    Whatever happens, nothing is added and top-level plain files are untouched.
  */
  lemma WipedSpec(root: Root, order: seq<string>)
    requires ListsAll(order, root)
    ensures var e := Wiped(root, order);
      && (e.out <==> forall d :: d in root && root[d].Directory? ==> !HasSubDir(root[d].items))
      && (e.out ==> forall n :: n in e.root <==> n in root && root[n].PlainFile?)
      && (forall n :: n in e.root ==> n in root)
      && (forall n :: n in root && root[n].PlainFile? ==> n in e.root && e.root[n] == root[n])
  {
    WipeFromSpec(root, Listing(order, root.Keys), order);
    WipeFromFacts(root, Listing(order, root.Keys), order);
  }
}
