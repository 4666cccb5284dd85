/**
  The stand-alone migration script `migrate_embeddings`: every directory of the
  embeddings root whose name has no `_` is copied, without consulting the
  database, to `<dir>_<name>`, where the name comes from the `filename` in the
  metadata of the first record of its first suitable `*.json` file. The original
  directories are kept.
*/
module ManualMigrate {
  import opened Common
  import opened Storage
  import opened Resolution
  import opened StoreSpec

  const FilenameKey: string := "filename"

  /** The counters the script reports, or the early return when the data directory is missing. */
  datatype Summary = NoDataDir | Summary(migrated: nat, errors: nat)

  /** What happened to one directory of the root. */
  datatype Step = Skipped | Copied | CopyFailed

  /**
    The course name a `*.json` file yields: its data is a non-empty list whose first
    element has a payload whose metadata has a `filename`, with every `.` made `_`.
    The marker file (a JSON object, not a list) and unreadable files yield nothing.
  */
  function NameIn(c: Content): Option<string> {
    if c.Records? && c.records != [] && c.records[0].payload.Some? && FilenameKey in c.records[0].payload.value.metadata
    then Some(ReplaceChar(c.records[0].payload.value.metadata[FilenameKey], '.', '_'))
    else None
  }

  /** The name a listed entry yields: a regular `*.json` file whose content names the course. */
  function NameAt(items: Dir, n: string): Option<string> {
    if IsJson(n) && n in items && items[n].File? then NameIn(items[n].content) else None
  }

  /** The search over the listing, stopping at the first file that yields a name. */
  function FoundName(items: Dir, names: seq<string>): Option<string> {
    if names == [] then None
    else if NameAt(items, names[0]).Some? then NameAt(items, names[0])
    else FoundName(items, names[1..])
  }

  /**
    The name found is the one the first yielding file gives, every file listed
    before it yields nothing, and the name holds no `.`; nothing is found exactly
    when no listed file yields a name.
  */
  lemma {:induction false} FoundNameSpec(items: Dir, names: seq<string>)
    ensures var r := FoundName(items, names);
      && (r.Some? ==> exists i :: 0 <= i < |names| && NameAt(items, names[i]) == r &&
                         forall j :: 0 <= j < i ==> NameAt(items, names[j]).None?)
      && (r.None? <==> forall i :: 0 <= i < |names| ==> NameAt(items, names[i]).None?)
      && (r.Some? ==> '.' !in r.value)
    decreases |names|
  {
    if names != [] {
      FoundNameSpec(items, names[1..]);
      var r := FoundName(items, names);
      if NameAt(items, names[0]).None? {
        if r.Some? {
          var i :| 0 <= i < |names| - 1 && NameAt(items, names[1..][i]) == r &&
                   forall j :: 0 <= j < i ==> NameAt(items, names[1..][j]).None?;
          assert NameAt(items, names[i + 1]) == r;
          assert forall j :: 0 <= j < i + 1 ==> NameAt(items, names[j]).None? by {
            forall j | 0 <= j < i + 1 ensures NameAt(items, names[j]).None? {
              if j > 0 {
                assert names[j] == names[1..][j - 1];
              }
            }
          }
        }
        assert (forall i :: 0 <= i < |names| ==> NameAt(items, names[i]).None?) <==>
               (forall i :: 0 <= i < |names| - 1 ==> NameAt(items, names[1..][i]).None?) by {
          forall i | 0 <= i < |names| - 1 ensures names[1..][i] == names[i + 1] { }
        }
      } else {
        assert NameAt(items, names[0]) == r;
      }
    }
  }

  /**
    `shutil.copy2` of the listed `*.json` entries of `src` into `dst`: a directory
    at the source raises; a directory at the destination receives the copy inside
    it, a level below what the model represents, so the entry stays as it was.
  */
  function CopyInto(src: Dir, names: seq<string>, dst: Dir): Copy
    decreases |names|
  {
    if names == [] then Copy(dst, true)
    else
      var n := names[0];
      if !IsJson(n) then CopyInto(src, names[1..], dst)
      else if n !in src || src[n].SubDir? then Copy(dst, false)
      else if n in dst && dst[n].SubDir? then CopyInto(src, names[1..], dst)
      else CopyInto(src, names[1..], dst[n := src[n]])
  }

  /**
    The copy only adds entries, each a listed `*.json` file of the source; every
    entry is the destination's or the source's; a directory at the destination
    stays; the copy completes exactly when no listed `*.json` entry of the source
    is missing or a directory, and then each of them is in the destination.
  */
  lemma {:induction false} CopyIntoSpec(src: Dir, names: seq<string>, dst: Dir)
    ensures var c := CopyInto(src, names, dst);
      && (forall n :: n in dst ==> n in c.items)
      && (forall n :: n in c.items ==> n in dst || (n in names && IsJson(n) && n in src))
      && (forall n :: n in c.items ==> (n in dst && c.items[n] == dst[n]) || (n in src && c.items[n] == src[n]))
      && (forall n :: n in dst && dst[n].SubDir? ==> c.items[n] == dst[n])
      && (c.ok <==> forall n :: n in names && IsJson(n) ==> n in src && src[n].File?)
      && (c.ok ==> forall n :: n in names && IsJson(n) ==> n in c.items && (c.items[n] == src[n] || c.items[n].SubDir?))
    decreases |names|
  {
    if names != [] {
      var n := names[0];
      assert forall m :: m in names ==> m == n || m in names[1..];
      if !IsJson(n) {
        CopyIntoSpec(src, names[1..], dst);
      } else if n !in src || src[n].SubDir? {
      } else if n in dst && dst[n].SubDir? {
        CopyIntoSpec(src, names[1..], dst);
      } else {
        CopyIntoSpec(src, names[1..], dst[n := src[n]]);
      }
    }
  }

  /** Copying into a directory that already holds every copy changes nothing. */
  lemma {:induction false} CopyIntoFixed(src: Dir, names: seq<string>, d: Dir)
    requires forall n :: n in names && IsJson(n) ==> n in src && src[n].File? && n in d && (d[n] == src[n] || d[n].SubDir?)
    ensures CopyInto(src, names, d) == Copy(d, true)
    decreases |names|
  {
    if names != [] {
      var n := names[0];
      assert forall m :: m in names[1..] ==> m in names;
      if IsJson(n) && !d[n].SubDir? {
        assert d[n := src[n]] == d;
      }
      CopyIntoFixed(src, names[1..], d);
    }
  }

  /** The directory a migrated course is copied to. */
  function NewDirName(dirName: string, courseName: string): string {
    dirName + "_" + courseName
  }

  /** One iteration of the script's loop over the root, for directory `dirName`. */
  function ManualStep(root: Root, dirName: string, order: seq<string>): Effect<Step>
    requires IsDir(root, dirName)
  {
    if '_' in dirName then Effect(root, Skipped)
    else
      var items := root[dirName].items;
      var names := Listing(order, items.Keys);
      var found := FoundName(items, names);
      if found.None? || found.value == [] then Effect(root, Skipped)
      else
        CopiedTo(root, items, names, NewDirName(dirName, found.value))
  }

  /** The second half of a step: `os.makedirs` of the new directory and the copy loop into it. */
  function CopiedTo(root: Root, items: Dir, names: seq<string>, target: string): Effect<Step>
  {
    if target in root && root[target].PlainFile? then Effect(root, CopyFailed)
    else
      var c := CopyInto(items, names, ItemsOf(root, target));
      Effect(root[target := Directory(c.items)], if c.ok then Copied else CopyFailed)
  }

  /**
    A step changes at most the new directory `<dir>_<name>`, which it creates or
    adds to: the original directory and everything else stay as they were, no
    marker file is written, and on success every listed `*.json` file of the
    original is in the new directory.
  */
  lemma ManualStepSpec(root: Root, dirName: string, order: seq<string>)
    requires IsDir(root, dirName)
    ensures var e := ManualStep(root, dirName, order);
      var items := root[dirName].items;
      && Grows(root, e.root)
      && (e.out.Skipped? ==> e.root == root)
      && (e.out != Skipped ==> '_' !in dirName)
      && (forall d :: d in e.root && (d !in root || e.root[d] != root[d]) ==>
            var cn := FoundName(items, Listing(order, items.Keys));
            && cn.Some? && cn.value != []
            && d == NewDirName(dirName, cn.value)
            && d != dirName
            && e.root[d].Directory?
            && forall f :: f in e.root[d].items ==>
                 (d in root && f in root[d].items) || (f in items && IsJson(f) && e.root[d].items[f] == items[f]))
      && (e.out.Copied? ==>
            var cn := FoundName(items, Listing(order, items.Keys));
            && cn.Some? && cn.value != []
            && IsDir(e.root, NewDirName(dirName, cn.value))
            && forall f :: f in items && IsJson(f) && f in order ==>
                 var copied := e.root[NewDirName(dirName, cn.value)].items;
                 f in copied && (copied[f] == items[f] || copied[f].SubDir?))
  {
    var e := ManualStep(root, dirName, order);
    var items := root[dirName].items;
    if e.out != Skipped {
      var cn := FoundName(items, Listing(order, items.Keys));
      var target := NewDirName(dirName, cn.value);
      assert |target| > |dirName|;
      if !(target in root && root[target].PlainFile?) {
        var c := CopyInto(items, Listing(order, items.Keys), ItemsOf(root, target));
        CopyIntoSpec(items, Listing(order, items.Keys), ItemsOf(root, target));
        assert e.root == root[target := Directory(c.items)];
      }
    }
  }

  /**
    The new directory is named after the original: the store's legacy rule
    (`<id>_...`) hands it to the course the original directory is named after,
    and the id the store's own migration reads off it is that name again.
  */
  lemma ManualTargetClaimed(root: Root, dirName: string, order: seq<string>)
    requires IsDir(root, dirName)
    requires ManualStep(root, dirName, order).out.Copied?
    ensures var items := root[dirName].items;
      var cn := FoundName(items, Listing(order, items.Keys));
      var target := NewDirName(dirName, cn.value);
      && Claims(ManualStep(root, dirName, order).root, target, dirName)
      && CandidateId(target) == dirName
  {
    var items := root[dirName].items;
    var cn := FoundName(items, Listing(order, items.Keys));
    var target := NewDirName(dirName, cn.value);
    assert target[..|dirName| + 1] == dirName + "_";
    BeforeFirstAt(target, dirName);
  }

  lemma {:induction false} BeforeFirstAt(s: string, prefix: string)
    requires '_' !in prefix && |prefix| < |s| && s[..|prefix| + 1] == prefix + "_"
    ensures BeforeFirst(s, '_') == prefix
    decreases |prefix|
  {
    if prefix != [] {
      assert s[1..][..|prefix|] == prefix[1..] + "_";
      BeforeFirstAt(s[1..], prefix[1..]);
    }
  }

  /**
    Running the script again over a directory it migrated finds the same name and
    migrates it again to the very same state: a re-run is harmless.
  */
  lemma ManualStepRerun(root: Root, dirName: string, order: seq<string>)
    requires IsDir(root, dirName)
    requires ManualStep(root, dirName, order).out.Copied?
    ensures var e := ManualStep(root, dirName, order);
      IsDir(e.root, dirName) && ManualStep(e.root, dirName, order) == e
  {
    var e := ManualStep(root, dirName, order);
    var items := root[dirName].items;
    var names := Listing(order, items.Keys);
    var cn := FoundName(items, names);
    var target := NewDirName(dirName, cn.value);
    assert |target| > |dirName|;
    var c := CopyInto(items, names, ItemsOf(root, target));
    CopyIntoSpec(items, names, ItemsOf(root, target));
    assert e.root == root[target := Directory(c.items)];
    assert e.root[dirName] == root[dirName];
    CopyIntoFixed(items, names, c.items);
  }

  /** The loop over the listing of the root, from the current root and counters. */
  function ManualFrom(root: Root, names: seq<string>, order: seq<string>, migrated: nat, errors: nat)
    : (e: Effect<Summary>)
    ensures e.out.Summary? && e.out.migrated >= migrated && e.out.errors >= errors
    decreases |names|
  {
    if names == [] then Effect(root, Summary(migrated, errors))
    else if IsDir(root, names[0]) then
      var step := ManualStep(root, names[0], order);
      ManualFrom(step.root, names[1..], order,
                 if step.out.Copied? then migrated + 1 else migrated,
                 if step.out.CopyFailed? then errors + 1 else errors)
    else ManualFrom(root, names[1..], order, migrated, errors)
  }

  /** `migrate_embeddings`: nothing when the data directory is missing, otherwise the loop over its listing. */
  function ManualMigration(present: bool, root: Root, order: seq<string>): Effect<Summary> {
    if !present then Effect(root, NoDataDir)
    else ManualFrom(root, Listing(order, root.Keys), order, 0, 0)
  }

  /** The number of listed directories whose name has no `_`. */
  function CountCandidates(root: Root, names: seq<string>): nat {
    if names == [] then 0
    else (if IsDir(root, names[0]) && '_' !in names[0] then 1 else 0) + CountCandidates(root, names[1..])
  }

  lemma {:induction false} ManualFromFacts(root: Root, names: seq<string>, order: seq<string>, migrated: nat, errors: nat)
    requires forall n :: n in names ==> n in root
    ensures var e := ManualFrom(root, names, order, migrated, errors);
      && Grows(root, e.root)
      && e.out.migrated + e.out.errors <= migrated + errors + CountCandidates(root, names)
    decreases |names|
  {
    if names != [] {
      assert forall n :: n in names[1..] ==> n in names;
      if IsDir(root, names[0]) {
        var step := ManualStep(root, names[0], order);
        ManualStepSpec(root, names[0], order);
        var m := if step.out.Copied? then migrated + 1 else migrated;
        var r := if step.out.CopyFailed? then errors + 1 else errors;
        ManualFromFacts(step.root, names[1..], order, m, r);
        CountCandidatesGrows(root, step.root, names[1..]);
        GrowsTransitive(root, step.root, ManualFrom(step.root, names[1..], order, m, r).root);
      } else {
        ManualFromFacts(root, names[1..], order, migrated, errors);
      }
    }
  }

  /**
    What decides a step: it is skipped exactly when the name has a `_` or no
    non-empty course name is found; otherwise it copies exactly when no plain
    file holds the new directory's place and every listed `*.json` entry of the
    original is a regular file, and fails in every other case.
  */
  lemma ManualStepOutcome(root: Root, dirName: string, order: seq<string>)
    requires IsDir(root, dirName)
    ensures var items := root[dirName].items;
      var names := Listing(order, items.Keys);
      var cn := FoundName(items, names);
      var out := ManualStep(root, dirName, order).out;
      && (out.Skipped? <==> '_' in dirName || cn.None? || cn.value == [])
      && (out.Copied? <==>
            && '_' !in dirName && cn.Some? && cn.value != []
            && !(NewDirName(dirName, cn.value) in root && root[NewDirName(dirName, cn.value)].PlainFile?)
            && forall n :: n in names && IsJson(n) ==> n in items && items[n].File?)
  {
    var items := root[dirName].items;
    var names := Listing(order, items.Keys);
    var cn := FoundName(items, names);
    if '_' !in dirName && cn.Some? && cn.value != [] {
      var target := NewDirName(dirName, cn.value);
      CopyIntoSpec(items, names, ItemsOf(root, target));
    }
  }

  /** The number of listed directories whose step, taken on `root`, has outcome `o`. */
  function CountOutcome(root: Root, names: seq<string>, order: seq<string>, o: Step): nat {
    if names == [] then 0
    else (if IsDir(root, names[0]) && ManualStep(root, names[0], order).out == o then 1 else 0)
         + CountOutcome(root, names[1..], order, o)
  }

  /**
    `b` is `a` after some steps: nothing is removed or changes kind, every new
    entry is a directory, and entries whose name has no `_` are untouched.
  */
  ghost predicate KeepsOriginals(a: Root, b: Root) {
    && Grows(a, b)
    && (forall d :: d in b && b[d].PlainFile? ==> d in a)
    && (forall d :: d in a && '_' !in d ==> d in b && b[d] == a[d])
  }

  lemma KeepsOriginalsTransitive(a: Root, b: Root, c: Root)
    requires KeepsOriginals(a, b) && KeepsOriginals(b, c)
    ensures KeepsOriginals(a, c)
  {
    GrowsTransitive(a, b, c);
  }

  /** A step writes only the new directory `<dir>_<name>`, whose name has a `_`. */
  lemma StepKeepsOriginals(root: Root, dirName: string, order: seq<string>)
    requires IsDir(root, dirName)
    ensures KeepsOriginals(root, ManualStep(root, dirName, order).root)
  {
    ManualStepSpec(root, dirName, order);
    var e := ManualStep(root, dirName, order);
    var items := root[dirName].items;
    var cn := FoundName(items, Listing(order, items.Keys));
    if cn.Some? {
      var target := NewDirName(dirName, cn.value);
      assert target[|dirName|] == '_';
      assert forall d :: d in e.root && (d !in root || e.root[d] != root[d]) ==> d == target;
    }
  }

  /** Steps taken earlier in the loop do not change the outcome of a later directory's step. */
  lemma StepOutcomeKept(a: Root, b: Root, dirName: string, order: seq<string>)
    requires KeepsOriginals(a, b) && IsDir(a, dirName)
    ensures IsDir(b, dirName) && ManualStep(b, dirName, order).out == ManualStep(a, dirName, order).out
  {
    if '_' !in dirName {
      ManualStepOutcome(a, dirName, order);
      ManualStepOutcome(b, dirName, order);
    }
  }

  lemma {:induction false} CountOutcomeKept(a: Root, b: Root, names: seq<string>, order: seq<string>, o: Step)
    requires KeepsOriginals(a, b)
    requires forall n :: n in names ==> n in a
    ensures CountOutcome(b, names, order, o) == CountOutcome(a, names, order, o)
    decreases |names|
  {
    if names != [] {
      if IsDir(a, names[0]) {
        StepOutcomeKept(a, b, names[0], order);
      }
      CountOutcomeKept(a, b, names[1..], order, o);
    }
  }

  /**
    The loop counts exactly: `migrated` goes up once for every listed directory
    whose step copies and `errors` once for every one whose step fails, each
    outcome as the step would have it on the root the loop starts from.
  */
  lemma {:induction false} ManualFromCounts(root: Root, names: seq<string>, order: seq<string>, migrated: nat, errors: nat)
    requires forall n :: n in names ==> n in root
    ensures var e := ManualFrom(root, names, order, migrated, errors);
      && KeepsOriginals(root, e.root)
      && e.out.migrated == migrated + CountOutcome(root, names, order, Copied)
      && e.out.errors == errors + CountOutcome(root, names, order, CopyFailed)
    decreases |names|
  {
    if names != [] {
      assert forall n :: n in names[1..] ==> n in names;
      if IsDir(root, names[0]) {
        var step := ManualStep(root, names[0], order);
        StepKeepsOriginals(root, names[0], order);
        var m := if step.out.Copied? then migrated + 1 else migrated;
        var r := if step.out.CopyFailed? then errors + 1 else errors;
        ManualFromCounts(step.root, names[1..], order, m, r);
        CountOutcomeKept(root, step.root, names[1..], order, Copied);
        CountOutcomeKept(root, step.root, names[1..], order, CopyFailed);
        KeepsOriginalsTransitive(root, step.root, ManualFrom(step.root, names[1..], order, m, r).root);
      } else {
        ManualFromCounts(root, names[1..], order, migrated, errors);
      }
    }
  }

  lemma {:induction false} CountCandidatesGrows(a: Root, b: Root, names: seq<string>)
    requires Grows(a, b)
    requires forall n :: n in names ==> n in a
    ensures CountCandidates(b, names) == CountCandidates(a, names)
    decreases |names|
  {
    if names != [] {
      CountCandidatesGrows(a, b, names[1..]);
    }
  }

  /**
    The script never deletes anything and leaves the original directories as
    they were; it counts at most one outcome per directory whose name has no
    `_`: `migrated` is the number of listed directories whose step copies and
    `errors` the number whose step fails.
  */
  lemma ManualMigrationSpec(present: bool, root: Root, order: seq<string>)
    ensures var e := ManualMigration(present, root, order);
      && Grows(root, e.root)
      && (!present ==> e == Effect(root, NoDataDir))
      && (present ==>
            var names := Listing(order, root.Keys);
            && e.out.Summary?
            && KeepsOriginals(root, e.root)
            && e.out.migrated + e.out.errors <= CountCandidates(root, names)
            && e.out.migrated == CountOutcome(root, names, order, Copied)
            && e.out.errors == CountOutcome(root, names, order, CopyFailed))
  {
    if present {
      ManualFromFacts(root, Listing(order, root.Keys), order, 0, 0);
      ManualFromCounts(root, Listing(order, root.Keys), order, 0, 0);
    }
  }

  /** The embeddings directory the script works on. */
  class DataDirectory {
    /** Whether `DATA_DIR` exists. */
    const present: bool
    var root: Root

    constructor(present: bool, initial: Root)
      ensures this.present == present && root == initial
    {
      this.present := present;
      root := initial;
    }

    /** The inner listing loop: the first regular `*.json` file naming the course. */
    method FindCourseName(items: Dir, names: seq<string>) returns (found: Option<string>)
      ensures found == FoundName(items, names)
    {
      var i := 0;
      while i < |names|
        invariant 0 <= i <= |names|
        invariant FoundName(items, names) == FoundName(items, names[i..])
      {
        assert names[i..][1..] == names[i + 1..];
        var n := names[i];
        if IsJson(n) && n in items && items[n].File? {
          var name := NameIn(items[n].content);
          if name.Some? {
            return name;
          }
        }
        i := i + 1;
      }
      return None;
    }

    /** One iteration of the loop: find the name, create `<dir>_<name>` and copy the `*.json` files into it. */
    method MigrateCourse(dirName: string, order: seq<string>) returns (step: Step)
      requires IsDir(root, dirName)
      modifies this
      ensures root == ManualStep(old(root), dirName, order).root
      ensures step == ManualStep(old(root), dirName, order).out
    {
      if '_' in dirName {
        return Skipped;
      }
      var items := root[dirName].items;
      var names := Listing(order, items.Keys);
      var found := FindCourseName(items, names);
      if found.None? || found.value == [] {
        return Skipped;
      }
      step := CopyTo(items, names, NewDirName(dirName, found.value));
    }

    /** Creates the new directory `target` and copies the listed documents into it. */
    method CopyTo(items: Dir, names: seq<string>, target: string) returns (step: Step)
      modifies this
      ensures root == CopiedTo(old(root), items, names, target).root
      ensures step == CopiedTo(old(root), items, names, target).out
    {
      if target in root && root[target].PlainFile? {
        return CopyFailed;
      }
      var copied := CopyCourseFiles(items, names, target, ItemsOf(root, target));
      return if copied then Copied else CopyFailed;
    }

    /** The `shutil.copy2` loop: the listed `*.json` entries of `src` into directory `target`. */
    method CopyCourseFiles(src: Dir, names: seq<string>, target: string, dst: Dir) returns (ok: bool)
      modifies this
      ensures root == old(root)[target := Directory(CopyInto(src, names, dst).items)]
      ensures ok == CopyInto(src, names, dst).ok
    {
      var cur := dst;
      root := root[target := Directory(cur)];
      var i := 0;
      while i < |names|
        invariant 0 <= i <= |names|
        invariant CopyInto(src, names, dst) == CopyInto(src, names[i..], cur)
        invariant root == old(root)[target := Directory(cur)]
      {
        var n := names[i];
        assert names[i..][1..] == names[i + 1..];
        if IsJson(n) {
          if n !in src || src[n].SubDir? {
            return false;
          }
          if !(n in cur && cur[n].SubDir?) {
            cur := cur[n := src[n]];
            root := root[target := Directory(cur)];
          }
        }
        i := i + 1;
      }
      return true;
    }

    /** `migrate_embeddings`: walks the listing of the root taken at the start and counts the outcomes. */
    method MigrateEmbeddings(order: seq<string>) returns (summary: Summary)
      modifies this
      ensures root == ManualMigration(present, old(root), order).root
      ensures summary == ManualMigration(present, old(root), order).out
    {
      if !present {
        return NoDataDir;
      }
      var names := Listing(order, root.Keys);
      var migrated, errors := 0, 0;
      var i := 0;
      while i < |names|
        invariant 0 <= i <= |names|
        invariant ManualMigration(present, old(root), order) == ManualFrom(root, names[i..], order, migrated, errors)
      {
        var n := names[i];
        assert names[i..][1..] == names[i + 1..];
        if IsDir(root, n) {
          var step := MigrateCourse(n, order);
          if step.Copied? {
            migrated := migrated + 1;
          } else if step.CopyFailed? {
            errors := errors + 1;
          }
        }
        i := i + 1;
      }
      return Summary(migrated, errors);
    }
  }
}
