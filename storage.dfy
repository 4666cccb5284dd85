/**
  The on-disk layout the vector store works on, with JSON already parsed.

  The storage root holds course directories (and possibly stray plain files);
  a course directory holds document files `<documentId>.json`, the marker file
  `course_info.json`, and possibly anything else (other files, subdirectories).
*/
module Storage {
  import opened Common

  /** The `payload` object of a vector record, as `store_embeddings` writes it. */
  datatype Payload = Payload(
    courseId: string,
    documentId: string,
    chunkIndex: int,
    content: string,
    metadata: map<string, string>,
    chunkType: string)

  /** One element of a document file; `None` stands for a key absent from the JSON object. */
  datatype Record = Record(id: Option<string>, vector: seq<real>, payload: Option<Payload>)

  /** What `json.load` makes of a file. */
  datatype Content =
    | Marker(id: string, name: string)   // a JSON object `{"id": ..., "name": ...}`
    | Records(records: seq<Record>)      // a JSON array of vector records
    | Unparseable                        // anything `json.load` rejects

  /** An entry of a course directory. */
  datatype Item = File(content: Content) | SubDir

  type Dir = map<string, Item>

  /** An entry of the storage root. */
  datatype Entry = Directory(items: Dir) | PlainFile

  type Root = map<string, Entry>

  /** The exceptions the model distinguishes. */
  datatype Fault =
    | NotADirectory(name: string)   // makedirs over an existing plain file
    | IsADirectory(name: string)    // open/remove of a path that is a directory
    | Malformed(name: string)       // json.load failed, or the JSON has the wrong shape
    | MissingKey(key: string)       // a record lacks "id" or "payload"
    | ShapeMismatch                 // numpy could not combine the two vectors
    | NotEmpty(name: string)        // rmdir of a directory that still has entries

  const MarkerFile: string := "course_info.json"

  predicate IsJson(name: string) { EndsWith(name, ".json") }

  function DocFile(documentId: string): (name: string)
    ensures IsJson(name)
  {
    documentId + ".json"
  }

  predicate IsDir(root: Root, name: string) {
    name in root && root[name].Directory?
  }

  /** The entries of directory `name`, or none if it does not exist (yet). */
  function ItemsOf(root: Root, name: string): Dir {
    if IsDir(root, name) then root[name].items else map[]
  }

  /** `order` is an enumeration order in which `os.listdir` reports every entry of the store, once. */
  ghost predicate ListsAll(order: seq<string>, root: Root) {
    && Distinct(order)
    && (forall n :: n in root ==> n in order)
    && (forall d, n :: d in root && root[d].Directory? && n in root[d].items ==> n in order)
  }
}
