/**
 The persistent index as the query layer sees it: the nine index keys, the
 files the index refers to, the per-document index results and an abstract
 query support that answers prefix queries or fails with an I/O error.
 The persistence, prefix matching and versioning of the real store are not
 part of this model; only what the query layer relies on is stated here.
 */
module IndexStore {

  datatype Option<+T> = None | Some(value: T)

  /** The nine fixed index keys. */
  datatype Key =
    | ClassKey | FieldKey | MethodKey | ClassFieldKey | ClassMethodKey
    | MethodParamKey | RootMethodKey | RootClassKey | RootFieldKey
  {
    /** The string under which the key is stored in the index. */
    function Name(): string
    {
      match this
      case ClassKey => "CLASS_KEY"
      case FieldKey => "FIELD_KEY"
      case MethodKey => "METHOD_KEY"
      case ClassFieldKey => "CLASS_FIELD_KEY"
      case ClassMethodKey => "CLASS_METHOD_KEY"
      case MethodParamKey => "METHOD_PARAM_KEY"
      case RootMethodKey => "ROOT_METHOD_KEY"
      case RootClassKey => "ROOT_CLASS_KEY"
      case RootFieldKey => "ROOT_FIELD_KEY"
    }
  }

  /** Distinct keys are stored under distinct names, so no two keys share entries. */
  lemma NamesAreDistinct(a: Key, b: Key)
    ensures a.Name() == b.Name() <==> a == b
  {
  }

  /**
   A source file of the project, with the MIME type the file system reports
   for it. Two values with one path and different MIME types stand for no
   real file; the model never relies on that case.
   */
  datatype File = File(path: string, mimeType: string)

  /**
   One result of an index query: the indexed document's file, which is None
   once the file no longer resolves (deleted or moved), and the stored values
   of each key the document carries.
   */
  datatype IndexResult = IndexResult(file: Option<File>, stored: map<Key, seq<string>>)
  {
    /** The stored values of `key`; a document without the key has none. */
    function Values(key: Key): seq<string>
    {
      if key in stored then stored[key] else []
    }

    /** Whether a prefix query for `key` and `prefix` matches this document. */
    predicate Carries(key: Key, prefix: string)
    {
      key in stored && (prefix == [] || exists v :: v in stored[key] && prefix <= v)
    }
  }

  /** The outcome of a query: the matching results, or an I/O failure. */
  datatype QueryOutcome = Found(results: seq<IndexResult>) | IOError

  /** The documents carrying `key` under `prefix`, in store order. */
  function Matching(documents: seq<IndexResult>, key: Key, prefix: string): (rs: seq<IndexResult>)
    ensures forall r :: r in rs <==> r in documents && r.Carries(key, prefix)
  {
    if documents == [] then []
    else
      var last := documents[|documents| - 1];
      Matching(documents[..|documents| - 1], key, prefix) + (if last.Carries(key, prefix) then [last] else [])
  }

  /**
   The index of a project's source roots. `documents` are the indexed
   documents in the order the store returns them; a query for a key in
   `unreadable` fails with an I/O error.
   */
  datatype QuerySupport = QuerySupport(documents: seq<IndexResult>, unreadable: set<Key>)
  {
    /** A prefix query over one key. */
    function Query(key: Key, prefix: string): (o: QueryOutcome)
      ensures o.IOError? <==> key in unreadable
      ensures o.Found? ==> forall r :: r in o.results <==> r in documents && r.Carries(key, prefix)
    {
      if key in unreadable then IOError else Found(Matching(documents, key, prefix))
    }
  }
}
