/**
 What the query layer of the CoffeeScript index answers, as pure functions
 of the store's contents, and the properties of those answers: every
 definition of an "in file" query comes from the asked file, every one of a
 "from other files" query from another live file, results of deleted files
 never appear, the in-file and other-file queries split the live values of
 their keys between them, keys appear in a fixed order, and a failed store
 query yields an empty answer.
 */
module IndexQueries {
  import opened IndexStore

  /** The MIME type of CoffeeScript source files. */
  const MIME_TYPE := "text/coffeescript"

  /**
   A definition reconstituted from the index. Decoding of the stored value
   is not modelled: a definition is the stored value with the file it came from.
   */
  datatype Definition = Definition(value: string, file: File)

  /** The definition factory: pairs a stored value with its file. */
  function Create(value: string, file: File): (d: Definition)
  {
    Definition(value, file)
  }

  /** Which files a query keeps: the asked file, every other file, or (as a reference) every file. */
  datatype Side = SameFile(fo: File) | OtherFiles(fo: File) | AnyFile
  {
    predicate Selects(f: File)
    {
      match this
      case SameFile(fo) => f == fo
      case OtherFiles(fo) => f != fo
      case AnyFile => true
    }
  }

  // ---------------------------------------------------------------------
  // Dropping results of deleted files
  // ---------------------------------------------------------------------

  /** Every result's file still resolves. */
  predicate AllLive(rs: seq<IndexResult>)
  {
    forall r :: r in rs ==> r.file.Some?
  }

  /** The results whose file still resolves, in their original order. */
  function FilterDeleted(rs: seq<IndexResult>): (live: seq<IndexResult>)
    ensures |live| <= |rs|
    ensures forall r :: r in live <==> r in rs && r.file.Some?
  {
    if rs == [] then []
    else
      var last := rs[|rs| - 1];
      FilterDeleted(rs[..|rs| - 1]) + (if last.file.Some? then [last] else [])
  }

  /** Filtering distributes over concatenation, so the kept results stay in input order. */
  lemma {:induction false} FilterDeletedAppend(a: seq<IndexResult>, b: seq<IndexResult>)
    ensures FilterDeleted(a + b) == FilterDeleted(a) + FilterDeleted(b)
    decreases |b|
  {
    if b != [] {
      var b', last := b[..|b| - 1], b[|b| - 1];
      assert (a + b)[..|a + b| - 1] == a + b';
      FilterDeletedAppend(a, b');
    } else {
      assert a + b == a;
    }
  }

  /** Every live result is kept exactly as often as it occurs; no deleted result is kept. */
  lemma {:induction false} FilterDeletedCounts(rs: seq<IndexResult>, r: IndexResult)
    ensures multiset(FilterDeleted(rs))[r] == if r.file.Some? then multiset(rs)[r] else 0
  {
    if rs != [] {
      var init, last := rs[..|rs| - 1], rs[|rs| - 1];
      assert rs == init + [last];
      FilterDeletedCounts(init, r);
    }
  }

  /** Filtering twice is filtering once. */
  lemma {:induction false} FilterDeletedIdempotent(rs: seq<IndexResult>)
    ensures FilterDeleted(FilterDeleted(rs)) == FilterDeleted(rs)
  {
    if rs != [] {
      var init, last := rs[..|rs| - 1], rs[|rs| - 1];
      FilterDeletedIdempotent(init);
      var once := FilterDeleted(init);
      if last.file.Some? {
        FilterDeletedAppend(once, [last]);
      } else {
        assert FilterDeleted(rs) == once;
      }
    }
  }

  // ---------------------------------------------------------------------
  // Collecting the stored values of one key
  // ---------------------------------------------------------------------

  /** The definitions built from `values`, one per value and in the same order, all in file `f`. */
  function DefsOf(values: seq<string>, f: File): (ds: seq<Definition>)
    ensures |ds| == |values|
  {
    if values == [] then []
    else DefsOf(values[..|values| - 1], f) + [Create(values[|values| - 1], f)]
  }

  /** The `i`-th definition holds the `i`-th value. */
  lemma {:induction false} DefsOfAt(values: seq<string>, f: File, i: nat)
    requires i < |values|
    ensures DefsOf(values, f)[i] == Definition(values[i], f)
  {
    if i < |values| - 1 {
      DefsOfAt(values[..|values| - 1], f, i);
    }
  }

  /** The definitions built from `values` are exactly those with file `f` and a value among `values`. */
  lemma DefsOfMembership(values: seq<string>, f: File, d: Definition)
    ensures d in DefsOf(values, f) <==> d.file == f && d.value in values
  {
    var ds := DefsOf(values, f);
    if d.file == f && d.value in values {
      var i :| 0 <= i < |values| && values[i] == d.value;
      DefsOfAt(values, f, i);
      assert ds[i] == d;
    }
    if d in ds {
      var i :| 0 <= i < |ds| && ds[i] == d;
      DefsOfAt(values, f, i);
    }
  }

  /**
   The values of `key` of every result whose file `side` selects, as
   definitions, result by result and value by value in input order. The
   results are those left after deleted files were dropped.
   */
  function Gather(rs: seq<IndexResult>, key: Key, side: Side): (ds: seq<Definition>)
    requires AllLive(rs)
  {
    if rs == [] then []
    else
      var last := rs[|rs| - 1];
      Gather(rs[..|rs| - 1], key, side)
        + (if side.Selects(last.file.value) then DefsOf(last.Values(key), last.file.value) else [])
  }

  /** Extending the gathered prefix of `rs` by one result adds that result's selected values. */
  lemma GatherStep(rs: seq<IndexResult>, i: nat, key: Key, side: Side)
    requires AllLive(rs) && i < |rs|
    ensures Gather(rs[..i + 1], key, side)
         == Gather(rs[..i], key, side)
            + (if side.Selects(rs[i].file.value) then DefsOf(rs[i].Values(key), rs[i].file.value) else [])
  {
    assert rs[..i + 1][..i] == rs[..i];
  }

  /** Extending the built prefix of `values` by one value adds its definition. */
  lemma DefsOfStep(values: seq<string>, j: nat, f: File)
    requires j < |values|
    ensures DefsOf(values[..j + 1], f) == DefsOf(values[..j], f) + [Create(values[j], f)]
  {
    assert values[..j + 1][..j] == values[..j];
  }

  /** Result `r` is the live result that `d` of a query over `key` on `side` was taken from. */
  predicate Provides(r: IndexResult, key: Key, side: Side, d: Definition)
  {
    r.file == Some(d.file) && side.Selects(d.file) && d.value in r.Values(key)
  }

  /** A definition is gathered exactly when some live, selected result stores its value under `key`. */
  lemma {:induction false} GatherMembership(rs: seq<IndexResult>, key: Key, side: Side, d: Definition)
    requires AllLive(rs)
    ensures d in Gather(rs, key, side) <==> exists r :: r in rs && Provides(r, key, side, d)
  {
    if rs != [] {
      var init, last := rs[..|rs| - 1], rs[|rs| - 1];
      assert rs == init + [last];
      GatherMembership(init, key, side, d);
      var tail := if side.Selects(last.file.value) then DefsOf(last.Values(key), last.file.value) else [];
      GatherSnoc(init, last, key, side);
      DefsOfMembership(last.Values(key), last.file.value, d);
      assert d in tail <==> Provides(last, key, side, d);
      if d in Gather(rs, key, side) {
        if d in Gather(init, key, side) {
          var r :| r in init && Provides(r, key, side, d);
          assert r in rs;
        } else {
          assert last in rs && Provides(last, key, side, d);
        }
      }
      if exists r :: r in rs && Provides(r, key, side, d) {
        var r :| r in rs && Provides(r, key, side, d);
        if r != last {
          assert r in init;
        }
      }
    }
  }

  /** Appending one live result to `rs` appends that result's selected values. */
  lemma GatherSnoc(rs: seq<IndexResult>, r: IndexResult, key: Key, side: Side)
    requires AllLive(rs) && r.file.Some?
    ensures AllLive(rs + [r])
    ensures Gather(rs + [r], key, side)
         == Gather(rs, key, side)
            + (if side.Selects(r.file.value) then DefsOf(r.Values(key), r.file.value) else [])
  {
    assert (rs + [r])[..|rs|] == rs;
  }

  /**
   Every live value of `key` is gathered exactly once between the asked
   file and the other files.
   */
  lemma {:induction false} GatherPartition(rs: seq<IndexResult>, key: Key, fo: File)
    requires AllLive(rs)
    ensures multiset(Gather(rs, key, SameFile(fo))) + multiset(Gather(rs, key, OtherFiles(fo)))
         == multiset(Gather(rs, key, AnyFile))
  {
    if rs != [] {
      GatherPartition(rs[..|rs| - 1], key, fo);
    }
  }

  // ---------------------------------------------------------------------
  // Answering the query methods
  // ---------------------------------------------------------------------

  /** The empty-prefix query of every key in `keys` succeeds. */
  predicate Readable(qs: QuerySupport, keys: seq<Key>)
  {
    forall k :: k in keys ==> qs.Query(k, "").Found?
  }

  /** One key's contribution: its live values on `side`, from the empty-prefix query. */
  function KeyAnswer(qs: QuerySupport, key: Key, side: Side): (ds: seq<Definition>)
  {
    match qs.Query(key, "")
    case IOError => []
    case Found(rs) => Gather(FilterDeleted(rs), key, side)
  }

  /** The contributions of `keys`, concatenated in the order of `keys`. */
  function Joined(qs: QuerySupport, keys: seq<Key>, side: Side): (ds: seq<Definition>)
  {
    if keys == [] then []
    else Joined(qs, keys[..|keys| - 1], side) + KeyAnswer(qs, keys[|keys| - 1], side)
  }

  /** A query over `keys`: the joined contributions, or nothing at all when one store query fails. */
  function Select(qs: QuerySupport, keys: seq<Key>, side: Side): (ds: seq<Definition>)
  {
    if Readable(qs, keys) then Joined(qs, keys, side) else []
  }

  function AllFieldsInFile(qs: QuerySupport, fo: File): (ds: seq<Definition>)
  {
    Select(qs, [FieldKey, RootFieldKey, MethodParamKey], SameFile(fo))
  }

  function AllClassesInFile(qs: QuerySupport, fo: File): (ds: seq<Definition>)
  {
    Select(qs, [RootClassKey], SameFile(fo))
  }

  function ClassFieldsInFile(qs: QuerySupport, fo: File): (ds: seq<Definition>)
  {
    Select(qs, [ClassFieldKey], SameFile(fo))
  }

  function ClassMethodsInFile(qs: QuerySupport, fo: File): (ds: seq<Definition>)
  {
    Select(qs, [ClassMethodKey], SameFile(fo))
  }

  function AllMethodsInFile(qs: QuerySupport, fo: File): (ds: seq<Definition>)
  {
    Select(qs, [MethodKey, RootMethodKey], SameFile(fo))
  }

  /** Despite its name, this query also reads METHOD_KEY, not only ROOT_METHOD_KEY. */
  function AllRootMethodsFromOtherFiles(qs: QuerySupport, fo: File): (ds: seq<Definition>)
  {
    Select(qs, [MethodKey, RootMethodKey], OtherFiles(fo))
  }

  function AllRootFieldsFromOtherFiles(qs: QuerySupport, fo: File): (ds: seq<Definition>)
  {
    Select(qs, [RootFieldKey], OtherFiles(fo))
  }

  function AllClassesFromOtherFiles(qs: QuerySupport, fo: File): (ds: seq<Definition>)
  {
    Select(qs, [RootClassKey], OtherFiles(fo))
  }

  /** Some key of `keys` is stored for document `r`, on a side selecting `d`'s file, with `d`'s value. */
  predicate Supplies(r: IndexResult, keys: seq<Key>, side: Side, d: Definition)
  {
    exists k :: k in keys && Provides(r, k, side, d)
  }

  /** A key's contribution holds exactly the values some live selected document stores under it. */
  lemma KeyAnswerMembership(qs: QuerySupport, key: Key, side: Side, d: Definition)
    requires qs.Query(key, "").Found?
    ensures d in KeyAnswer(qs, key, side) <==> exists r :: r in qs.documents && Provides(r, key, side, d)
  {
    var rs := qs.Query(key, "").results;
    assert KeyAnswer(qs, key, side) == Gather(FilterDeleted(rs), key, side);
    GatherMembership(FilterDeleted(rs), key, side, d);
    if exists r :: r in qs.documents && Provides(r, key, side, d) {
      var r :| r in qs.documents && Provides(r, key, side, d);
      assert r.Carries(key, "");
      assert r in rs;
    }
  }

  lemma {:induction false} JoinedMembership(qs: QuerySupport, keys: seq<Key>, side: Side, d: Definition)
    requires Readable(qs, keys)
    ensures d in Joined(qs, keys, side) <==> exists r :: r in qs.documents && Supplies(r, keys, side, d)
  {
    if keys != [] {
      var init, last := keys[..|keys| - 1], keys[|keys| - 1];
      assert keys == init + [last];
      JoinedMembership(qs, init, side, d);
      KeyAnswerMembership(qs, last, side, d);
      if d in Joined(qs, keys, side) {
        if d in Joined(qs, init, side) {
          var r :| r in qs.documents && Supplies(r, init, side, d);
          var k :| k in init && Provides(r, k, side, d);
          assert k in keys;
        } else {
          var r :| r in qs.documents && Provides(r, last, side, d);
          assert Supplies(r, keys, side, d);
        }
      }
      if exists r :: r in qs.documents && Supplies(r, keys, side, d) {
        var r :| r in qs.documents && Supplies(r, keys, side, d);
        var k :| k in keys && Provides(r, k, side, d);
        if k != last {
          assert k in init;
          assert Supplies(r, init, side, d);
        }
      }
    }
  }

  /**
   A query over `keys` returns `d` exactly when every store query succeeds
   and some live document whose file `side` selects stores `d`'s value under
   one of `keys` with `d`'s file.
   */
  lemma SelectMembership(qs: QuerySupport, keys: seq<Key>, side: Side, d: Definition)
    ensures d in Select(qs, keys, side)
        <==> Readable(qs, keys) && exists r :: r in qs.documents && Supplies(r, keys, side, d)
  {
    if Readable(qs, keys) {
      JoinedMembership(qs, keys, side, d);
    }
  }

  /** One failing store query empties the whole query. */
  lemma SelectFails(qs: QuerySupport, keys: seq<Key>, side: Side, k: Key)
    requires k in keys && qs.Query(k, "").IOError?
    ensures Select(qs, keys, side) == []
  {
  }

  /** A query over a single key is that key's contribution, failure included. */
  lemma SelectOne(qs: QuerySupport, key: Key, side: Side)
    ensures Select(qs, [key], side) == KeyAnswer(qs, key, side)
  {
    assert [key][..0] == [];
    assert Joined(qs, [key], side) == KeyAnswer(qs, key, side);
    assert key in [key];
  }

  /** Every definition a query on the asked file's side returns carries that file. */
  lemma SelectSameFile(qs: QuerySupport, keys: seq<Key>, fo: File, d: Definition)
    ensures d in Select(qs, keys, SameFile(fo)) ==> d.file == fo
  {
    SelectMembership(qs, keys, SameFile(fo), d);
  }

  /** Every definition a query on the other files' side returns carries another, live file. */
  lemma SelectOtherFiles(qs: QuerySupport, keys: seq<Key>, fo: File, d: Definition)
    ensures d in Select(qs, keys, OtherFiles(fo)) ==>
              d.file != fo && exists r :: r in qs.documents && r.file == Some(d.file)
  {
    SelectMembership(qs, keys, OtherFiles(fo), d);
    if d in Select(qs, keys, OtherFiles(fo)) {
      var r :| r in qs.documents && Supplies(r, keys, OtherFiles(fo), d);
      var k :| k in keys && Provides(r, k, OtherFiles(fo), d);
    }
  }

  /** Every definition an "in file" query returns carries the asked file. */
  lemma InFileQueriesStayInFile(qs: QuerySupport, fo: File, d: Definition)
    ensures d in AllFieldsInFile(qs, fo) ==> d.file == fo
    ensures d in AllClassesInFile(qs, fo) ==> d.file == fo
    ensures d in ClassFieldsInFile(qs, fo) ==> d.file == fo
    ensures d in ClassMethodsInFile(qs, fo) ==> d.file == fo
    ensures d in AllMethodsInFile(qs, fo) ==> d.file == fo
  {
    SelectMembership(qs, [FieldKey, RootFieldKey, MethodParamKey], SameFile(fo), d);
    SelectMembership(qs, [RootClassKey], SameFile(fo), d);
    SelectMembership(qs, [ClassFieldKey], SameFile(fo), d);
    SelectMembership(qs, [ClassMethodKey], SameFile(fo), d);
    SelectMembership(qs, [MethodKey, RootMethodKey], SameFile(fo), d);
  }

  /**
   Every definition a "from other files" query returns carries a file other
   than the asked one, and that file belongs to a document that still resolves.
   */
  lemma OtherFileQueriesAvoidFile(qs: QuerySupport, fo: File, d: Definition)
    ensures d in AllRootMethodsFromOtherFiles(qs, fo) ==>
              d.file != fo && exists r :: r in qs.documents && r.file == Some(d.file)
    ensures d in AllRootFieldsFromOtherFiles(qs, fo) ==>
              d.file != fo && exists r :: r in qs.documents && r.file == Some(d.file)
    ensures d in AllClassesFromOtherFiles(qs, fo) ==>
              d.file != fo && exists r :: r in qs.documents && r.file == Some(d.file)
  {
    SelectMembership(qs, [MethodKey, RootMethodKey], OtherFiles(fo), d);
    SelectMembership(qs, [RootFieldKey], OtherFiles(fo), d);
    SelectMembership(qs, [RootClassKey], OtherFiles(fo), d);
  }

  /**
   The "root methods from other files" query also returns class-member
   methods: any METHOD_KEY value of a live document of another file is in
   its answer when both store queries succeed.
   */
  lemma RootMethodsFromOtherFilesIncludeMemberMethods(qs: QuerySupport, fo: File, r: IndexResult, f: File, v: string)
    requires r in qs.documents && r.file == Some(f) && f != fo && v in r.Values(MethodKey)
    requires Readable(qs, [MethodKey, RootMethodKey])
    ensures Definition(v, f) in AllRootMethodsFromOtherFiles(qs, fo)
  {
    var keys, d := [MethodKey, RootMethodKey], Definition(v, f);
    assert Provides(r, MethodKey, OtherFiles(fo), d);
    assert Supplies(r, keys, OtherFiles(fo), d);
    SelectMembership(qs, keys, OtherFiles(fo), d);
  }

  /**
   The fields of a file are its FIELD_KEY values, then its ROOT_FIELD_KEY
   values, then its METHOD_PARAM_KEY values; nothing if a store query fails.
   */
  lemma FieldsInFileLayout(qs: QuerySupport, fo: File)
    ensures Readable(qs, [FieldKey, RootFieldKey, MethodParamKey]) ==>
              AllFieldsInFile(qs, fo)
                == KeyAnswer(qs, FieldKey, SameFile(fo)) + KeyAnswer(qs, RootFieldKey, SameFile(fo))
                   + KeyAnswer(qs, MethodParamKey, SameFile(fo))
    ensures Readable(qs, [FieldKey, RootFieldKey, MethodParamKey]) ==>
              |AllFieldsInFile(qs, fo)|
                == |KeyAnswer(qs, FieldKey, SameFile(fo))| + |KeyAnswer(qs, RootFieldKey, SameFile(fo))|
                   + |KeyAnswer(qs, MethodParamKey, SameFile(fo))|
    ensures !Readable(qs, [FieldKey, RootFieldKey, MethodParamKey]) ==> AllFieldsInFile(qs, fo) == []
  {
    var keys, side := [FieldKey, RootFieldKey, MethodParamKey], SameFile(fo);
    assert keys[..2] == [FieldKey, RootFieldKey] && [FieldKey, RootFieldKey][..1] == [FieldKey];
    JoinedOfTwo(qs, FieldKey, RootFieldKey, side);
    assert Joined(qs, keys, side) == Joined(qs, [FieldKey, RootFieldKey], side) + KeyAnswer(qs, MethodParamKey, side);
  }

  /** Joining two keys puts the first key's contribution first. */
  lemma JoinedOfTwo(qs: QuerySupport, k1: Key, k2: Key, side: Side)
    ensures Joined(qs, [k1, k2], side) == KeyAnswer(qs, k1, side) + KeyAnswer(qs, k2, side)
  {
    assert [k1, k2][..1] == [k1] && [k1][..0] == [];
    assert Joined(qs, [k1], side) == KeyAnswer(qs, k1, side);
  }

  /**
   Both method queries list METHOD_KEY values before ROOT_METHOD_KEY
   values; nothing if a store query fails.
   */
  lemma MethodsLayout(qs: QuerySupport, fo: File)
    ensures Readable(qs, [MethodKey, RootMethodKey]) ==>
              AllMethodsInFile(qs, fo)
                == KeyAnswer(qs, MethodKey, SameFile(fo)) + KeyAnswer(qs, RootMethodKey, SameFile(fo))
    ensures Readable(qs, [MethodKey, RootMethodKey]) ==>
              AllRootMethodsFromOtherFiles(qs, fo)
                == KeyAnswer(qs, MethodKey, OtherFiles(fo)) + KeyAnswer(qs, RootMethodKey, OtherFiles(fo))
    ensures !Readable(qs, [MethodKey, RootMethodKey]) ==>
              AllMethodsInFile(qs, fo) == [] && AllRootMethodsFromOtherFiles(qs, fo) == []
  {
    JoinedOfTwo(qs, MethodKey, RootMethodKey, SameFile(fo));
    JoinedOfTwo(qs, MethodKey, RootMethodKey, OtherFiles(fo));
  }

  lemma {:induction false} JoinedPartition(qs: QuerySupport, keys: seq<Key>, fo: File)
    ensures multiset(Joined(qs, keys, SameFile(fo))) + multiset(Joined(qs, keys, OtherFiles(fo)))
         == multiset(Joined(qs, keys, AnyFile))
  {
    if keys != [] {
      var init, last := keys[..|keys| - 1], keys[|keys| - 1];
      JoinedPartition(qs, init, fo);
      match qs.Query(last, "")
      case IOError =>
      case Found(rs) =>
        GatherPartition(FilterDeleted(rs), last, fo);
    }
  }

  /**
   Taken together, the classes in `fo` and the classes from other files hold
   every ROOT_CLASS_KEY value of every live document exactly once.
   */
  lemma ClassPartition(qs: QuerySupport, fo: File)
    ensures multiset(AllClassesInFile(qs, fo)) + multiset(AllClassesFromOtherFiles(qs, fo))
         == multiset(Select(qs, [RootClassKey], AnyFile))
  {
    JoinedPartition(qs, [RootClassKey], fo);
  }

  /**
   Taken together, the methods in `fo` and the "root" methods from other
   files hold every METHOD_KEY and ROOT_METHOD_KEY value of every live
   document exactly once.
   */
  lemma MethodPartition(qs: QuerySupport, fo: File)
    ensures multiset(AllMethodsInFile(qs, fo)) + multiset(AllRootMethodsFromOtherFiles(qs, fo))
         == multiset(Select(qs, [MethodKey, RootMethodKey], AnyFile))
  {
    JoinedPartition(qs, [MethodKey, RootMethodKey], fo);
  }

  /** A failing store query for key `k` empties every query method that reads `k`. */
  lemma QueriesFailOpen(qs: QuerySupport, fo: File, k: Key)
    requires qs.Query(k, "").IOError?
    ensures k in [FieldKey, RootFieldKey, MethodParamKey] ==> AllFieldsInFile(qs, fo) == []
    ensures k == RootClassKey ==> AllClassesInFile(qs, fo) == [] && AllClassesFromOtherFiles(qs, fo) == []
    ensures k == ClassFieldKey ==> ClassFieldsInFile(qs, fo) == []
    ensures k == ClassMethodKey ==> ClassMethodsInFile(qs, fo) == []
    ensures k in [MethodKey, RootMethodKey] ==>
              AllMethodsInFile(qs, fo) == [] && AllRootMethodsFromOtherFiles(qs, fo) == []
    ensures k == RootFieldKey ==> AllRootFieldsFromOtherFiles(qs, fo) == []
  {
  }

  // ---------------------------------------------------------------------
  // Files of CoffeeScript type among query results
  // ---------------------------------------------------------------------

  /** The file of each result whose MIME type is the CoffeeScript one, in order; the results are live ones. */
  function CoffeeFiles(rs: seq<IndexResult>): (files: seq<File>)
    requires AllLive(rs)
  {
    if rs == [] then []
    else
      var last := rs[|rs| - 1];
      CoffeeFiles(rs[..|rs| - 1]) + (if last.file.value.mimeType == MIME_TYPE then [last.file.value] else [])
  }

  /** A file is listed exactly when some result of it has the CoffeeScript MIME type. */
  lemma {:induction false} CoffeeFilesMembership(rs: seq<IndexResult>, f: File)
    requires AllLive(rs)
    ensures f in CoffeeFiles(rs) <==> f.mimeType == MIME_TYPE && exists r :: r in rs && r.file == Some(f)
  {
    if rs != [] {
      var init, last := rs[..|rs| - 1], rs[|rs| - 1];
      assert rs == init + [last];
      CoffeeFilesMembership(init, f);
      if exists r :: r in rs && r.file == Some(f) {
        var r :| r in rs && r.file == Some(f);
        if r != last {
          assert r in init;
        }
      }
    }
  }

  /** Listing distributes over concatenation: one file per qualifying result, in result order. */
  lemma {:induction false} CoffeeFilesAppend(a: seq<IndexResult>, b: seq<IndexResult>)
    requires AllLive(a) && AllLive(b)
    ensures AllLive(a + b)
    ensures CoffeeFiles(a + b) == CoffeeFiles(a) + CoffeeFiles(b)
    decreases |b|
  {
    if b != [] {
      var b' := b[..|b| - 1];
      assert (a + b)[..|a + b| - 1] == a + b';
      CoffeeFilesAppend(a, b');
    } else {
      assert a + b == a;
    }
  }

  /** No more files are listed than there are results. */
  lemma {:induction false} CoffeeFilesBound(rs: seq<IndexResult>)
    requires AllLive(rs)
    ensures |CoffeeFiles(rs)| <= |rs|
  {
    if rs != [] {
      CoffeeFilesBound(rs[..|rs| - 1]);
    }
  }
}
