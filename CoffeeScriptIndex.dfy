/**
 The query façade over the CoffeeScript index. Each query runs an
 empty-prefix store query per key, drops the results of deleted files,
 keeps the results of the asked file (or of every other file) and appends
 the stored values of the key, as definitions, to a growing result list.
 A store query that fails with an I/O error makes the whole query return
 an empty list.
 */
module CoffeeScriptIndexing {
  import opened IndexStore
  import opened IndexQueries

  class CoffeeScriptIndex {
    /** The index of the project's source roots. */
    const querySupport: QuerySupport

    /** Opens the façade over an already located index; finding the source roots is not modelled. */
    constructor (querySupport: QuerySupport)
      ensures this.querySupport == querySupport
    {
      this.querySupport := querySupport;
    }

    /** Keeps, in order, the results whose file still resolves. */
    method FilterDeletedFiles(queryResult: seq<IndexResult>) returns (filtered: seq<IndexResult>)
      ensures filtered == FilterDeleted(queryResult)
    {
      filtered := [];
      for i := 0 to |queryResult|
        invariant filtered == FilterDeleted(queryResult[..i])
      {
        if queryResult[i].file.Some? {
          filtered := filtered + [queryResult[i]];
        }
        assert queryResult[..i + 1][..i] == queryResult[..i];
      }
      assert queryResult[..|queryResult|] == queryResult;
    }

    /** The inner loop of a key's block: one definition per stored value, in order, all in `file`. */
    method AddDefinitions(result: seq<Definition>, values: seq<string>, file: File) returns (extended: seq<Definition>)
      ensures extended == result + DefsOf(values, file)
    {
      extended := result;
      for j := 0 to |values|
        invariant extended == result + DefsOf(values[..j], file)
      {
        DefsOfStep(values, j, file);
        extended := extended + [Create(values[j], file)];
      }
      assert values[..|values|] == values;
    }

    /**
     One key's block of a query method: for each live result whose file
     `side` selects, one definition per stored value of `key`.
     */
    method AddValues(live: seq<IndexResult>, key: Key, side: Side) returns (defs: seq<Definition>)
      requires AllLive(live)
      ensures defs == Gather(live, key, side)
    {
      defs := [];
      for i := 0 to |live|
        invariant defs == Gather(live[..i], key, side)
      {
        var file := live[i].file.value;
        GatherStep(live, i, key, side);
        if side.Selects(file) {
          defs := AddDefinitions(defs, live[i].Values(key), file);
        }
      }
      assert live[..|live|] == live;
    }

    /**
     Runs the empty-prefix query for `key` and, when it succeeds, appends the
     key's live values on `side` to `result`.
     */
    method AppendKey(result: seq<Definition>, key: Key, side: Side) returns (ok: bool, extended: seq<Definition>)
      ensures ok <==> querySupport.Query(key, "").Found?
      ensures ok ==> extended == result + KeyAnswer(querySupport, key, side)
    {
      var outcome := querySupport.Query(key, "");
      if outcome.IOError? {
        return false, [];
      }
      var live := FilterDeletedFiles(outcome.results);
      var defs := AddValues(live, key, side);
      extended := result + defs;
      ok := true;
    }

    method GetAllFieldsInFile(fo: File) returns (result: seq<Definition>)
      ensures result == AllFieldsInFile(querySupport, fo)
      ensures forall d :: d in result ==> d.file == fo
    {
      var keys, side := [FieldKey, RootFieldKey, MethodParamKey], SameFile(fo);
      var ok;
      ok, result := AppendKey([], FieldKey, side);
      if !ok {
        SelectFails(querySupport, keys, side, FieldKey);
        return [];
      }
      ok, result := AppendKey(result, RootFieldKey, side);
      if !ok {
        SelectFails(querySupport, keys, side, RootFieldKey);
        return [];
      }
      ok, result := AppendKey(result, MethodParamKey, side);
      if !ok {
        SelectFails(querySupport, keys, side, MethodParamKey);
        return [];
      }
      assert Readable(querySupport, keys);
      FieldsInFileLayout(querySupport, fo);
      assert [] + KeyAnswer(querySupport, FieldKey, side) == KeyAnswer(querySupport, FieldKey, side);
      assert result == AllFieldsInFile(querySupport, fo);
      forall d | d in result ensures d.file == fo {
        SelectSameFile(querySupport, keys, fo, d);
      }
    }

    method GetAllClassesInFile(fo: File) returns (result: seq<Definition>)
      ensures result == AllClassesInFile(querySupport, fo)
      ensures forall d :: d in result ==> d.file == fo
    {
      var ok;
      ok, result := AppendKey([], RootClassKey, SameFile(fo));
      if !ok { return []; }
      SelectOne(querySupport, RootClassKey, SameFile(fo));
      forall d | d in result ensures d.file == fo {
        SelectSameFile(querySupport, [RootClassKey], fo, d);
      }
    }

    method GetClassFieldsInFile(fo: File) returns (result: seq<Definition>)
      ensures result == ClassFieldsInFile(querySupport, fo)
      ensures forall d :: d in result ==> d.file == fo
    {
      var ok;
      ok, result := AppendKey([], ClassFieldKey, SameFile(fo));
      if !ok { return []; }
      SelectOne(querySupport, ClassFieldKey, SameFile(fo));
      forall d | d in result ensures d.file == fo {
        SelectSameFile(querySupport, [ClassFieldKey], fo, d);
      }
    }

    method GetClassMethodsInFile(fo: File) returns (result: seq<Definition>)
      ensures result == ClassMethodsInFile(querySupport, fo)
      ensures forall d :: d in result ==> d.file == fo
    {
      var ok;
      ok, result := AppendKey([], ClassMethodKey, SameFile(fo));
      if !ok { return []; }
      SelectOne(querySupport, ClassMethodKey, SameFile(fo));
      forall d | d in result ensures d.file == fo {
        SelectSameFile(querySupport, [ClassMethodKey], fo, d);
      }
    }

    method GetAllMethodsInFile(fo: File) returns (result: seq<Definition>)
      ensures result == AllMethodsInFile(querySupport, fo)
      ensures forall d :: d in result ==> d.file == fo
    {
      MethodsLayout(querySupport, fo);
      var ok;
      ok, result := AppendKey([], MethodKey, SameFile(fo));
      if !ok { return []; }
      ok, result := AppendKey(result, RootMethodKey, SameFile(fo));
      if !ok { return []; }
      forall d | d in result ensures d.file == fo {
        SelectSameFile(querySupport, [MethodKey, RootMethodKey], fo, d);
      }
    }

    /** Despite its name, reads METHOD_KEY as well as ROOT_METHOD_KEY. */
    method GetAllRootMethodsFromOtherFiles(fo: File) returns (result: seq<Definition>)
      ensures result == AllRootMethodsFromOtherFiles(querySupport, fo)
      ensures forall d :: d in result ==> d.file != fo
    {
      MethodsLayout(querySupport, fo);
      var ok;
      ok, result := AppendKey([], MethodKey, OtherFiles(fo));
      if !ok { return []; }
      ok, result := AppendKey(result, RootMethodKey, OtherFiles(fo));
      if !ok { return []; }
      forall d | d in result ensures d.file != fo {
        SelectOtherFiles(querySupport, [MethodKey, RootMethodKey], fo, d);
      }
    }

    method GetAllRootFieldsFromOtherFiles(fo: File) returns (result: seq<Definition>)
      ensures result == AllRootFieldsFromOtherFiles(querySupport, fo)
      ensures forall d :: d in result ==> d.file != fo
    {
      var ok;
      ok, result := AppendKey([], RootFieldKey, OtherFiles(fo));
      if !ok { return []; }
      SelectOne(querySupport, RootFieldKey, OtherFiles(fo));
      forall d | d in result ensures d.file != fo {
        SelectOtherFiles(querySupport, [RootFieldKey], fo, d);
      }
    }

    method GetAllClassesFromOtherFiles(fo: File) returns (result: seq<Definition>)
      ensures result == AllClassesFromOtherFiles(querySupport, fo)
      ensures forall d :: d in result ==> d.file != fo
    {
      var ok;
      ok, result := AppendKey([], RootClassKey, OtherFiles(fo));
      if !ok { return []; }
      SelectOne(querySupport, RootClassKey, OtherFiles(fo));
      forall d | d in result ensures d.file != fo {
        SelectOtherFiles(querySupport, [RootClassKey], fo, d);
      }
    }

    /**
     The file of each live result whose MIME type is the CoffeeScript one,
     in result order and once per such result.
     */
    method ReturnAsFiles(results: seq<IndexResult>) returns (files: seq<File>)
      ensures files == CoffeeFiles(FilterDeleted(results))
      ensures forall f :: f in files <==> f.mimeType == MIME_TYPE && exists r :: r in results && r.file == Some(f)
      ensures |files| <= |FilterDeleted(results)|
    {
      var live := FilterDeletedFiles(results);
      files := [];
      for i := 0 to |live|
        invariant files == CoffeeFiles(live[..i])
      {
        assert live[..i + 1][..i] == live[..i];
        var file := live[i].file.value;
        if file.mimeType == MIME_TYPE {
          files := files + [file];
        }
      }
      assert live[..|live|] == live;
      CoffeeFilesBound(live);
      forall f ensures f in files <==> f.mimeType == MIME_TYPE && exists r :: r in results && r.file == Some(f) {
        CoffeeFilesMembership(live, f);
        if f in files {
          var r :| r in live && r.file == Some(f);
          assert r in results;
        }
      }
    }
  }
}
