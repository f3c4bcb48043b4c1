/** The collection store. A database is a directory of collection files; every
    operation loads the whole collection, works on it in memory and writes it
    back. The file system is a map from path to the JSON value the file holds; a
    missing file is an empty collection. */
module Store {

  import opened Json
  import Documents
  import QueryEvaluator

  /** Message of the exception raised for text that is not JSON. */
  const ParseError: string := "parse error"
  /** Message of the exception raised for a value that cannot become a document. */
  const NotADocument: string := "type error"

  /** Strips one pair of surrounding single quotes, if present: the text is either
      left as it is or is the result in quotes, and it is the result in quotes
      whenever it has two or more characters and starts and ends with a quote. */
  function RemoveQuotes(s: string): (r: string)
    ensures r == s || s == "'" + r + "'"
    ensures |s| >= 2 && s[0] == '\'' && s[|s| - 1] == '\'' <==> s == "'" + r + "'"
  {
    if |s| >= 2 && s[0] == '\'' && s[|s| - 1] == '\'' then
      assert s == "'" + s[1..|s| - 1] + "'";
      s[1..|s| - 1]
    else s
  }

  /** Quoting a text and removing the quotes gives the text back; only the
      outermost pair is removed. */
  lemma UnquoteQuoted(t: string)
    ensures RemoveQuotes("'" + t + "'") == t
  {
    var q := "'" + t + "'";
    assert q[1..|q| - 1] == t;
  }

  function DatabasePath(name: string): string {
    "databases/" + name
  }

  function CollectionPath(basePath: string, collection: string): string {
    basePath + "/" + collection + ".json"
  }

  /** Within one database, different collections live in different files. */
  lemma CollectionPathInjective(basePath: string, a: string, b: string)
    ensures CollectionPath(basePath, a) == CollectionPath(basePath, b) <==> a == b
  {
    var pa, pb := CollectionPath(basePath, a), CollectionPath(basePath, b);
    if pa == pb {
      assert pa[|basePath| + 1..|pa| - 5] == a;
      assert pb[|basePath| + 1..|pb| - 5] == b;
    }
  }

  // ---------------------------------------------------------------------------
  // The in-memory collection: key/document pairs with distinct keys, in the order
  // the keys were first inserted
  // ---------------------------------------------------------------------------

  type Collection = Fields

  lemma {:induction false} KeysIndex(fs: Fields)
    ensures |Keys(fs)| == |fs| && forall i :: 0 <= i < |fs| ==> Keys(fs)[i] == fs[i].0
  {
    if fs != [] {
      KeysIndex(fs[1..]);
    }
  }

  predicate UniqueKeys(c: Collection) {
    c == [] || (c[0].0 !in Keys(c[1..]) && UniqueKeys(c[1..]))
  }

  /** Every document in the collection is an object with a string `_id`. */
  predicate AllStored(c: Collection) {
    forall i :: 0 <= i < |c| ==> Documents.HasStringId(c[i].1)
  }

  /** Insertion under a key: replaces the entry in place, or appends a new one. */
  function Upsert(c: Collection, k: string, v: Value): (r: Collection)
    ensures |r| == if k in Keys(c) then |c| else |c| + 1
    ensures Get(r, k) == Some(v)
    ensures forall k' :: k' != k ==> Get(r, k') == Get(c, k')
    ensures forall x :: x in Keys(r) <==> x == k || x in Keys(c)
    ensures UniqueKeys(c) ==> UniqueKeys(r)
  {
    if c == [] then [(k, v)]
    else if c[0].0 == k then
      assert ([(k, v)] + c[1..])[1..] == c[1..];
      [(k, v)] + c[1..]
    else
      var rest := Upsert(c[1..], k, v);
      assert ([c[0]] + rest)[0] == c[0] && ([c[0]] + rest)[1..] == rest;
      [c[0]] + rest
  }

  /** Storing a proper document keeps every document proper. */
  lemma {:induction false} UpsertAllStored(c: Collection, k: string, v: Value)
    ensures AllStored(c) && Documents.HasStringId(v) ==> AllStored(Upsert(c, k, v))
  {
    if AllStored(c) && Documents.HasStringId(v) && c != [] {
      var tail := c[1..];
      assert AllStored(tail) by {
        forall i | 0 <= i < |tail| ensures Documents.HasStringId(tail[i].1) { assert tail[i] == c[i + 1]; }
      }
      if c[0].0 == k {
        StoredCons((k, v), tail);
      } else {
        UpsertAllStored(tail, k, v);
        StoredCons(c[0], Upsert(tail, k, v));
      }
    }
  }

  lemma StoredCons(e: (string, Value), c: Collection)
    requires Documents.HasStringId(e.1) && AllStored(c)
    ensures AllStored([e] + c)
  {
    forall i | 0 <= i < |[e] + c| ensures Documents.HasStringId(([e] + c)[i].1) {
      if i > 0 { assert ([e] + c)[i] == c[i - 1]; }
    }
  }

  /** Removal of a key. */
  function Delete(c: Collection, k: string): (r: Collection)
    ensures Get(r, k) == None
    ensures forall k' :: k' != k ==> Get(r, k') == Get(c, k')
    ensures forall x :: x in Keys(r) ==> x in Keys(c)
    ensures UniqueKeys(c) ==> UniqueKeys(r)
    ensures k !in Keys(c) ==> r == c
    ensures AllStored(c) ==> AllStored(r)
    ensures UniqueKeys(c) ==> |r| == if k in Keys(c) then |c| - 1 else |c|
  {
    if c == [] then []
    else if c[0].0 == k then Delete(c[1..], k)
    else [c[0]] + Delete(c[1..], k)
  }

  /** Removal of each of the keys in turn. */
  function DeleteAll(c: Collection, ks: seq<string>): (r: Collection)
    ensures forall k :: Get(r, k) == if k in ks then None else Get(c, k)
    ensures UniqueKeys(c) ==> UniqueKeys(r)
    ensures AllStored(c) ==> AllStored(r)
    decreases |ks|
  {
    if ks == [] then c else DeleteAll(Delete(c, ks[0]), ks[1..])
  }

  // ---------------------------------------------------------------------------
  // Loading and saving
  // ---------------------------------------------------------------------------

  /** Builds a document from each item of the file, keyed by the item's key, in
      iteration order; fails on the first item that is not a document. */
  function LoadItems(items: Fields, now: nat, acc: Collection): (r: Result<Collection>)
    ensures UniqueKeys(acc) && AllStored(acc) && r.Ok? ==> UniqueKeys(r.value) && AllStored(r.value)
    decreases |items|
  {
    if items == [] then Ok(acc)
    else if !Documents.Constructible(items[0].1) then Err(NotADocument)
    else
      UpsertAllStored(acc, items[0].0, Documents.InitialData(items[0].1, now));
      LoadItems(items[1..], now, Upsert(acc, items[0].0, Documents.InitialData(items[0].1, now)))
  }

  /** The collection held in the file at `path`; empty when there is no such file. */
  function LoadSpec(files: map<string, Value>, path: string, now: nat): (r: Result<Collection>)
    ensures path !in files ==> r == Ok([])
    ensures r.Ok? ==> UniqueKeys(r.value) && AllStored(r.value)
  {
    if path !in files then Ok([]) else LoadItems(Items(files[path]), now, [])
  }

  /** The value written for a collection: null when it is empty, otherwise an object
      built by assigning each document under its key. */
  function SaveValue(c: Collection): Value {
    SaveFrom(c, Null)
  }

  function SaveFrom(c: Collection, acc: Value): Value {
    if c == [] then acc
    else SaveFrom(c[1..], Object(Put(Documents.MembersOf(acc), c[0].0, c[0].1)))
  }

  /** Loading the items of a saved collection: each key gets its own document back. */
  lemma {:induction false} LoadItemsStored(items: Fields, now: nat, acc: Collection)
    requires UniqueKeys(items) && AllStored(items)
    ensures LoadItems(items, now, acc).Ok?
    ensures forall k :: Get(LoadItems(items, now, acc).value, k) ==
                        (if k in Keys(items) then Get(items, k) else Get(acc, k))
  {
    if items != [] {
      Documents.RebuildStored(items[0].1, now);
      var acc' := Upsert(acc, items[0].0, items[0].1);
      assert AllStored(items[1..]) by {
        forall i | 0 <= i < |items[1..]| ensures Documents.HasStringId(items[1..][i].1) {
          assert items[1..][i] == items[i + 1];
        }
      }
      LoadItemsStored(items[1..], now, acc');
    }
  }

  lemma {:induction false} SortedUnique(fs: Fields)
    requires KeysSorted(fs)
    ensures UniqueKeys(fs)
  {
    if fs != [] {
      SortedKeyIn(fs, fs[0].0);
      assert KeysSorted(fs[1..]) by {
        forall i, j | 0 <= i < j < |fs[1..]| ensures StrLess(fs[1..][i].0, fs[1..][j].0) {
          assert fs[1..][i] == fs[i + 1] && fs[1..][j] == fs[j + 1];
        }
      }
      SortedUnique(fs[1..]);
    }
  }

  lemma {:induction false} PutAllStored(fs: Fields, k: string, v: Value)
    requires AllStored(fs) && Documents.HasStringId(v)
    ensures AllStored(Put(fs, k, v))
  {
    if fs != [] && fs[0].0 != k && !StrLess(k, fs[0].0) {
      assert AllStored(fs[1..]) by {
        forall i | 0 <= i < |fs[1..]| ensures Documents.HasStringId(fs[1..][i].1) { assert fs[1..][i] == fs[i + 1]; }
      }
      PutAllStored(fs[1..], k, v);
    }
  }

  /** What saving builds: a sorted object holding, for each key of the collection,
      its document, on top of whatever `acc` held. */
  lemma {:induction false} SaveFromShape(c: Collection, acc: Value)
    requires UniqueKeys(c) && AllStored(c)
    requires acc.Null? || (acc.Object? && KeysSorted(acc.fields) && AllStored(acc.fields))
    ensures var r := SaveFrom(c, acc);
      && (r.Null? || r.Object?)
      && (r.Null? <==> c == [] && acc.Null?)
      && (r.Object? ==> KeysSorted(r.fields) && AllStored(r.fields))
      && forall k :: Get(Documents.MembersOf(r), k) ==
           if k in Keys(c) then Get(c, k) else Get(Documents.MembersOf(acc), k)
  {
    if c != [] {
      var fs := Documents.MembersOf(acc);
      var acc' := Object(Put(fs, c[0].0, c[0].1));
      PutSorted(fs, c[0].0, c[0].1);
      assert AllStored(c[1..]) by {
        forall i | 0 <= i < |c[1..]| ensures Documents.HasStringId(c[1..][i].1) { assert c[1..][i] == c[i + 1]; }
      }
      PutAllStored(fs, c[0].0, c[0].1);
      PutKeepsOthers(fs, c[0].0, c[0].1);
      SaveFromShape(c[1..], acc');
    }
  }

  /** Saving a collection and loading it back gives every key its document back. */
  lemma SaveLoadRoundTrip(files: map<string, Value>, path: string, c: Collection, now: nat)
    requires UniqueKeys(c) && AllStored(c)
    ensures var loaded := LoadSpec(files[path := SaveValue(c)], path, now);
      loaded.Ok? && forall k :: Get(loaded.value, k) == Get(c, k)
  {
    SaveFromShape(c, Null);
    var saved := SaveValue(c);
    if saved.Object? {
      SortedUnique(saved.fields);
      LoadItemsStored(saved.fields, now, []);
      forall k ensures Get(LoadItems(saved.fields, now, []).value, k) == Get(c, k) {
        if k !in Keys(saved.fields) { assert Get(saved.fields, k) == None; }
      }
    } else {
      assert c == [] && Items(saved) == [];
    }
  }

  lemma FirstKey(c: Collection)
    ensures c != [] ==> Get(c, c[0].0) == Some(c[0].1)
  {
  }

  /** Two collections with distinct keys that give every key the same document have
      the same size. */
  lemma {:induction false} SameEntriesSameSize(a: Collection, b: Collection)
    requires UniqueKeys(a) && UniqueKeys(b)
    requires forall k :: Get(a, k) == Get(b, k)
    ensures |a| == |b|
  {
    FirstKey(b);
    if a != [] {
      var k := a[0].0;
      var b' := Delete(b, k);
      assert Get(a, k).Some?;
      forall x ensures Get(a[1..], x) == Get(b', x) {
        if x == k { assert Get(a[1..], x) == None; }
      }
      SameEntriesSameSize(a[1..], b');
    }
  }

  // ---------------------------------------------------------------------------
  // Selecting the documents that satisfy a query
  // ---------------------------------------------------------------------------

  /** The entries whose documents satisfy the query, in collection order; the first
      evaluation that raises an error aborts the scan with that error. */
  function Matching(c: Collection, query: Value): Result<Collection>
    decreases |c|
  {
    if c == [] then Ok([]) else Extend(Matching(c[..|c| - 1], query), c[|c| - 1], query)
  }

  /** One more step of the scan: the entry is kept when its document satisfies the
      query. */
  function Extend(r: Result<Collection>, e: (string, Value), query: Value): Result<Collection> {
    match r
    case Err(err) => Err(err)
    case Ok(m) =>
      match QueryEvaluator.Evaluate(e.1, query)
      case Err(err) => Err(err)
      case Ok(b) => Ok(if b then m + [e] else m)
  }

  /** Two scans one after the other: the first error, or both selections in order. */
  function Join(r1: Result<Collection>, r2: Result<Collection>): Result<Collection> {
    if r1.Err? then r1 else if r2.Err? then r2 else Ok(r1.value + r2.value)
  }

  lemma ExtendJoin(r1: Result<Collection>, r2: Result<Collection>, e: (string, Value), query: Value)
    ensures Extend(Join(r1, r2), e, query) == Join(r1, Extend(r2, e, query))
  {
    if r1.Ok? && r2.Ok? {
      assert r1.value + r2.value + [e] == r1.value + (r2.value + [e]);
    }
  }

  /** Selecting from a concatenation selects from each part and keeps them in order. */
  lemma {:induction false} MatchingAppend(c1: Collection, c2: Collection, query: Value)
    ensures Matching(c1 + c2, query) == Join(Matching(c1, query), Matching(c2, query))
    decreases |c2|
  {
    if c2 == [] {
      assert c1 + c2 == c1;
      if Matching(c1, query).Ok? {
        assert Matching(c1, query).value + [] == Matching(c1, query).value;
      }
    } else {
      var c2' := c2[..|c2| - 1];
      assert (c1 + c2)[..|c1 + c2| - 1] == c1 + c2';
      assert (c1 + c2)[|c1 + c2| - 1] == c2[|c2| - 1];
      MatchingAppend(c1, c2', query);
      ExtendJoin(Matching(c1, query), Matching(c2', query), c2[|c2| - 1], query);
    }
  }

  /** A single entry is selected exactly when its document satisfies the query. */
  lemma MatchingSingle(e: (string, Value), query: Value)
    ensures QueryEvaluator.Evaluate(e.1, query).Err? ==> Matching([e], query).Err?
    ensures QueryEvaluator.Evaluate(e.1, query) == Ok(true) ==> Matching([e], query) == Ok([e])
    ensures QueryEvaluator.Evaluate(e.1, query) == Ok(false) ==> Matching([e], query) == Ok([])
  {
    assert [e][..0] == [];
    assert [] + [e] == [e];
  }

  /** Once a prefix of the collection raises an error, the whole scan raises it. */
  lemma MatchingPrefixError(c: Collection, i: nat, query: Value)
    requires i <= |c| && Matching(c[..i], query).Err?
    ensures Matching(c, query) == Matching(c[..i], query)
  {
    assert c == c[..i] + c[i..];
    MatchingAppend(c[..i], c[i..], query);
  }

  /** The scan succeeds exactly when no document raises an error, and then selects
      exactly the entries whose documents satisfy the query. */
  lemma {:induction false} MatchingMembers(c: Collection, query: Value)
    ensures Matching(c, query).Err? <==>
      exists i :: 0 <= i < |c| && QueryEvaluator.Evaluate(c[i].1, query).Err?
    ensures Matching(c, query).Ok? ==> forall e ::
      e in Matching(c, query).value <==> e in c && QueryEvaluator.Evaluate(e.1, query) == Ok(true)
    decreases |c|
  {
    if c != [] {
      var p := c[..|c| - 1];
      MatchingMembers(p, query);
      if Matching(p, query).Err? {
        var i :| 0 <= i < |p| && QueryEvaluator.Evaluate(p[i].1, query).Err?;
        assert c[i] == p[i];
      } else {
        assert forall i :: 0 <= i < |p| ==> c[i] == p[i];
        assert c == p + [c[|c| - 1]];
        if Matching(c, query).Ok? {
          forall e ensures e in Matching(c, query).value <==> e in c && QueryEvaluator.Evaluate(e.1, query) == Ok(true) {
            assert e in c <==> e in p || e == c[|c| - 1];
          }
        }
      }
    }
  }

  /** When no document satisfies the query, nothing is selected. */
  lemma {:induction false} NoneSelected(c: Collection, query: Value)
    requires forall i :: 0 <= i < |c| ==> QueryEvaluator.Evaluate(c[i].1, query) == Ok(false)
    ensures Matching(c, query) == Ok([])
    decreases |c|
  {
    if c != [] {
      var p := c[..|c| - 1];
      assert forall i :: 0 <= i < |p| ==> p[i] == c[i];
      NoneSelected(p, query);
    }
  }

  /** Every entry satisfies the empty query. */
  lemma {:induction false} MatchingEverything(c: Collection)
    ensures Matching(c, Object([])) == Ok(c)
    decreases |c|
  {
    if c != [] {
      MatchingEverything(c[..|c| - 1]);
      QueryEvaluator.EmptyQueryMatchesAll(c[|c| - 1].1);
      assert c[..|c| - 1] + [c[|c| - 1]] == c;
    }
  }

  /** The key `k` belongs to an entry whose document satisfies the query. */
  ghost predicate Selected(c: Collection, query: Value, k: string) {
    exists i :: 0 <= i < |c| && c[i].0 == k && QueryEvaluator.Evaluate(c[i].1, query) == Ok(true)
  }

  lemma SelectedKeys(c: Collection, query: Value, k: string)
    requires Matching(c, query).Ok?
    ensures k in Keys(Matching(c, query).value) <==> Selected(c, query, k)
  {
    MatchingMembers(c, query);
    var m := Matching(c, query).value;
    KeysIndex(m);
    if k in Keys(m) {
      var j :| 0 <= j < |m| && Keys(m)[j] == k;
      assert m[j] in c;
    }
    if Selected(c, query, k) {
      var i :| 0 <= i < |c| && c[i].0 == k && QueryEvaluator.Evaluate(c[i].1, query) == Ok(true);
      assert c[i] in m;
      var j :| 0 <= j < |m| && m[j] == c[i];
      assert Keys(m)[j] == k;
    }
  }

  // ---------------------------------------------------------------------------
  // The three operations, as functions of the files before the call
  // ---------------------------------------------------------------------------

  /** Insertion: the text (quotes removed) is parsed, made into a document, and the
      document is stored under its identifier in the loaded collection, which is
      written back. Success gives the identifier; any failure leaves the files as
      they were. */
  function InsertSpec(files: map<string, Value>, path: string, text: string,
                      parse: string -> Option<Value>, now: nat): (Result<string>, map<string, Value>)
  {
    match parse(RemoveQuotes(text))
    case None => (Err(ParseError), files)
    case Some(v) =>
      if !Documents.Constructible(v) then (Err(NotADocument), files)
      else
        match LoadSpec(files, path, now)
        case Err(e) => (Err(e), files)
        case Ok(c) =>
          var id := Documents.InitialId(v, now);
          (Ok(id), files[path := SaveValue(Upsert(c, id, Documents.InitialData(v, now)))])
  }

  /** Search: the documents of the loaded collection that satisfy the parsed query,
      in collection order. */
  function FindSpec(files: map<string, Value>, path: string, text: string,
                    parse: string -> Option<Value>, now: nat): Result<seq<Value>>
  {
    match parse(RemoveQuotes(text))
    case None => Err(ParseError)
    case Some(query) =>
      match LoadSpec(files, path, now)
      case Err(e) => Err(e)
      case Ok(c) => FindIn(c, query)
  }

  /** The documents of `c` that satisfy the query, in order. */
  function FindIn(c: Collection, query: Value): Result<seq<Value>> {
    match Matching(c, query)
    case Err(e) => Err(e)
    case Ok(m) => Ok(MemberValues(m))
  }

  /** The documents found are exactly those that satisfy the query. */
  lemma FindInMeaning(c: Collection, query: Value)
    ensures FindIn(c, query).Err? <==> exists i :: 0 <= i < |c| && QueryEvaluator.Evaluate(c[i].1, query).Err?
    ensures FindIn(c, query).Ok? ==> forall d :: d in FindIn(c, query).value <==>
      exists i :: 0 <= i < |c| && c[i].1 == d && QueryEvaluator.Evaluate(d, query) == Ok(true)
  {
    MatchingMembers(c, query);
    if Matching(c, query).Ok? {
      var m := Matching(c, query).value;
      forall d | d in MemberValues(m)
        ensures exists i :: 0 <= i < |c| && c[i].1 == d && QueryEvaluator.Evaluate(d, query) == Ok(true)
      {
        var j :| 0 <= j < |m| && MemberValues(m)[j] == d;
        assert m[j] in c;
      }
      forall i | 0 <= i < |c| && QueryEvaluator.Evaluate(c[i].1, query) == Ok(true)
        ensures c[i].1 in MemberValues(m)
      {
        assert c[i] in m;
        var j :| 0 <= j < |m| && m[j] == c[i];
        assert MemberValues(m)[j] == c[i].1;
      }
    }
  }

  /** Removal: the keys of the matching entries are collected, removed, and the
      collection is written back; success gives the number of keys removed. */
  function RemoveSpec(files: map<string, Value>, path: string, text: string,
                      parse: string -> Option<Value>, now: nat): (Result<nat>, map<string, Value>)
  {
    match parse(RemoveQuotes(text))
    case None => (Err(ParseError), files)
    case Some(query) =>
      match LoadSpec(files, path, now)
      case Err(e) => (Err(e), files)
      case Ok(c) =>
        match RemoveIn(c, query)
        case Err(e) => (Err(e), files)
        case Ok((count, remaining)) => (Ok(count), files[path := SaveValue(remaining)])
  }

  /** The number of matching entries of `c` and what remains once their keys are
      removed. */
  function RemoveIn(c: Collection, query: Value): Result<(nat, Collection)> {
    match MatchingKeys(c, query)
    case Err(e) => Err(e)
    case Ok(ks) => Ok((|ks|, DeleteAll(c, ks)))
  }

  /** The keys of the entries of `c` whose documents satisfy the query, in order. */
  function MatchingKeys(c: Collection, query: Value): Result<seq<string>> {
    match Matching(c, query)
    case Err(e) => Err(e)
    case Ok(m) => Ok(Keys(m))
  }

  /** After a successful insertion, loading the collection gives the new document
      under its identifier and every other key its previous document; the size grows
      by one unless the identifier was already present. Other files are untouched. */
  lemma InsertThenLoad(files: map<string, Value>, path: string, text: string,
                       parse: string -> Option<Value>, now: nat, v: Value, before: Collection)
    requires parse(RemoveQuotes(text)) == Some(v) && Documents.Constructible(v)
    requires LoadSpec(files, path, now) == Ok(before)
    ensures var id := Documents.InitialId(v, now);
      var files' := InsertSpec(files, path, text, parse, now).1;
      var after := LoadSpec(files', path, now);
      && InsertSpec(files, path, text, parse, now).0 == Ok(id)
      && after.Ok?
      && Get(after.value, id) == Some(Documents.InitialData(v, now))
      && (forall k :: k != id ==> Get(after.value, k) == Get(before, k))
      && |after.value| == (if id in Keys(before) then |before| else |before| + 1)
      && files' == files[path := files'[path]]
  {
    var id := Documents.InitialId(v, now);
    var c' := Upsert(before, id, Documents.InitialData(v, now));
    UpsertAllStored(before, id, Documents.InitialData(v, now));
    SaveLoadRoundTrip(files, path, c', now);
    var after := LoadSpec(files[path := SaveValue(c')], path, now);
    SameEntriesSameSize(after.value, c');
  }

  /** Two documents without `_id` inserted into the same collection within the same
      second get the same identifier: the second replaces the first and the
      collection does not grow. */
  lemma SameSecondInsertsCollide(files: map<string, Value>, path: string, t1: string, t2: string,
                                 parse: string -> Option<Value>, now: nat, v1: Value, v2: Value, before: Collection)
    requires parse(RemoveQuotes(t1)) == Some(v1) && Documents.Constructible(v1) && !Contains(v1, "_id")
    requires parse(RemoveQuotes(t2)) == Some(v2) && Documents.Constructible(v2) && !Contains(v2, "_id")
    requires LoadSpec(files, path, now) == Ok(before)
    ensures var files1 := InsertSpec(files, path, t1, parse, now).1;
      var files2 := InsertSpec(files1, path, t2, parse, now).1;
      && InsertSpec(files, path, t1, parse, now).0 == Ok(Documents.GenerateId(now))
      && InsertSpec(files1, path, t2, parse, now).0 == Ok(Documents.GenerateId(now))
      && LoadSpec(files1, path, now).Ok? && LoadSpec(files2, path, now).Ok?
      && Get(LoadSpec(files2, path, now).value, Documents.GenerateId(now)) == Some(Documents.InitialData(v2, now))
      && |LoadSpec(files2, path, now).value| == |LoadSpec(files1, path, now).value|
  {
    var files1 := InsertSpec(files, path, t1, parse, now).1;
    InsertThenLoad(files, path, t1, parse, now, v1, before);
    var mid := LoadSpec(files1, path, now).value;
    assert Get(mid, Documents.GenerateId(now)).Some?;
    InsertThenLoad(files1, path, t2, parse, now, v2, mid);
  }

  /** Search fails exactly when some loaded document raises an error against the
      query, and otherwise returns exactly the loaded documents that satisfy it. */
  lemma FindMeaning(files: map<string, Value>, path: string, text: string,
                    parse: string -> Option<Value>, now: nat, query: Value, c: Collection)
    requires parse(RemoveQuotes(text)) == Some(query) && LoadSpec(files, path, now) == Ok(c)
    ensures FindSpec(files, path, text, parse, now).Err? <==>
      exists i :: 0 <= i < |c| && QueryEvaluator.Evaluate(c[i].1, query).Err?
    ensures FindSpec(files, path, text, parse, now).Ok? ==>
      forall d :: d in FindSpec(files, path, text, parse, now).value <==>
        exists i :: 0 <= i < |c| && c[i].1 == d && QueryEvaluator.Evaluate(d, query) == Ok(true)
  {
    assert FindSpec(files, path, text, parse, now) == FindIn(c, query);
    FindInMeaning(c, query);
  }

  /** The empty query finds every document of the collection, in order. */
  lemma FindEverything(files: map<string, Value>, path: string, text: string,
                       parse: string -> Option<Value>, now: nat)
    requires parse(RemoveQuotes(text)) == Some(Object([]))
    requires LoadSpec(files, path, now).Ok?
    ensures FindSpec(files, path, text, parse, now) == Ok(MemberValues(LoadSpec(files, path, now).value))
  {
    MatchingEverything(LoadSpec(files, path, now).value);
  }

  /** After a successful removal, loading the collection gives nothing for the keys
      whose documents matched and the previous document for every other key; the
      count is the number of documents a search with the same query finds. */
  lemma RemoveExact(files: map<string, Value>, path: string, text: string,
                    parse: string -> Option<Value>, now: nat, query: Value, before: Collection)
    requires parse(RemoveQuotes(text)) == Some(query) && LoadSpec(files, path, now) == Ok(before)
    requires Matching(before, query).Ok?
    ensures var after := LoadSpec(RemoveSpec(files, path, text, parse, now).1, path, now);
      && after.Ok?
      && (forall k :: Get(after.value, k) == if Selected(before, query, k) then None else Get(before, k))
    ensures FindSpec(files, path, text, parse, now).Ok?
    ensures RemoveSpec(files, path, text, parse, now).0 == Ok(|FindSpec(files, path, text, parse, now).value|)
  {
    var m := Matching(before, query).value;
    var c' := DeleteAll(before, Keys(m));
    KeysIndex(m);
    assert RemoveIn(before, query) == Ok((|m| as nat, c'));
    assert RemoveSpec(files, path, text, parse, now) == (Ok(|m| as nat), files[path := SaveValue(c')]);
    assert FindSpec(files, path, text, parse, now) == Ok(MemberValues(m));
    SaveLoadRoundTrip(files, path, c', now);
    forall k ensures Get(c', k) == if Selected(before, query, k) then None else Get(before, k) {
      SelectedKeys(before, query, k);
    }
  }

  lemma RemoveInNothing(c: Collection, query: Value)
    requires forall i :: 0 <= i < |c| ==> QueryEvaluator.Evaluate(c[i].1, query) == Ok(false)
    ensures RemoveIn(c, query) == Ok((0, c))
  {
    NoneSelected(c, query);
    assert Keys([]) == [];
    assert MatchingKeys(c, query) == Ok([]);
  }

  /** A removal that matches nothing reports zero and leaves every key's document as
      it was. */
  lemma RemoveNothing(files: map<string, Value>, path: string, text: string,
                      parse: string -> Option<Value>, now: nat, query: Value, before: Collection)
    requires parse(RemoveQuotes(text)) == Some(query) && LoadSpec(files, path, now) == Ok(before)
    requires forall i :: 0 <= i < |before| ==> QueryEvaluator.Evaluate(before[i].1, query) == Ok(false)
    ensures RemoveSpec(files, path, text, parse, now).0 == Ok(0)
    ensures var after := LoadSpec(RemoveSpec(files, path, text, parse, now).1, path, now);
      after.Ok? && forall k :: Get(after.value, k) == Get(before, k)
  {
    RemoveInNothing(before, query);
    assert RemoveSpec(files, path, text, parse, now).1 == files[path := SaveValue(before)];
    SaveLoadRoundTrip(files, path, before, now);
  }

  // ---------------------------------------------------------------------------
  // Search as written: its error path ends without a return statement
  // ---------------------------------------------------------------------------

  /** What a call of the search produces as written: the results, or nothing at all
      when the body throws and the handler falls off the end of the function. */
  datatype FindOutcome = Returned(documents: seq<Value>) | NoReturn

  /** The search as written: the query text loses its quotes and is parsed, the
      collection is loaded, and the documents are visited in order. A parse error, a
      load error or an error raised while matching ends in the handler, which only
      logs and leaves the function without a return. */
  function FindAsWritten(files: map<string, Value>, path: string, text: string,
                         parse: string -> Option<Value>, now: nat): (r: FindOutcome)
    ensures parse(RemoveQuotes(text)).None? ==> r == NoReturn
    ensures parse(RemoveQuotes(text)).Some? && LoadSpec(files, path, now).Err? ==> r == NoReturn
  {
    match parse(RemoveQuotes(text))
    case None => NoReturn
    case Some(query) =>
      match LoadSpec(files, path, now)
      case Err(_) => NoReturn
      case Ok(c) => ScanAsWritten(c, query, 0, [])
  }

  /** The loop over the loaded documents from position `i`, with the documents found
      so far in `results`. It ends without a return exactly when some document still
      to be visited raises an error; otherwise it returns `results` followed by the
      remaining documents that satisfy the query. */
  function ScanAsWritten(docs: Collection, query: Value, i: nat, results: seq<Value>): (r: FindOutcome)
    requires i <= |docs|
    ensures r == NoReturn <==> exists j :: i <= j < |docs| && QueryEvaluator.Evaluate(docs[j].1, query).Err?
    ensures r.Returned? ==> forall d :: d in r.documents <==>
      d in results || exists j :: i <= j < |docs| && docs[j].1 == d && QueryEvaluator.Evaluate(d, query) == Ok(true)
    decreases |docs| - i
  {
    if i == |docs| then Returned(results)
    else match QueryEvaluator.Evaluate(docs[i].1, query)
      case Err(_) => NoReturn
      case Ok(true) => ScanAsWritten(docs, query, i + 1, results + [docs[i].1])
      case Ok(false) => ScanAsWritten(docs, query, i + 1, results)
  }

  /** From position `i` on, the loop as written finishes the scan that `Matching` did
      on the documents before `i`. */
  lemma {:induction false} ScanAgrees(docs: Collection, query: Value, i: nat, m: Collection)
    requires i <= |docs| && Matching(docs[..i], query) == Ok(m)
    ensures ScanAsWritten(docs, query, i, MemberValues(m)) ==
      match FindIn(docs, query) case Ok(ds) => Returned(ds) case Err(_) => NoReturn
    decreases |docs| - i
  {
    if i == |docs| {
      assert docs[..i] == docs;
    } else {
      assert docs[..i + 1][..i] == docs[..i];
      var next := Matching(docs[..i + 1], query);
      assert next == Extend(Ok(m), docs[i], query);
      match QueryEvaluator.Evaluate(docs[i].1, query)
      case Err(_) =>
        MatchingPrefixError(docs, i + 1, query);
      case Ok(b) =>
        var m' := if b then m + [docs[i]] else m;
        assert MemberValues(m') == if b then MemberValues(m) + [docs[i].1] else MemberValues(m);
        ScanAgrees(docs, query, i + 1, m');
    }
  }

  /** The search as written ends without a return exactly when the corrected search
      fails, and otherwise returns what the corrected search returns. */
  lemma FindAsWrittenAgrees(files: map<string, Value>, path: string, text: string,
                            parse: string -> Option<Value>, now: nat)
    ensures FindAsWritten(files, path, text, parse, now) == NoReturn <==> FindSpec(files, path, text, parse, now).Err?
    ensures FindAsWritten(files, path, text, parse, now).Returned? ==>
      FindSpec(files, path, text, parse, now) == Ok(FindAsWritten(files, path, text, parse, now).documents)
  {
    if parse(RemoveQuotes(text)).Some? && LoadSpec(files, path, now).Ok? {
      var c := LoadSpec(files, path, now).value;
      assert c[..0] == [];
      assert MemberValues([]) == [];
      ScanAgrees(c, parse(RemoveQuotes(text)).value, 0, []);
    }
  }

  /** A query that is not JSON reaches the end of the search without a return. */
  lemma FindNoReturnExample(files: map<string, Value>, path: string, now: nat)
    ensures FindAsWritten(files, path, "{", s => None, now) == NoReturn
    ensures FindSpec(files, path, "{", s => None, now) == Err(ParseError)
  {
  }

  // ---------------------------------------------------------------------------
  // The file system and the database object
  // ---------------------------------------------------------------------------

  /** The files the databases share: path to the JSON value stored there. */
  class FileSystem {
    var files: map<string, Value>

    constructor ()
      ensures files == map[]
    {
      files := map[];
    }
  }

  class Database {
    const dbName: string
    const basePath: string
    const fs: FileSystem

    /** A database named `name` keeps its collections under "databases/<name>". */
    constructor (name: string, fs: FileSystem)
      ensures dbName == name && basePath == DatabasePath(name) && this.fs == fs
    {
      dbName := name;
      basePath := DatabasePath(name);
      this.fs := fs;
    }

    /** The file of a collection; `CollectionPathInjective` shows that different
        collections never share a file. */
    function GetCollectionPath(collection: string): (path: string)
      ensures path == basePath + "/" + collection + ".json"
    {
      CollectionPath(basePath, collection)
    }

    /** Builds a document from every item of the collection file. */
    method LoadCollection(collection: string, now: nat) returns (r: Result<Collection>)
      ensures r == LoadSpec(fs.files, GetCollectionPath(collection), now)
    {
      var path := GetCollectionPath(collection);
      if path !in fs.files {
        return Ok([]);
      }
      var items := Items(fs.files[path]);
      var c: Collection := [];
      for i := 0 to |items|
        invariant LoadItems(items, now, []) == LoadItems(items[i..], now, c)
      {
        assert items[i..][0] == items[i] && items[i..][1..] == items[i + 1..];
        if !Documents.Constructible(items[i].1) {
          return Err(NotADocument);
        }
        var doc := new Documents.Document(items[i].1, now);
        c := Upsert(c, items[i].0, doc.GetData());
      }
      assert items[|items|..] == [];
      return Ok(c);
    }

    /** Writes the collection to its file, replacing what was there. */
    method SaveCollection(collection: string, c: Collection)
      modifies fs
      ensures fs.files == old(fs.files)[GetCollectionPath(collection) := SaveValue(c)]
    {
      var v := Null;
      for i := 0 to |c|
        invariant SaveFrom(c, Null) == SaveFrom(c[i..], v)
      {
        assert c[i..][0] == c[i] && c[i..][1..] == c[i + 1..];
        v := Object(Put(Documents.MembersOf(v), c[i].0, c[i].1));
      }
      assert c[|c|..] == [];
      fs.files := fs.files[GetCollectionPath(collection) := v];
    }

    method Insert(collection: string, text: string, parse: string -> Option<Value>, now: nat)
      returns (r: Result<string>)
      modifies fs
      ensures (r, fs.files) == InsertSpec(old(fs.files), GetCollectionPath(collection), text, parse, now)
    {
      var parsed := parse(RemoveQuotes(text));
      if parsed.None? {
        return Err(ParseError);
      }
      if !Documents.Constructible(parsed.value) {
        return Err(NotADocument);
      }
      var doc := new Documents.Document(parsed.value, now);
      var loaded := LoadCollection(collection, now);
      if loaded.Err? {
        return Err(loaded.error);
      }
      var c := Upsert(loaded.value, doc.GetId(), doc.GetData());
      SaveCollection(collection, c);
      return Ok(doc.GetId());
    }

    method Find(collection: string, text: string, parse: string -> Option<Value>, now: nat)
      returns (r: Result<seq<Value>>)
      ensures r == FindSpec(fs.files, GetCollectionPath(collection), text, parse, now)
    {
      var parsed := parse(RemoveQuotes(text));
      if parsed.None? {
        return Err(ParseError);
      }
      var query := parsed.value;
      var loaded := LoadCollection(collection, now);
      if loaded.Err? {
        return Err(loaded.error);
      }
      var c := loaded.value;
      assert FindSpec(fs.files, GetCollectionPath(collection), text, parse, now) == FindIn(c, query);
      r := SelectDocuments(c, query);
    }

    method Remove(collection: string, text: string, parse: string -> Option<Value>, now: nat)
      returns (r: Result<nat>)
      modifies fs
      ensures (r, fs.files) == RemoveSpec(old(fs.files), GetCollectionPath(collection), text, parse, now)
    {
      var parsed := parse(RemoveQuotes(text));
      if parsed.None? {
        return Err(ParseError);
      }
      var query := parsed.value;
      var loaded := LoadCollection(collection, now);
      if loaded.Err? {
        return Err(loaded.error);
      }
      var c := loaded.value;
      assert RemoveSpec(fs.files, GetCollectionPath(collection), text, parse, now) == match RemoveIn(c, query)
        case Err(e) => (Err(e), fs.files)
        case Ok((count, remaining)) => (Ok(count), fs.files[GetCollectionPath(collection) := SaveValue(remaining)]);
      var ids := SelectKeys(c, query);
      if ids.Err? {
        return Err(ids.error);
      }
      var remaining := DeleteEach(c, ids.value);
      SaveCollection(collection, remaining);
      return Ok(|ids.value|);
    }
  }

  /** Removes each of the keys from the collection in turn. */
  method DeleteEach(c: Collection, ids: seq<string>) returns (r: Collection)
    ensures r == DeleteAll(c, ids)
  {
    r := c;
    for i := 0 to |ids|
      invariant DeleteAll(c, ids) == DeleteAll(r, ids[i..])
    {
      assert ids[i..][0] == ids[i] && ids[i..][1..] == ids[i + 1..];
      r := Delete(r, ids[i]);
    }
    assert ids[|ids|..] == [];
  }

  /** The search loop: the documents that satisfy the query, in order. */
  method SelectDocuments(c: Collection, query: Value) returns (r: Result<seq<Value>>)
    ensures r == FindIn(c, query)
  {
    var results: seq<Value> := [];
    ghost var m: Collection := [];
    for i := 0 to |c|
      invariant Matching(c[..i], query) == Ok(m) && results == MemberValues(m)
    {
      assert c[..i + 1][..i] == c[..i];
      var matched := QueryEvaluator.Evaluate(c[i].1, query);
      if matched.Err? {
        MatchingPrefixError(c, i + 1, query);
        return Err(matched.error);
      }
      if matched.value {
        results := results + [c[i].1];
        m := m + [c[i]];
      }
    }
    assert c[..|c|] == c;
    return Ok(results);
  }

  /** The first loop of removal: the keys whose documents satisfy the query. */
  method SelectKeys(c: Collection, query: Value) returns (r: Result<seq<string>>)
    ensures r == MatchingKeys(c, query)
  {
    var ids: seq<string> := [];
    ghost var m: Collection := [];
    for i := 0 to |c|
      invariant Matching(c[..i], query) == Ok(m) && ids == Keys(m)
    {
      assert c[..i + 1][..i] == c[..i];
      var matched := QueryEvaluator.Evaluate(c[i].1, query);
      if matched.Err? {
        MatchingPrefixError(c, i + 1, query);
        return Err(matched.error);
      }
      if matched.value {
        KeysIndex(m);
        KeysIndex(m + [c[i]]);
        ids := ids + [c[i].0];
        m := m + [c[i]];
      }
    }
    assert c[..|c|] == c;
    return Ok(ids);
  }
}
