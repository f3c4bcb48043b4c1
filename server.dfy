/** The request server, without its sockets and threads: the registry of open
    databases, the parsing and dispatch of one command line, the response record,
    and the rules of a client session. */
module Server {

  import opened Json
  import Decimal
  import Store

  /** The response record: `status`, `message`, `data` and `count`, assigned in that
      order to a fresh object. */
  function CreateResponse(status: string, message: string, data: Value, count: int): (r: Value)
    ensures r.Object? && Keys(r.fields) == ["count", "data", "message", "status"]
    ensures Get(r.fields, "status") == Some(Str(status)) && Get(r.fields, "message") == Some(Str(message))
    ensures Get(r.fields, "data") == Some(data) && Get(r.fields, "count") == Some(Int(count))
  {
    PutChain(status, message, data, count);
    FourKeys("count", "data", "message", "status", Int(count), data, Str(message), Str(status));
    ResponseGets(status, message, data, count);
    Object(Put(Put(Put(Put([], "status", Str(status)), "message", Str(message)), "data", data), "count", Int(count)))
  }

  /** Assigning the four members in turn builds them in key order. */
  lemma PutChain(status: string, message: string, data: Value, count: int)
    ensures Put(Put(Put(Put([], "status", Str(status)), "message", Str(message)), "data", data), "count", Int(count))
      == [("count", Int(count)), ("data", data), ("message", Str(message)), ("status", Str(status))]
  {
    var f1 := Put([], "status", Str(status));
    assert f1 == [("status", Str(status))];
    assert "message"[0] < "status"[0] && "data"[0] < "message"[0] && "count"[0] < "data"[0];
    var f2 := Put(f1, "message", Str(message));
    assert f2 == [("message", Str(message))] + f1;
    var f3 := Put(f2, "data", data);
    assert f3 == [("data", data)] + f2;
  }

  /** The keys of a four-member object, in order. */
  lemma FourKeys(a: string, b: string, c: string, d: string, va: Value, vb: Value, vc: Value, vd: Value)
    ensures Keys([(a, va), (b, vb), (c, vc), (d, vd)]) == [a, b, c, d]
  {
    var fs := [(a, va), (b, vb), (c, vc), (d, vd)];
    assert fs[1..] == [(b, vb), (c, vc), (d, vd)];
    assert fs[1..][1..] == [(c, vc), (d, vd)];
    assert fs[1..][1..][1..] == [(d, vd)];
    assert Keys(fs[1..][1..][1..]) == [d];
    assert Keys(fs[1..][1..]) == [c, d];
  }

  /** Each of the four assignments is read back, none disturbed by the later ones. */
  lemma ResponseGets(status: string, message: string, data: Value, count: int)
    ensures var f1 := Put([], "status", Str(status));
      var f2 := Put(f1, "message", Str(message));
      var f3 := Put(f2, "data", data);
      var f4 := Put(f3, "count", Int(count));
      && Get(f4, "status") == Some(Str(status)) && Get(f4, "message") == Some(Str(message))
      && Get(f4, "data") == Some(data) && Get(f4, "count") == Some(Int(count))
  {
    var f1 := Put([], "status", Str(status));
    var f2 := Put(f1, "message", Str(message));
    var f3 := Put(f2, "data", data);
    assert "data"[0] != "count"[0] && "message"[0] != "count"[0] && "message"[0] != "data"[0];
    assert "status"[0] != "count"[0] && "status"[0] != "data"[0] && "status"[0] != "message"[0];
    GetPut([], "status", Str(status), "status");
    GetPut(f1, "message", Str(message), "status");
    GetPut(f1, "message", Str(message), "message");
    GetPut(f2, "data", data, "status");
    GetPut(f2, "data", data, "message");
    GetPut(f2, "data", data, "data");
    GetPut(f3, "count", Int(count), "status");
    GetPut(f3, "count", Int(count), "message");
    GetPut(f3, "count", Int(count), "data");
    GetPut(f3, "count", Int(count), "count");
  }

  /** The response with the default payload: an empty array and a count of 0. */
  function Respond(status: string, message: string): Value {
    CreateResponse(status, message, Array([]), 0)
  }

  // ---------------------------------------------------------------------------
  // Splitting a command line
  // ---------------------------------------------------------------------------

  /** The text before the first `d`, or all of `s` when there is none. */
  function Before(s: string, d: char): (r: string)
    ensures d !in r && r <= s
    ensures d in s ==> |r| < |s| && s[|r|] == d
  {
    if s == [] || s[0] == d then [] else [s[0]] + Before(s[1..], d)
  }

  /** The text after the first `d`, if there is one. */
  function After(s: string, d: char): (r: Option<string>)
    ensures r.Some? <==> d in s
    ensures r.Some? ==> s == Before(s, d) + [d] + r.value
  {
    if d in s then Some(s[|Before(s, d)| + 1..]) else None
  }

  /** The three fields `getline` reads from the command: the operation up to the first
      space, the collection up to the next space, and the rest of the line. A field
      whose turn comes after the end of the text is empty. */
  function SplitCommand(command: string): (string, string, string) {
    match After(command, ' ')
    case None => (command, "", "")
    case Some(tail) =>
      match After(tail, ' ')
      case None => (Before(command, ' '), tail, "")
      case Some(rest) => (Before(command, ' '), Before(tail, ' '), Before(rest, '\n'))
  }

  lemma {:induction false} BeforeAppend(a: string, d: char, b: string)
    requires d !in a
    ensures Before(a + [d] + b, d) == a
    ensures After(a + [d] + b, d) == Some(b)
  {
    if a != [] {
      assert (a + [d] + b)[1..] == a[1..] + [d] + b;
      BeforeAppend(a[1..], d, b);
    }
  }

  lemma {:induction false} BeforeAbsent(s: string, d: char)
    requires d !in s
    ensures Before(s, d) == s
  {
    if s != [] {
      BeforeAbsent(s[1..], d);
    }
  }

  /** A command written as operation, space, collection, space, rest splits back into
      those three fields. */
  lemma SplitJoin(op: string, collection: string, rest: string)
    requires ' ' !in op && ' ' !in collection && '\n' !in rest
    ensures SplitCommand(op + " " + collection + " " + rest) == (op, collection, rest)
  {
    var command := op + " " + collection + " " + rest;
    assert command == op + [' '] + (collection + " " + rest);
    BeforeAppend(op, ' ', collection + " " + rest);
    assert collection + " " + rest == collection + [' '] + rest;
    BeforeAppend(collection, ' ', rest);
    BeforeAbsent(rest, '\n');
  }

  /** A one-line command with at least two spaces is exactly its three fields joined
      by spaces. */
  lemma SplitIsInverse(command: string)
    requires '\n' !in command
    requires After(command, ' ').Some? && After(After(command, ' ').value, ' ').Some?
    ensures var (op, collection, rest) := SplitCommand(command);
      command == op + " " + collection + " " + rest
  {
    var rest := SplitFields(command);
    NotInSuffix(SplitCommand(command).0 + " " + SplitCommand(command).1 + " ", rest, '\n');
    BeforeAbsent(rest, '\n');
  }

  /** With two spaces, the command is the text before the first, the text between
      them, and the unsplit remainder `rest`. */
  lemma SplitFields(command: string) returns (rest: string)
    requires After(command, ' ').Some? && After(After(command, ' ').value, ' ').Some?
    ensures rest == After(After(command, ' ').value, ' ').value
    ensures SplitCommand(command).2 == Before(rest, '\n')
    ensures command == SplitCommand(command).0 + " " + SplitCommand(command).1 + " " + rest
  {
    var tail := After(command, ' ').value;
    rest := After(tail, ' ').value;
    var op, collection := Before(command, ' '), Before(tail, ' ');
    assert SplitCommand(command) == (op, collection, Before(rest, '\n'));
    Reassemble(command, op, tail, collection, rest);
  }

  lemma Reassemble(command: string, op: string, tail: string, collection: string, rest: string)
    requires command == op + [' '] + tail && tail == collection + [' '] + rest
    ensures command == op + " " + collection + " " + rest
  {
    assert op + [' '] + tail == op + [' '] + collection + [' '] + rest;
  }

  lemma NotInSuffix(p: string, q: string, d: char)
    requires d !in p + q
    ensures d !in q
  {
  }

  // ---------------------------------------------------------------------------
  // One request
  // ---------------------------------------------------------------------------

  /** The operation a command names. */
  datatype Operation = Insert | Find | Delete | Unknown(name: string)

  function OperationOf(name: string): (r: Operation)
    ensures r.Unknown? <==> name !in {"INSERT", "FIND", "DELETE"}
    ensures r.Unknown? ==> r.name == name
  {
    if name == "INSERT" then Insert
    else if name == "FIND" then Find
    else if name == "DELETE" then Delete
    else Unknown(name)
  }

  lemma OperationNames()
    ensures OperationOf("INSERT") == Insert && OperationOf("FIND") == Find && OperationOf("DELETE") == Delete
  {
    assert "FIND"[0] != "INSERT"[0];
    assert "DELETE"[0] != "INSERT"[0] && "DELETE"[0] != "FIND"[0];
  }

  /** The response to one command and the files after it, for the database whose
      directory is `basePath`. */
  function ProcessSpec(files: map<string, Value>, basePath: string, command: string,
                       parse: string -> Option<Value>, now: nat): (Value, map<string, Value>)
  {
    var (op, collection, rest) := SplitCommand(command);
    Dispatch(files, OperationOf(op), Store.CollectionPath(basePath, collection), rest, parse, now)
  }

  /** Runs the operation on the collection file at `path` and builds the response. */
  function Dispatch(files: map<string, Value>, op: Operation, path: string, rest: string,
                    parse: string -> Option<Value>, now: nat): (Value, map<string, Value>)
  {
    match op
    case Insert =>
      var (outcome, files') := Store.InsertSpec(files, path, rest, parse, now);
      if outcome.Ok? then (Respond("success", "Document inserted successfully"), files')
      else (Respond("error", "Failed to insert document"), files')
    case Find =>
      (match Store.FindSpec(files, path, rest, parse, now)
       case Ok(found) =>
         (CreateResponse("success", "Found " + Decimal.NatToDecimal(|found|) + " documents", Array(found), |found|), files)
       case Err(e) => (Respond("error", "Operation failed: " + e), files))
    case Delete =>
      var (outcome, files') := Store.RemoveSpec(files, path, rest, parse, now);
      if outcome.Ok? then (Respond("success", "Documents deleted successfully"), files')
      else (Respond("error", "Failed to delete documents"), files')
    case Unknown(name) => (Respond("error", "Unknown operation: " + name), files)
  }

  /** Any operation other than INSERT, FIND and DELETE is answered with an error
      naming it, and changes nothing. */
  lemma UnknownOperation(files: map<string, Value>, basePath: string, command: string,
                         parse: string -> Option<Value>, now: nat)
    requires SplitCommand(command).0 !in {"INSERT", "FIND", "DELETE"}
    ensures var (response, files') := ProcessSpec(files, basePath, command, parse, now);
      && files' == files
      && Get(response.fields, "status") == Some(Str("error"))
      && Get(response.fields, "message") == Some(Str("Unknown operation: " + SplitCommand(command).0))
  {
  }

  /** A search never changes the files; it succeeds exactly when the store search
      does, and then answers with the documents found, in order, and their number. */
  lemma FindResponse(files: map<string, Value>, basePath: string, command: string,
                     parse: string -> Option<Value>, now: nat)
    requires SplitCommand(command).0 == "FIND"
    ensures var (_, collection, rest) := SplitCommand(command);
      var result := Store.FindSpec(files, Store.CollectionPath(basePath, collection), rest, parse, now);
      var (response, files') := ProcessSpec(files, basePath, command, parse, now);
      && files' == files
      && (result.Ok? <==> Get(response.fields, "status") == Some(Str("success")))
      && (result.Ok? ==> Get(response.fields, "data") == Some(Array(result.value))
                         && Get(response.fields, "count") == Some(Int(|result.value|)))
  {
    OperationNames();
    assert Str("error") != Str("success") by { assert "error"[0] != "success"[0]; }
  }

  /** An insertion is reported as successful exactly when the store insertion
      succeeds, and the files are what it leaves. */
  lemma InsertResponse(files: map<string, Value>, basePath: string, command: string,
                       parse: string -> Option<Value>, now: nat)
    requires SplitCommand(command).0 == "INSERT"
    ensures var (_, collection, rest) := SplitCommand(command);
      var (outcome, expected) := Store.InsertSpec(files, Store.CollectionPath(basePath, collection), rest, parse, now);
      var (response, files') := ProcessSpec(files, basePath, command, parse, now);
      && files' == expected
      && (outcome.Ok? <==> Get(response.fields, "status") == Some(Str("success")))
  {
    OperationNames();
    assert Str("error") != Str("success") by { assert "error"[0] != "success"[0]; }
  }

  /** A removal is reported as successful exactly when the store removal succeeds,
      and the files are what it leaves. */
  lemma DeleteResponse(files: map<string, Value>, basePath: string, command: string,
                       parse: string -> Option<Value>, now: nat)
    requires SplitCommand(command).0 == "DELETE"
    ensures var (_, collection, rest) := SplitCommand(command);
      var (outcome, expected) := Store.RemoveSpec(files, Store.CollectionPath(basePath, collection), rest, parse, now);
      var (response, files') := ProcessSpec(files, basePath, command, parse, now);
      && files' == expected
      && (outcome.Ok? <==> Get(response.fields, "status") == Some(Str("success")))
  {
    OperationNames();
    assert Str("error") != Str("success") by { assert "error"[0] != "success"[0]; }
  }

  /** Handles one command against a database. */
  method ProcessRequest(db: Store.Database, command: string, parse: string -> Option<Value>, now: nat)
    returns (response: Value)
    modifies db.fs
    ensures (response, db.fs.files) == ProcessSpec(old(db.fs.files), db.basePath, command, parse, now)
  {
    var (name, collection, rest) := SplitCommand(command);
    var op := OperationOf(name);
    assert ProcessSpec(db.fs.files, db.basePath, command, parse, now)
      == Dispatch(db.fs.files, op, db.GetCollectionPath(collection), rest, parse, now);
    if op == Insert {
      var outcome := db.Insert(collection, rest, parse, now);
      if outcome.Ok? {
        response := Respond("success", "Document inserted successfully");
      } else {
        response := Respond("error", "Failed to insert document");
      }
    } else if op == Find {
      var found := db.Find(collection, rest, parse, now);
      if found.Err? {
        return Respond("error", "Operation failed: " + found.error);
      }
      var results := ResultArray(found.value);
      response := CreateResponse("success", "Found " + Decimal.NatToDecimal(|found.value|) + " documents", results, |found.value|);
    } else if op == Delete {
      var outcome := db.Remove(collection, rest, parse, now);
      if outcome.Ok? {
        response := Respond("success", "Documents deleted successfully");
      } else {
        response := Respond("error", "Failed to delete documents");
      }
    } else {
      response := Respond("error", "Unknown operation: " + name);
    }
  }

  /** Collects the documents found into a JSON array, one push at a time. */
  method ResultArray(found: seq<Value>) returns (r: Value)
    ensures r.Array? && r.items == found
  {
    var items: seq<Value> := [];
    for i := 0 to |found|
      invariant items == found[..i]
    {
      items := items + [found[i]];
    }
    assert found[..|found|] == found;
    return Array(items);
  }

  // ---------------------------------------------------------------------------
  // The registry of open databases
  // ---------------------------------------------------------------------------

  class Registry {
    var databases: seq<(string, Store.Database)>
    const fs: Store.FileSystem

    /** Each name is registered once, with the database of that name, and every
        database works on the shared files. */
    ghost predicate Valid()
      reads this
    {
      && (forall i, j :: 0 <= i < j < |databases| ==> databases[i].0 != databases[j].0)
      && (forall i :: 0 <= i < |databases| ==>
            databases[i].1.dbName == databases[i].0
            && databases[i].1.basePath == Store.DatabasePath(databases[i].0)
            && databases[i].1.fs == fs)
    }

    constructor (fs: Store.FileSystem)
      ensures databases == [] && this.fs == fs && Valid()
    {
      databases := [];
      this.fs := fs;
    }

    /** The database registered under `name`, registering a new one at the end when
        there is none. */
    method GetOrCreate(name: string) returns (db: Store.Database)
      requires Valid()
      modifies this
      ensures Valid()
      ensures db.dbName == name && db.basePath == Store.DatabasePath(name) && db.fs == fs
      ensures (exists i :: 0 <= i < |old(databases)| && old(databases)[i].0 == name) ==>
        databases == old(databases) && (name, db) in databases
      ensures (forall i :: 0 <= i < |old(databases)| ==> old(databases)[i].0 != name) ==>
        databases == old(databases) + [(name, db)] && fresh(db)
    {
      for i := 0 to |databases|
        invariant forall j :: 0 <= j < i ==> databases[j].0 != name
      {
        if databases[i].0 == name {
          return databases[i].1;
        }
      }
      db := new Store.Database(name, fs);
      databases := databases + [(name, db)];
    }
  }

  // ---------------------------------------------------------------------------
  // A client session
  // ---------------------------------------------------------------------------

  /** What the server sends: a line of text, or a response record (sent serialised,
      followed by a newline). */
  datatype Reply = Text(line: string) | Json(response: Value)

  const Goodbye: string := "Disconnected from database\n"

  /** The replies to the commands that follow the database name, and the files after
      them: each command is answered in turn until the exact message EXIT, which is
      answered with a goodbye and ends the session. `clock(n)` is the clock reading
      while the `n`-th message is handled. */
  function Commands(files: map<string, Value>, basePath: string, messages: seq<string>,
                    parse: string -> Option<Value>, clock: nat -> nat, index: nat): (seq<Reply>, map<string, Value>)
    decreases |messages|
  {
    if messages == [] then ([], files)
    else if messages[0] == "EXIT" then ([Text(Goodbye)], files)
    else
      var (response, files') := ProcessSpec(files, basePath, messages[0], parse, clock(index));
      var (replies, files'') := Commands(files', basePath, messages[1..], parse, clock, index + 1);
      ([Json(response)] + replies, files'')
  }

  /** A whole session: the first message names the database; the end of the messages
      is the client closing the connection. */
  function SessionSpec(files: map<string, Value>, messages: seq<string>,
                       parse: string -> Option<Value>, clock: nat -> nat): (seq<Reply>, map<string, Value>)
  {
    if messages == [] then ([Json(Respond("error", "Connection error"))], files)
    else if messages[0] == "" then ([Json(Respond("error", "Database name cannot be empty"))], files)
    else
      var (replies, files') := Commands(files, Store.DatabasePath(messages[0]), messages[1..], parse, clock, 1);
      ([Text("Connected to database: " + messages[0] + "\n")] + replies, files')
  }

  /** A session whose name is empty is refused with one error and changes nothing. */
  lemma EmptyNameRefused(files: map<string, Value>, messages: seq<string>,
                         parse: string -> Option<Value>, clock: nat -> nat)
    requires messages != [] && messages[0] == ""
    ensures SessionSpec(files, messages, parse, clock).1 == files
    ensures |SessionSpec(files, messages, parse, clock).0| == 1
    ensures SessionSpec(files, messages, parse, clock).0[0].Json?
    ensures Get(SessionSpec(files, messages, parse, clock).0[0].response.fields, "status") == Some(Str("error"))
  {
  }

  /** Nothing after the first EXIT is read: the session ends with the goodbye. */
  lemma {:induction false} ExitEndsCommands(files: map<string, Value>, basePath: string, messages: seq<string>,
                                            parse: string -> Option<Value>, clock: nat -> nat, index: nat, k: nat)
    requires k < |messages| && messages[k] == "EXIT"
    requires forall j :: 0 <= j < k ==> messages[j] != "EXIT"
    ensures Commands(files, basePath, messages, parse, clock, index) == Commands(files, basePath, messages[..k + 1], parse, clock, index)
    ensures |Commands(files, basePath, messages, parse, clock, index).0| == k + 1
    ensures Commands(files, basePath, messages, parse, clock, index).0[k] == Text(Goodbye)
    decreases k
  {
    if k > 0 {
      var (_, files') := ProcessSpec(files, basePath, messages[0], parse, clock(index));
      assert messages[..k + 1][1..] == messages[1..][..k];
      ExitEndsCommands(files', basePath, messages[1..], parse, clock, index + 1, k - 1);
    }
  }

  /** Without EXIT, every command is answered with exactly one response. */
  lemma {:induction false} OneReplyPerCommand(files: map<string, Value>, basePath: string, messages: seq<string>,
                                              parse: string -> Option<Value>, clock: nat -> nat, index: nat)
    requires forall j :: 0 <= j < |messages| ==> messages[j] != "EXIT"
    ensures |Commands(files, basePath, messages, parse, clock, index).0| == |messages|
    ensures forall j :: 0 <= j < |messages| ==> Commands(files, basePath, messages, parse, clock, index).0[j].Json?
    decreases |messages|
  {
    if messages != [] {
      var (_, files') := ProcessSpec(files, basePath, messages[0], parse, clock(index));
      OneReplyPerCommand(files', basePath, messages[1..], parse, clock, index + 1);
    }
  }

  lemma CommandsStep(files: map<string, Value>, basePath: string, messages: seq<string>,
                     parse: string -> Option<Value>, clock: nat -> nat, index: nat,
                     response: Value, files': map<string, Value>)
    requires messages != [] && messages[0] != "EXIT"
    requires (response, files') == ProcessSpec(files, basePath, messages[0], parse, clock(index))
    ensures Commands(files, basePath, messages, parse, clock, index) ==
      ([Json(response)] + Commands(files', basePath, messages[1..], parse, clock, index + 1).0,
       Commands(files', basePath, messages[1..], parse, clock, index + 1).1)
  {
  }

  /** The receive loop of a session: answers each command in turn until EXIT or
      the end of the messages. The `n`-th message of the session is `messages[n - 1]`. */
  method ServeCommands(db: Store.Database, messages: seq<string>, parse: string -> Option<Value>, clock: nat -> nat)
    returns (replies: seq<Reply>)
    modifies db.fs
    ensures (replies, db.fs.files) == Commands(old(db.fs.files), db.basePath, messages, parse, clock, 1)
  {
    replies := [];
    var i := 0;
    assert messages[0..] == messages;
    assert [] + Commands(db.fs.files, db.basePath, messages, parse, clock, 1).0 == Commands(db.fs.files, db.basePath, messages, parse, clock, 1).0;
    while i < |messages|
      invariant 0 <= i <= |messages|
      invariant Commands(old(db.fs.files), db.basePath, messages, parse, clock, 1) ==
        (replies + Commands(db.fs.files, db.basePath, messages[i..], parse, clock, i + 1).0,
         Commands(db.fs.files, db.basePath, messages[i..], parse, clock, i + 1).1)
    {
      if messages[i] == "EXIT" {
        assert messages[i..][0] == "EXIT";
        replies := replies + [Text(Goodbye)];
        return;
      }
      ghost var before := db.fs.files;
      var response := ProcessRequest(db, messages[i], parse, clock(i + 1));
      assert messages[i..][0] == messages[i] && messages[i..][1..] == messages[i + 1..];
      CommandsStep(before, db.basePath, messages[i..], parse, clock, i + 1, response, db.fs.files);
      assert replies + [Json(response)] + Commands(db.fs.files, db.basePath, messages[i + 1..], parse, clock, i + 2).0
        == replies + ([Json(response)] + Commands(db.fs.files, db.basePath, messages[i + 1..], parse, clock, i + 2).0);
      replies := replies + [Json(response)];
      i := i + 1;
    }
    assert messages[i..] == [];
    assert replies + [] == replies;
  }

  /** Serves one client: the first message names the database, the rest are
      commands. */
  method HandleUser(registry: Registry, messages: seq<string>, parse: string -> Option<Value>, clock: nat -> nat)
    returns (replies: seq<Reply>)
    requires registry.Valid()
    modifies registry, registry.fs
    ensures registry.Valid()
    ensures (replies, registry.fs.files) == SessionSpec(old(registry.fs.files), messages, parse, clock)
    ensures messages == [] || messages[0] == "" ==> registry.databases == old(registry.databases)
    ensures messages != [] && messages[0] != "" ==> (exists db :: (messages[0], db) in registry.databases)
  {
    if messages == [] {
      return [Json(Respond("error", "Connection error"))];
    }
    var name := messages[0];
    if name == "" {
      return [Json(Respond("error", "Database name cannot be empty"))];
    }
    var db := registry.GetOrCreate(name);
    var answers := ServeCommands(db, messages[1..], parse, clock);
    replies := [Text("Connected to database: " + name + "\n")] + answers;
  }
}
