# A document store with a JSON filter language, in Dafny

This project models the core of a small document database server. Clients connect
to the server and name a database. They then send one-line commands
`OPERATION COLLECTION REST`, and the server answers each with a JSON response
record. A database is a directory of collection files. Each collection maps document
identifiers to JSON documents. Every operation loads the whole collection, works
on it and writes it back.

The model is made of these modules:

- `Json` (json.dfy): the JSON values the store works with. Objects are key-sorted
  member lists, as in the JSON library's default object type. It defines
  assignment `obj[k] = v` (`Put`), lookup (`Get`), what range-for and `items()`
  visit, and the library's `operator<` across kinds.
- `Decimal` (decimal.dfy): `to_string` of a natural number and its inverse.
- `Wildcard` (wildcard.dfy): the SQL LIKE matcher used by `$like`.
  - `WildcardMatch`, `SplitPattern` and `Scan` are imperative.
  - They are proved against the declarative relation `Like`.
  - The unused character-level matcher is modelled as written.
- `QueryEvaluator` (query_evaluator.dfy): the filter language.
  - Implicit equality; `$eq`, `$gt`, `$lt`, `$like`, `$in`; and `$or`.
  - Written as recursive functions returning `Result<bool>`, because `$like` on a
    non-string raises a type error.
- `Documents` (document.dfy): the `Document` class, its identifier rules and
  generated identifiers.
- `Store` (store.dfy): the `Database` class over a shared `FileSystem` object.
  - The file system maps a path to the JSON value stored there.
  - Each operation is specified by a function of the files before the call
    (`InsertSpec`, `FindSpec`, `RemoveSpec`).
  - Each method is proved equal to its function, and the lemmas state what the
    functions mean.
- `Server` (server.dfy): the sequential logic of the server.
  - The response record and the command split.
  - Dispatch, modelled as a function with a method proved against it.
  - The registry of open databases, as a class.
  - A client session, taken as its sequence of received messages.

A Dafny `char` stands for one byte of a C++ `std::string`: a string in the model is
the byte sequence the program holds, not decoded text.

JSON text parsing and the clock are parameters. `parse: string -> Option<Value>`
returns `None` for text that is not JSON. `now: nat` is the clock reading in seconds.
In a session, `clock(n)` is the reading while the n-th message is handled.

Where the intended design and the code differ, the model follows the code. The
design asks for identifiers unique within a collection. The code does not give
that: two documents without `_id` inserted in the same second get the same
identifier, and the second replaces the first. `Store.SameSecondInsertsCollide`
states this consequence.

## Model

| member | source | states |
|---|---|---|
| Wildcard.WildcardMatch | QueryEvaluator.hpp:132-223 | the matcher's answer is exactly SQL LIKE (`%` any run, `_` one character, that is one byte of the C++ string, anchored at both ends); an empty pattern matches only the empty text |
| Wildcard.SplitPattern | QueryEvaluator.hpp:138-161 | the token list spells the pattern back exactly, and every literal token is a non-empty run free of `%` and `_` |
| Wildcard.Scan | QueryEvaluator.hpp:163-222 | the backtracking scan answers exactly whether the text matches the token list |
| Wildcard.Advance | QueryEvaluator.hpp:168-214 | one loop iteration either decides the match correctly or moves to a state that keeps the scan invariant and makes progress |
| Wildcard.Finish | QueryEvaluator.hpp:217-222 | once the text is used up, skipping trailing `%` tokens and testing for the end decides the match |
| Wildcard.MatchesIsLike | QueryEvaluator.hpp:138-222 | matching a well-formed token list is the same as LIKE-matching the pattern it spells |
| Wildcard.AnyRunMatchesAll | QueryEvaluator.hpp:217-222 | the pattern `%` matches every text, the empty one included |
| Wildcard.SuffixPattern | test.cpp:187-189 | `%` followed by ordinary characters matches exactly the texts ending with them |
| Wildcard.CharScan | QueryEvaluator.hpp:225-265 | (as written) the character-level scan with one `%` checkpoint; the trailing step accepts exactly when only `%` characters remain |
| Wildcard.TrailingRuns | QueryEvaluator.hpp:259-264 | skipping `%` characters reaches the end exactly when every remaining pattern character is `%` |
| Wildcard.WildcardMatchAsWritten | QueryEvaluator.hpp:225-265 | the two loops of the unused matcher compute `CharScan` from the start position |
| Wildcard.PercentInTextExample | QueryEvaluator.hpp:237-241 | text `%ab` and pattern `%b`: LIKE holds, but the unused matcher answers false |
| QueryEvaluator.NonObjectQuery | QueryEvaluator.hpp:41 | a query that is not an object matches nothing |
| QueryEvaluator.AllConditions | QueryEvaluator.hpp:28-39 | an object query without `$or` holds iff every field condition holds, and fails iff some condition fails after all earlier ones held |
| QueryEvaluator.EmptyQueryMatchesAll | QueryEvaluator.hpp:28-38 | `{}` matches every document |
| QueryEvaluator.OrIgnoresOtherMembers | QueryEvaluator.hpp:23-26 | a query with `$or` is decided by the `$or` member alone |
| QueryEvaluator.OrMeaning | QueryEvaluator.hpp:46-56 | `$or` holds iff some element holds after all earlier ones failed, and fails iff every element fails; an empty array fails |
| QueryEvaluator.AnyItemMeaning | QueryEvaluator.hpp:48-55 | the loop over sub-queries, stated as the first sub-query that holds |
| QueryEvaluator.EvaluateField | QueryEvaluator.hpp:58-117 | a missing field fails whatever the condition; a condition that is not an object holds iff the field equals it (the object case is stated by `ConditionObject`) |
| QueryEvaluator.OpsMeaning | QueryEvaluator.hpp:67-112 | the operators of a condition object all pass iff the loop holds, the loop fails iff some operator fails after all earlier ones passed, and an unknown operator keeps it from holding |
| QueryEvaluator.ConditionObject | QueryEvaluator.hpp:65-112 | on a present field, a condition object holds iff every operator passes on the field's value, fails iff some operator fails after all earlier ones passed, and cannot hold with an unknown operator |
| QueryEvaluator.OpPasses | QueryEvaluator.hpp:72-110 | an unknown operator fails; only `$like` on a non-string side raises an error |
| QueryEvaluator.ComparisonOperators | QueryEvaluator.hpp:79-92 | `$gt` and `$lt` are strict, and exactly one of `$gt`, `$eq`, `$lt` holds against an operand |
| QueryEvaluator.InMeaning | QueryEvaluator.hpp:119-130 | `$in` holds iff the field value is one of the operand's elements; an empty array never holds |
| QueryEvaluator.SingleOperator | QueryEvaluator.hpp:65-111 | a condition object with one operator is decided by that operator |
| QueryEvaluator.SingleCondition | QueryEvaluator.hpp:28-39 | a one-member query is decided by its field condition |
| QueryEvaluator.TestRoutine | test.cpp:174-197 | every check of the evaluator test routine holds (equality, `$gt`, `$like`, `$in`, `$or`) |
| QueryEvaluator.TestLike | test.cpp:187-189 | `%gmail.com` matches every address at gmail.com |
| QueryEvaluator.OpsAsWrittenAgree | QueryEvaluator.hpp:67-112 | (as written) the operator loop never returns true; it reaches the end without a return exactly when the corrected loop holds |
| QueryEvaluator.FieldAsWrittenAgrees | QueryEvaluator.hpp:58-117 | the source's field evaluation agrees with the corrected one, except that it returns nothing where a condition object holds |
| QueryEvaluator.NoReturnExample | QueryEvaluator.hpp:112-117 | `{"age": {"$gt": 20}}` on the test document: no return as written; the corrected result is true |
| Documents.GenerateId | document.hpp:62-65 | the identifier is `doc_` followed by the decimal digits of the clock reading, with no leading zero, which read back as that reading |
| Documents.SameSecondSameId | document.hpp:62-65 | two generated identifiers are equal iff they are generated in the same second |
| Documents.InitialId | document.hpp:28-39 | the identifier is the value's own `_id` when it has one, otherwise a generated one |
| Documents.InitialData | document.hpp:28-39 | the data carries the identifier as `_id`; a value with `_id` is kept as is, otherwise every other member is unchanged |
| Documents.RebuildStored | document.hpp:35-38 | rebuilding a document from a stored one gives it back unchanged |
| Documents.Document.Empty | document.hpp:22-26 | the default document holds nothing but a generated `_id` |
| Documents.Document.constructor | document.hpp:28-39 | the id and data are `InitialId` and `InitialData`, and `data["_id"] == id` |
| Documents.Document.GetId | document.hpp:41-44 | the id returned is the data's `_id` |
| Documents.Document.GetData | document.hpp:45-48 | the data is an object carrying the document's id |
| Documents.Document.SetField | document.hpp:50-53 | sets exactly that member and keeps every other; the id stays in step unless `_id` is overwritten |
| Documents.Document.Matches | document.hpp:55-59 | every document matches `{}` and the query on its own identifier |
| Decimal.DecimalRoundTrip | document.hpp:64 | the decimal spelling of a number reads back as that number |
| Store.RemoveQuotes | database.hpp:31-38 | the text is unchanged, or is the result in single quotes; the latter exactly when it has two or more characters and starts and ends with a quote |
| Store.UnquoteQuoted | database.hpp:31-38 | removing the quotes from a quoted text gives the text back |
| Store.CollectionPathInjective | database.hpp:21-24 | within a database, different collections have different files |
| Store.Database.constructor | database.hpp:41-44 | a database named `name` keeps its files under `databases/name` |
| Store.Database.GetCollectionPath | database.hpp:21-24 | the collection file is `<base>/<collection>.json` |
| Store.Upsert | database.hpp:58 | storing under a key: that key gives the document, others are unchanged, the size grows only for a new key, keys stay distinct |
| Store.Delete | database.hpp:120 | removing a key: it gives nothing, others are unchanged, keys stay distinct, the size drops by one iff it was present |
| Store.DeleteAll | database.hpp:118-121 | after removing a list of keys, each listed key gives nothing and every other key is unchanged |
| Store.DeleteEach | database.hpp:118-121 | the removal loop computes `DeleteAll` |
| Store.LoadItems | database.hpp:152-156 | loading keeps keys distinct and every document an object with a string `_id` |
| Store.LoadSpec | database.hpp:133-157 | a missing file loads as the empty collection; a loaded collection has distinct keys and proper documents |
| Store.Database.LoadCollection | database.hpp:133-157 | the loading loop computes `LoadSpec` |
| Store.Database.SaveCollection | database.hpp:159-174 | the collection file is replaced by the saved value, and no other file changes |
| Store.SaveFromShape | database.hpp:163-169 | the saved value is null iff the collection is empty, else a sorted object giving each key its document |
| Store.SaveLoadRoundTrip | database.hpp:133-174 | saving a collection and loading it back gives every key its document |
| Store.SameEntriesSameSize | database.hpp:152-169 | two collections with distinct keys and the same entries have the same size |
| Store.MatchingMembers | database.hpp:80-88 | the scan fails iff some document raises an error; otherwise it selects exactly the entries whose documents match |
| Store.MatchingAppend | database.hpp:82-88 | scanning a concatenation scans each part and keeps their results in order |
| Store.SelectedKeys | database.hpp:108-116 | the collected keys are exactly those of entries whose documents match |
| Store.SelectDocuments | database.hpp:80-88 | the search loop computes the documents found (`FindIn`) |
| Store.SelectKeys | database.hpp:108-116 | the removal's first loop collects the matching keys, in order |
| Store.FindInMeaning | database.hpp:80-88 | the documents found are exactly the loaded documents that match |
| Store.InsertThenLoad | database.hpp:46-68 | after an insert, the new document is under its id and every other id keeps its document; the size grows iff the id is new; other files are untouched |
| Store.SameSecondInsertsCollide | database.hpp:53-58 | two inserts without `_id` in the same second get the same id; the second replaces the first and the size does not grow |
| Store.Database.Insert | database.hpp:46-68 | the insertion method computes `InsertSpec`: the id on success, unchanged files on any failure |
| Store.FindMeaning | database.hpp:70-96 | the search fails iff some document raises an error, and otherwise finds exactly the matching documents |
| Store.FindEverything | database.hpp:70-90 | `{}` finds every document in load order |
| Store.Database.Find | database.hpp:70-96 | the search method computes `FindSpec` and changes no file |
| Store.RemoveExact | database.hpp:98-130 | afterwards, matching ids give nothing and every other id keeps its document; the count is the number of documents a search finds |
| Store.RemoveNothing | database.hpp:98-130 | a query matching nothing reports 0 and leaves every document in place |
| Store.Database.Remove | database.hpp:98-130 | the removal method computes `RemoveSpec` |
| Store.FindAsWritten | database.hpp:70-96 | (as written) a query text that does not parse, or a collection that does not load, ends the search without a return |
| Store.ScanAsWritten | database.hpp:81-90 | (as written) the loop over the documents ends without a return exactly when some document still to be visited raises an error, and otherwise returns exactly the documents found so far plus the remaining ones that satisfy the query |
| Store.FindAsWrittenAgrees | database.hpp:70-96 | the as-written search ends without a return exactly when the corrected search fails, and otherwise returns the same documents |
| Store.FindNoReturnExample | database.hpp:92-95 | a query that is not JSON reaches the end of the search without a return |
| Server.CreateResponse | server.cpp:24-32 | the record has exactly the keys `count`, `data`, `message`, `status`, holding the given values |
| Server.PutChain | server.cpp:26-30 | assigning the four members in turn builds them in key order |
| Server.SplitJoin | server.cpp:53-58 | a command joined from operation, collection and rest by spaces splits back into them |
| Server.SplitIsInverse | server.cpp:53-58 | a one-line command with two spaces is its three fields joined by spaces |
| Server.Before | server.cpp:56-57 | the field read up to a delimiter is a prefix free of it, followed by it when it occurs |
| Server.After | server.cpp:56-58 | what follows the first delimiter exists iff the delimiter occurs, and rebuilds the text |
| Server.OperationOf | server.cpp:63-130 | every name other than INSERT, FIND and DELETE is an unknown operation carrying that name |
| Server.UnknownOperation | server.cpp:127-130 | an unknown operation is answered "error" with `Unknown operation: <name>` and changes nothing |
| Server.InsertResponse | server.cpp:63-83 | INSERT reports success iff the store insertion succeeds; the files are what it leaves |
| Server.FindResponse | server.cpp:84-105 | FIND changes nothing; on success `data` lists the results in order and `count` is their number |
| Server.DeleteResponse | server.cpp:106-126 | DELETE reports success iff the store removal succeeds; the files are what it leaves |
| Server.ProcessRequest | server.cpp:51-136 | handling a command computes `ProcessSpec`: the response and the files after it |
| Server.ResultArray | server.cpp:95-100 | the result array holds the documents found, in order |
| Server.Registry.constructor | server.cpp:20 | the registry starts empty |
| Server.Registry.GetOrCreate | server.cpp:34-49 | a registered name gives its database and the registry is unchanged; a new name is appended once at the end; names stay distinct |
| Server.EmptyNameRefused | server.cpp:161-172 | an empty database name is answered with one error and changes nothing |
| Server.ExitEndsCommands | server.cpp:206-215 | nothing after the first EXIT is handled; the session ends with the goodbye |
| Server.OneReplyPerCommand | server.cpp:186-236 | without EXIT, every command gets exactly one response record |
| Server.ServeCommands | server.cpp:186-236 | the receive loop computes `Commands`: the replies and the files after them |
| Server.HandleUser | server.cpp:138-257 | a session computes `SessionSpec`, keeps the registry valid, and registers the name unless it is empty or missing |

## Left out

- Sockets, `recv`/`send`, buffers and the server's `main` are left out. A session is its sequence of received messages. The end of the sequence stands for a receive of zero or fewer bytes. A failed `send` is not modelled.
- A real receive never returns an empty message, so the empty-name branch is reachable only in the model.
- Threads, `detach` and the database mutex are left out; the registry and the store are sequential.
- The operation timers and their "timed out" responses are left out. They read the wall clock and carry no logic.
- The "Request processing failed" and "Server error" handlers in the session are left out. The model of request handling raises nothing, so they cannot be reached.
- `ensureDirectoryExists`, streams and the two-space `dump` formatting are left out. A file is the JSON value it holds.
- An unreadable existing file is not modelled. Loading fails only when a stored item cannot become a document.
- JSON text parsing is a parameter, so its failure modes are the single `ParseError`.
- Floating-point numbers are left out; numbers are integers.
- Strings are byte strings: `_` matches one byte, so text holding a multi-byte UTF-8 character needs one `_` per byte. The model keeps this only when each `char` is read as one byte; no UTF-8 encoding or decoding is modelled.
- The `cout`/`cerr` logging in the store and the server is left out; it changes no state and no reply.
- QueryEvaluator.NotAString: the type error's text is shortened to its common part; the library's message also carries the error code prefix and names the kind of value it met.
- `Json.Value` also admits objects whose members are unsorted or repeat a key, which the JSON library never builds. For those, `Get` takes the first member with the key and the evaluator follows the member list's order. The key order the program sees is guaranteed only for key-sorted objects (`KeysSorted`), which is what `Put` builds; the model does not require `parse` results or stored files to be key-sorted.
- The hash table header is not part of this model. A collection is a sequence of (id, document) pairs with distinct keys, in insertion order. Re-inserting a key keeps its position, and `getAll` is taken to list the entries in that order.
- main.cpp, client.cpp and test1step.cpp are not part of this model. They are command-line glue, the interactive client and tests of the hash table.
- Store.Database.Insert, Store.Database.Remove: the source returns `void` and compares it with `SUCCESS`. The model gives both an explicit result: the id, or the number of removed documents, and an error otherwise.
- Server.CreateResponse: `count` is an unbounded integer. The conversion of a result count to a 32-bit `int` is not modelled.
- Documents.GenerateId: the clock is a parameter `now: nat`; `time(nullptr)` is not modelled.

## Findings

| source | as written | input that shows it | evidently intended | confidence | as-written member | corrected member |
|---|---|---|---|---|---|---|
| QueryEvaluator.hpp:112-117 | when every operator of a condition object passes, `evaluateField` reaches its end without a `return` (undefined behaviour) | document `{"name": "Alice", "age": 25}`, query `{"age": {"$gt": 20}}` (test.cpp:180 and test.cpp:184) | return true | not executed | QueryEvaluator.EvaluateFieldAsWritten, QueryEvaluator.NoReturnExample | QueryEvaluator.EvaluateField, QueryEvaluator.FieldAsWrittenAgrees |
| database.hpp:92-95 | when parsing, loading or matching throws, `find` logs the error and reaches its end without a `return` | query text `{` (not JSON) | report the failure to the caller; the model's server answers it with `Operation failed: <error>`, as its own handler does for exceptions | not executed | Store.FindAsWritten, Store.ScanAsWritten, Store.FindNoReturnExample | Store.FindSpec, Store.Database.Find, Store.FindAsWrittenAgrees |
| QueryEvaluator.hpp:237-241 | where the text has a `%` at the place of a pattern `%`, the unused character matcher takes it as a literal match and never records the `%` as a wildcard | text `%ab`, pattern `%b` | LIKE semantics, as the matcher in use gives (true) | not executed | Wildcard.CharScan, Wildcard.PercentInTextExample | Wildcard.WildcardMatch |
