/** The filter language of the store: a query is an object whose members are
    field conditions (all must hold) unless it has a `$or` member, in which case
    one of the `$or` sub-queries must hold. A field condition is either a plain
    value, compared for equality, or an object of operators `$eq`, `$gt`, `$lt`,
    `$like` and `$in`. Evaluation can fail: `$like` reads both of its sides as
    strings and raises a type error otherwise. */
module QueryEvaluator {

  import opened Json
  import Wildcard

  /** Message of the type error raised when `$like` meets something that is not a string.
      The JSON library's message also carries an error code prefix and names the
      kind it met; the model keeps only the common part. */
  const NotAString: string := "type must be string"

  /** The position of the first member named `k`. */
  function KeyIndex(fs: Fields, k: string): (i: nat)
    requires k in Keys(fs)
    ensures i < |fs| && fs[i].0 == k && Get(fs, k) == Some(fs[i].1)
  {
    if fs[0].0 == k then 0 else 1 + KeyIndex(fs[1..], k)
  }

  /** Whether `doc` satisfies `query`. */
  function Evaluate(doc: Value, query: Value): Result<bool>
    decreases query, 1
  {
    match query
    case Object(fs) =>
      if "$or" in Keys(fs) then
        var i := KeyIndex(fs, "$or");
        assert fs[i].1 < fs[i];
        EvaluateOr(doc, fs[i].1)
      else EvaluateAll(doc, fs)
    case _ => Ok(false)
  }

  /** Some of the `$or` sub-queries holds; they are tried in order. */
  function EvaluateOr(doc: Value, conditions: Value): Result<bool>
    decreases conditions, 2
  {
    match conditions
    case Array(items) => AnyItem(doc, items)
    case Object(fs) => AnyMember(doc, fs)
    case Null => Ok(false)
    case _ => Evaluate(doc, conditions)
  }

  function AnyItem(doc: Value, items: seq<Value>): Result<bool>
    decreases items, 0
  {
    if items == [] then Ok(false)
    else match Evaluate(doc, items[0])
      case Err(e) => Err(e)
      case Ok(true) => Ok(true)
      case Ok(false) => AnyItem(doc, items[1..])
  }

  function AnyMember(doc: Value, fs: Fields): Result<bool>
    decreases fs, 0
  {
    if fs == [] then Ok(false)
    else
      assert fs[0].1 < fs[0];
      match Evaluate(doc, fs[0].1)
      case Err(e) => Err(e)
      case Ok(true) => Ok(true)
      case Ok(false) => AnyMember(doc, fs[1..])
  }

  /** Every field condition of the query holds; they are tried in key order. */
  function EvaluateAll(doc: Value, conditions: Fields): Result<bool>
  {
    if conditions == [] then Ok(true)
    else match EvaluateField(doc, conditions[0].0, conditions[0].1)
      case Err(e) => Err(e)
      case Ok(false) => Ok(false)
      case Ok(true) => EvaluateAll(doc, conditions[1..])
  }

  /** The condition on one field. A document without the field never satisfies it. */
  function EvaluateField(doc: Value, field: string, condition: Value): (r: Result<bool>)
    ensures !Contains(doc, field) ==> r == Ok(false)
    ensures Contains(doc, field) && !condition.Object? ==>
      (r == Ok(true) <==> Get(doc.fields, field) == Some(condition)) && r.Ok?
  {
    if !Contains(doc, field) then Ok(false)
    else
      var fieldValue := Get(doc.fields, field).value;
      if condition.Object? then EvaluateOps(fieldValue, condition.fields)
      else Ok(fieldValue == condition)
  }

  /** A condition object on a present field holds exactly when every one of its
      operators passes on the field's value, and fails exactly when some operator
      fails after all earlier ones passed; an unknown operator keeps it from holding. */
  lemma ConditionObject(doc: Value, field: string, ops: Fields)
    requires Contains(doc, field)
    ensures var fieldValue := Get(doc.fields, field).value;
      EvaluateField(doc, field, Object(ops)) == Ok(true) <==>
        forall i :: 0 <= i < |ops| ==> OpPasses(fieldValue, ops[i].0, ops[i].1) == Ok(true)
    ensures var fieldValue := Get(doc.fields, field).value;
      EvaluateField(doc, field, Object(ops)) == Ok(false) <==>
        exists i :: 0 <= i < |ops| && OpPasses(fieldValue, ops[i].0, ops[i].1) == Ok(false) &&
          forall j :: 0 <= j < i ==> OpPasses(fieldValue, ops[j].0, ops[j].1) == Ok(true)
    ensures (exists i :: 0 <= i < |ops| && ops[i].0 !in Operators) ==> EvaluateField(doc, field, Object(ops)) != Ok(true)
  {
    OpsMeaning(Get(doc.fields, field).value, ops);
  }

  /** The operators of a condition object, in key order; all of them must pass. */
  function EvaluateOps(fieldValue: Value, ops: Fields): Result<bool>
  {
    if ops == [] then Ok(true)
    else match OpPasses(fieldValue, ops[0].0, ops[0].1)
      case Err(e) => Err(e)
      case Ok(false) => Ok(false)
      case Ok(true) => EvaluateOps(fieldValue, ops[1..])
  }

  /** The outcome of each operator of a condition object, in order. */
  function OpOutcomes(fieldValue: Value, ops: Fields): (rs: seq<Result<bool>>)
    ensures |rs| == |ops| && forall i :: 0 <= i < |ops| ==> rs[i] == OpPasses(fieldValue, ops[i].0, ops[i].1)
  {
    seq(|ops|, i requires 0 <= i < |ops| => OpPasses(fieldValue, ops[i].0, ops[i].1))
  }

  lemma {:induction false} OpsIsFirstFalse(fieldValue: Value, ops: Fields)
    ensures EvaluateOps(fieldValue, ops) == FirstFalse(OpOutcomes(fieldValue, ops))
  {
    if ops != [] {
      OpsIsFirstFalse(fieldValue, ops[1..]);
      assert OpOutcomes(fieldValue, ops)[1..] == OpOutcomes(fieldValue, ops[1..]);
    }
  }

  /** A condition object holds exactly when every one of its operators passes, and
      fails exactly when some operator fails after all earlier ones passed; so one
      unknown operator keeps it from holding. */
  lemma OpsMeaning(fieldValue: Value, ops: Fields)
    ensures EvaluateOps(fieldValue, ops) == Ok(true) <==>
      forall i :: 0 <= i < |ops| ==> OpPasses(fieldValue, ops[i].0, ops[i].1) == Ok(true)
    ensures EvaluateOps(fieldValue, ops) == Ok(false) <==>
      exists i :: 0 <= i < |ops| && OpPasses(fieldValue, ops[i].0, ops[i].1) == Ok(false) &&
        forall j :: 0 <= j < i ==> OpPasses(fieldValue, ops[j].0, ops[j].1) == Ok(true)
    ensures (exists i :: 0 <= i < |ops| && ops[i].0 !in Operators) ==> EvaluateOps(fieldValue, ops) != Ok(true)
  {
    OpsIsFirstFalse(fieldValue, ops);
    FirstFalseMeaning(OpOutcomes(fieldValue, ops));
  }

  /** The operators the evaluator knows. */
  const Operators: set<string> := {"$eq", "$gt", "$lt", "$like", "$in"}

  /** One operator. `$gt` fails when the field is at most the operand, `$lt` when it is
      at least the operand; an unknown operator fails. */
  function OpPasses(fieldValue: Value, op: string, operand: Value): (r: Result<bool>)
    ensures r.Err? <==> op == "$like" && !(fieldValue.Str? && operand.Str?)
    ensures op !in Operators ==> r == Ok(false)
  {
    if op == "$eq" then Ok(fieldValue == operand)
    else if op == "$gt" then Ok(Less(operand, fieldValue))
    else if op == "$lt" then Ok(Less(fieldValue, operand))
    else if op == "$like" then
      if fieldValue.Str? && operand.Str? then Ok(Wildcard.Like(fieldValue.s, operand.s))
      else Err(NotAString)
    else if op == "$in" then Ok(EvaluateIn(fieldValue, operand))
    else Ok(false)
  }

  /** `$in`: the value equals one of the elements of the operand. */
  function EvaluateIn(value: Value, operand: Value): bool {
    Occurs(value, Elements(operand))
  }

  function Occurs(value: Value, items: seq<Value>): bool {
    if items == [] then false
    else if value == items[0] then true
    else Occurs(value, items[1..])
  }

  // ---------------------------------------------------------------------------
  // Properties of the evaluator
  // ---------------------------------------------------------------------------

  /** A query that is not an object matches nothing. */
  lemma NonObjectQuery(doc: Value, query: Value)
    requires !query.Object?
    ensures Evaluate(doc, query) == Ok(false)
  {
  }

  /** An object query without `$or` holds exactly when every field condition holds,
      and fails exactly when some condition fails after all earlier ones held. */
  lemma AllConditions(doc: Value, fs: Fields)
    ensures EvaluateAll(doc, fs) == Ok(true) <==>
      forall i :: 0 <= i < |fs| ==> EvaluateField(doc, fs[i].0, fs[i].1) == Ok(true)
    ensures EvaluateAll(doc, fs) == Ok(false) <==>
      exists i :: 0 <= i < |fs| && EvaluateField(doc, fs[i].0, fs[i].1) == Ok(false) &&
        forall j :: 0 <= j < i ==> EvaluateField(doc, fs[j].0, fs[j].1) == Ok(true)
  {
    AllIsFirstFalse(doc, fs);
    FirstFalseMeaning(EvaluateFields(doc, fs));
  }

  /** The outcome of each field condition, in order. */
  function EvaluateFields(doc: Value, fs: Fields): (rs: seq<Result<bool>>)
    ensures |rs| == |fs| && forall i :: 0 <= i < |fs| ==> rs[i] == EvaluateField(doc, fs[i].0, fs[i].1)
  {
    if fs == [] then [] else [EvaluateField(doc, fs[0].0, fs[0].1)] + EvaluateFields(doc, fs[1..])
  }

  /** Scanning outcomes for the first decisive one: an error or a failure. */
  function FirstFalse(rs: seq<Result<bool>>): Result<bool> {
    if rs == [] then Ok(true)
    else match rs[0]
      case Err(e) => Err(e)
      case Ok(false) => Ok(false)
      case Ok(true) => FirstFalse(rs[1..])
  }

  lemma {:induction false} AllIsFirstFalse(doc: Value, fs: Fields)
    ensures EvaluateAll(doc, fs) == FirstFalse(EvaluateFields(doc, fs))
  {
    if fs != [] {
      AllIsFirstFalse(doc, fs[1..]);
      assert EvaluateFields(doc, fs)[1..] == EvaluateFields(doc, fs[1..]);
    }
  }

  lemma {:induction false} FirstFalseMeaning(rs: seq<Result<bool>>)
    ensures FirstFalse(rs) == Ok(true) <==> forall i :: 0 <= i < |rs| ==> rs[i] == Ok(true)
    ensures FirstFalse(rs) == Ok(false) <==>
      exists i :: 0 <= i < |rs| && rs[i] == Ok(false) && forall j :: 0 <= j < i ==> rs[j] == Ok(true)
  {
    if rs != [] {
      FirstFalseMeaning(rs[1..]);
      assert forall i :: 0 < i < |rs| ==> rs[i] == rs[1..][i - 1];
      if rs[0] == Ok(true) && FirstFalse(rs[1..]) == Ok(false) {
        var i :| 0 <= i < |rs[1..]| && rs[1..][i] == Ok(false) && forall j :: 0 <= j < i ==> rs[1..][j] == Ok(true);
        assert rs[i + 1] == Ok(false);
      }
    }
  }

  /** The empty query `{}` matches every document. */
  lemma EmptyQueryMatchesAll(doc: Value)
    ensures Evaluate(doc, Object([])) == Ok(true)
  {
  }

  /** A query with a `$or` member is decided by that member alone; the other
      members are ignored. */
  lemma OrIgnoresOtherMembers(doc: Value, fs: Fields)
    requires "$or" in Keys(fs)
    ensures Evaluate(doc, Object(fs)) == EvaluateOr(doc, Get(fs, "$or").value)
  {
  }

  /** Over any list of sub-queries, the disjunction fails exactly when every
      sub-query fails, and holds exactly when some sub-query holds after all
      earlier ones failed. */
  lemma AnyItemMeaning(doc: Value, items: seq<Value>)
    ensures AnyItem(doc, items) == Ok(false) <==> forall i :: 0 <= i < |items| ==> Evaluate(doc, items[i]) == Ok(false)
    ensures AnyItem(doc, items) == Ok(true) <==>
      exists i :: 0 <= i < |items| && Evaluate(doc, items[i]) == Ok(true) &&
        forall j :: 0 <= j < i ==> Evaluate(doc, items[j]) == Ok(false)
  {
    AnyItemIsFirstTrue(doc, items);
    AnyItemFails(doc, items);
    AnyItemHolds(doc, items);
  }

  lemma AnyItemFails(doc: Value, items: seq<Value>)
    ensures FirstTrue(EvaluateEach(doc, items)) == Ok(false) <==> forall i :: 0 <= i < |items| ==> Evaluate(doc, items[i]) == Ok(false)
  {
    FirstTrueMeaning(EvaluateEach(doc, items));
  }

  lemma AnyItemHolds(doc: Value, items: seq<Value>)
    ensures FirstTrue(EvaluateEach(doc, items)) == Ok(true) <==>
      exists i :: 0 <= i < |items| && Evaluate(doc, items[i]) == Ok(true) &&
        forall j :: 0 <= j < i ==> Evaluate(doc, items[j]) == Ok(false)
  {
    var rs := EvaluateEach(doc, items);
    FirstTrueMeaning(rs);
    if FirstTrue(rs) == Ok(true) {
      var i :| 0 <= i < |rs| && rs[i] == Ok(true) && forall j :: 0 <= j < i ==> rs[j] == Ok(false);
      assert Evaluate(doc, items[i]) == Ok(true);
    }
    forall i | 0 <= i < |items| && Evaluate(doc, items[i]) == Ok(true) &&
        forall j :: 0 <= j < i ==> Evaluate(doc, items[j]) == Ok(false)
      ensures FirstTrue(rs) == Ok(true)
    {
      assert rs[i] == Ok(true) && forall j :: 0 <= j < i ==> rs[j] == Ok(false);
    }
  }

  /** The outcome of each sub-query, in order. */
  function EvaluateEach(doc: Value, items: seq<Value>): (rs: seq<Result<bool>>)
    ensures |rs| == |items| && forall i :: 0 <= i < |items| ==> rs[i] == Evaluate(doc, items[i])
  {
    if items == [] then [] else [Evaluate(doc, items[0])] + EvaluateEach(doc, items[1..])
  }

  /** Scanning outcomes for the first decisive one: an error or a success. */
  function FirstTrue(rs: seq<Result<bool>>): Result<bool> {
    if rs == [] then Ok(false)
    else match rs[0]
      case Err(e) => Err(e)
      case Ok(true) => Ok(true)
      case Ok(false) => FirstTrue(rs[1..])
  }

  lemma {:induction false} AnyItemIsFirstTrue(doc: Value, items: seq<Value>)
    ensures AnyItem(doc, items) == FirstTrue(EvaluateEach(doc, items))
  {
    if items != [] {
      AnyItemIsFirstTrue(doc, items[1..]);
      assert EvaluateEach(doc, items)[1..] == EvaluateEach(doc, items[1..]);
    }
  }

  lemma {:induction false} FirstTrueMeaning(rs: seq<Result<bool>>)
    ensures FirstTrue(rs) == Ok(false) <==> forall i :: 0 <= i < |rs| ==> rs[i] == Ok(false)
    ensures FirstTrue(rs) == Ok(true) <==>
      exists i :: 0 <= i < |rs| && rs[i] == Ok(true) && forall j :: 0 <= j < i ==> rs[j] == Ok(false)
  {
    if rs != [] {
      FirstTrueMeaning(rs[1..]);
      assert forall i :: 0 < i < |rs| ==> rs[i] == rs[1..][i - 1];
      if rs[0] == Ok(false) && FirstTrue(rs[1..]) == Ok(true) {
        var i :| 0 <= i < |rs[1..]| && rs[1..][i] == Ok(true) && forall j :: 0 <= j < i ==> rs[1..][j] == Ok(false);
        assert rs[i + 1] == Ok(true);
      }
    }
  }

  lemma {:induction false} AnyMemberIsAnyItem(doc: Value, fs: Fields)
    ensures AnyMember(doc, fs) == AnyItem(doc, MemberValues(fs))
  {
    if fs != [] {
      AnyMemberIsAnyItem(doc, fs[1..]);
      assert MemberValues(fs)[1..] == MemberValues(fs[1..]);
    }
  }

  /** `$or` tries the elements of its operand (the items of an array, the member
      values of an object): it holds when some element holds after all earlier
      ones failed, and fails when every element fails; in particular an empty
      array fails. */
  lemma OrMeaning(doc: Value, conditions: Value)
    ensures var e := Elements(conditions);
      && (EvaluateOr(doc, conditions) == Ok(false) <==> forall i :: 0 <= i < |e| ==> Evaluate(doc, e[i]) == Ok(false))
      && (EvaluateOr(doc, conditions) == Ok(true) <==>
           exists i :: 0 <= i < |e| && Evaluate(doc, e[i]) == Ok(true) &&
             forall j :: 0 <= j < i ==> Evaluate(doc, e[j]) == Ok(false))
  {
    OrIsAnyElement(doc, conditions);
    AnyItemMeaning(doc, Elements(conditions));
  }

  lemma OrIsAnyElement(doc: Value, conditions: Value)
    ensures EvaluateOr(doc, conditions) == AnyItem(doc, Elements(conditions))
  {
    match conditions
    case Object(fs) => AnyMemberIsAnyItem(doc, fs);
    case Array(_) =>
    case Null =>
    case _ => assert [conditions][1..] == [];
  }

  lemma {:induction false} OccursIsIn(value: Value, items: seq<Value>)
    ensures Occurs(value, items) <==> value in items
  {
    if items != [] {
      OccursIsIn(value, items[1..]);
      assert items == [items[0]] + items[1..];
    }
  }

  /** `$in` holds exactly when the field value is one of the operand's elements;
      an empty array never holds. */
  lemma InMeaning(value: Value, operand: Value)
    ensures EvaluateIn(value, operand) <==> value in Elements(operand)
  {
    OccursIsIn(value, Elements(operand));
  }

  /** A condition object with a single operator is decided by that operator. */
  lemma SingleOperator(doc: Value, field: string, op: string, operand: Value)
    requires Contains(doc, field)
    ensures EvaluateField(doc, field, Object([(op, operand)])) == OpPasses(Get(doc.fields, field).value, op, operand)
  {
    var fieldValue := Get(doc.fields, field).value;
    assert [(op, operand)][1..] == [];
    assert EvaluateOps(fieldValue, []) == Ok(true);
    assert EvaluateField(doc, field, Object([(op, operand)])) == EvaluateOps(fieldValue, [(op, operand)]);
  }

  /** `$gt` and `$lt` are strict, and against one operand exactly one of `$gt`,
      `$eq`, `$lt` holds. */
  lemma ComparisonOperators(fieldValue: Value, operand: Value)
    ensures OpPasses(fieldValue, "$gt", fieldValue) == Ok(false)
    ensures OpPasses(fieldValue, "$lt", fieldValue) == Ok(false)
    ensures var gt := OpPasses(fieldValue, "$gt", operand) == Ok(true);
      var eq := OpPasses(fieldValue, "$eq", operand) == Ok(true);
      var lt := OpPasses(fieldValue, "$lt", operand) == Ok(true);
      (gt || eq || lt) && !(gt && eq) && !(gt && lt) && !(eq && lt)
  {
    LessTrichotomy(fieldValue, fieldValue);
    LessTrichotomy(fieldValue, operand);
  }

  /** The checks of the evaluator's own test routine: equality, `$gt`, `$like`,
      `$in` and `$or` on small documents all hold. */
  lemma TestRoutine()
    ensures var doc1 := Object([("age", Int(25)), ("name", Str("Alice"))]);
      && Evaluate(doc1, Object([("name", Str("Alice"))])) == Ok(true)
      && Evaluate(doc1, Object([("age", Object([("$gt", Int(20))]))])) == Ok(true)
      && Evaluate(doc1, Object([("name", Object([("$in", Array([Str("Alice"), Str("Bob")]))]))])) == Ok(true)
      && Evaluate(doc1, Object([("$or", Array([Object([("age", Int(30))]), Object([("name", Str("Alice"))])]))])) == Ok(true)
    ensures Evaluate(Object([("email", Str("test@gmail.com"))]),
      Object([("email", Object([("$like", Str("%gmail.com"))]))])) == Ok(true)
  {
    TestLike("test");
    assert "test" + "@gmail.com" == "test@gmail.com";
    TestDoc(Object([("age", Int(25)), ("name", Str("Alice"))]));
  }

  lemma TestDoc(doc1: Value)
    requires doc1 == Object([("age", Int(25)), ("name", Str("Alice"))])
    ensures Evaluate(doc1, Object([("name", Str("Alice"))])) == Ok(true)
    ensures Evaluate(doc1, Object([("age", Object([("$gt", Int(20))]))])) == Ok(true)
    ensures Evaluate(doc1, Object([("name", Object([("$in", Array([Str("Alice"), Str("Bob")]))]))])) == Ok(true)
    ensures Evaluate(doc1, Object([("$or", Array([Object([("age", Int(30))]), Object([("name", Str("Alice"))])]))])) == Ok(true)
  {
    SingleCondition(doc1, "age", Object([("$gt", Int(20))]));
    NoReturnExample();
    SingleCondition(doc1, "name", Object([("$in", Array([Str("Alice"), Str("Bob")]))]));
    TestIn(doc1);
    SingleCondition(doc1, "name", Str("Alice"));
    TestOr(doc1);
  }

  lemma SingleCondition(doc: Value, field: string, condition: Value)
    requires field != "$or"
    ensures Evaluate(doc, Object([(field, condition)])) == EvaluateField(doc, field, condition)
  {
    assert [(field, condition)][1..] == [];
    assert Keys([(field, condition)]) == [field];
    assert EvaluateAll(doc, []) == Ok(true);
    assert Evaluate(doc, Object([(field, condition)])) == EvaluateAll(doc, [(field, condition)]);
  }

  lemma TestIn(doc1: Value)
    requires doc1 == Object([("age", Int(25)), ("name", Str("Alice"))])
    ensures EvaluateField(doc1, "name", Object([("$in", Array([Str("Alice"), Str("Bob")]))])) == Ok(true)
  {
    SingleOperator(doc1, "name", "$in", Array([Str("Alice"), Str("Bob")]));
    InMeaning(Str("Alice"), Array([Str("Alice"), Str("Bob")]));
  }

  lemma TestOr(doc1: Value)
    requires doc1 == Object([("age", Int(25)), ("name", Str("Alice"))])
    ensures Evaluate(doc1, Object([("$or", Array([Object([("age", Int(30))]), Object([("name", Str("Alice"))])]))])) == Ok(true)
  {
    var q5 := Array([Object([("age", Int(30))]), Object([("name", Str("Alice"))])]);
    SingleCondition(doc1, "age", Int(30));
    SingleCondition(doc1, "name", Str("Alice"));
    OrMeaning(doc1, q5);
    assert Elements(q5)[0] == Object([("age", Int(30))]);
    assert Elements(q5)[1] == Object([("name", Str("Alice"))]);
    assert Evaluate(doc1, Object([("$or", q5)])) == EvaluateOr(doc1, q5);
  }

  /** `%gmail.com` matches every address at gmail.com, `test@gmail.com` among them. */
  lemma TestLike(user: string)
    ensures Evaluate(Object([("email", Str(user + "@gmail.com"))]),
      Object([("email", Object([("$like", Str("%gmail.com"))]))])) == Ok(true)
  {
    var address := user + "@gmail.com";
    GmailAddress(user);
    SingleOperator(Object([("email", Str(address))]), "email", "$like", Str("%gmail.com"));
    SingleCondition(Object([("email", Str(address))]), "email", Object([("$like", Str("%gmail.com"))]));
  }

  lemma GmailAddress(user: string)
    ensures Wildcard.Like(user + "@gmail.com", "%gmail.com")
  {
    assert Wildcard.NoWild("gmail.com");
    Wildcard.LikeAnySuffix(user + "@", "gmail.com");
    assert user + "@gmail.com" == (user + "@") + "gmail.com";
    assert "%gmail.com" == "%" + "gmail.com";
  }

  // ---------------------------------------------------------------------------
  // The field evaluation as written: no value is returned when every operator passes
  // ---------------------------------------------------------------------------

  /** How a call ends in the source: it returns a value, raises an exception, or
      reaches the end of a non-void function without a `return`. */
  datatype Outcome = Returned(b: bool) | Raised(error: string) | NoReturn

  function EvaluateFieldAsWritten(doc: Value, field: string, condition: Value): Outcome
  {
    if !Contains(doc, field) then Returned(false)
    else
      var fieldValue := Get(doc.fields, field).value;
      if condition.Object? then EvaluateOpsAsWritten(fieldValue, condition.fields)
      else Returned(fieldValue == condition)
  }

  function EvaluateOpsAsWritten(fieldValue: Value, ops: Fields): Outcome
  {
    if ops == [] then NoReturn
    else match OpPasses(fieldValue, ops[0].0, ops[0].1)
      case Err(e) => Raised(e)
      case Ok(false) => Returned(false)
      case Ok(true) => EvaluateOpsAsWritten(fieldValue, ops[1..])
  }

  lemma {:induction false} OpsAsWrittenAgree(fieldValue: Value, ops: Fields)
    ensures EvaluateOpsAsWritten(fieldValue, ops) == NoReturn <==> EvaluateOps(fieldValue, ops) == Ok(true)
    ensures EvaluateOpsAsWritten(fieldValue, ops) == Returned(false) <==> EvaluateOps(fieldValue, ops) == Ok(false)
    ensures forall e :: EvaluateOpsAsWritten(fieldValue, ops) == Raised(e) <==> EvaluateOps(fieldValue, ops) == Err(e)
    ensures EvaluateOpsAsWritten(fieldValue, ops) != Returned(true)
  {
    if ops != [] { OpsAsWrittenAgree(fieldValue, ops[1..]); }
  }

  /** The source's field evaluation agrees with the corrected one except that, where
      the corrected one holds because of a condition object, the source returns
      nothing at all; it never returns `true` from a condition object. */
  lemma FieldAsWrittenAgrees(doc: Value, field: string, condition: Value)
    ensures EvaluateFieldAsWritten(doc, field, condition) == NoReturn <==>
      Contains(doc, field) && condition.Object? && EvaluateField(doc, field, condition) == Ok(true)
    ensures EvaluateFieldAsWritten(doc, field, condition) != NoReturn ==>
      match EvaluateFieldAsWritten(doc, field, condition)
      case Returned(b) => EvaluateField(doc, field, condition) == Ok(b)
      case Raised(e) => EvaluateField(doc, field, condition) == Err(e)
      case NoReturn => false
  {
    if Contains(doc, field) && condition.Object? {
      OpsAsWrittenAgree(Get(doc.fields, field).value, condition.fields);
    }
  }

  /** The test routine's `{"age": {"$gt": 20}}` on `{"name": "Alice", "age": 25}`:
      the source reaches the end of the field evaluation without a `return`. */
  lemma NoReturnExample()
    ensures EvaluateFieldAsWritten(Object([("age", Int(25)), ("name", Str("Alice"))]), "age",
      Object([("$gt", Int(20))])) == NoReturn
    ensures EvaluateField(Object([("age", Int(25)), ("name", Str("Alice"))]), "age",
      Object([("$gt", Int(20))])) == Ok(true)
  {
    var doc := Object([("age", Int(25)), ("name", Str("Alice"))]);
    LessTrichotomy(Int(20), Int(25));
    SingleOperator(doc, "age", "$gt", Int(20));
    FieldAsWrittenAgrees(doc, "age", Object([("$gt", Int(20))]));
  }
}
