/** A stored document: a JSON object together with its identifier, which the
    object also carries as its `_id` member. */
module Documents {

  import opened Json
  import Decimal
  import QueryEvaluator

  const IdPrefix: string := "doc_"

  /** The identifier given to a document that brings none: "doc_" followed by the
      clock reading in seconds. */
  function GenerateId(now: nat): (id: string)
    ensures |id| > |IdPrefix| && id[..|IdPrefix|] == IdPrefix
    ensures Decimal.AllDigits(id[|IdPrefix|..]) && Decimal.DecimalToNat(id[|IdPrefix|..]) == now
    ensures |id| > |IdPrefix| + 1 ==> id[|IdPrefix|] != '0'
  {
    Decimal.DecimalRoundTrip(now);
    assert (IdPrefix + Decimal.NatToDecimal(now))[|IdPrefix|..] == Decimal.NatToDecimal(now);
    IdPrefix + Decimal.NatToDecimal(now)
  }

  /** Generated identifiers collide exactly when they are generated in the same second. */
  lemma SameSecondSameId(a: nat, b: nat)
    ensures GenerateId(a) == GenerateId(b) <==> a == b
  {
    if GenerateId(a) == GenerateId(b) {
      assert GenerateId(a)[|IdPrefix|..] == GenerateId(b)[|IdPrefix|..];
    }
  }

  /** The members of a value that `obj[k] = v` extends: none for null. */
  function MembersOf(v: Value): Fields {
    if v.Object? then v.fields else []
  }

  /** Values a document can be built from. Any other value raises a type error:
      a non-string `_id` cannot be read as a string, and a value that is neither an
      object nor null cannot be given an `_id` member. */
  predicate Constructible(v: Value) {
    v.Null? || (v.Object? && (Get(v.fields, "_id").None? || Get(v.fields, "_id").value.Str?))
  }

  /** The identifier a document built from `v` at time `now` gets. */
  function InitialId(v: Value, now: nat): (id: string)
    requires Constructible(v)
    ensures Contains(v, "_id") ==> Get(v.fields, "_id") == Some(Str(id))
    ensures !Contains(v, "_id") ==> id == GenerateId(now)
  {
    if Contains(v, "_id") then Get(v.fields, "_id").value.s else GenerateId(now)
  }

  /** The object a document built from `v` at time `now` holds: `v` itself when it has
      an `_id`, otherwise `v` with the generated identifier added and nothing else
      changed. */
  function InitialData(v: Value, now: nat): (d: Value)
    requires Constructible(v)
    ensures d.Object? && Get(d.fields, "_id") == Some(Str(InitialId(v, now)))
    ensures Contains(v, "_id") ==> d == v
    ensures !Contains(v, "_id") ==> forall k :: k != "_id" ==> Get(d.fields, k) == Get(MembersOf(v), k)
  {
    if Contains(v, "_id") then v
    else
      PutKeepsOthers(MembersOf(v), "_id", Str(GenerateId(now)));
      Object(Put(MembersOf(v), "_id", Str(GenerateId(now))))
  }

  /** A stored document: an object whose `_id` is a string. */
  predicate HasStringId(v: Value) {
    v.Object? && Get(v.fields, "_id").Some? && Get(v.fields, "_id").value.Str?
  }

  /** Rebuilding a document from a stored one gives it back unchanged. */
  lemma RebuildStored(v: Value, now: nat)
    requires HasStringId(v)
    ensures Constructible(v) && InitialData(v, now) == v
    ensures HasStringId(InitialData(v, now))
  {
  }

  class Document {
    var data: Value
    var id: string

    /** The object carries the document's identifier as its `_id` member. */
    ghost predicate Valid()
      reads this
    {
      data.Object? && Get(data.fields, "_id") == Some(Str(id))
    }

    /** A document holding nothing but a generated identifier. */
    constructor Empty(now: nat)
      ensures id == GenerateId(now) && data == Object([("_id", Str(id))])
      ensures Valid()
    {
      var newId := GenerateId(now);
      id := newId;
      data := Object(Put(MembersOf(Null), "_id", Str(newId)));
    }

    /** A document built from a value: its own `_id` is kept, or a generated one is
        added. */
    constructor (v: Value, now: nat)
      requires Constructible(v)
      ensures id == InitialId(v, now) && data == InitialData(v, now)
      ensures Valid()
    {
      if !Contains(v, "_id") {
        var newId := GenerateId(now);
        id := newId;
        data := Object(Put(MembersOf(v), "_id", Str(newId)));
      } else {
        data := v;
        id := Get(v.fields, "_id").value.s;
      }
    }

    function GetId(): (r: string)
      reads this
      ensures Valid() ==> Get(data.fields, "_id") == Some(Str(r))
    {
      id
    }

    function GetData(): (r: Value)
      reads this
      ensures Valid() ==> r.Object? && Get(r.fields, "_id") == Some(Str(id))
    {
      data
    }

    /** `data[field] = value`: that member is set, every other member is kept, and
        the identifier stays in step unless `_id` itself is overwritten with
        something else. */
    method SetField(field: string, value: Value)
      requires data.Object?
      modifies this
      ensures data.Object? && id == old(id)
      ensures Get(data.fields, field) == Some(value)
      ensures forall k :: k != field ==> Get(data.fields, k) == Get(old(data).fields, k)
      ensures Valid() <==> if field == "_id" then value == Str(id) else old(Valid())
    {
      PutKeepsOthers(data.fields, field, value);
      data := Object(Put(data.fields, field, value));
    }

    /** Whether the document satisfies a query. Every document satisfies the empty
        query and the query on its own identifier. */
    function Matches(query: Value): (r: Result<bool>)
      reads this
      ensures query == Object([]) ==> r == Ok(true)
      ensures Valid() && query == Object([("_id", Str(id))]) ==> r == Ok(true)
    {
      QueryEvaluator.SingleCondition(data, "_id", Str(id));
      QueryEvaluator.Evaluate(data, query)
    }
  }
}
