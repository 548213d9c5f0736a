/** The buffered RDF statement loader of the semantic-index repository: parsed
    triples are buffered, turned into ABox assertions (class, object-property or
    data-property assertions) and handed to the database in batches of at most
    MAX_BUFFER_SIZE statements, while a running count of inserted rows is kept. */
module SemanticIndexRdf {
  import opened Wrappers

  /** Size of the statement buffer; reaching it triggers a flush. */
  const MAX_BUFFER_SIZE: nat := 5000
  /** The two constants passed to the database insert (commit limit, batch size). */
  const INSERT_COMMIT_LIMIT: int32 := 5000
  const INSERT_BATCH_SIZE: int32 := 500

  const RDF_TYPE: string := "http://www.w3.org/1999/02/22-rdf-syntax-ns#type"
  const XSD_STRING: string := "http://www.w3.org/2001/XMLSchema#string"

  /** Java `int`. */
  newtype int32 = x: int | -0x8000_0000 <= x < 0x8000_0000

  /** Java's `a + b` on two `int`s: the mathematical sum wrapped into 32 bits. */
  function WrappingAdd(a: int32, b: int32): (r: int32)
    ensures (r as int - (a as int + b as int)) % 0x1_0000_0000 == 0
    ensures -0x8000_0000 <= a as int + b as int < 0x8000_0000 ==> r as int == a as int + b as int
  {
    var s := a as int + b as int;
    if s >= 0x8000_0000 then (s - 0x1_0000_0000) as int32
    else if s < -0x8000_0000 then (s + 0x1_0000_0000) as int32
    else s as int32
  }

  /** An RDF value as the parser delivers it. `OtherValue` stands for any other
      implementation of the value interfaces (neither IRI, blank node nor literal). */
  datatype Value =
    | Iri(iri: string)
    | BNode(id: string)
    | Literal(lexicalForm: string, language: Option<string>, datatypeIri: Option<string>)
    | OtherValue(text: string)

  /** `Value.stringValue()`. */
  function StringValue(v: Value): string {
    match v
    case Iri(iri) => iri
    case BNode(id) => id
    case Literal(lexicalForm, _, _) => lexicalForm
    case OtherValue(text) => text
  }

  datatype Statement = Statement(subject: Value, predicateIri: string, obj: Value)

  datatype ObjectConstant = UriConstant(uri: string) | BNodeConstant(name: string)

  datatype RdfDatatype = Datatype(iri: string) | UnsupportedDatatype

  datatype ValueConstant =
    | TypedLiteral(lexicalForm: string, rdfType: RdfDatatype)
    | LangLiteral(lexicalForm: string, language: string)

  datatype Assertion =
    | ClassAssertion(classIri: string, individual: ObjectConstant)
    | ObjectPropertyAssertion(property: string, subject: ObjectConstant, target: ObjectConstant)
    | DataPropertyAssertion(property: string, subject: ObjectConstant, value: ValueConstant)

  /** The runtime exceptions raised while building an assertion. */
  datatype HandlerError = UnsupportedSubject(st: Statement) | UnsupportedObject(st: Statement)

  /** The constant for an IRI or blank-node resource; nothing for any other value. */
  function ObjectConstantOf(v: Value): (r: Option<ObjectConstant>)
    ensures r.Some? <==> v.Iri? || v.BNode?
    ensures v.Iri? ==> r == Some(UriConstant(v.iri))
    ensures v.BNode? ==> r == Some(BNodeConstant(v.id))
  {
    match v
    case Iri(iri) => Some(UriConstant(iri))
    case BNode(id) => Some(BNodeConstant(id))
    case _ => None
  }

  /** The constant for a literal. `datatypeOf` is the type factory's lookup of a
      datatype by its IRI. */
  function LiteralConstant(l: Value, datatypeOf: string -> Option<RdfDatatype>): (r: ValueConstant)
    requires l.Literal?
    ensures l.language.Some? ==> r == LangLiteral(l.lexicalForm, l.language.value)
    ensures l.language.None? && l.datatypeIri.None? ==> r == TypedLiteral(l.lexicalForm, Datatype(XSD_STRING))
    ensures l.language.None? && l.datatypeIri.Some? && datatypeOf(l.datatypeIri.value).None? ==>
              r == TypedLiteral(l.lexicalForm, UnsupportedDatatype)
    ensures l.language.None? && l.datatypeIri.Some? && datatypeOf(l.datatypeIri.value).Some? ==>
              r == TypedLiteral(l.lexicalForm, datatypeOf(l.datatypeIri.value).value)
  {
    if l.language.None? then
      var t := if l.datatypeIri.None? then Datatype(XSD_STRING)
               else match datatypeOf(l.datatypeIri.value)
                    case Some(d) => d
                    case None => UnsupportedDatatype;
      TypedLiteral(l.lexicalForm, t)
    else LangLiteral(l.lexicalForm, l.language.value)
  }

  /** Classifies a triple: an rdf:type triple is a class assertion whatever its
      object, otherwise an IRI or blank-node object gives an object-property
      assertion and a literal object a data-property assertion. */
  function ConstructAssertion(st: Statement, datatypeOf: string -> Option<RdfDatatype>): (r: Result<Assertion, HandlerError>)
    ensures !(st.subject.Iri? || st.subject.BNode?) ==> r == Failure(UnsupportedSubject(st))
    ensures r.Failure? <==>
              !(st.subject.Iri? || st.subject.BNode?) ||
              (st.predicateIri != RDF_TYPE && st.obj.OtherValue?)
    ensures r.Success? && st.predicateIri == RDF_TYPE ==>
              r.value == ClassAssertion(StringValue(st.obj), ObjectConstantOf(st.subject).value)
    ensures r.Success? && st.predicateIri != RDF_TYPE && (st.obj.Iri? || st.obj.BNode?) ==>
              r.value == ObjectPropertyAssertion(st.predicateIri, ObjectConstantOf(st.subject).value,
                                                 ObjectConstantOf(st.obj).value)
    ensures r.Success? && st.predicateIri != RDF_TYPE && st.obj.Literal? ==>
              r.value == DataPropertyAssertion(st.predicateIri, ObjectConstantOf(st.subject).value,
                                               LiteralConstant(st.obj, datatypeOf))
  {
    match ObjectConstantOf(st.subject)
    case None => Failure(UnsupportedSubject(st))
    case Some(c) =>
      if st.predicateIri == RDF_TYPE then Success(ClassAssertion(StringValue(st.obj), c))
      else match st.obj
        case Iri(_) => Success(ObjectPropertyAssertion(st.predicateIri, c, ObjectConstantOf(st.obj).value))
        case BNode(_) => Success(ObjectPropertyAssertion(st.predicateIri, c, ObjectConstantOf(st.obj).value))
        case Literal(_, _, _) => Success(DataPropertyAssertion(st.predicateIri, c, LiteralConstant(st.obj, datatypeOf)))
        case OtherValue(_) => Failure(UnsupportedObject(st))
  }

  /** The buffer mapped to assertions in buffer order; the first statement that
      cannot be converted stops the conversion. */
  function ConvertAll(buffer: seq<Statement>, datatypeOf: string -> Option<RdfDatatype>): (r: Result<seq<Assertion>, HandlerError>)
    ensures r.Success? ==> |r.value| == |buffer|
  {
    if buffer == [] then Success([])
    else match ConstructAssertion(buffer[0], datatypeOf)
      case Failure(e) => Failure(e)
      case Success(a) =>
        match ConvertAll(buffer[1..], datatypeOf)
        case Failure(e) => Failure(e)
        case Success(rest) => Success([a] + rest)
  }

  /** Conversion succeeds exactly when every statement converts, keeps the
      buffer's order, and otherwise reports the first statement that fails. */
  lemma {:induction false} ConvertAllInOrder(buffer: seq<Statement>, datatypeOf: string -> Option<RdfDatatype>)
    ensures ConvertAll(buffer, datatypeOf).Success? <==>
              forall i :: 0 <= i < |buffer| ==> ConstructAssertion(buffer[i], datatypeOf).Success?
    ensures ConvertAll(buffer, datatypeOf).Success? ==>
              var out := ConvertAll(buffer, datatypeOf).value;
              |out| == |buffer| &&
              forall i :: 0 <= i < |buffer| ==> out[i] == ConstructAssertion(buffer[i], datatypeOf).value
    ensures ConvertAll(buffer, datatypeOf).Failure? ==>
              exists k :: 0 <= k < |buffer| &&
                (forall i :: 0 <= i < k ==> ConstructAssertion(buffer[i], datatypeOf).Success?) &&
                ConstructAssertion(buffer[k], datatypeOf).Failure? &&
                ConvertAll(buffer, datatypeOf).error == ConstructAssertion(buffer[k], datatypeOf).error
  {
    if buffer != [] {
      ConvertAllInOrder(buffer[1..], datatypeOf);
      var tail := buffer[1..];
      assert forall i :: 1 <= i < |buffer| ==> buffer[i] == tail[i - 1];
      if ConstructAssertion(buffer[0], datatypeOf).Success? && ConvertAll(tail, datatypeOf).Failure? {
        var k :| 0 <= k < |tail| &&
          (forall i :: 0 <= i < k ==> ConstructAssertion(tail[i], datatypeOf).Success?) &&
          ConstructAssertion(tail[k], datatypeOf).Failure? &&
          ConvertAll(tail, datatypeOf).error == ConstructAssertion(tail[k], datatypeOf).error;
        assert ConvertAll(buffer, datatypeOf).error == ConstructAssertion(buffer[k + 1], datatypeOf).error;
      }
    }
  }

  class SemanticIndexRdfHandler {
    /** The repository's insert: stores the assertions and returns how many rows it wrote. */
    const insertData: (seq<Assertion>, int32, int32) -> int32
    /** The type factory's lookup of a datatype by IRI. */
    const datatypeOf: string -> Option<RdfDatatype>

    var buffer: seq<Statement>
    var count: int32

    /** Every statement handled so far, and those already handed to the insert. */
    ghost var received: seq<Statement>
    ghost var loaded: seq<Statement>

    /** No statement is lost or reordered: the loaded ones followed by the
        buffered ones are exactly the ones received. */
    ghost predicate Valid()
      reads this
    {
      received == loaded + buffer
    }

    constructor (insertData: (seq<Assertion>, int32, int32) -> int32, datatypeOf: string -> Option<RdfDatatype>)
      ensures Valid()
      ensures this.insertData == insertData && this.datatypeOf == datatypeOf
      ensures buffer == [] && count == 0 && received == []
    {
      this.insertData := insertData;
      this.datatypeOf := datatypeOf;
      buffer := [];
      count := 0;
      received := [];
      loaded := [];
    }

    /** The running count of inserted rows. */
    function GetCount(): int32
      reads this
    {
      count
    }

    /** Converts the buffer, inserts it, adds the returned row count and empties
        the buffer; a statement that cannot be converted aborts with the state
        unchanged. */
    method LoadBuffer() returns (res: Outcome<HandlerError>)
      requires Valid()
      modifies this
      ensures Valid() && received == old(received)
      ensures match ConvertAll(old(buffer), datatypeOf)
              case Success(assertions) =>
                res == Pass && buffer == [] && loaded == old(loaded) + old(buffer) &&
                count == WrappingAdd(old(count), insertData(assertions, INSERT_COMMIT_LIMIT, INSERT_BATCH_SIZE))
              case Failure(e) =>
                res == Fail(e) && buffer == old(buffer) && loaded == old(loaded) && count == old(count)
    {
      match ConvertAll(buffer, datatypeOf)
      case Success(assertions) =>
        count := WrappingAdd(count, insertData(assertions, INSERT_COMMIT_LIMIT, INSERT_BATCH_SIZE));
        loaded := loaded + buffer;
        buffer := [];
        res := Pass;
      case Failure(e) =>
        res := Fail(e);
    }

    /** Appends the statement and flushes exactly when the buffer reaches
        MAX_BUFFER_SIZE. */
    method HandleStatement(st: Statement) returns (res: Outcome<HandlerError>)
      requires Valid()
      modifies this
      ensures Valid() && received == old(received) + [st]
      ensures |old(buffer)| + 1 != MAX_BUFFER_SIZE ==>
                res == Pass && buffer == old(buffer) + [st] && count == old(count) && loaded == old(loaded)
      ensures |old(buffer)| + 1 == MAX_BUFFER_SIZE ==>
                match ConvertAll(old(buffer) + [st], datatypeOf)
                case Success(assertions) =>
                  res == Pass && buffer == [] && loaded == old(loaded) + old(buffer) + [st] &&
                  count == WrappingAdd(old(count), insertData(assertions, INSERT_COMMIT_LIMIT, INSERT_BATCH_SIZE))
                case Failure(e) =>
                  res == Fail(e) && buffer == old(buffer) + [st] && count == old(count) && loaded == old(loaded)
      ensures res.Pass? && |old(buffer)| < MAX_BUFFER_SIZE ==> |buffer| < MAX_BUFFER_SIZE
    {
      buffer := buffer + [st];
      received := received + [st];
      res := Pass;
      if |buffer| == MAX_BUFFER_SIZE {
        res := LoadBuffer();
      }
    }

    /** Flushes whatever remains in the buffer. */
    method EndRdf() returns (res: Outcome<HandlerError>)
      requires Valid()
      modifies this
      ensures Valid() && received == old(received)
      ensures res.Pass? <==> ConvertAll(old(buffer), datatypeOf).Success?
      ensures res.Pass? ==> buffer == [] && loaded == received
      ensures res.Pass? ==>
                count == WrappingAdd(old(count),
                                     insertData(ConvertAll(old(buffer), datatypeOf).value, INSERT_COMMIT_LIMIT, INSERT_BATCH_SIZE))
      ensures res.Fail? ==> buffer == old(buffer) && count == old(count)
    {
      res := LoadBuffer();
    }
  }
}
