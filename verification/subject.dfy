/**
 * The subject model of src/subject.rs: a subject is the text
 * `context.aggregate.event_type.version` together with its four parsed parts.
 */
module Subjects {
  import opened Results
  import opened Text

  /** `SubjectParts`: the four named components of a subject. */
  datatype SubjectParts = SubjectParts(context: string, aggregate: string, eventType: string, version: string)

  /** The four components in subject order. */
  function Fields(p: SubjectParts): seq<string> {
    [p.context, p.aggregate, p.eventType, p.version]
  }

  /** Every component is a valid token, so the parts print to a parseable subject. */
  predicate ValidParts(p: SubjectParts) {
    IsToken(p.context) && IsToken(p.aggregate) && IsToken(p.eventType) && IsToken(p.version)
  }

  /** `SubjectParts::to_subject`: `format!("{}.{}.{}.{}", ..)`. */
  function ToSubject(p: SubjectParts): string {
    p.context + "." + p.aggregate + "." + p.eventType + "." + p.version
  }

  lemma ToSubjectIsJoin(p: SubjectParts)
    ensures ToSubject(p) == Join(Fields(p), ".")
  {
    JoinFour(p.context, p.aggregate, p.eventType, p.version, ".");
  }

  /**
   * `SubjectParts::parse`: exactly four dot-separated pieces, each non-empty
   * and made of token characters; every failure is `InvalidFormat`.
   */
  function ParseParts(s: string): (r: Result<SubjectParts, SubjectError>)
    ensures r.Ok? ==> ValidParts(r.value) && ToSubject(r.value) == s
    ensures r.Err? ==> r.error == InvalidFormat
  {
    var pieces := Split(s, '.');
    if |pieces| != 4 then Err(InvalidFormat)
    else if forall i | 0 <= i < 4 :: IsToken(pieces[i]) then
      var p := SubjectParts(pieces[0], pieces[1], pieces[2], pieces[3]);
      assert Fields(p) == pieces;
      ToSubjectIsJoin(p);
      Ok(p)
    else Err(InvalidFormat)
  }

  /** The grammar accepted by `parse`, stated on the pieces of `split('.')`. */
  lemma ParsePartsSucceedsIff(s: string)
    ensures ParseParts(s).Ok? <==>
      (|Split(s, '.')| == 4 && forall i :: 0 <= i < 4 ==> IsToken(Split(s, '.')[i]))
  {
  }

  /** Round trip: printing valid parts and parsing the text gives the parts back. */
  lemma ParseToSubject(p: SubjectParts)
    requires ValidParts(p)
    ensures ParseParts(ToSubject(p)) == Ok(p)
  {
    ToSubjectIsJoin(p);
    forall i | 0 <= i < 4
      ensures '.' !in Fields(p)[i]
    {
      TokenHasNoDot(Fields(p)[i]);
    }
    SplitJoin(Fields(p), '.');
  }

  /** Conversely, printed parts parse only when every part is a valid token. */
  lemma ParsePrintedOnlyValid(p: SubjectParts)
    requires ParseParts(ToSubject(p)).Ok?
    ensures ValidParts(p)
  {
    var c, a, e, v := p.context, p.aggregate, p.eventType, p.version;
    var pieces := Split(ToSubject(p), '.');
    PrintedPieces(p);
    ParsePartsSucceedsIff(ToSubject(p));
    assert |pieces| == 4;
    SplitSingle(c, '.');
    SplitSingle(a, '.');
    SplitSingle(e, '.');
    SplitSingle(v, '.');
    assert pieces == [c, a, e, v];
    assert IsToken(pieces[0]) && IsToken(pieces[1]) && IsToken(pieces[2]) && IsToken(pieces[3]);
  }

  /** The pieces of printed parts are the pieces of the four parts, in order. */
  lemma PrintedPieces(p: SubjectParts)
    ensures Split(ToSubject(p), '.')
      == Split(p.context, '.') + Split(p.aggregate, '.') + Split(p.eventType, '.') + Split(p.version, '.')
  {
    var c, a, e, v := p.context, p.aggregate, p.eventType, p.version;
    assert ToSubject(p) == c + "." + (a + "." + (e + "." + v));
    SplitAtSep(e, v, '.');
    SplitAtSep(a, e + "." + v, '.');
    SplitAtSep(c, a + "." + (e + "." + v), '.');
  }

  /** Parts without separators print to text whose pieces are exactly the parts. */
  lemma PrintedPiecesExact(p: SubjectParts)
    requires '.' !in p.context && '.' !in p.aggregate && '.' !in p.eventType && '.' !in p.version
    ensures Split(ToSubject(p), '.') == Fields(p)
  {
    PrintedPieces(p);
    SplitNoSep(p.context, '.');
    SplitNoSep(p.aggregate, '.');
    SplitNoSep(p.eventType, '.');
    SplitNoSep(p.version, '.');
  }

  /** `parse` accepts exactly the texts that valid parts print to. */
  lemma ParsePartsAcceptsPrinted(s: string)
    ensures ParseParts(s).Ok? <==> exists p :: ValidParts(p) && ToSubject(p) == s
  {
    if exists p :: ValidParts(p) && ToSubject(p) == s {
      var p :| ValidParts(p) && ToSubject(p) == s;
      ParseToSubject(p);
    }
  }

  /** `Subject`: the raw text and its parsed parts. */
  datatype Subject = Subject(raw: string, parts: SubjectParts) {
    function Context(): string { parts.context }
    function Aggregate(): string { parts.aggregate }
    function EventType(): string { parts.eventType }
    function Version(): string { parts.version }
  }

  /** `Subject::new`: parse the text and keep it verbatim as `raw`. */
  function NewSubject(s: string): (r: Result<Subject, SubjectError>)
    ensures r.Ok? <==> ParseParts(s).Ok?
    ensures r.Ok? ==> r.value.raw == s && ToSubject(r.value.parts) == s && ValidParts(r.value.parts)
    ensures r.Ok? ==> Fields(r.value.parts) == Split(s, '.')
    ensures r.Err? ==> r.error == InvalidFormat
  {
    var parts :- ParseParts(s);
    Ok(Subject(s, parts))
  }

  /**
   * The accessors of a parsed subject read the four dot-separated pieces of
   * its text, in order.
   */
  lemma AccessorsReadPieces(s: string)
    requires NewSubject(s).Ok?
    ensures var x, pieces := NewSubject(s).value, Split(s, '.');
      && |pieces| == 4
      && x.Context() == pieces[0] && x.Aggregate() == pieces[1]
      && x.EventType() == pieces[2] && x.Version() == pieces[3]
  {
    var x := NewSubject(s).value;
    assert Fields(x.parts) == Split(s, '.');
  }

  /** `Subject::from_parts`: no validation, the raw text is always the printed parts. */
  function FromParts(p: SubjectParts): (r: Subject)
    ensures r.parts == p
    ensures ParseParts(r.raw).Ok? <==> ValidParts(p)
  {
    assert ValidParts(p) <==> ParseParts(ToSubject(p)).Ok? by {
      if ValidParts(p) {
        ParseToSubject(p);
      }
      if ParseParts(ToSubject(p)).Ok? {
        ParsePrintedOnlyValid(p);
      }
    }
    Subject(ToSubject(p), p)
  }

  /** A parsed subject is the one `from_parts` builds from its parts. */
  lemma NewSubjectIsFromParts(s: string)
    requires NewSubject(s).Ok?
    ensures FromParts(NewSubject(s).value.parts) == NewSubject(s).value
  {
  }

  /** A subject built from valid parts re-parses to itself. */
  lemma FromPartsReparses(p: SubjectParts)
    requires ValidParts(p)
    ensures NewSubject(FromParts(p).raw) == Ok(FromParts(p))
  {
    ParseToSubject(p);
  }

  /** `Subject::with_event_type`: replaces only the event type. */
  function WithEventType(x: Subject, eventType: string): (r: Subject)
    ensures r.EventType() == eventType
    ensures r.Context() == x.Context() && r.Aggregate() == x.Aggregate() && r.Version() == x.Version()
    ensures ValidParts(x.parts) && IsToken(eventType) ==> NewSubject(r.raw) == Ok(r)
  {
    var p := x.parts.(eventType := eventType);
    assert ValidParts(p) ==> NewSubject(FromParts(p).raw) == Ok(FromParts(p)) by {
      if ValidParts(p) {
        FromPartsReparses(p);
      }
    }
    FromParts(p)
  }

  /** `Subject::with_version`: replaces only the version. */
  function WithVersion(x: Subject, version: string): (r: Subject)
    ensures r.Version() == version
    ensures r.Context() == x.Context() && r.Aggregate() == x.Aggregate() && r.EventType() == x.EventType()
    ensures ValidParts(x.parts) && IsToken(version) ==> NewSubject(r.raw) == Ok(r)
  {
    var p := x.parts.(version := version);
    assert ValidParts(p) ==> NewSubject(FromParts(p).raw) == Ok(FromParts(p)) by {
      if ValidParts(p) {
        FromPartsReparses(p);
      }
    }
    FromParts(p)
  }

  /** `SubjectBuilder`: each component is optional until `build`. */
  datatype SubjectBuilder = SubjectBuilder(
    context: Option<string>, aggregate: Option<string>, eventType: Option<string>, version: Option<string>)

  function NewBuilder(): SubjectBuilder {
    SubjectBuilder(None, None, None, None)
  }

  function SetContext(b: SubjectBuilder, v: string): SubjectBuilder { b.(context := Some(v)) }
  function SetAggregate(b: SubjectBuilder, v: string): SubjectBuilder { b.(aggregate := Some(v)) }
  function SetEventType(b: SubjectBuilder, v: string): SubjectBuilder { b.(eventType := Some(v)) }
  function SetVersion(b: SubjectBuilder, v: string): SubjectBuilder { b.(version := Some(v)) }

  /**
   * `SubjectBuilder::build`: fails with `ValidationError` exactly when a
   * component is missing; otherwise `from_parts`, with no token validation.
   */
  function Build(b: SubjectBuilder): (r: Result<Subject, SubjectError>)
    ensures r.Ok? <==> b.context.Some? && b.aggregate.Some? && b.eventType.Some? && b.version.Some?
    ensures r.Ok? ==> r.value.parts == SubjectParts(b.context.value, b.aggregate.value, b.eventType.value, b.version.value)
    ensures r.Ok? ==> r.value.raw == ToSubject(r.value.parts)
    ensures r.Err? ==> r.error == ValidationError
  {
    if b.context.None? then Err(ValidationError)
    else if b.aggregate.None? then Err(ValidationError)
    else if b.eventType.None? then Err(ValidationError)
    else if b.version.None? then Err(ValidationError)
    else Ok(FromParts(SubjectParts(b.context.value, b.aggregate.value, b.eventType.value, b.version.value)))
  }

  /** Setting all four components always builds, to the printed components. */
  lemma BuildComplete(c: string, a: string, e: string, v: string)
    ensures Build(SetVersion(SetEventType(SetAggregate(SetContext(NewBuilder(), c), a), e), v))
      == Ok(Subject(c + "." + a + "." + e + "." + v, SubjectParts(c, a, e, v)))
  {
  }
}
