/**
 * The configurable subject parser of src/parser.rs: custom parse rules keyed
 * by the first dot-token, the standard four-part grammar as fallback, and
 * validators that must all accept the parsed parts. Parse and validate
 * closures are function values; the order the validator map is visited in
 * is a parameter.
 */
module Parser {
  import opened Results
  import opened Text
  import opened Seqs
  import opened Subjects

  type ParserFn = string -> Result<SubjectParts, SubjectError>
  type ValidatorFn = SubjectParts -> Result<(), SubjectError>

  /** `ParseRule`. */
  datatype ParseRule = ParseRule(name: string, description: string, parser: ParserFn)

  /** `ValidationRule`. */
  datatype ValidationRule = ValidationRule(name: string, validator: ValidatorFn)

  /** `SubjectParser`: parse rules by context, validators by name. */
  datatype SubjectParser = SubjectParser(rules: map<string, ParseRule>, validators: map<string, ValidationRule>)

  function NewParser(): SubjectParser {
    SubjectParser(map[], map[])
  }

  function RegisterParseRule(p: SubjectParser, context: string, rule: ParseRule): SubjectParser {
    p.(rules := p.rules[context := rule])
  }

  function RegisterValidator(p: SubjectParser, name: string, v: ValidationRule): SubjectParser {
    p.(validators := p.validators[name := v])
  }

  /** The validator loop from position `i` of `order`: the first failure stops it. */
  function ValidateFrom(validators: map<string, ValidationRule>, order: seq<string>, parts: SubjectParts, i: nat): (r: Result<(), SubjectError>)
    requires Enumerates(order, validators.Keys) && i <= |order|
    ensures r.Ok? <==> forall k :: i <= k < |order| ==> validators[order[k]].validator(parts).Ok?
    ensures r.Err? ==> exists k :: i <= k < |order| && validators[order[k]].validator(parts) == r
    decreases |order| - i
  {
    if i == |order| then Ok(())
    else
      var v := validators[order[i]].validator(parts);
      if v.Err? then v
      else ValidateFrom(validators, order, parts, i + 1)
  }

  /** `SubjectParser::validate`: every validator accepts, or one's error is returned. */
  function Validate(p: SubjectParser, order: seq<string>, parts: SubjectParts): (r: Result<(), SubjectError>)
    requires Enumerates(order, p.validators.Keys)
    ensures r.Ok? <==> forall k :: k in p.validators ==> p.validators[k].validator(parts).Ok?
    ensures r.Err? ==> exists k :: k in p.validators && p.validators[k].validator(parts) == r
  {
    var r := ValidateFrom(p.validators, order, parts, 0);
    assert (forall k :: 0 <= k < |order| ==> p.validators[order[k]].validator(parts).Ok?) ==>
      forall k :: k in p.validators ==> p.validators[k].validator(parts).Ok? by {
      if forall k :: 0 <= k < |order| ==> p.validators[order[k]].validator(parts).Ok? {
        forall k | k in p.validators
          ensures p.validators[k].validator(parts).Ok?
        {
          var j :| 0 <= j < |order| && order[j] == k;
        }
      }
    }
    r
  }

  /**
   * `SubjectParser::parse`: a rule registered for the first dot-token parses
   * the whole text (its output is not checked against the four-part
   * grammar); otherwise the standard grammar does. Either way every
   * validator must accept the parts, and the subject is built by
   * `from_parts`. (`split` never yields nothing, so the empty-parts error is
   * unreachable.)
   */
  function Parse(p: SubjectParser, order: seq<string>, s: string): (r: Result<Subject, SubjectError>)
    requires Enumerates(order, p.validators.Keys)
    ensures var ctx := Split(s, '.')[0];
      ctx in p.rules ==>
        && (p.rules[ctx].parser(s).Err? ==> r == Err(p.rules[ctx].parser(s).error))
        && (r.Ok? <==> p.rules[ctx].parser(s).Ok? && Validate(p, order, p.rules[ctx].parser(s).value).Ok?)
        && (r.Ok? ==> r.value == FromParts(p.rules[ctx].parser(s).value))
    ensures var ctx := Split(s, '.')[0];
      ctx !in p.rules ==>
        && (ParseParts(s).Err? ==> r == Err(InvalidFormat))
        && (r.Ok? <==> ParseParts(s).Ok? && Validate(p, order, ParseParts(s).value).Ok?)
        && (r.Ok? ==> NewSubject(s) == r)
    ensures r.Err? && ParseParts(s).Ok? && Split(s, '.')[0] !in p.rules ==>
      exists k :: k in p.validators && p.validators[k].validator(ParseParts(s).value) == Err(r.error)
  {
    var pieces := Split(s, '.');
    var context := pieces[0];
    if context in p.rules then
      var parts :- p.rules[context].parser(s);
      var _ :- Validate(p, order, parts);
      Ok(FromParts(parts))
    else
      var parts :- ParseParts(s);
      var _ :- Validate(p, order, parts);
      Ok(FromParts(parts))
  }

  /** A parser with no rules and no validators is the standard grammar. */
  lemma PlainParserIsStandard(s: string)
    ensures Parse(NewParser(), [], s) == NewSubject(s)
  {
  }

  // ---------------------------------------------------------------------------
  // Standard validators
  // ---------------------------------------------------------------------------

  /** The `version_format` check: the version starts with 'v'. */
  function VersionFormat(parts: SubjectParts): (r: Result<(), SubjectError>)
    ensures r.Ok? <==> StartsWith(parts.version, 'v')
    ensures r.Err? ==> r.error == ValidationError
  {
    if !StartsWith(parts.version, 'v') then Err(ValidationError) else Ok(())
  }

  /** The `context_length` check: at most 32 bytes of context. */
  function ContextLength(parts: SubjectParts): (r: Result<(), SubjectError>)
    ensures r.Ok? <==> Utf8Len(parts.context) <= 32
    ensures r.Err? ==> r.error == ValidationError
  {
    if Utf8Len(parts.context) > 32 then Err(ValidationError) else Ok(())
  }

  /** `SubjectParser::with_standard_rules`: two validators, no parse rules. */
  function WithStandardRules(): (p: SubjectParser)
    ensures p.rules == map[]
    ensures p.validators.Keys == {"version_format", "context_length"}
  {
    var p := NewParser();
    var p := RegisterValidator(p, "version_format", ValidationRule("Version Format", VersionFormat));
    RegisterValidator(p, "context_length", ValidationRule("Context Length", ContextLength))
  }

  /**
   * Whatever order the validators run in, the standard parser accepts exactly
   * the four-part subjects whose version starts with 'v' and whose context is
   * at most 32 characters long, and rejects the rest with the grammar's or
   * the validators' error.
   */
  lemma StandardParserAccepts(order: seq<string>, s: string)
    requires Enumerates(order, WithStandardRules().validators.Keys)
    ensures var r := Parse(WithStandardRules(), order, s);
      && (r.Ok? <==> ParseParts(s).Ok? && StartsWith(ParseParts(s).value.version, 'v') && |ParseParts(s).value.context| <= 32)
      && (r.Ok? ==> r == NewSubject(s))
      && (r.Err? ==> r.error == InvalidFormat || r.error == ValidationError)
  {
    var p := WithStandardRules();
    if ParseParts(s).Ok? {
      var parts := ParseParts(s).value;
      TokenUtf8Len(parts.context);
      var v := Validate(p, order, parts);
      if v.Err? {
        var k :| k in p.validators && p.validators[k].validator(parts) == v;
        assert k == "version_format" || k == "context_length";
      }
    }
  }

  // ---------------------------------------------------------------------------
  // The flexible rule
  // ---------------------------------------------------------------------------

  /**
   * The closure of `with_flexible_context`: at least three pieces; the first
   * is the context, the last two the event type and version, and the pieces
   * in between, joined by '.', the aggregate.
   */
  function FlexibleParts(s: string): (r: Result<SubjectParts, SubjectError>)
    ensures var pieces := Split(s, '.');
      && (r.Ok? <==> |pieces| >= 3)
      && (r.Err? ==> r.error == InvalidFormat)
      && (r.Ok? ==> r.value.context == pieces[0] && r.value.eventType == pieces[|pieces| - 2]
                    && r.value.version == pieces[|pieces| - 1])
  {
    var pieces := Split(s, '.');
    if |pieces| < 3 then Err(InvalidFormat)
    else
      var n := |pieces|;
      Ok(SubjectParts(pieces[0], Join(pieces[1..n - 2], "."), pieces[n - 2], pieces[n - 1]))
  }

  /**
   * With four or more pieces the flexible parts print back to the input, so
   * the parsed subject keeps the text; the middle pieces form the aggregate.
   */
  lemma FlexiblePrintsBack(s: string)
    requires |Split(s, '.')| >= 4
    ensures FlexibleParts(s).Ok? && ToSubject(FlexibleParts(s).value) == s
    ensures FlexibleParts(s).value.aggregate == Join(Split(s, '.')[1..|Split(s, '.')| - 2], ".")
  {
    var pieces := Split(s, '.');
    var n := |pieces|;
    var p := FlexibleParts(s).value;
    var mid := pieces[1..n - 2];
    FirstMiddleLastTwo(pieces);
    assert p == SubjectParts(pieces[0], Join(mid, "."), pieces[n - 2], pieces[n - 1]);
    JoinMiddle(pieces[0], mid, pieces[n - 2], pieces[n - 1], ".");
    ToSubjectIsJoin(p);
    assert Join(pieces, ".") == s;
  }

  /** A sequence of four or more is its head, its middle run and its last two. */
  lemma FirstMiddleLastTwo<T>(x: seq<T>)
    requires |x| >= 4
    ensures x == [x[0]] + x[1..|x| - 2] + [x[|x| - 2], x[|x| - 1]]
  {
    var n := |x|;
    assert x == x[..1] + x[1..n - 2] + x[n - 2..];
  }

  /** Joining a middle run first and then the four fields gives the same text. */
  lemma JoinMiddle(c: string, mid: seq<string>, e: string, v: string, sep: string)
    requires |mid| >= 1
    ensures Join([c] + mid + [e, v], sep) == Join([c, Join(mid, sep), e, v], sep)
  {
    JoinAppend([c] + mid, [e, v], sep);
    JoinAppend([c], mid, sep);
    JoinAppend([c, Join(mid, sep)], [e, v], sep);
    JoinAppend([c], [Join(mid, sep)], sep);
    assert [c, Join(mid, sep)] + [e, v] == [c, Join(mid, sep), e, v];
  }

  /** With exactly three pieces the aggregate is empty, so the printed subject gains a '.'. */
  lemma FlexibleThreePieces(s: string)
    requires |Split(s, '.')| == 3
    ensures FlexibleParts(s).Ok? && FlexibleParts(s).value.aggregate == ""
    ensures |ToSubject(FlexibleParts(s).value)| == |s| + 1
  {
    var pieces := Split(s, '.');
    assert pieces[1..1] == [];
    assert pieces[1..][1..] == [pieces[2]];
    assert Join(pieces[1..], ".") == pieces[1] + "." + pieces[2];
    assert s == Join(pieces, ".") == pieces[0] + "." + (pieces[1] + "." + pieces[2]);
  }

  /** The rule `with_flexible_context` adds for `ctx`. */
  function FlexibleRule(ctx: string): ParseRule {
    ParseRule(ctx + "_flexible", "Flexible parsing for " + ctx + " context", FlexibleParts)
  }

  /**
   * A parser whose only rule is the flexible one for `ctx` and that has no
   * validators accepts every text of four or more pieces that starts with
   * `ctx`, keeps the text as the subject, and does not re-check the
   * four-part grammar: five or more pieces give a subject that `new` would
   * reject.
   */
  lemma FlexibleParserAccepts(ctx: string, s: string)
    requires Split(s, '.')[0] == ctx && |Split(s, '.')| >= 4
    ensures var r := Parse(SubjectParser(map[ctx := FlexibleRule(ctx)], map[]), [], s);
      && r.Ok? && r.value.raw == s && r.value.parts == FlexibleParts(s).value
      && (|Split(s, '.')| >= 5 ==> NewSubject(r.value.raw).Err?)
  {
    FlexiblePrintsBack(s);
    var pieces := Split(s, '.');
    if |pieces| >= 5 {
      ParsePartsSucceedsIff(s);
    }
  }

  // ---------------------------------------------------------------------------
  // ParserBuilder
  // ---------------------------------------------------------------------------

  datatype ParserBuilder = ParserBuilder(rules: seq<(string, ParseRule)>, validators: seq<(string, ValidationRule)>)

  function NewParserBuilder(): ParserBuilder {
    ParserBuilder([], [])
  }

  function WithRule(b: ParserBuilder, context: string, rule: ParseRule): ParserBuilder {
    b.(rules := b.rules + [(context, rule)])
  }

  function WithValidator(b: ParserBuilder, name: string, v: ValidationRule): ParserBuilder {
    b.(validators := b.validators + [(name, v)])
  }

  /** `with_flexible_context`: the flexible rule, registered for `ctx`. */
  function WithFlexibleContext(b: ParserBuilder, ctx: string): (r: ParserBuilder)
    ensures r.validators == b.validators
    ensures r.rules == b.rules + [(ctx, FlexibleRule(ctx))]
  {
    WithRule(b, ctx, FlexibleRule(ctx))
  }

  /** `ParserBuilder::build`: registration in order, so the last rule per key is kept. */
  function BuildParser(b: ParserBuilder): (r: SubjectParser)
    ensures r.rules.Keys == set i | 0 <= i < |b.rules| :: b.rules[i].0
    ensures r.validators.Keys == set i | 0 <= i < |b.validators| :: b.validators[i].0
    ensures forall i :: 0 <= i < |b.rules| && (forall j :: i < j < |b.rules| ==> b.rules[j].0 != b.rules[i].0) ==>
      r.rules[b.rules[i].0] == b.rules[i].1
    ensures forall i :: 0 <= i < |b.validators| && (forall j :: i < j < |b.validators| ==> b.validators[j].0 != b.validators[i].0) ==>
      r.validators[b.validators[i].0] == b.validators[i].1
  {
    InsertAllLastWins(map[], b.rules);
    InsertAllLastWins(map[], b.validators);
    SubjectParser(InsertAll(map[], b.rules), InsertAll(map[], b.validators))
  }

  /** A builder with only the flexible rule builds the parser of `FlexibleParserAccepts`. */
  lemma FlexibleBuilderParser(ctx: string)
    ensures BuildParser(WithFlexibleContext(NewParserBuilder(), ctx)) == SubjectParser(map[ctx := FlexibleRule(ctx)], map[])
  {
    var r := BuildParser(WithFlexibleContext(NewParserBuilder(), ctx));
    assert r.rules.Keys == {ctx};
    assert r.validators.Keys == {};
  }
}
