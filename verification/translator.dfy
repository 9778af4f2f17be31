/**
 * Subject translation of src/translator.rs: named rules pairing a source
 * pattern with a translation closure, an optional target pattern that
 * validates results and an optional reverse closure. The rule store is a
 * hash map; the order its entries are visited in is unspecified and is a
 * parameter here.
 */
module Translators {
  import opened Results
  import opened Text
  import opened Seqs
  import opened Subjects
  import opened Patterns

  type SubjectFn = Subject -> Result<Subject, SubjectError>

  /** `TranslationRule`. */
  datatype TranslationRule = TranslationRule(
    name: string,
    sourcePattern: Pattern,
    targetPattern: Option<Pattern>,
    translateFn: SubjectFn,
    reverseFn: Option<SubjectFn>)

  /** `Translator`: the rules by registered name (the never-written reverse cache is omitted). */
  datatype Translator = Translator(rules: map<string, TranslationRule>)

  function NewTranslator(): Translator {
    Translator(map[])
  }

  /** `TranslationRule::new`: no target pattern, no reverse function. */
  function NewRule(name: string, source: Pattern, f: SubjectFn): TranslationRule {
    TranslationRule(name, source, None, f, None)
  }

  function WithTargetPattern(rule: TranslationRule, p: Pattern): TranslationRule {
    rule.(targetPattern := Some(p))
  }

  function WithReverse(rule: TranslationRule, f: SubjectFn): TranslationRule {
    rule.(reverseFn := Some(f))
  }

  /** `matches_source`. */
  predicate MatchesSource(rule: TranslationRule, x: Subject) {
    Matches(rule.sourcePattern, x)
  }

  /** `matches_target`: never true without a target pattern. */
  predicate MatchesTarget(rule: TranslationRule, x: Subject) {
    match rule.targetPattern
    case None => false
    case Some(p) => Matches(p, x)
  }

  /**
   * `TranslationRule::translate`: a failing closure's error passes through;
   * a result outside the target pattern is a `TranslationError`.
   */
  function RuleTranslate(rule: TranslationRule, x: Subject): (r: Result<Subject, SubjectError>)
    ensures rule.translateFn(x).Err? ==> r == rule.translateFn(x)
    ensures r.Ok? ==> r == rule.translateFn(x)
    ensures r.Ok? && rule.targetPattern.Some? ==> MatchesTarget(rule, r.value)
    ensures rule.translateFn(x).Ok? && rule.targetPattern.Some? && !MatchesTarget(rule, rule.translateFn(x).value)
      ==> r == Err(TranslationError)
    ensures rule.translateFn(x).Ok? && rule.targetPattern.None? ==> r == rule.translateFn(x)
  {
    var result :- rule.translateFn(x);
    if rule.targetPattern.Some? && !Matches(rule.targetPattern.value, result) then Err(TranslationError)
    else Ok(result)
  }

  /** `TranslationRule::reverse_translate`: the reverse closure, or `TranslationError` without one. */
  function RuleReverseTranslate(rule: TranslationRule, x: Subject): (r: Result<Subject, SubjectError>)
    ensures rule.reverseFn.None? ==> r == Err(TranslationError)
    ensures rule.reverseFn.Some? ==> r == rule.reverseFn.value(x)
  {
    match rule.reverseFn
    case None => Err(TranslationError)
    case Some(f) => f(x)
  }

  /** When the reverse closure undoes the forward one, a rule round-trips. */
  lemma RuleRoundTrip(rule: TranslationRule, x: Subject)
    requires RuleTranslate(rule, x).Ok?
    requires rule.reverseFn.Some? && rule.reverseFn.value(RuleTranslate(rule, x).value) == Ok(x)
    ensures RuleReverseTranslate(rule, RuleTranslate(rule, x).value) == Ok(x)
  {
  }

  /** `register_rule`: a later registration under a name replaces the earlier one. */
  function RegisterRule(t: Translator, name: string, rule: TranslationRule): (r: Translator)
    ensures r.rules.Keys == t.rules.Keys + {name} && r.rules[name] == rule
    ensures forall k :: k in t.rules && k != name ==> r.rules[k] == t.rules[k]
  {
    t.(rules := t.rules[name := rule])
  }

  /** The first name from position `i` of `order` whose rule satisfies `test`. */
  function FirstRule(rules: map<string, TranslationRule>, order: seq<string>, test: TranslationRule -> bool, i: nat): (r: Option<string>)
    requires Enumerates(order, rules.Keys) && i <= |order|
    ensures r.Some? ==> r.value in rules && test(rules[r.value])
    ensures r.None? ==> forall k :: 0 <= k < |order| && i <= k ==> !test(rules[order[k]])
    decreases |order| - i
  {
    if i == |order| then None
    else if test(rules[order[i]]) then Some(order[i])
    else FirstRule(rules, order, test, i + 1)
  }

  /** No rule can be chosen exactly when no rule passes the test. */
  lemma FirstRuleNone(rules: map<string, TranslationRule>, order: seq<string>, test: TranslationRule -> bool)
    requires Enumerates(order, rules.Keys)
    ensures FirstRule(rules, order, test, 0).None? <==> forall k :: k in rules ==> !test(rules[k])
  {
    if FirstRule(rules, order, test, 0).None? {
      forall k | k in rules
        ensures !test(rules[k])
      {
        var j :| 0 <= j < |order| && order[j] == k;
      }
    }
  }

  /**
   * `Translator::translate`: visiting the rules in `order`, the first whose
   * source pattern matches translates; with none, the subject comes back
   * unchanged.
   */
  function Translate(t: Translator, order: seq<string>, x: Subject): (r: Result<Subject, SubjectError>)
    requires Enumerates(order, t.rules.Keys)
    ensures (forall k :: k in t.rules ==> !MatchesSource(t.rules[k], x)) ==> r == Ok(x)
    ensures (exists k :: k in t.rules && MatchesSource(t.rules[k], x)) ==>
      exists k :: k in t.rules && MatchesSource(t.rules[k], x) && r == RuleTranslate(t.rules[k], x)
  {
    var test := (rule: TranslationRule) => MatchesSource(rule, x);
    FirstRuleNone(t.rules, order, test);
    match FirstRule(t.rules, order, test, 0)
    case None => Ok(x)
    case Some(k) => RuleTranslate(t.rules[k], x)
  }

  /**
   * `Translator::reverse_translate`: the first rule whose target pattern
   * matches reverses; with none, the subject comes back unchanged.
   */
  function ReverseTranslate(t: Translator, order: seq<string>, x: Subject): (r: Result<Subject, SubjectError>)
    requires Enumerates(order, t.rules.Keys)
    ensures (forall k :: k in t.rules ==> !MatchesTarget(t.rules[k], x)) ==> r == Ok(x)
    ensures (exists k :: k in t.rules && MatchesTarget(t.rules[k], x)) ==>
      exists k :: k in t.rules && MatchesTarget(t.rules[k], x) && r == RuleReverseTranslate(t.rules[k], x)
  {
    var test := (rule: TranslationRule) => MatchesTarget(rule, x);
    FirstRuleNone(t.rules, order, test);
    match FirstRule(t.rules, order, test, 0)
    case None => Ok(x)
    case Some(k) => RuleReverseTranslate(t.rules[k], x)
  }

  /** When exactly one rule matches, the visiting order does not matter. */
  lemma TranslateUniqueMatch(t: Translator, order: seq<string>, x: Subject, name: string)
    requires Enumerates(order, t.rules.Keys)
    requires name in t.rules && MatchesSource(t.rules[name], x)
    requires forall k :: k in t.rules && k != name ==> !MatchesSource(t.rules[k], x)
    ensures Translate(t, order, x) == RuleTranslate(t.rules[name], x)
  {
  }

  /** Decimal text of a number, as `format!("{}", n)` prints it. */
  function NatToString(n: nat): (r: string)
    ensures |r| >= 1
    ensures |r| == 1 <==> n < 10
    ensures forall i :: 0 <= i < |r| ==> '0' <= r[i] <= '9'
    decreases n
  {
    if n < 10 then [(n + '0' as int) as char]
    else NatToString(n / 10) + [(n % 10 + '0' as int) as char]
  }

  /** Different numbers print differently. */
  lemma {:induction false} NatToStringInjective(a: nat, b: nat)
    requires NatToString(a) == NatToString(b)
    ensures a == b
    decreases a
  {
    if a >= 10 {
      var sa, sb := NatToString(a / 10), NatToString(b / 10);
      assert NatToString(a)[..|sa|] == sa && NatToString(b)[..|sb|] == sb;
      assert |sa| == |sb|;
      NatToStringInjective(a / 10, b / 10);
      assert NatToString(a)[|sa|] == NatToString(b)[|sb|];
    }
  }

  /** The name `bidirectional` registers a rule under. */
  function IndexedName(prefix: string, i: nat): string {
    prefix + "_" + NatToString(i)
  }

  lemma IndexedNameInjective(prefix: string, i: nat, j: nat)
    requires IndexedName(prefix, i) == IndexedName(prefix, j)
    ensures i == j
  {
    var n := |prefix| + 1;
    assert NatToString(i) == IndexedName(prefix, i)[n..];
    assert NatToString(j) == IndexedName(prefix, j)[n..];
    NatToStringInjective(i, j);
  }

  /** `k` is `prefix_j` for some index `j` in `lo..n`. */
  predicate IndexedKey(prefix: string, lo: nat, n: nat, k: string) {
    exists j :: lo <= j < n && k == IndexedName(prefix, j)
  }

  /** Registers `rules[i..]` under `prefix_i`, `prefix_(i+1)`, … */
  function RegisterIndexed(t: Translator, prefix: string, rules: seq<TranslationRule>, i: nat): Translator
    requires i <= |rules|
    decreases |rules| - i
  {
    if i == |rules| then t
    else RegisterIndexed(RegisterRule(t, IndexedName(prefix, i), rules[i]), prefix, rules, i + 1)
  }

  /** The indexed names registered from `i` on are exactly the new keys. */
  lemma {:induction false} RegisterIndexedKey(t: Translator, prefix: string, rules: seq<TranslationRule>, i: nat, k: string)
    requires i <= |rules|
    ensures k in RegisterIndexed(t, prefix, rules, i).rules <==> k in t.rules || IndexedKey(prefix, i, |rules|, k)
    decreases |rules| - i
  {
    if i < |rules| {
      RegisterIndexedKey(RegisterRule(t, IndexedName(prefix, i), rules[i]), prefix, rules, i + 1, k);
      if IndexedKey(prefix, i, |rules|, k) && k != IndexedName(prefix, i) {
        var j :| i <= j < |rules| && k == IndexedName(prefix, j);
        assert IndexedKey(prefix, i + 1, |rules|, k);
      }
    }
  }

  /** A name registered later is never `prefix_i` again. */
  lemma LaterNamesDiffer(prefix: string, rules: seq<TranslationRule>, i: nat)
    requires i < |rules|
    ensures !IndexedKey(prefix, i + 1, |rules|, IndexedName(prefix, i))
  {
    forall j | i + 1 <= j < |rules|
      ensures IndexedName(prefix, i) != IndexedName(prefix, j)
    {
      if IndexedName(prefix, i) == IndexedName(prefix, j) {
        IndexedNameInjective(prefix, i, j);
      }
    }
  }

  /** A key that no later registration names keeps its rule. */
  lemma {:induction false} RegisterIndexedKeeps(t: Translator, prefix: string, rules: seq<TranslationRule>, i: nat, k: string)
    requires i <= |rules| && k in t.rules && !IndexedKey(prefix, i, |rules|, k)
    ensures k in RegisterIndexed(t, prefix, rules, i).rules && RegisterIndexed(t, prefix, rules, i).rules[k] == t.rules[k]
    decreases |rules| - i
  {
    RegisterIndexedKey(t, prefix, rules, i, k);
    if i < |rules| {
      assert k != IndexedName(prefix, i);
      forall j | i + 1 <= j < |rules|
        ensures k != IndexedName(prefix, j)
      {
        assert i <= j;
      }
      RegisterIndexedKeeps(RegisterRule(t, IndexedName(prefix, i), rules[i]), prefix, rules, i + 1, k);
    }
  }

  /** Each rule from `i` on ends up under its own indexed name. */
  lemma {:induction false} RegisterIndexedAt(t: Translator, prefix: string, rules: seq<TranslationRule>, i: nat, j: nat)
    requires i <= j < |rules|
    ensures IndexedName(prefix, j) in RegisterIndexed(t, prefix, rules, i).rules
    ensures RegisterIndexed(t, prefix, rules, i).rules[IndexedName(prefix, j)] == rules[j]
    decreases |rules| - i
  {
    var t1 := RegisterRule(t, IndexedName(prefix, i), rules[i]);
    if i == j {
      LaterNamesDiffer(prefix, rules, i);
      RegisterIndexedKey(t1, prefix, rules, i + 1, IndexedName(prefix, i));
      RegisterIndexedKeeps(t1, prefix, rules, i + 1, IndexedName(prefix, i));
    } else {
      RegisterIndexedAt(t1, prefix, rules, i + 1, j);
    }
  }

  /** `Translator::bidirectional`: forward rules as `forward_i`, then reverse rules as `reverse_i`. */
  function Bidirectional(forward: seq<TranslationRule>, reverse: seq<TranslationRule>): (r: Translator)
    ensures forall i :: 0 <= i < |forward| ==> IndexedName("forward", i) in r.rules && r.rules[IndexedName("forward", i)] == forward[i]
    ensures forall i :: 0 <= i < |reverse| ==> IndexedName("reverse", i) in r.rules && r.rules[IndexedName("reverse", i)] == reverse[i]
    ensures forall k :: k in r.rules <==> IndexedKey("forward", 0, |forward|, k) || IndexedKey("reverse", 0, |reverse|, k)
  {
    var t := RegisterIndexed(NewTranslator(), "forward", forward, 0);
    var r := RegisterIndexed(t, "reverse", reverse, 0);
    forall i | 0 <= i < |forward|
      ensures IndexedName("forward", i) in r.rules && r.rules[IndexedName("forward", i)] == forward[i]
    {
      RegisterIndexedAt(NewTranslator(), "forward", forward, 0, i);
      ForwardIsNotReverse(i, |reverse|);
      RegisterIndexedKey(t, "reverse", reverse, 0, IndexedName("forward", i));
      RegisterIndexedKeeps(t, "reverse", reverse, 0, IndexedName("forward", i));
    }
    forall i | 0 <= i < |reverse|
      ensures IndexedName("reverse", i) in r.rules && r.rules[IndexedName("reverse", i)] == reverse[i]
    {
      RegisterIndexedAt(t, "reverse", reverse, 0, i);
    }
    forall k
      ensures k in r.rules <==> IndexedKey("forward", 0, |forward|, k) || IndexedKey("reverse", 0, |reverse|, k)
    {
      RegisterIndexedKey(NewTranslator(), "forward", forward, 0, k);
      RegisterIndexedKey(t, "reverse", reverse, 0, k);
    }
    r
  }

  /** No forward name is a reverse name. */
  lemma ForwardIsNotReverse(i: nat, n: nat)
    ensures !IndexedKey("reverse", 0, n, IndexedName("forward", i))
  {
    forall j: nat | j < n
      ensures IndexedName("forward", i) != IndexedName("reverse", j)
    {
      assert IndexedName("forward", i)[0] == 'f' && IndexedName("reverse", j)[0] == 'r';
    }
  }

  /**
   * Round trip through a translator built from one forward rule: when the
   * rule matches, has a target pattern and its reverse closure undoes the
   * forward closure, reversing the translation gives the subject back.
   */
  lemma BidirectionalRoundTrip(rule: TranslationRule, order: seq<string>, x: Subject)
    requires Enumerates(order, Bidirectional([rule], []).rules.Keys)
    requires MatchesSource(rule, x) && rule.targetPattern.Some?
    requires RuleTranslate(rule, x).Ok?
    requires rule.reverseFn.Some? && rule.reverseFn.value(RuleTranslate(rule, x).value) == Ok(x)
    ensures Translate(Bidirectional([rule], []), order, x) == RuleTranslate(rule, x)
    ensures ReverseTranslate(Bidirectional([rule], []), order, RuleTranslate(rule, x).value) == Ok(x)
  {
    var t := Bidirectional([rule], []);
    var name := IndexedName("forward", 0);
    assert t.rules.Keys == {name};
    assert t.rules[name] == rule;
  }

  // ---------------------------------------------------------------------------
  // TranslatorBuilder
  // ---------------------------------------------------------------------------

  /** `TranslatorBuilder`: named rules in the order they were added. */
  datatype TranslatorBuilder = TranslatorBuilder(rules: seq<(string, TranslationRule)>)

  function NewTranslatorBuilder(): TranslatorBuilder {
    TranslatorBuilder([])
  }

  /** `custom`: append a rule under a name. */
  function Custom(b: TranslatorBuilder, name: string, rule: TranslationRule): TranslatorBuilder {
    TranslatorBuilder(b.rules + [(name, rule)])
  }

  /** The closure of `translate_context`: replace the context, keep the rest. */
  function ContextFn(to: string): SubjectFn {
    (x: Subject) => Ok(FromParts(SubjectParts(to, x.Aggregate(), x.EventType(), x.Version())))
  }

  /** `translate_context`: a rule for `<from>.>` named `context_<from>_<to>`. */
  function TranslateContext(b: TranslatorBuilder, from: string, to: string): (r: Result<TranslatorBuilder, SubjectError>)
    ensures r.Ok? <==> NewPattern(from + ".>").Ok?
    ensures r.Err? ==> r.error == InvalidPattern
    ensures r.Ok? ==> |r.value.rules| == |b.rules| + 1 && r.value.rules[..|b.rules|] == b.rules
    ensures r.Ok? ==> var (name, rule) := r.value.rules[|b.rules|];
      && name == rule.name == "context_" + from + "_" + to
      && rule.sourcePattern == NewPattern(from + ".>").value
      && rule.targetPattern.None? && rule.reverseFn.None?
  {
    var p :- NewPattern(from + ".>");
    var rule := NewRule("context_" + from + "_" + to, p, ContextFn(to));
    Ok(TranslatorBuilder(b.rules + [(rule.name, rule)]))
  }

  /** A token context compiles to the two-token pattern `from`, `>`. */
  lemma ContextPatternCompiles(from: string)
    requires IsToken(from)
    ensures NewPattern(from + ".>") == Ok(Pattern(from + ".>", [Literal(from), MultiWildcard]))
  {
    var tokens := [Literal(from), MultiWildcard];
    assert WellFormed(tokens);
    assert Texts(tokens) == [from, ">"];
    assert [from, ">"][1..] == [">"];
    assert Join([from, ">"], ".") == from + "." + ">" == from + ".>";
    assert Render(tokens) == from + ".>";
    ParseRender(tokens);
  }

  /**
   * For a parsed subject, the context rule applies exactly when the subject's
   * context is `from`, and its result replaces only the context.
   */
  lemma ContextRuleBehaviour(from: string, to: string, x: Subject)
    requires IsToken(from)
    requires NewSubject(x.raw) == Ok(x)
    ensures var rule := NewRule("context_" + from + "_" + to, Pattern(from + ".>", [Literal(from), MultiWildcard]), ContextFn(to));
      && (MatchesSource(rule, x) <==> x.Context() == from)
      && RuleTranslate(rule, x).Ok?
      && RuleTranslate(rule, x).value.Context() == to
      && RuleTranslate(rule, x).value.Aggregate() == x.Aggregate()
      && RuleTranslate(rule, x).value.EventType() == x.EventType()
      && RuleTranslate(rule, x).value.Version() == x.Version()
  {
    var p := Pattern(from + ".>", [Literal(from), MultiWildcard]);
    assert WellFormed(p.tokens);
    assert Split(x.raw, '.') == Fields(x.parts);
    TrailingMultiMatches(p, Split(x.raw, '.'));
  }

  /**
   * `TranslatorBuilder::build`: registers the rules in order, so of several
   * rules added under one name the last one is kept.
   */
  function BuildTranslator(b: TranslatorBuilder): (r: Translator)
    ensures r.rules.Keys == set i | 0 <= i < |b.rules| :: b.rules[i].0
    ensures forall i :: 0 <= i < |b.rules| && (forall j :: i < j < |b.rules| ==> b.rules[j].0 != b.rules[i].0) ==>
      r.rules[b.rules[i].0] == b.rules[i].1
  {
    InsertAllLastWins(map[], b.rules);
    Translator(InsertAll(map[], b.rules))
  }

  /** A translator with no rule for the subject returns it unchanged. */
  lemma NoMatchingRuleIsIdentity(t: Translator, order: seq<string>, x: Subject)
    requires Enumerates(order, t.rules.Keys)
    requires forall k :: k in t.rules ==> !MatchesSource(t.rules[k], x)
    ensures Translate(t, order, x) == Ok(x)
  {
  }
}
