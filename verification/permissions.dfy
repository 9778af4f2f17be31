/**
 * Subject permissions of src/permissions.rs: ordered allow/deny rules over
 * patterns, decided by the most specific applicable rule with the default
 * policy as fallback, plus merge, intersection and the builder.
 */
module Permissions {
  import opened Results
  import opened Text
  import opened Seqs
  import opened Subjects
  import opened Patterns

  /** `Operation`; `All` is an ordinary member, never expanded. */
  datatype Operation = Publish | Subscribe | Request | All

  datatype Policy = Allow | Deny

  /** `PermissionRule`. */
  datatype PermissionRule = PermissionRule(pattern: Pattern, operations: set<Operation>, policy: Policy, description: Option<string>)

  /** `Permissions`: rules in registration order and the fallback policy. */
  datatype PermissionSet = PermissionSet(rules: seq<PermissionRule>, defaultPolicy: Policy)

  /** `Operation::all_operations`. */
  function AllOperations(): set<Operation> {
    {Publish, Subscribe, Request}
  }

  /** `Permissions::new`. */
  function NewPermissions(defaultPolicy: Policy): PermissionSet {
    PermissionSet([], defaultPolicy)
  }

  /** `Permissions::default`: no rules, deny. */
  function DefaultPermissions(): PermissionSet {
    NewPermissions(Deny)
  }

  /** `Permissions::add_rule`. */
  function AddRule(perms: PermissionSet, rule: PermissionRule): PermissionSet {
    perms.(rules := perms.rules + [rule])
  }

  /** `PermissionRule::matches`: the pattern matches and the operation is listed. */
  predicate RuleMatches(rule: PermissionRule, x: Subject, op: Operation) {
    Matches(rule.pattern, x) && op in rule.operations
  }

  /** A rule listing only `All` applies to no basic operation. */
  lemma AllIsNotExpanded(rule: PermissionRule, x: Subject, op: Operation)
    requires rule.operations == {All} && op != All
    ensures !RuleMatches(rule, x, op)
  {
  }

  /** The rules that apply to `(x, op)`, in registration order. */
  function Applicable(rules: seq<PermissionRule>, x: Subject, op: Operation): (r: seq<PermissionRule>)
    ensures forall rule :: rule in r <==> rule in rules && RuleMatches(rule, x, op)
  {
    Filter((rule: PermissionRule) => RuleMatches(rule, x, op), rules)
  }

  // ---------------------------------------------------------------------------
  // Ordering rules by specificity: `sort_by` with the comparator of `is_allowed`
  // ---------------------------------------------------------------------------

  predicate MoreSpecific(a: PermissionRule, b: PermissionRule) {
    IsMoreSpecificThan(a.pattern, b.pattern)
  }

  /** No later rule is strictly more specific than an earlier one. */
  predicate SortedBySpecificity(s: seq<PermissionRule>) {
    forall i, j :: 0 <= i < j < |s| ==> !MoreSpecific(s[j], s[i])
  }

  /**
   * Inserts `x` in front of the first element not strictly more specific
   * than it, so it stays ahead of the equally specific rules registered
   * after it: the stable insertion step.
   */
  function Insert(x: PermissionRule, t: seq<PermissionRule>): (r: seq<PermissionRule>)
    ensures |r| == |t| + 1
    ensures multiset(r) == multiset(t) + multiset{x}
    ensures forall e :: e in r <==> e in t || e == x
    ensures r[0] == if |t| > 0 && MoreSpecific(t[0], x) then t[0] else x
  {
    if |t| > 0 && MoreSpecific(t[0], x) then
      assert t == [t[0]] + t[1..];
      [t[0]] + Insert(x, t[1..])
    else
      [x] + t
  }

  /** Insertion keeps a sorted sequence sorted. */
  lemma {:induction false} InsertSorted(x: PermissionRule, t: seq<PermissionRule>)
    requires SortedBySpecificity(t)
    ensures SortedBySpecificity(Insert(x, t))
  {
    if |t| > 0 && MoreSpecific(t[0], x) {
      var rest := Insert(x, t[1..]);
      InsertSorted(x, t[1..]);
      forall k | 0 <= k < |rest|
        ensures !MoreSpecific(rest[k], t[0])
      {
        if rest[k] == x {
          SpecificityAsymmetric(t[0].pattern, x.pattern);
        } else {
          assert rest[k] in t[1..];
          var m :| 0 <= m < |t[1..]| && t[1..][m] == rest[k];
          assert t[m + 1] == rest[k];
        }
      }
      assert Insert(x, t) == [t[0]] + rest;
    } else {
      forall j | 0 <= j < |t|
        ensures !MoreSpecific(t[j], x)
      {
        if j > 0 {
          NotMoreSpecificTransitive(t[j].pattern, t[0].pattern, x.pattern);
        } else {
          SpecificityIrreflexive(x.pattern);
        }
      }
    }
  }

  /** The stable sort, most specific first. */
  function SortBySpecificity(s: seq<PermissionRule>): (r: seq<PermissionRule>)
    ensures |r| == |s|
    ensures multiset(r) == multiset(s)
  {
    if |s| == 0 then []
    else
      assert s == [s[0]] + s[1..];
      Insert(s[0], SortBySpecificity(s[1..]))
  }

  /** The sort's output is ordered by specificity. */
  lemma {:induction false} SortSorted(s: seq<PermissionRule>)
    ensures SortedBySpecificity(SortBySpecificity(s))
  {
    if |s| > 0 {
      SortSorted(s[1..]);
      InsertSorted(s[0], SortBySpecificity(s[1..]));
    }
  }

  /**
   * Index `i` is the earliest among the most specific rules of `m`: nothing
   * beats it, and it beats everything registered before it.
   */
  predicate EarliestMostSpecific(m: seq<PermissionRule>, i: nat) {
    && i < |m|
    && (forall j :: 0 <= j < |m| ==> !MoreSpecific(m[j], m[i]))
    && (forall j :: 0 <= j < i ==> MoreSpecific(m[i], m[j]))
  }

  /** At most one index is the earliest most specific. */
  lemma EarliestMostSpecificUnique(m: seq<PermissionRule>, i: nat, k: nat)
    requires EarliestMostSpecific(m, i) && EarliestMostSpecific(m, k)
    ensures i == k
  {
    assert !MoreSpecific(m[k], m[i]) && !MoreSpecific(m[i], m[k]);
  }

  /** The head of the stable sort is the earliest most specific rule. */
  lemma {:induction false} SortHead(m: seq<PermissionRule>)
    requires |m| > 0
    ensures exists i: nat :: EarliestMostSpecific(m, i) && SortBySpecificity(m)[0] == m[i]
  {
    var tail := m[1..];
    if |tail| == 0 {
      assert EarliestMostSpecific(m, 0) by {
        SpecificityIrreflexive(m[0].pattern);
      }
    } else {
      SortHead(tail);
      var k: nat :| EarliestMostSpecific(tail, k) && SortBySpecificity(tail)[0] == tail[k];
      var h := tail[k];
      if MoreSpecific(h, m[0]) {
        forall j | 0 <= j < |m|
          ensures !MoreSpecific(m[j], m[k + 1])
        {
          if j == 0 {
            SpecificityAsymmetric(h.pattern, m[0].pattern);
          } else {
            assert m[j] == tail[j - 1];
          }
        }
        forall j | 0 <= j < k + 1
          ensures MoreSpecific(m[k + 1], m[j])
        {
          if j > 0 {
            assert m[j] == tail[j - 1];
          }
        }
        assert EarliestMostSpecific(m, k + 1);
      } else {
        forall j | 0 <= j < |m|
          ensures !MoreSpecific(m[j], m[0])
        {
          if j == 0 {
            SpecificityIrreflexive(m[0].pattern);
          } else {
            assert m[j] == tail[j - 1];
            NotMoreSpecificTransitive(m[j].pattern, h.pattern, m[0].pattern);
          }
        }
        assert EarliestMostSpecific(m, 0);
      }
    }
  }

  /**
   * `Permissions::is_allowed`: with no applicable rule the default policy
   * decides; otherwise the earliest registered of the most specific
   * applicable rules does, whatever its policy.
   */
  function IsAllowed(perms: PermissionSet, x: Subject, op: Operation): (r: bool)
    ensures |Applicable(perms.rules, x, op)| == 0 ==> (r <==> perms.defaultPolicy == Allow)
    ensures forall i: nat :: EarliestMostSpecific(Applicable(perms.rules, x, op), i) ==>
      (r <==> Applicable(perms.rules, x, op)[i].policy == Allow)
  {
    var m := Applicable(perms.rules, x, op);
    if |m| > 0 then
      var sorted := SortBySpecificity(m);
      assert forall i: nat :: EarliestMostSpecific(m, i) ==> sorted[0] == m[i] by {
        SortHead(m);
        var k: nat :| EarliestMostSpecific(m, k) && sorted[0] == m[k];
        forall i: nat | EarliestMostSpecific(m, i)
          ensures sorted[0] == m[i]
        {
          EarliestMostSpecificUnique(m, i, k);
        }
      }
      sorted[0].policy == Allow
    else
      perms.defaultPolicy == Allow
  }

  /** Whenever some rule applies, some rule is decisive. */
  lemma DecisiveRuleExists(perms: PermissionSet, x: Subject, op: Operation)
    requires |Applicable(perms.rules, x, op)| > 0
    ensures exists i: nat :: EarliestMostSpecific(Applicable(perms.rules, x, op), i)
  {
    SortHead(Applicable(perms.rules, x, op));
  }

  /**
   * A deny rule does not win by default: an applicable allow rule strictly
   * more specific than every other applicable rule allows.
   */
  lemma StrictlyMostSpecificDecides(perms: PermissionSet, x: Subject, op: Operation, rule: PermissionRule)
    requires rule in perms.rules && RuleMatches(rule, x, op)
    requires forall other :: other in perms.rules && RuleMatches(other, x, op) && other != rule ==> MoreSpecific(rule, other)
    ensures IsAllowed(perms, x, op) <==> rule.policy == Allow
  {
    var m := Applicable(perms.rules, x, op);
    assert rule in m;
    DecisiveRuleExists(perms, x, op);
    var i: nat :| EarliestMostSpecific(m, i);
    var k :| 0 <= k < |m| && m[k] == rule;
    assert m[i] in m;
    assert m[i] in perms.rules && RuleMatches(m[i], x, op);
    assert !MoreSpecific(m[k], m[i]);
    assert m[i] == rule;
  }

  function CanPublish(perms: PermissionSet, x: Subject): bool { IsAllowed(perms, x, Publish) }
  function CanSubscribe(perms: PermissionSet, x: Subject): bool { IsAllowed(perms, x, Subscribe) }
  function CanRequest(perms: PermissionSet, x: Subject): bool { IsAllowed(perms, x, Request) }

  /** The default permission set denies everything. */
  lemma DefaultDeniesAll(x: Subject, op: Operation)
    ensures !IsAllowed(DefaultPermissions(), x, op)
  {
  }

  /** `filter_allowed`: the allowed subjects, in input order. */
  function FilterAllowed(perms: PermissionSet, subjects: seq<Subject>, op: Operation): (r: seq<Subject>)
    ensures forall x :: x in r <==> x in subjects && IsAllowed(perms, x, op)
    ensures |r| <= |subjects|
  {
    Filter((x: Subject) => IsAllowed(perms, x, op), subjects)
  }

  lemma FilterAllowedConcat(perms: PermissionSet, xs: seq<Subject>, ys: seq<Subject>, op: Operation)
    ensures FilterAllowed(perms, xs + ys, op) == FilterAllowed(perms, xs, op) + FilterAllowed(perms, ys, op)
  {
    FilterConcat((x: Subject) => IsAllowed(perms, x, op), xs, ys);
  }

  /** `Permissions::merge`: the other set's rules go after this one's; this default stays. */
  function Merge(perms: PermissionSet, other: PermissionSet): (r: PermissionSet)
    ensures r.defaultPolicy == perms.defaultPolicy
    ensures |r.rules| == |perms.rules| + |other.rules|
    ensures r.rules[..|perms.rules|] == perms.rules && r.rules[|perms.rules|..] == other.rules
  {
    PermissionSet(perms.rules + other.rules, perms.defaultPolicy)
  }

  /** The applicable rules of a merge are this set's followed by the other's. */
  lemma MergeApplicable(perms: PermissionSet, other: PermissionSet, x: Subject, op: Operation)
    ensures Applicable(Merge(perms, other).rules, x, op) == Applicable(perms.rules, x, op) + Applicable(other.rules, x, op)
  {
    FilterConcat((rule: PermissionRule) => RuleMatches(rule, x, op), perms.rules, other.rules);
  }

  /** Where the other set has nothing to say, a merge decides as this set does. */
  lemma MergeKeepsDecision(perms: PermissionSet, other: PermissionSet, x: Subject, op: Operation)
    requires |Applicable(other.rules, x, op)| == 0
    ensures IsAllowed(Merge(perms, other), x, op) == IsAllowed(perms, x, op)
  {
    MergeApplicable(perms, other, x, op);
    assert Applicable(perms.rules, x, op) + Applicable(other.rules, x, op) == Applicable(perms.rules, x, op);
  }

  /** Where this set has nothing to say but the other does, a merge decides as the other does. */
  lemma MergeTakesOtherDecision(perms: PermissionSet, other: PermissionSet, x: Subject, op: Operation)
    requires |Applicable(perms.rules, x, op)| == 0 && |Applicable(other.rules, x, op)| > 0
    ensures IsAllowed(Merge(perms, other), x, op) == IsAllowed(other, x, op)
  {
    MergeApplicable(perms, other, x, op);
    assert Applicable(perms.rules, x, op) + Applicable(other.rules, x, op) == Applicable(other.rules, x, op);
  }

  // ---------------------------------------------------------------------------
  // Intersection
  // ---------------------------------------------------------------------------

  /** Both rules allow and share at least one operation: the pair contributes a rule. */
  predicate Overlapping(s: PermissionRule, o: PermissionRule) {
    s.policy == Allow && o.policy == Allow && s.operations * o.operations != {}
  }

  /** The rule `intersect` adds for an overlapping pair, as written. */
  function PairRule(s: PermissionRule, o: PermissionRule): PermissionRule {
    var pattern := if IsMoreSpecificThan(s.pattern, o.pattern) then s.pattern else o.pattern;
    PermissionRule(pattern, s.operations * o.operations, Allow, None)
  }

  /** The inner loop of `intersect` for one rule of this set. */
  function PairRules(s: PermissionRule, others: seq<PermissionRule>): (r: seq<PermissionRule>)
    ensures forall rule :: rule in r <==> exists o :: o in others && Overlapping(s, o) && rule == PairRule(s, o)
  {
    if |others| == 0 then []
    else
      var rest := PairRules(s, others[1..]);
      assert forall o :: o in others <==> o == others[0] || o in others[1..];
      if Overlapping(s, others[0]) then [PairRule(s, others[0])] + rest else rest
  }

  /** The outer loop of `intersect`. */
  function IntersectRules(mine: seq<PermissionRule>, others: seq<PermissionRule>): (r: seq<PermissionRule>)
    ensures forall rule :: rule in r <==>
      exists s, o :: s in mine && o in others && Overlapping(s, o) && rule == PairRule(s, o)
  {
    if |mine| == 0 then []
    else
      var rest := IntersectRules(mine[1..], others);
      assert forall s :: s in mine <==> s == mine[0] || s in mine[1..];
      PairRules(mine[0], others) + rest
  }

  /**
   * `Permissions::intersect`, as written: a deny-default set with one allow
   * rule per overlapping pair of allow rules, holding the shared operations
   * and this rule's pattern if strictly more specific, else the other's.
   */
  function IntersectAsWritten(perms: PermissionSet, other: PermissionSet): (r: PermissionSet)
    ensures r.defaultPolicy == Deny
    ensures forall rule :: rule in r.rules ==> rule.policy == Allow && rule.operations != {}
    ensures forall rule :: rule in r.rules <==>
      exists s, o :: s in perms.rules && o in other.rules && Overlapping(s, o) && rule == PairRule(s, o)
  {
    PermissionSet(IntersectRules(perms.rules, other.rules), Deny)
  }

  /** With only allow rules, a set allows exactly when some rule applies. */
  lemma AllowOnlyDecision(perms: PermissionSet, x: Subject, op: Operation)
    requires perms.defaultPolicy == Deny
    requires forall rule :: rule in perms.rules ==> rule.policy == Allow
    ensures IsAllowed(perms, x, op) <==> exists rule :: rule in perms.rules && RuleMatches(rule, x, op)
  {
    var m := Applicable(perms.rules, x, op);
    if |m| > 0 {
      DecisiveRuleExists(perms, x, op);
      var i: nat :| EarliestMostSpecific(m, i);
      assert m[i] in m;
    }
  }

  function UsersAll(): Pattern { Pattern("users.>", [Literal("users"), MultiWildcard]) }
  function InventoryAll(): Pattern { Pattern("inventory.>", [Literal("inventory"), MultiWildcard]) }
  function SubscribeRule(p: Pattern): PermissionRule { PermissionRule(p, {Subscribe}, Allow, None) }
  function UsersSubscriber(): PermissionSet { PermissionSet([SubscribeRule(UsersAll())], Deny) }
  function InventorySubscriber(): PermissionSet { PermissionSet([SubscribeRule(InventoryAll())], Deny) }
  function InventoryItem(): Subject { FromParts(SubjectParts("inventory", "item", "added", "v1")) }

  lemma InventoryItemMatches()
    ensures !Matches(UsersAll(), InventoryItem()) && Matches(InventoryAll(), InventoryItem())
  {
    var x := SubjectParts("inventory", "item", "added", "v1");
    OneLiteralThenRest(UsersAll(), x);
    OneLiteralThenRest(InventoryAll(), x);
  }

  /** A pattern "a.>" matches printed dot-free parts exactly when the context is `a`. */
  lemma OneLiteralThenRest(p: Pattern, x: SubjectParts)
    requires |p.tokens| == 2 && p.tokens[0].Literal? && p.tokens[1].MultiWildcard?
    requires '.' !in x.context && '.' !in x.aggregate && '.' !in x.eventType && '.' !in x.version
    ensures Matches(p, FromParts(x)) <==> x.context == p.tokens[0].text
  {
    PrintedPiecesExact(x);
    assert FirstMulti(p.tokens) == 1 by {
      assert p.tokens[1..][0].MultiWildcard?;
    }
  }

  /** A pattern "a.b.>" matches printed dot-free parts exactly when the context is `a` and the aggregate `b`. */
  lemma TwoLiteralsThenRest(p: Pattern, x: SubjectParts)
    requires |p.tokens| == 3 && p.tokens[0].Literal? && p.tokens[1].Literal? && p.tokens[2].MultiWildcard?
    requires '.' !in x.context && '.' !in x.aggregate && '.' !in x.eventType && '.' !in x.version
    ensures Matches(p, FromParts(x)) <==> x.context == p.tokens[0].text && x.aggregate == p.tokens[1].text
  {
    PrintedPiecesExact(x);
    assert FirstMulti(p.tokens) == 2 by {
      assert p.tokens[1..][1..][0].MultiWildcard?;
    }
  }

  /**
   * The intersection is not more restrictive than this set: intersecting
   * "allow users.>" with "allow inventory.>" (subscribe) allows
   * inventory.item.added.v1, which the first set denies.
   */
  lemma IntersectLeaksOtherPattern()
    ensures !IsAllowed(UsersSubscriber(), InventoryItem(), Subscribe)
    ensures IsAllowed(InventorySubscriber(), InventoryItem(), Subscribe)
    ensures IsAllowed(IntersectAsWritten(UsersSubscriber(), InventorySubscriber()), InventoryItem(), Subscribe)
  {
    var x := InventoryItem();
    var s, o := SubscribeRule(UsersAll()), SubscribeRule(InventoryAll());
    InventoryItemMatches();
    SingleRuleDecision(s, Deny, x, Subscribe);
    SingleRuleDecision(o, Deny, x, Subscribe);
    LeakExampleRules();
    SingleRuleDecision(SubscribeRule(InventoryAll()), Deny, x, Subscribe);
  }

  /** The intersection of the two example sets holds one rule: "allow inventory.>". */
  lemma LeakExampleRules()
    ensures IntersectAsWritten(UsersSubscriber(), InventorySubscriber()) == InventorySubscriber()
  {
    var s, o := SubscribeRule(UsersAll()), SubscribeRule(InventoryAll());
    assert !IsMoreSpecificThan(UsersAll(), InventoryAll());
    assert PairRule(s, o) == o;
    assert PairRules(s, [o]) == [o];
    assert IntersectRules([s], [o]) == [o];
  }

  /** A set with a single rule: the rule decides where it applies, the default elsewhere. */
  lemma SingleRuleDecision(rule: PermissionRule, d: Policy, x: Subject, op: Operation)
    ensures IsAllowed(PermissionSet([rule], d), x, op) <==>
      if RuleMatches(rule, x, op) then rule.policy == Allow else d == Allow
  {
    var m := Applicable([rule], x, op);
    FilterSingleton((r: PermissionRule) => RuleMatches(r, x, op), rule);
    if RuleMatches(rule, x, op) {
      assert m == [rule];
      SpecificityIrreflexive(rule.pattern);
      assert EarliestMostSpecific(m, 0);
    }
  }

  /**
   * Pattern `g` covers pattern `s` from token `i` on: token by token, every
   * piece sequence `s` accepts is one `g` accepts.
   */
  predicate CoversFrom(g: seq<Token>, s: seq<Token>, i: nat)
    requires i <= |g|
    decreases |g| - i
  {
    if i == |g| then i == |s|
    else match g[i]
      case MultiWildcard => i < |s|
      case SingleWildcard => i < |s| && !s[i].MultiWildcard? && CoversFrom(g, s, i + 1)
      case Literal(l) => i < |s| && s[i] == Literal(l) && CoversFrom(g, s, i + 1)
  }

  predicate Covers(g: Pattern, s: Pattern) {
    CoversFrom(g.tokens, s.tokens, 0)
  }

  lemma {:induction false} CoversFromSound(g: seq<Token>, s: seq<Token>, pieces: seq<string>, i: nat)
    requires i <= |g| && i <= |s| && i <= |pieces|
    requires forall j :: 0 <= j < i ==> !g[j].MultiWildcard? && TokenMatches(g[j], pieces[j])
    requires forall j :: 0 <= j < i ==> !s[j].MultiWildcard? && TokenMatches(s[j], pieces[j])
    requires CoversFrom(g, s, i) && MatchFrom(s, pieces, i)
    ensures MatchFrom(g, pieces, i)
    decreases |g| - i
  {
    if i < |g| && i < |pieces| && !g[i].MultiWildcard? {
      CoversFromSound(g, s, pieces, i + 1);
    }
  }

  /** Covering is sound: whatever the covered pattern matches, the covering one matches. */
  lemma CoversSound(g: Pattern, s: Pattern, x: Subject)
    requires Covers(g, s) && Matches(s, x)
    ensures Matches(g, x)
  {
    CoversFromSound(g.tokens, s.tokens, Split(x.raw, '.'), 0);
  }

  /**
   * The rule an overlapping pair should contribute: the narrower pattern,
   * when one pattern covers the other; nothing when neither does.
   */
  function PairRuleFixed(s: PermissionRule, o: PermissionRule): (r: Option<PermissionRule>)
    ensures r.Some? ==> r.value.policy == Allow && r.value.operations == s.operations * o.operations
    ensures r.Some? ==> forall x :: Matches(r.value.pattern, x) ==> Matches(s.pattern, x) && Matches(o.pattern, x)
  {
    if Covers(o.pattern, s.pattern) then
      assert forall x :: Matches(s.pattern, x) ==> Matches(o.pattern, x) by {
        forall x | Matches(s.pattern, x) ensures Matches(o.pattern, x) { CoversSound(o.pattern, s.pattern, x); }
      }
      Some(PermissionRule(s.pattern, s.operations * o.operations, Allow, None))
    else if Covers(s.pattern, o.pattern) then
      assert forall x :: Matches(o.pattern, x) ==> Matches(s.pattern, x) by {
        forall x | Matches(o.pattern, x) ensures Matches(s.pattern, x) { CoversSound(s.pattern, o.pattern, x); }
      }
      Some(PermissionRule(o.pattern, s.operations * o.operations, Allow, None))
    else None
  }

  function PairRulesFixed(s: PermissionRule, others: seq<PermissionRule>): (r: seq<PermissionRule>)
    ensures forall rule :: rule in r ==> exists o :: o in others && Overlapping(s, o) && PairRuleFixed(s, o) == Some(rule)
  {
    if |others| == 0 then []
    else
      var rest := PairRulesFixed(s, others[1..]);
      var o := others[0];
      if Overlapping(s, o) && PairRuleFixed(s, o).Some? then [PairRuleFixed(s, o).value] + rest else rest
  }

  function IntersectRulesFixed(mine: seq<PermissionRule>, others: seq<PermissionRule>): (r: seq<PermissionRule>)
    ensures forall rule :: rule in r ==>
      exists s, o :: s in mine && o in others && Overlapping(s, o) && PairRuleFixed(s, o) == Some(rule)
  {
    if |mine| == 0 then []
    else PairRulesFixed(mine[0], others) + IntersectRulesFixed(mine[1..], others)
  }

  /** The intersection with each added rule's pattern inside both source patterns. */
  function Intersect(perms: PermissionSet, other: PermissionSet): (r: PermissionSet)
    ensures r.defaultPolicy == Deny
    ensures forall rule :: rule in r.rules ==> rule.policy == Allow
  {
    PermissionSet(IntersectRulesFixed(perms.rules, other.rules), Deny)
  }

  /** Each rule of the corrected intersection applies only where a rule of each set applies. */
  lemma PairRuleFixedSound(s: PermissionRule, o: PermissionRule, rule: PermissionRule, x: Subject, op: Operation)
    requires PairRuleFixed(s, o) == Some(rule) && RuleMatches(rule, x, op)
    ensures RuleMatches(s, x, op) && RuleMatches(o, x, op)
  {
  }

  /** The corrected intersection allows only what an allow rule of each set permits. */
  lemma IntersectRestricts(perms: PermissionSet, other: PermissionSet, x: Subject, op: Operation)
    requires IsAllowed(Intersect(perms, other), x, op)
    ensures exists s :: s in perms.rules && s.policy == Allow && RuleMatches(s, x, op)
    ensures exists o :: o in other.rules && o.policy == Allow && RuleMatches(o, x, op)
  {
    var both := Intersect(perms, other);
    AllowOnlyDecision(both, x, op);
    var rule :| rule in both.rules && RuleMatches(rule, x, op);
    var s, o :| s in perms.rules && o in other.rules && Overlapping(s, o) && PairRuleFixed(s, o) == Some(rule);
    PairRuleFixedSound(s, o, rule, x, op);
  }

  /** For deny-default sets of allow rules, the corrected intersection allows only what both allow. */
  lemma IntersectAllowOnly(perms: PermissionSet, other: PermissionSet, x: Subject, op: Operation)
    requires perms.defaultPolicy == Deny && forall rule :: rule in perms.rules ==> rule.policy == Allow
    requires other.defaultPolicy == Deny && forall rule :: rule in other.rules ==> rule.policy == Allow
    requires IsAllowed(Intersect(perms, other), x, op)
    ensures IsAllowed(perms, x, op) && IsAllowed(other, x, op)
  {
    IntersectRestricts(perms, other, x, op);
    AllowOnlyDecision(perms, x, op);
    AllowOnlyDecision(other, x, op);
  }

  /** The corrected intersection keeps the example of the leak closed. */
  lemma IntersectNoLeak()
    ensures !IsAllowed(Intersect(UsersSubscriber(), InventorySubscriber()), InventoryItem(), Subscribe)
  {
    InventoryItemMatches();
    AllowOnlyDecision(UsersSubscriber(), InventoryItem(), Subscribe);
    if IsAllowed(Intersect(UsersSubscriber(), InventorySubscriber()), InventoryItem(), Subscribe) {
      IntersectAllowOnly(UsersSubscriber(), InventorySubscriber(), InventoryItem(), Subscribe);
    }
  }

  // ---------------------------------------------------------------------------
  // PermissionsBuilder
  // ---------------------------------------------------------------------------

  datatype PermissionsBuilder = PermissionsBuilder(rules: seq<PermissionRule>, defaultPolicy: Option<Policy>)

  function NewPermissionsBuilder(): PermissionsBuilder {
    PermissionsBuilder([], None)
  }

  function WithDefaultPolicy(b: PermissionsBuilder, policy: Policy): PermissionsBuilder {
    b.(defaultPolicy := Some(policy))
  }

  /** `allow`/`deny`: compile the pattern, then append one rule with the listed operations. */
  function WithRule(b: PermissionsBuilder, pattern: string, operations: seq<Operation>, policy: Policy): (r: Result<PermissionsBuilder, SubjectError>)
    ensures r.Ok? <==> NewPattern(pattern).Ok?
    ensures r.Ok? ==> r.value.defaultPolicy == b.defaultPolicy
    ensures r.Ok? ==> r.value.rules == b.rules + [PermissionRule(NewPattern(pattern).value, (set o | o in operations), policy, None)]
    ensures r.Err? ==> r.error == InvalidPattern
  {
    var p :- NewPattern(pattern);
    Ok(b.(rules := b.rules + [PermissionRule(p, (set o | o in operations), policy, None)]))
  }

  function WithAllow(b: PermissionsBuilder, pattern: string, operations: seq<Operation>): Result<PermissionsBuilder, SubjectError> {
    WithRule(b, pattern, operations, Allow)
  }

  function WithDeny(b: PermissionsBuilder, pattern: string, operations: seq<Operation>): Result<PermissionsBuilder, SubjectError> {
    WithRule(b, pattern, operations, Deny)
  }

  /** `allow_all`: one allow rule covering exactly the three basic operations. */
  function WithAllowAll(b: PermissionsBuilder, pattern: string): (r: Result<PermissionsBuilder, SubjectError>)
    ensures r.Ok? <==> NewPattern(pattern).Ok?
    ensures r.Ok? ==> |r.value.rules| == |b.rules| + 1 && r.value.rules[..|b.rules|] == b.rules
    ensures r.Ok? ==> var rule := r.value.rules[|b.rules|];
      rule.operations == AllOperations() && All !in rule.operations && rule.policy == Allow
  {
    WithAllow(b, pattern, [Publish, Subscribe, Request])
  }

  /** `deny_all`: one deny rule covering exactly the three basic operations. */
  function WithDenyAll(b: PermissionsBuilder, pattern: string): (r: Result<PermissionsBuilder, SubjectError>)
    ensures r.Ok? <==> NewPattern(pattern).Ok?
    ensures r.Ok? ==> |r.value.rules| == |b.rules| + 1 && r.value.rules[..|b.rules|] == b.rules
    ensures r.Ok? ==> var rule := r.value.rules[|b.rules|];
      rule.operations == AllOperations() && All !in rule.operations && rule.policy == Deny
  {
    WithDeny(b, pattern, [Publish, Subscribe, Request])
  }

  /** `build`: the rules in order, denying by default when no policy was set. */
  function BuildPermissions(b: PermissionsBuilder): (r: PermissionSet)
    ensures r.rules == b.rules
    ensures b.defaultPolicy.None? ==> r.defaultPolicy == Deny
    ensures b.defaultPolicy.Some? ==> r.defaultPolicy == b.defaultPolicy.value
  {
    PermissionSet(b.rules, if b.defaultPolicy.Some? then b.defaultPolicy.value else Deny)
  }

  /** A fresh builder builds the default permission set. */
  lemma EmptyBuilderIsDefault()
    ensures BuildPermissions(NewPermissionsBuilder()) == DefaultPermissions()
  {
  }

  function UsersAdminAll(): Pattern { Pattern("users.admin.>", [Literal("users"), Literal("admin"), MultiWildcard]) }

  /**
   * Rule order does not decide: "allow users.>" then the more specific
   * "deny users.admin.>" denies admin subjects and allows the others.
   */
  lemma MoreSpecificDenyWins()
    ensures IsAllowed(UsersButNotAdmins(), UserPerson(), Subscribe)
    ensures !IsAllowed(UsersButNotAdmins(), UserAdmin(), Subscribe)
  {
    PersonAllowed();
    AdminDenied();
  }

  /** "allow users.>" (subscribe) followed by "deny users.admin.>" (subscribe). */
  function UsersButNotAdmins(): PermissionSet {
    PermissionSet([SubscribeRule(UsersAll()), AdminDenyRule()], Deny)
  }

  function AdminDenyRule(): PermissionRule { PermissionRule(UsersAdminAll(), {Subscribe}, Deny, None) }

  lemma PersonAllowed()
    ensures IsAllowed(UsersButNotAdmins(), UserPerson(), Subscribe)
  {
    UserPersonMatches();
    assert !RuleMatches(AdminDenyRule(), UserPerson(), Subscribe);
    StrictlyMostSpecificDecides(UsersButNotAdmins(), UserPerson(), Subscribe, SubscribeRule(UsersAll()));
  }

  lemma AdminDenied()
    ensures !IsAllowed(UsersButNotAdmins(), UserAdmin(), Subscribe)
  {
    UserAdminMatches();
    AdminPatternMoreSpecific();
    StrictlyMostSpecificDecides(UsersButNotAdmins(), UserAdmin(), Subscribe, AdminDenyRule());
  }

  /** "users.admin.>" is strictly more specific than "users.>": two literals against one. */
  lemma AdminPatternMoreSpecific()
    ensures MoreSpecific(AdminDenyRule(), SubscribeRule(UsersAll()))
  {
    var a, b := UsersAdminAll().tokens, UsersAll().tokens;
    assert a[2].MultiWildcard? && b[1].MultiWildcard?;
    assert a[1..][1..] == [MultiWildcard] && b[1..] == [MultiWildcard];
    assert CountSingle(a) == 0 && CountSingle(b) == 0;
    assert FirstWildcard(a) == Some(2) && FirstWildcard(b) == Some(1);
  }

  function UserPerson(): Subject { FromParts(SubjectParts("users", "person", "created", "v1")) }
  function UserAdmin(): Subject { FromParts(SubjectParts("users", "admin", "created", "v1")) }

  lemma UsersSubjectsMatch()
    ensures Matches(UsersAll(), UserPerson()) && !Matches(UsersAdminAll(), UserPerson())
    ensures Matches(UsersAll(), UserAdmin()) && Matches(UsersAdminAll(), UserAdmin())
  {
    UserPersonMatches();
    UserAdminMatches();
  }

  lemma UserPersonMatches()
    ensures Matches(UsersAll(), UserPerson()) && !Matches(UsersAdminAll(), UserPerson())
  {
    var person := SubjectParts("users", "person", "created", "v1");
    OneLiteralThenRest(UsersAll(), person);
    TwoLiteralsThenRest(UsersAdminAll(), person);
  }

  lemma UserAdminMatches()
    ensures Matches(UsersAll(), UserAdmin()) && Matches(UsersAdminAll(), UserAdmin())
  {
    var admin := SubjectParts("users", "admin", "created", "v1");
    OneLiteralThenRest(UsersAll(), admin);
    TwoLiteralsThenRest(UsersAdminAll(), admin);
  }
}
