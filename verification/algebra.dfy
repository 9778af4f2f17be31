/**
 * The subject algebra of src/algebra.rs: named composition rules and
 * transformations that override default string-building compositions, the
 * order-preserving pattern search, and the specificity "lattice" over event
 * types. Composers and transforms are user closures, modelled as function
 * values the algebra stores and calls but never inspects.
 */
module Algebra {
  import opened Results
  import opened Text
  import opened Seqs
  import opened Subjects
  import opened Patterns

  type ComposerFn = (Subject, Subject) -> Result<Subject, SubjectError>
  type TransformFn = Subject -> Result<Subject, SubjectError>

  /** `CompositionRule`: the patterns are descriptive only; `compose` never checks them. */
  datatype CompositionRule = CompositionRule(name: string, leftPattern: Pattern, rightPattern: Pattern, composer: ComposerFn)

  /** `Transformation`: a closure guarded by an input pattern. */
  datatype Transformation = Transformation(name: string, inputPattern: Pattern, transform: TransformFn)

  /** `SubjectAlgebra`: the two registries, keyed by string. */
  datatype SubjectAlgebra = SubjectAlgebra(rules: map<string, CompositionRule>, transformations: map<string, Transformation>)

  /** `AlgebraOperation`. */
  datatype AlgebraOperation =
    | Sequence
    | Parallel
    | Choice(condition: string)
    | Transform(name: string)
    | Project(fields: seq<string>)
    | Inject(context: string)

  function NewAlgebra(): SubjectAlgebra {
    SubjectAlgebra(map[], map[])
  }

  /** `register_rule`: a later registration under the same key replaces the earlier one. */
  function RegisterRule(alg: SubjectAlgebra, name: string, rule: CompositionRule): (r: SubjectAlgebra)
    ensures r.rules.Keys == alg.rules.Keys + {name} && r.rules[name] == rule
    ensures forall k :: k in alg.rules && k != name ==> r.rules[k] == alg.rules[k]
    ensures r.transformations == alg.transformations
  {
    alg.(rules := alg.rules[name := rule])
  }

  function RegisterTransformation(alg: SubjectAlgebra, name: string, t: Transformation): (r: SubjectAlgebra)
    ensures r.transformations.Keys == alg.transformations.Keys + {name} && r.transformations[name] == t
    ensures forall k :: k in alg.transformations && k != name ==> r.transformations[k] == alg.transformations[k]
    ensures r.rules == alg.rules
  {
    alg.(transformations := alg.transformations[name := t])
  }

  /** The registry key each operation consults before its default, if any. */
  function RuleKey(op: AlgebraOperation, left: Subject, right: Subject): Option<string> {
    match op
    case Sequence => Some("sequence:" + left.EventType() + ":" + right.EventType())
    case Parallel => Some("parallel:" + left.EventType() + ":" + right.EventType())
    case Choice(cond) => Some("choice:" + left.EventType() + ":" + right.EventType() + ":" + cond)
    case Transform(_) => None
    case Project(fields) => Some("project:" + left.EventType() + ":" + Join(fields, ","))
    case Inject(ctx) => Some("inject:" + left.Context() + ":" + ctx)
  }

  /** The parts each operation builds when no rule is registered under its key. */
  function DefaultParts(op: AlgebraOperation, left: Subject, right: Subject): SubjectParts
    requires !op.Transform?
  {
    match op
    case Sequence =>
      SubjectParts(left.Context() + "-" + right.Context(), left.Aggregate() + "-" + right.Aggregate(), "sequenced", "v1")
    case Parallel =>
      SubjectParts(left.Context() + "+" + right.Context(), left.Aggregate() + "+" + right.Aggregate(), "parallel", "v1")
    case Choice(cond) =>
      SubjectParts(left.Context(), left.Aggregate() + "|" + right.Aggregate(), "choice_" + cond, "v1")
    case Project(fields) =>
      SubjectParts(left.Context(), left.Aggregate(), "projected_" + Join(fields, "_"), left.Version())
    case Inject(ctx) =>
      SubjectParts(ctx, left.Aggregate(), left.EventType(), left.Version())
  }

  /** `Transformation::apply`: the input pattern guards the closure. */
  function Apply(t: Transformation, x: Subject): (r: Result<Subject, SubjectError>)
    ensures !Matches(t.inputPattern, x) ==> r == Err(ValidationError)
    ensures Matches(t.inputPattern, x) ==> r == t.transform(x)
    ensures r.Ok? ==> Matches(t.inputPattern, x)
  {
    if !Matches(t.inputPattern, x) then Err(ValidationError)
    else t.transform(x)
  }

  /** `SubjectAlgebra::transform`: look the name up, then apply. */
  function TransformOp(alg: SubjectAlgebra, x: Subject, name: string): (r: Result<Subject, SubjectError>)
    ensures name !in alg.transformations ==> r == Err(NotFound)
    ensures name in alg.transformations ==> r == Apply(alg.transformations[name], x)
  {
    if name !in alg.transformations then Err(NotFound)
    else Apply(alg.transformations[name], x)
  }

  /**
   * `SubjectAlgebra::compose`: a rule stored under the operation's key wins
   * (Project and Inject hand it the left subject twice); otherwise the
   * default parts, which `from_parts` does not validate.
   */
  function Compose(alg: SubjectAlgebra, left: Subject, right: Subject, op: AlgebraOperation): (r: Result<Subject, SubjectError>)
    ensures op.Transform? ==> r == TransformOp(alg, left, op.name)
    ensures !op.Transform? && RuleKey(op, left, right).value in alg.rules ==>
      var c := alg.rules[RuleKey(op, left, right).value].composer;
      r == (if op.Project? || op.Inject? then c(left, left) else c(left, right))
    ensures !op.Transform? && RuleKey(op, left, right).value !in alg.rules ==>
      r.Ok? && r.value.parts == DefaultParts(op, left, right) && r.value.raw == ToSubject(r.value.parts)
  {
    match op
    case Transform(name) => TransformOp(alg, left, name)
    case _ =>
      var key := RuleKey(op, left, right).value;
      if key in alg.rules then
        var c := alg.rules[key].composer;
        if op.Project? || op.Inject? then c(left, left) else c(left, right)
      else
        Ok(FromParts(DefaultParts(op, left, right)))
  }

  /** A Transform composition ignores its right operand. */
  lemma TransformIgnoresRight(alg: SubjectAlgebra, left: Subject, r1: Subject, r2: Subject, name: string)
    ensures Compose(alg, left, r1, Transform(name)) == Compose(alg, left, r2, Transform(name))
    ensures name !in alg.transformations ==> Compose(alg, left, r1, Transform(name)) == Err(NotFound)
  {
  }

  /** Project and Inject ignore their right operand too: rules receive the left subject twice. */
  lemma ProjectInjectIgnoreRight(alg: SubjectAlgebra, left: Subject, r1: Subject, r2: Subject, op: AlgebraOperation)
    requires op.Project? || op.Inject?
    ensures Compose(alg, left, r1, op) == Compose(alg, left, r2, op)
  {
  }

  /** Without rules, sequencing valid subjects yields a valid subject ('-' is a token character). */
  lemma SequenceDefaultReparses(left: Subject, right: Subject)
    requires ValidParts(left.parts) && ValidParts(right.parts)
    ensures var r := Compose(NewAlgebra(), left, right, Sequence);
      r.Ok? && NewSubject(r.value.raw) == r
  {
    var p := DefaultParts(Sequence, left, right);
    assert IsToken(p.context) && IsToken(p.aggregate);
    assert IsToken("sequenced") && IsToken("v1");
    FromPartsReparses(p);
  }

  /** Default Parallel and Choice results never re-parse: '+' and '|' are not token characters. */
  lemma ParallelChoiceDefaultsDoNotReparse(left: Subject, right: Subject, cond: string)
    ensures Compose(NewAlgebra(), left, right, Parallel).Ok?
    ensures NewSubject(Compose(NewAlgebra(), left, right, Parallel).value.raw).Err?
    ensures Compose(NewAlgebra(), left, right, Choice(cond)).Ok?
    ensures NewSubject(Compose(NewAlgebra(), left, right, Choice(cond)).value.raw).Err?
  {
    var pp := DefaultParts(Parallel, left, right);
    assert pp.context[|left.Context()|] == '+';
    assert !IsToken(pp.context);
    var pc := DefaultParts(Choice(cond), left, right);
    assert pc.aggregate[|left.Aggregate()|] == '|';
    assert !IsToken(pc.aggregate);
  }

  /** Default Inject re-parses exactly when the new context is a valid token (for a valid input). */
  lemma InjectDefaultReparses(x: Subject, ctx: string)
    requires ValidParts(x.parts)
    ensures var r := Compose(NewAlgebra(), x, x, Inject(ctx));
      r.Ok? && (NewSubject(r.value.raw).Ok? <==> IsToken(ctx))
  {
  }

  /** Default Project re-parses exactly when every projected field is made of token characters. */
  lemma ProjectDefaultReparses(x: Subject, fields: seq<string>)
    requires ValidParts(x.parts)
    ensures var r := Compose(NewAlgebra(), x, x, Project(fields));
      r.Ok? && (NewSubject(r.value.raw).Ok? <==> AllTokenChars(Join(fields, "_")))
  {
    var e := "projected_" + Join(fields, "_");
    assert IsToken(e) <==> AllTokenChars(Join(fields, "_")) by {
      assert forall i :: 0 <= i < |Join(fields, "_")| ==> e[10 + i] == Join(fields, "_")[i];
      if AllTokenChars(Join(fields, "_")) {
        forall i | 0 <= i < |e|
          ensures IsTokenChar(e[i])
        {
          if i >= 10 {
            assert e[i] == Join(fields, "_")[i - 10];
          }
        }
      }
    }
  }

  /** `x + "+" + y == y + "+" + x` for '+'-free halves only when they are equal. */
  lemma PlusSwapEqual(x: string, y: string)
    requires '+' !in x && '+' !in y
    requires x + "+" + y == y + "+" + x
    ensures x == y
  {
    var s, t := x + "+" + y, y + "+" + x;
    assert forall i :: 0 <= i < |y| ==> t[i] == y[i] && y[i] != '+';
    assert forall i :: 0 <= i < |x| ==> s[i] == x[i] && x[i] != '+';
    assert s[|x|] == '+' && t[|y|] == '+';
    assert |x| == |y|;
    assert x == s[..|x|] == t[..|x|] == y;
  }

  /**
   * Parallel composition is order-sensitive: swapping the operands swaps the
   * halves, so for token contexts the result contexts agree only when the
   * two contexts are equal.
   */
  lemma ParallelOrderSensitive(a: Subject, b: Subject)
    requires IsToken(a.Context()) && IsToken(b.Context())
    ensures Compose(NewAlgebra(), a, b, Parallel).value.Context() == a.Context() + "+" + b.Context()
    ensures Compose(NewAlgebra(), b, a, Parallel).value.Context() == b.Context() + "+" + a.Context()
    ensures Compose(NewAlgebra(), a, b, Parallel).value.Context() == Compose(NewAlgebra(), b, a, Parallel).value.Context()
      <==> a.Context() == b.Context()
  {
    var x, y := a.Context(), b.Context();
    if x + "+" + y == y + "+" + x {
      TokenHasPlus(x);
      TokenHasPlus(y);
      PlusSwapEqual(x, y);
    }
  }

  lemma TokenHasPlus(s: string)
    requires AllTokenChars(s)
    ensures '+' !in s
  {
  }

  /** `find_matching`: the subjects the pattern matches, in input order. */
  function FindMatching(p: Pattern, subjects: seq<Subject>): (r: seq<Subject>)
    ensures forall x :: x in r <==> x in subjects && Matches(p, x)
    ensures |r| <= |subjects|
  {
    Filter((x: Subject) => Matches(p, x), subjects)
  }

  /** The search distributes over concatenation, so it preserves the input order. */
  lemma FindMatchingConcat(p: Pattern, xs: seq<Subject>, ys: seq<Subject>)
    ensures FindMatching(p, xs + ys) == FindMatching(p, xs) + FindMatching(p, ys)
  {
    FilterConcat((x: Subject) => Matches(p, x), xs, ys);
  }

  // ---------------------------------------------------------------------------
  // SubjectLattice
  // ---------------------------------------------------------------------------

  /** `SubjectLattice`: the subjects and the computed (less, greater) index pairs. */
  datatype SubjectLattice = SubjectLattice(subjects: seq<Subject>, ordering: seq<(nat, nat)>)

  /** `is_less_specific` on the two subjects: same context, and `*` or `changed` generalises. */
  predicate IsLessSpecific(a: Subject, b: Subject) {
    && a.Context() == b.Context()
    && (|| a.EventType() == "*"
        || (a.EventType() == "changed" && (b.EventType() == "created" || b.EventType() == "updated" || b.EventType() == "deleted")))
  }

  /** Pair (i, j) belongs in the ordering of `subjects`. */
  predicate Ordered(subjects: seq<Subject>, i: nat, j: nat) {
    i < |subjects| && j < |subjects| && i != j && IsLessSpecific(subjects[i], subjects[j])
  }

  /** `compute_ordering`: every ordered pair of distinct indices, row by row. */
  method ComputeOrdering(subjects: seq<Subject>) returns (ordering: seq<(nat, nat)>)
    ensures forall p :: p in ordering <==> Ordered(subjects, p.0, p.1)
  {
    ordering := [];
    var i := 0;
    while i < |subjects|
      invariant 0 <= i <= |subjects|
      invariant forall p :: p in ordering <==> Ordered(subjects, p.0, p.1) && p.0 < i
    {
      var j := 0;
      while j < |subjects|
        invariant 0 <= j <= |subjects|
        invariant forall p :: p in ordering <==> Ordered(subjects, p.0, p.1) && (p.0 < i || (p.0 == i && p.1 < j))
      {
        if i != j && IsLessSpecific(subjects[i], subjects[j]) {
          ordering := ordering + [(i, j)];
        }
        j := j + 1;
      }
      i := i + 1;
    }
  }

  /** `SubjectLattice::new`. */
  method NewLattice(subjects: seq<Subject>) returns (l: SubjectLattice)
    ensures l.subjects == subjects
    ensures forall p :: p in l.ordering <==> Ordered(subjects, p.0, p.1)
  {
    var ordering := ComputeOrdering(subjects);
    l := SubjectLattice(subjects, ordering);
  }

  /** The ordering a lattice built by `new` holds. */
  ghost predicate Computed(l: SubjectLattice) {
    forall p :: p in l.ordering <==> Ordered(l.subjects, p.0, p.1)
  }

  /** `is_ancestor`: the pair is recorded in the ordering. */
  predicate IsAncestor(l: SubjectLattice, a: nat, b: nat) {
    (a, b) in l.ordering
  }

  /** `iter().position(|s| s == x)`. */
  function Position(xs: seq<Subject>, x: Subject): (r: Option<nat>)
    ensures r.None? <==> x !in xs
    ensures r.Some? ==> r.value < |xs| && xs[r.value] == x && forall k :: 0 <= k < r.value ==> xs[k] != x
  {
    if |xs| == 0 then None
    else if xs[0] == x then Some(0)
    else match Position(xs[1..], x)
      case None => None
      case Some(k) => Some(k + 1)
  }

  /** The first index from `i` on that both `a` and `b` are recorded below. */
  function FirstCommonAbove(l: SubjectLattice, a: nat, b: nat, i: nat): (r: Option<nat>)
    requires i <= |l.subjects|
    ensures r.Some? ==> i <= r.value < |l.subjects| && IsAncestor(l, a, r.value) && IsAncestor(l, b, r.value)
    ensures r.Some? ==> forall k :: i <= k < r.value ==> !(IsAncestor(l, a, k) && IsAncestor(l, b, k))
    ensures r.None? ==> forall k :: i <= k < |l.subjects| ==> !(IsAncestor(l, a, k) && IsAncestor(l, b, k))
    decreases |l.subjects| - i
  {
    if i == |l.subjects| then None
    else if IsAncestor(l, a, i) && IsAncestor(l, b, i) then Some(i)
    else FirstCommonAbove(l, a, b, i + 1)
  }

  /**
   * `SubjectLattice::join`: `None` unless both operands occur; then the first
   * subject recorded above both, if any. It is not a least upper bound.
   */
  function LatticeJoin(l: SubjectLattice, a: Subject, b: Subject): (r: Option<Subject>)
    ensures a !in l.subjects || b !in l.subjects ==> r.None?
    ensures r.Some? ==> a in l.subjects && b in l.subjects
    ensures r.Some? ==> exists k :: JoinWitness(l, a, b, k, r.value)
    ensures a in l.subjects && b in l.subjects && r.None? ==>
      forall k :: 0 <= k < |l.subjects| ==> !BothBelow(l, a, b, k)
  {
    match (Position(l.subjects, a), Position(l.subjects, b))
    case (Some(ia), Some(ib)) =>
      (match FirstCommonAbove(l, ia, ib, 0)
       case Some(k) => assert JoinWitness(l, a, b, k, l.subjects[k]); Some(l.subjects[k])
       case None => None)
    case _ => None
  }

  /** Index k is recorded above the first positions of both `a` and `b`. */
  predicate BothBelow(l: SubjectLattice, a: Subject, b: Subject, k: nat)
    requires a in l.subjects && b in l.subjects
  {
    IsAncestor(l, Position(l.subjects, a).value, k) && IsAncestor(l, Position(l.subjects, b).value, k)
  }

  /** Index k holds `j` and is the first index recorded above both `a` and `b`. */
  predicate JoinWitness(l: SubjectLattice, a: Subject, b: Subject, k: nat, j: Subject)
    requires a in l.subjects && b in l.subjects
  {
    && k < |l.subjects| && l.subjects[k] == j && BothBelow(l, a, b, k)
    && forall i :: 0 <= i < k ==> !BothBelow(l, a, b, i)
  }

  /** The search is symmetric in its two indices. */
  lemma {:induction false} FirstCommonAboveSymmetric(l: SubjectLattice, a: nat, b: nat, i: nat)
    requires i <= |l.subjects|
    ensures FirstCommonAbove(l, a, b, i) == FirstCommonAbove(l, b, a, i)
    decreases |l.subjects| - i
  {
    if i < |l.subjects| {
      FirstCommonAboveSymmetric(l, a, b, i + 1);
    }
  }

  /** `join` is commutative. */
  lemma LatticeJoinCommutative(l: SubjectLattice, a: Subject, b: Subject)
    ensures LatticeJoin(l, a, b) == LatticeJoin(l, b, a)
  {
    if a in l.subjects && b in l.subjects {
      FirstCommonAboveSymmetric(l, Position(l.subjects, a).value, Position(l.subjects, b).value, 0);
    }
  }

  /** In a computed lattice a join shares the operands' context and sits strictly above both. */
  lemma LatticeJoinAbove(l: SubjectLattice, a: Subject, b: Subject)
    requires Computed(l)
    requires LatticeJoin(l, a, b).Some?
    ensures var j := LatticeJoin(l, a, b).value;
      IsLessSpecific(a, j) && IsLessSpecific(b, j) && j.Context() == a.Context() == b.Context()
  {
    var k :| JoinWitness(l, a, b, k, LatticeJoin(l, a, b).value);
    assert Ordered(l.subjects, Position(l.subjects, a).value, k);
    assert Ordered(l.subjects, Position(l.subjects, b).value, k);
  }

  /** Unlike a least upper bound, `join(a, a)` is never `a` in a computed lattice of distinct subjects. */
  lemma LatticeJoinNotIdempotent(l: SubjectLattice, a: Subject)
    requires Computed(l)
    requires forall i, j :: 0 <= i < j < |l.subjects| ==> l.subjects[i] != l.subjects[j]
    ensures LatticeJoin(l, a, a) != Some(a)
  {
    if a in l.subjects {
      var ia := Position(l.subjects, a).value;
      forall k: nat | k < |l.subjects| && l.subjects[k] == a
        ensures !IsAncestor(l, ia, k)
      {
        assert k == ia;
        assert !Ordered(l.subjects, ia, k);
      }
      assert forall k: nat :: !JoinWitness(l, a, a, k, a);
    }
  }

  /** The computed ordering is transitive between distinct indices. */
  lemma OrderingTransitive(l: SubjectLattice, i: nat, j: nat, k: nat)
    requires Computed(l)
    requires IsAncestor(l, i, j) && IsAncestor(l, j, k) && i != k
    ensures IsAncestor(l, i, k)
  {
    assert Ordered(l.subjects, i, j) && Ordered(l.subjects, j, k);
    assert Ordered(l.subjects, i, k);
  }

  /** It is not antisymmetric: two `*` subjects of one context are each below the other. */
  lemma OrderingNotAntisymmetric(l: SubjectLattice, i: nat, j: nat)
    requires Computed(l)
    requires i < |l.subjects| && j < |l.subjects| && i != j
    requires l.subjects[i].EventType() == "*" && l.subjects[j].EventType() == "*"
    requires l.subjects[i].Context() == l.subjects[j].Context()
    ensures IsAncestor(l, i, j) && IsAncestor(l, j, i)
  {
    assert Ordered(l.subjects, i, j) && Ordered(l.subjects, j, i);
  }
}
