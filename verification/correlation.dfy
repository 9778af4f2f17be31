/**
 * Message identities of src/correlation.rs: every message carries its own
 * id, the id of the conversation it belongs to (correlation) and the id of
 * the message that caused it (causation). A root message is its own
 * correlation and causation; a caused message inherits its parent's
 * correlation and names the parent as its cause.
 *
 * UUIDs and CIDs are opaque values here: only their equality matters, so
 * each is a natural number. Their textual form is a parameter.
 */
module Correlation {
  import opened Results

  /** `IdType`: a UUID for commands and queries, a content id for events. */
  datatype IdType = Uuid(uuid: nat) | Cid(cid: nat)

  /** `CorrelationId`. */
  datatype CorrelationId = CorrelationId(id: IdType)

  /** `CausationId`. */
  datatype CausationId = CausationId(id: IdType)

  /** `MessageIdentity`. */
  datatype MessageIdentity = MessageIdentity(messageId: IdType, correlationId: CorrelationId, causationId: CausationId)

  /** `MessageIdentity::root`: self-correlated and self-caused. */
  function Root(id: IdType): (m: MessageIdentity)
    ensures m.messageId == id && m.correlationId.id == id && m.causationId.id == id
  {
    MessageIdentity(id, CorrelationId(id), CausationId(id))
  }

  /** `MessageIdentity::caused_by`: the parent's correlation, the parent as cause. */
  function CausedBy(id: IdType, parentCorrelation: CorrelationId, parentId: IdType): (m: MessageIdentity)
    ensures m.messageId == id && m.correlationId == parentCorrelation && m.causationId.id == parentId
  {
    MessageIdentity(id, parentCorrelation, CausationId(parentId))
  }

  /**
   * `MessageIdentity::is_root`: the three ids are of one variant and equal;
   * a triple that mixes UUIDs and CIDs is never a root.
   */
  function IsRoot(m: MessageIdentity): (b: bool)
    ensures b <==> m == Root(m.messageId)
  {
    match (m.messageId, m.correlationId.id, m.causationId.id)
    case (Uuid(msg), Uuid(corr), Uuid(caus)) => msg == corr && msg == caus
    case (Cid(msg), Cid(corr), Cid(caus)) => msg == corr && msg == caus
    case _ => false
  }

  /** A root identity is a root, and a child whose id differs from its parent's is not. */
  lemma RootAndCaused(id: IdType, parent: MessageIdentity)
    ensures IsRoot(Root(id))
    ensures id != parent.messageId ==> !IsRoot(CausedBy(id, parent.correlationId, parent.messageId))
  {
  }

  // ---------------------------------------------------------------------------
  // Headers
  // ---------------------------------------------------------------------------

  /**
   * `to_nats_headers`, given the textual form `show` of an id: the message,
   * correlation and causation headers, in that order; the correlation and
   * causation values carry the `correlation:` and `causation:` prefixes of
   * their `Display` forms.
   */
  function ToNatsHeaders(m: MessageIdentity, show: IdType -> string): (r: seq<(string, string)>)
    ensures |r| == 3
    ensures r[0].0 == "X-Message-ID" && r[1].0 == "X-Correlation-ID" && r[2].0 == "X-Causation-ID"
    ensures r[0].1 == show(m.messageId)
  {
    [("X-Message-ID", show(m.messageId)),
     ("X-Correlation-ID", "correlation:" + show(m.correlationId.id)),
     ("X-Causation-ID", "causation:" + show(m.causationId.id))]
  }

  /**
   * The three header names are distinct, and a root message's correlation and
   * causation headers repeat its message id behind their prefixes.
   */
  lemma RootHeaders(id: IdType, show: IdType -> string)
    ensures var h := ToNatsHeaders(Root(id), show);
      && h[0].0 != h[1].0 && h[1].0 != h[2].0 && h[0].0 != h[2].0
      && h[1].1 == "correlation:" + h[0].1
      && h[2].1 == "causation:" + h[0].1
  {
    var h := ToNatsHeaders(Root(id), show);
    assert h[0].0[2] == 'M' && h[1].0[2] == 'C' && h[1].0[3] == 'o' && h[2].0[3] == 'a';
  }

  // ---------------------------------------------------------------------------
  // MessageFactory
  // ---------------------------------------------------------------------------

  /** `create_root_command` and `create_root_query`: a root with a UUID. */
  function RootCommand(u: nat): (m: MessageIdentity)
    ensures IsRoot(m) && m.messageId == Uuid(u)
  {
    Root(Uuid(u))
  }

  /** `create_root_event`: a root with a content id. */
  function RootEvent(c: nat): (m: MessageIdentity)
    ensures IsRoot(m) && m.messageId == Cid(c)
  {
    Root(Cid(c))
  }

  /**
   * `command_from_command`, `command_from_query`, `command_from_event`,
   * `query_from_command`, `query_from_query` and `query_from_event`: a
   * UUID-identified message caused by the parent, whatever the parent's kind.
   */
  function CommandOrQueryFrom(u: nat, parent: MessageIdentity): (m: MessageIdentity)
    ensures m.messageId == Uuid(u)
    ensures m.correlationId == parent.correlationId && m.causationId.id == parent.messageId
    ensures Uuid(u) != parent.messageId ==> !IsRoot(m)
  {
    CausedBy(Uuid(u), parent.correlationId, parent.messageId)
  }

  /** `event_from_command`, `event_from_query`, `event_from_event`: the same with a content id. */
  function EventFrom(c: nat, parent: MessageIdentity): (m: MessageIdentity)
    ensures m.messageId == Cid(c)
    ensures m.correlationId == parent.correlationId && m.causationId.id == parent.messageId
    ensures Cid(c) != parent.messageId ==> !IsRoot(m)
  {
    CausedBy(Cid(c), parent.correlationId, parent.messageId)
  }

  /** Every descendant of a root shares the root's correlation, however many generations down. */
  lemma {:induction false} DescendantsShareCorrelation(root: MessageIdentity, ids: seq<IdType>)
    requires IsRoot(root)
    ensures DescendFrom(root, ids).correlationId.id == root.messageId
    decreases |ids|
  {
    if |ids| > 0 {
      DescendantsShareCorrelation(root, ids[..|ids| - 1]);
    }
  }

  /** The message reached from `m` by causing one message per id in `ids`, in order. */
  function DescendFrom(m: MessageIdentity, ids: seq<IdType>): MessageIdentity
    decreases |ids|
  {
    if |ids| == 0 then m
    else CausedBy(ids[|ids| - 1], DescendFrom(m, ids[..|ids| - 1]).correlationId, DescendFrom(m, ids[..|ids| - 1]).messageId)
  }

  // ---------------------------------------------------------------------------
  // CorrelationValidator
  // ---------------------------------------------------------------------------

  /** `CorrelationValidator`. */
  datatype CorrelationValidator = CorrelationValidator(maxChainDepth: nat)

  /** `CorrelationValidator::default`: chains of at most 100 messages. */
  function DefaultValidator(): (v: CorrelationValidator)
    ensures v.maxChainDepth == 100
  {
    CorrelationValidator(100)
  }

  /**
   * `CorrelationValidator::validate`: roots pass; a non-root fails exactly
   * when it names itself as its cause. Partially self-referencing triples
   * (say, correlation equal to the message id) pass.
   */
  function ValidateIdentity(v: CorrelationValidator, m: MessageIdentity): (r: Result<(), CorrelationError>)
    ensures r.Ok? <==> IsRoot(m) || m.messageId != m.causationId.id
    ensures r.Err? ==> r.error == InvalidIdentity
  {
    if IsRoot(m) then Ok(())
    else
      match (m.messageId, m.causationId.id)
      case (Uuid(msg), Uuid(caus)) => if msg == caus then Err(InvalidIdentity) else Ok(())
      case (Cid(msg), Cid(caus)) => if msg == caus then Err(InvalidIdentity) else Ok(())
      case _ => Ok(())
  }

  /** Everything the factories make passes validation, provided a child's id is fresh. */
  lemma FactoriesValidate(v: CorrelationValidator, u: nat, c: nat, parent: MessageIdentity)
    ensures ValidateIdentity(v, RootCommand(u)).Ok? && ValidateIdentity(v, RootEvent(c)).Ok?
    ensures Uuid(u) != parent.messageId ==> ValidateIdentity(v, CommandOrQueryFrom(u, parent)).Ok?
    ensures Cid(c) != parent.messageId ==> ValidateIdentity(v, EventFrom(c, parent)).Ok?
  {
  }

  /** No message id occurs twice. */
  predicate NoRepeatedIds(chain: seq<MessageIdentity>) {
    forall i, j :: 0 <= i < j < |chain| ==> chain[i].messageId != chain[j].messageId
  }

  /**
   * `CorrelationValidator::check_cycles`: a chain longer than the limit, or
   * one in which a message id repeats, is reported as cyclic.
   */
  method CheckCycles(v: CorrelationValidator, chain: seq<MessageIdentity>) returns (r: Result<(), CorrelationError>)
    ensures r.Ok? <==> |chain| <= v.maxChainDepth && NoRepeatedIds(chain)
    ensures r.Err? ==> r.error == CyclicCausation
  {
    if |chain| > v.maxChainDepth {
      return Err(CyclicCausation);
    }
    var seen: set<IdType> := {};
    var i := 0;
    while i < |chain|
      invariant 0 <= i <= |chain|
      invariant seen == set k | 0 <= k < i :: chain[k].messageId
      invariant NoRepeatedIds(chain[..i])
    {
      if chain[i].messageId in seen {
        ghost var k :| 0 <= k < i && chain[k].messageId == chain[i].messageId;
        assert !NoRepeatedIds(chain) by {
          assert chain[k].messageId == chain[i].messageId;
        }
        return Err(CyclicCausation);
      }
      seen := seen + {chain[i].messageId};
      i := i + 1;
    }
    assert chain[..i] == chain;
    return Ok(());
  }
}
