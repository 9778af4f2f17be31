/**
 * Correlation chains of src/message_algebra.rs: the messages of one
 * conversation keyed by id, with the causation relation stored both ways
 * (child to parent, parent to children), and the operations on them:
 * walking back to the root, cycle detection, depth, merging, common
 * ancestors and distance.
 *
 * `CorrelationChain`'s mutating methods are functions returning the new
 * chain. Hash-map iteration orders are parameters. The walks of the source
 * loop forever on a cyclic chain; here they carry fuel (the number of
 * messages), and the lemmas show the fuel suffices on every chain built
 * from fresh ids (`Ranked`).
 */
module MessageAlgebra {
  import opened Results
  import opened Seqs
  import opened Correlation

  /** `CorrelationChain`. */
  datatype CorrelationChain = CorrelationChain(
    root: MessageIdentity,
    messages: map<IdType, MessageIdentity>,
    causationGraph: map<IdType, IdType>,
    causedMessages: map<IdType, seq<IdType>>)

  /** `CorrelationChain::new`: only a root can start a chain. */
  function NewChain(root: MessageIdentity): (r: Result<CorrelationChain, CorrelationError>)
    ensures r.Ok? <==> IsRoot(root)
    ensures r.Err? ==> r.error == InvalidIdentity
    ensures r.Ok? ==> r.value.root == root && r.value.messages == map[root.messageId := root]
    ensures r.Ok? ==> r.value.causationGraph == map[] && r.value.causedMessages == map[]
  {
    if !IsRoot(root) then Err(InvalidIdentity)
    else Ok(CorrelationChain(root, map[root.messageId := root], map[], map[]))
  }

  /** The recorded children of `id`, in the order they were added. */
  function Children(c: CorrelationChain, id: IdType): seq<IdType> {
    if id in c.causedMessages then c.causedMessages[id] else []
  }

  /**
   * `CorrelationChain::add_message`: the correlation must be the chain's, and
   * a non-root must name a cause already in the chain; its edges are then
   * recorded both ways. An id already present is overwritten.
   */
  function AddMessage(c: CorrelationChain, m: MessageIdentity): (r: Result<CorrelationChain, CorrelationError>)
    ensures r.Ok? <==> m.correlationId == c.root.correlationId && (IsRoot(m) || m.causationId.id in c.messages)
    ensures r.Err? ==> r.error == InvalidIdentity
    ensures r.Ok? ==> r.value.root == c.root && r.value.messages == c.messages[m.messageId := m]
    ensures r.Ok? && IsRoot(m) ==> r.value.causationGraph == c.causationGraph && r.value.causedMessages == c.causedMessages
    ensures r.Ok? && !IsRoot(m) ==> r.value.causationGraph == c.causationGraph[m.messageId := m.causationId.id]
    ensures r.Ok? && !IsRoot(m) ==>
      r.value.causedMessages == c.causedMessages[m.causationId.id := Children(c, m.causationId.id) + [m.messageId]]
  {
    if m.correlationId != c.root.correlationId then Err(InvalidIdentity)
    else if IsRoot(m) then Ok(c.(messages := c.messages[m.messageId := m]))
    else
      var parent := m.causationId.id;
      if parent !in c.messages then Err(InvalidIdentity)
      else
        Ok(c.(causationGraph := c.causationGraph[m.messageId := parent],
              causedMessages := c.causedMessages[parent := Children(c, parent) + [m.messageId]],
              messages := c.messages[m.messageId := m]))
  }

  /**
   * The two invariants every successful `add_message` keeps, whatever the
   * ids: all messages share the root's correlation, and every child-to-parent
   * edge ends at a stored message.
   */
  predicate Consistent(c: CorrelationChain) {
    && (forall k :: k in c.messages ==> c.messages[k].correlationId == c.root.correlationId)
    && (forall k :: k in c.causationGraph ==> c.causationGraph[k] in c.messages)
  }

  lemma NewChainConsistent(root: MessageIdentity)
    requires IsRoot(root)
    ensures Consistent(NewChain(root).value)
  {
  }

  lemma AddMessageKeepsConsistent(c: CorrelationChain, m: MessageIdentity)
    requires Consistent(c) && AddMessage(c, m).Ok?
    ensures Consistent(AddMessage(c, m).value)
  {
  }

  /** `get_parent`: the stored message the child-to-parent edge of `id` leads to. */
  function GetParent(c: CorrelationChain, id: IdType): (r: Option<MessageIdentity>)
    ensures r.Some? <==> id in c.causationGraph && c.causationGraph[id] in c.messages
    ensures r.Some? ==> r.value == c.messages[c.causationGraph[id]]
  {
    if id in c.causationGraph && c.causationGraph[id] in c.messages then Some(c.messages[c.causationGraph[id]])
    else None
  }

  /** The stored messages among `ids`, in order: `filter_map(|id| messages.get(id))`. */
  function Stored(c: CorrelationChain, ids: seq<IdType>): (r: seq<MessageIdentity>)
    ensures |r| <= |ids|
    ensures forall m :: m in r <==> exists i :: 0 <= i < |ids| && ids[i] in c.messages && c.messages[ids[i]] == m
    decreases |ids|
  {
    if |ids| == 0 then []
    else
      var rest := Stored(c, ids[1..]);
      assert forall i :: 1 <= i < |ids| ==> ids[i] == ids[1..][i - 1];
      if ids[0] in c.messages then [c.messages[ids[0]]] + rest else rest
  }

  /** Every id stored gives its message, in order. */
  lemma {:induction false} StoredAll(c: CorrelationChain, ids: seq<IdType>)
    requires forall i :: 0 <= i < |ids| ==> ids[i] in c.messages
    ensures |Stored(c, ids)| == |ids|
    ensures forall i :: 0 <= i < |ids| ==> Stored(c, ids)[i] == c.messages[ids[i]]
    decreases |ids|
  {
    if |ids| > 0 {
      StoredAll(c, ids[1..]);
    }
  }

  /** `get_caused_by`: the stored messages recorded as caused by `id`. */
  function GetCausedBy(c: CorrelationChain, id: IdType): (r: seq<MessageIdentity>)
    ensures |r| <= |Children(c, id)|
    ensures forall m :: m in r <==>
      exists i :: 0 <= i < |Children(c, id)| && Children(c, id)[i] in c.messages && c.messages[Children(c, id)[i]] == m
  {
    Stored(c, Children(c, id))
  }

  // ---------------------------------------------------------------------------
  // Walking back to the root
  // ---------------------------------------------------------------------------

  /** `child` is not a root, and `parent` is the stored message it names as its cause. */
  predicate CausedStep(c: CorrelationChain, child: MessageIdentity, parent: MessageIdentity) {
    !IsRoot(child) && child.causationId.id in c.messages && parent == c.messages[child.causationId.id]
  }

  /** A walk from a message back to a root: each entry caused by the next, the last a root. */
  predicate IsWalk(c: CorrelationChain, w: seq<MessageIdentity>) {
    && |w| >= 1 && IsRoot(w[|w| - 1])
    && forall i :: 0 <= i < |w| - 1 ==> CausedStep(c, w[i], w[i + 1])
  }

  /** A path from a root down to a message: the first a root, each entry caused by the one before. */
  predicate IsPath(c: CorrelationChain, p: seq<MessageIdentity>) {
    && |p| >= 1 && IsRoot(p[0])
    && forall i :: 1 <= i < |p| ==> CausedStep(c, p[i], p[i - 1])
  }

  /**
   * The loop of `get_path_to`, from `id` back to the first root met: an id
   * not in the chain is a broken chain. With no fuel left the source would
   * be going round a cycle; that is reported as `CyclicCausation`.
   */
  function WalkBack(c: CorrelationChain, id: IdType, fuel: nat): (r: Result<seq<MessageIdentity>, CorrelationError>)
    ensures r.Ok? ==> id in c.messages && IsWalk(c, r.value) && r.value[0] == c.messages[id]
    ensures r.Ok? ==> |r.value| <= fuel + 1
    ensures r.Err? ==> r.error == InvalidIdentity || r.error == CyclicCausation
    decreases fuel
  {
    if id !in c.messages then Err(InvalidIdentity)
    else
      var m := c.messages[id];
      if IsRoot(m) then Ok([m])
      else if fuel == 0 then Err(CyclicCausation)
      else
        var rest :- WalkBack(c, m.causationId.id, fuel - 1);
        assert forall i :: 1 <= i < |rest| + 1 ==> ([m] + rest)[i] == rest[i - 1];
        Ok([m] + rest)
  }

  /** Read backwards, a walk to a root is a path from it. */
  lemma ReversedWalkIsPath(c: CorrelationChain, w: seq<MessageIdentity>)
    requires IsWalk(c, w)
    ensures IsPath(c, Reverse(w))
  {
    var p := Reverse(w);
    forall i | 1 <= i < |p|
      ensures CausedStep(c, p[i], p[i - 1])
    {
      assert p[i] == w[|w| - 1 - i] && p[i - 1] == w[|w| - 1 - i + 1];
    }
  }

  /**
   * `get_path_to`: the messages from a root down to `id`, each caused by the
   * one before it; an unknown id is an error.
   */
  function GetPathTo(c: CorrelationChain, id: IdType): (r: Result<seq<MessageIdentity>, CorrelationError>)
    ensures id !in c.messages ==> r == Err(InvalidIdentity)
    ensures r.Ok? ==> IsPath(c, r.value) && r.value[|r.value| - 1] == c.messages[id]
    ensures r.Err? ==> r.error == InvalidIdentity || r.error == CyclicCausation
  {
    if id !in c.messages then Err(InvalidIdentity)
    else
      var w :- WalkBack(c, id, |c.messages|);
      ReversedWalkIsPath(c, w);
      Ok(Reverse(w))
  }

  // ---------------------------------------------------------------------------
  // Chains built from fresh ids
  // ---------------------------------------------------------------------------

  /** The id a stored message names as its cause. */
  function CauseOf(c: CorrelationChain, k: IdType): IdType
    requires k in c.messages
  {
    c.messages[k].causationId.id
  }

  /** `k` is a stored non-root whose cause is stored one generation up, with both edges recorded. */
  predicate HasParent(c: CorrelationChain, rank: map<IdType, nat>, k: IdType) {
    && k in c.messages && k in rank
    && CauseOf(c, k) in c.messages && CauseOf(c, k) in rank && rank[k] == rank[CauseOf(c, k)] + 1
    && k in Children(c, CauseOf(c, k))
    && k in c.causationGraph && c.causationGraph[k] == CauseOf(c, k)
  }

  /** `k`, recorded as a child of `p`, is a stored non-root caused by `p`. */
  predicate IsChild(c: CorrelationChain, p: IdType, k: IdType) {
    k in c.messages && !IsRoot(c.messages[k]) && c.messages[k].causationId.id == p
  }

  /** Every stored message is keyed by its id, is of the chain's conversation and has a generation. */
  predicate MessagesRanked(c: CorrelationChain, rank: map<IdType, nat>) {
    && IsRoot(c.root)
    && c.root.messageId in c.messages && c.messages[c.root.messageId] == c.root
    && (forall k :: k in c.messages ==> k in rank && rank[k] < |c.messages|)
    && (forall k :: k in c.messages ==> c.messages[k].messageId == k && c.messages[k].correlationId == c.root.correlationId)
    && (forall k :: k in c.messages && IsRoot(c.messages[k]) ==> rank[k] == 0)
  }

  predicate ParentsRecorded(c: CorrelationChain, rank: map<IdType, nat>) {
    forall k {:trigger HasParent(c, rank, k)} :: k in c.messages && !IsRoot(c.messages[k]) ==> HasParent(c, rank, k)
  }

  predicate ChildrenRecorded(c: CorrelationChain) {
    forall p, i :: p in c.causedMessages && 0 <= i < |c.causedMessages[p]| ==> IsChild(c, p, c.causedMessages[p][i])
  }

  predicate EdgesFromNonRoots(c: CorrelationChain) {
    forall k :: k in c.causationGraph ==> k in c.messages && !IsRoot(c.messages[k])
  }

  /**
   * The shape of every chain that `new` and `add_message` build when each
   * added id is new: `rank` numbers the generations (the root is 0, a child
   * one more than its cause), and the stored relations agree.
   */
  predicate Ranked(c: CorrelationChain, rank: map<IdType, nat>) {
    MessagesRanked(c, rank) && ParentsRecorded(c, rank) && ChildrenRecorded(c) && EdgesFromNonRoots(c)
  }

  ghost predicate IsRankedChain(c: CorrelationChain) {
    exists rank :: Ranked(c, rank)
  }

  /** In a ranked chain the only root message is the chain's root. */
  lemma RootsAreTheRoot(c: CorrelationChain, rank: map<IdType, nat>, k: IdType)
    requires MessagesRanked(c, rank) && k in c.messages && IsRoot(c.messages[k])
    ensures k == c.root.messageId && c.messages[k] == c.root
  {
    assert c.messages[k] == Root(k);
    assert c.root == Root(c.root.messageId);
  }

  /** A new chain is ranked: the root alone, generation 0. */
  lemma NewChainRanked(root: MessageIdentity)
    requires IsRoot(root)
    ensures Ranked(NewChain(root).value, map[root.messageId := 0])
  {
  }

  /** With the chain's correlation, only the root's own id could be a root, so a fresh message is not one. */
  lemma FreshIsNotRoot(c: CorrelationChain, rank: map<IdType, nat>, m: MessageIdentity)
    requires MessagesRanked(c, rank) && m.correlationId == c.root.correlationId && m.messageId !in c.messages
    ensures !IsRoot(m)
  {
    assert c.root == Root(c.root.messageId);
    assert IsRoot(m) ==> m.messageId == c.root.messageId;
  }

  lemma AddFreshMessagesRanked(c: CorrelationChain, rank: map<IdType, nat>, m: MessageIdentity)
    requires MessagesRanked(c, rank) && ParentsRecorded(c, rank)
    requires m.messageId !in c.messages && AddMessage(c, m).Ok? && !IsRoot(m)
    ensures MessagesRanked(AddMessage(c, m).value, rank[m.messageId := rank[m.causationId.id] + 1])
  {
    var r := AddMessage(c, m).value;
    assert |r.messages| == |c.messages| + 1;
  }

  lemma AddFreshParentsRecorded(c: CorrelationChain, rank: map<IdType, nat>, m: MessageIdentity)
    requires MessagesRanked(c, rank) && ParentsRecorded(c, rank)
    requires m.messageId !in c.messages && AddMessage(c, m).Ok? && !IsRoot(m)
    ensures ParentsRecorded(AddMessage(c, m).value, rank[m.messageId := rank[m.causationId.id] + 1])
  {
    var r := AddMessage(c, m).value;
    var x := m.messageId;
    var p := m.causationId.id;
    var rank' := rank[x := rank[p] + 1];
    forall k | k in r.messages && !IsRoot(r.messages[k])
      ensures HasParent(r, rank', k)
    {
      if k != x {
        assert HasParent(c, rank, k);
        var q := CauseOf(c, k);
        assert q != x;
        assert k in Children(r, q) by {
          if q == p {
            assert Children(r, q) == Children(c, q) + [x];
          } else {
            assert Children(r, q) == Children(c, q);
          }
        }
      } else {
        assert Children(r, p) == Children(c, p) + [x];
      }
    }
  }

  lemma AddFreshChildrenRecorded(c: CorrelationChain, m: MessageIdentity)
    requires ChildrenRecorded(c)
    requires m.messageId !in c.messages && AddMessage(c, m).Ok? && !IsRoot(m)
    ensures ChildrenRecorded(AddMessage(c, m).value)
  {
    var r := AddMessage(c, m).value;
    var p := m.causationId.id;
    forall q, i | q in r.causedMessages && 0 <= i < |r.causedMessages[q]|
      ensures IsChild(r, q, r.causedMessages[q][i])
    {
      if q == p {
        assert r.causedMessages[q] == Children(c, p) + [m.messageId];
        if i < |Children(c, p)| {
          assert IsChild(c, p, c.causedMessages[p][i]);
        }
      } else {
        assert IsChild(c, q, c.causedMessages[q][i]);
      }
    }
  }

  /** Adding a message with a new id keeps the chain ranked, the newcomer one generation below its cause. */
  lemma AddFreshKeepsRanked(c: CorrelationChain, rank: map<IdType, nat>, m: MessageIdentity)
    requires Ranked(c, rank) && m.messageId !in c.messages && AddMessage(c, m).Ok?
    ensures !IsRoot(m) && m.causationId.id in rank
    ensures Ranked(AddMessage(c, m).value, rank[m.messageId := rank[m.causationId.id] + 1])
  {
    FreshIsNotRoot(c, rank, m);
    AddFreshMessagesRanked(c, rank, m);
    AddFreshParentsRecorded(c, rank, m);
    AddFreshChildrenRecorded(c, m);
  }

  /**
   * `add_message` as it would be with the uniqueness of message ids
   * enforced: an id already in the chain is refused.
   */
  function AddFresh(c: CorrelationChain, m: MessageIdentity): (r: Result<CorrelationChain, CorrelationError>)
    ensures m.messageId in c.messages ==> r == Err(InvalidIdentity)
    ensures m.messageId !in c.messages ==> r == AddMessage(c, m)
  {
    if m.messageId in c.messages then Err(InvalidIdentity) else AddMessage(c, m)
  }

  /** Every chain grown with `AddFresh` stays ranked. */
  lemma AddFreshRanked(c: CorrelationChain, m: MessageIdentity)
    requires IsRankedChain(c) && AddFresh(c, m).Ok?
    ensures IsRankedChain(AddFresh(c, m).value)
  {
    var rank :| Ranked(c, rank);
    AddFreshKeepsRanked(c, rank, m);
  }

  /** The entries of `w` are stored messages of generations `top`, `top - 1`, ... down to 0. */
  predicate WalkEntries(c: CorrelationChain, rank: map<IdType, nat>, w: seq<MessageIdentity>, top: nat) {
    && |w| == top + 1
    && forall j :: 0 <= j < |w| ==>
         && w[j].messageId in c.messages && w[j].messageId in rank
         && c.messages[w[j].messageId] == w[j] && rank[w[j].messageId] == top - j
  }

  /** One step of the walk back from a stored non-root. */
  lemma WalkBackStep(c: CorrelationChain, id: IdType, fuel: nat)
    requires id in c.messages && !IsRoot(c.messages[id]) && fuel > 0
    requires WalkBack(c, CauseOf(c, id), fuel - 1).Ok?
    ensures WalkBack(c, id, fuel).Ok? && WalkBack(c, id, fuel).value == [c.messages[id]] + WalkBack(c, CauseOf(c, id), fuel - 1).value
  {
  }

  /** A stored message of the next generation up, put in front of a walk, extends it. */
  lemma ConsWalkEntries(c: CorrelationChain, rank: map<IdType, nat>, m: MessageIdentity, rest: seq<MessageIdentity>, top: nat)
    requires m.messageId in c.messages && m.messageId in rank && c.messages[m.messageId] == m && rank[m.messageId] == top + 1
    requires WalkEntries(c, rank, rest, top)
    ensures WalkEntries(c, rank, [m] + rest, top + 1)
  {
    var w := [m] + rest;
    forall j | 1 <= j < |w|
      ensures w[j] == rest[j - 1]
    {
    }
  }

  /** In a ranked chain a non-root's cause is stored, one generation up. */
  lemma ParentRank(c: CorrelationChain, rank: map<IdType, nat>, id: IdType)
    requires ParentsRecorded(c, rank) && id in c.messages && !IsRoot(c.messages[id])
    ensures id in rank && CauseOf(c, id) in c.messages && CauseOf(c, id) in rank
    ensures rank[id] == rank[CauseOf(c, id)] + 1
  {
    assert HasParent(c, rank, id);
  }

  /** From a message of a ranked chain the walk back reaches the root, one generation per step. */
  lemma {:induction false} RankedWalk(c: CorrelationChain, rank: map<IdType, nat>, id: IdType, fuel: nat)
    requires MessagesRanked(c, rank) && ParentsRecorded(c, rank) && id in c.messages && fuel >= rank[id]
    ensures WalkBack(c, id, fuel).Ok?
    ensures WalkEntries(c, rank, WalkBack(c, id, fuel).value, rank[id])
    decreases fuel
  {
    var m := c.messages[id];
    if !IsRoot(m) {
      ParentRank(c, rank, id);
      var p := CauseOf(c, id);
      RankedWalk(c, rank, p, fuel - 1);
      WalkBackStep(c, id, fuel);
      ConsWalkEntries(c, rank, m, WalkBack(c, p, fuel - 1).value, rank[p]);
    } else {
      RootWalk(c, rank, id, fuel);
    }
  }

  /** From a root of a ranked chain the walk back is that root alone, of generation 0. */
  lemma RootWalk(c: CorrelationChain, rank: map<IdType, nat>, id: IdType, fuel: nat)
    requires MessagesRanked(c, rank) && id in c.messages && IsRoot(c.messages[id])
    ensures WalkBack(c, id, fuel).Ok? && WalkBack(c, id, fuel).value == [c.messages[id]]
    ensures WalkEntries(c, rank, [c.messages[id]], rank[id])
  {
  }

  /** Read backwards, a walk's entries are numbered by generation from the root down. */
  lemma ReversedWalkEntries(c: CorrelationChain, rank: map<IdType, nat>, w: seq<MessageIdentity>, top: nat)
    requires WalkEntries(c, rank, w, top)
    ensures var p := Reverse(w);
      && |p| == top + 1
      && forall i :: 0 <= i < |p| ==> p[i].messageId in c.messages && p[i].messageId in rank && c.messages[p[i].messageId] == p[i] && rank[p[i].messageId] == i
  {
    var p := Reverse(w);
    forall i | 0 <= i < |p|
      ensures p[i].messageId in c.messages && p[i].messageId in rank && c.messages[p[i].messageId] == p[i] && rank[p[i].messageId] == i
    {
      assert p[i] == w[|w| - 1 - i];
    }
  }

  /**
   * In a ranked chain every message has a path: it starts at the chain's
   * root, its `i`-th entry is the stored message of generation `i`, and each
   * entry is recorded among the children of the one before.
   */
  lemma RankedPath(c: CorrelationChain, rank: map<IdType, nat>, id: IdType)
    requires Ranked(c, rank) && id in c.messages
    ensures GetPathTo(c, id).Ok?
    ensures var p := GetPathTo(c, id).value;
      && |p| == rank[id] + 1 && p[0] == c.root
      && (forall i :: 0 <= i < |p| ==> p[i].messageId in c.messages && c.messages[p[i].messageId] == p[i] && rank[p[i].messageId] == i)
      && (forall i :: 1 <= i < |p| ==> p[i].messageId in Children(c, p[i - 1].messageId))
  {
    RankedPathEntries(c, rank, id);
    var p := GetPathTo(c, id).value;
    RootsAreTheRoot(c, rank, p[0].messageId);
    forall i | 1 <= i < |p|
      ensures p[i].messageId in Children(c, p[i - 1].messageId)
    {
      assert CausedStep(c, p[i], p[i - 1]);
      assert HasParent(c, rank, p[i].messageId);
    }
  }

  /** The entries of a ranked chain's path are its stored messages, generation by generation. */
  lemma RankedPathEntries(c: CorrelationChain, rank: map<IdType, nat>, id: IdType)
    requires MessagesRanked(c, rank) && ParentsRecorded(c, rank) && id in c.messages
    ensures GetPathTo(c, id).Ok?
    ensures var p := GetPathTo(c, id).value;
      && |p| == rank[id] + 1
      && (forall i :: 0 <= i < |p| ==> p[i].messageId in c.messages && c.messages[p[i].messageId] == p[i] && rank[p[i].messageId] == i)
  {
    RankedWalk(c, rank, id, |c.messages|);
    var w := WalkBack(c, id, |c.messages|).value;
    assert GetPathTo(c, id).value == Reverse(w);
    ReversedWalkEntries(c, rank, w, rank[id]);
  }

  /**
   * On a chain built from fresh ids, `get_path_to` succeeds for every stored
   * message, starts at the root, and passes `check_cycles` of any validator
   * whose limit is at least the number of messages.
   */
  lemma PathsOfRankedChains(c: CorrelationChain, id: IdType)
    requires IsRankedChain(c) && id in c.messages
    ensures GetPathTo(c, id).Ok?
    ensures GetPathTo(c, id).value[0] == c.root
    ensures NoRepeatedIds(GetPathTo(c, id).value) && |GetPathTo(c, id).value| <= |c.messages|
  {
    var rank :| Ranked(c, rank);
    RankedPath(c, rank, id);
    var p := GetPathTo(c, id).value;
    forall i, j | 0 <= i < j < |p|
      ensures p[i].messageId != p[j].messageId
    {
      assert rank[p[i].messageId] == i && rank[p[j].messageId] == j;
    }
  }

  /**
   * On a chain built from fresh ids, `get_parent` gives the message a stored
   * non-root names as its cause, and nothing for a root or an unknown id.
   */
  lemma GetParentIsCause(c: CorrelationChain, id: IdType)
    requires IsRankedChain(c)
    ensures GetParent(c, id).Some? <==> id in c.messages && !IsRoot(c.messages[id])
    ensures GetParent(c, id).Some? ==> CausedStep(c, c.messages[id], GetParent(c, id).value)
  {
    var rank :| Ranked(c, rank);
    if id in c.messages && !IsRoot(c.messages[id]) {
      assert HasParent(c, rank, id);
    }
  }

  /**
   * On a chain built from fresh ids, `get_caused_by(id)` lists exactly the
   * stored non-root messages that name `id` as their cause.
   */
  lemma GetCausedByIsCaused(c: CorrelationChain, id: IdType, m: MessageIdentity)
    requires IsRankedChain(c)
    ensures m in GetCausedBy(c, id) <==>
      m.messageId in c.messages && c.messages[m.messageId] == m && !IsRoot(m) && m.causationId.id == id
  {
    var rank :| Ranked(c, rank);
    var kids := Children(c, id);
    if m in GetCausedBy(c, id) {
      var i :| 0 <= i < |kids| && kids[i] in c.messages && c.messages[kids[i]] == m;
      assert id in c.causedMessages;
      assert IsChild(c, id, kids[i]);
    }
    if m.messageId in c.messages && c.messages[m.messageId] == m && !IsRoot(m) && m.causationId.id == id {
      assert HasParent(c, rank, m.messageId);
      var i :| 0 <= i < |kids| && kids[i] == m.messageId;
      assert kids[i] in c.messages && c.messages[kids[i]] == m;
    }
  }

  // ---------------------------------------------------------------------------
  // Cycle detection
  // ---------------------------------------------------------------------------

  /**
   * `detect_cycle_dfs` from `node`: true when a node on the current descent
   * (`stack`) is met again. Returns the grown visited set. Recursion deeper
   * than `fuel` is cut off.
   */
  function DfsNode(c: CorrelationChain, node: IdType, visited: set<IdType>, stack: set<IdType>, fuel: nat): (r: (bool, set<IdType>))
    ensures visited <= r.1
    decreases fuel, 0, 0
  {
    if node in stack then (true, visited)
    else if node in visited then (false, visited)
    else if fuel == 0 then (false, visited + {node})
    else DfsKids(c, Children(c, node), visited + {node}, stack + {node}, fuel - 1)
  }

  /** The children loop of `detect_cycle_dfs`, stopping at the first cycle found. */
  function DfsKids(c: CorrelationChain, kids: seq<IdType>, visited: set<IdType>, stack: set<IdType>, fuel: nat): (r: (bool, set<IdType>))
    ensures visited <= r.1
    decreases fuel, 1, |kids|
  {
    if |kids| == 0 then (false, visited)
    else
      var (found, v) := DfsNode(c, kids[0], visited, stack, fuel);
      if found then (true, v) else DfsKids(c, kids[1..], v, stack, fuel)
  }

  /** The loop of `has_cycles` over the keys from position `i`, sharing the visited set. */
  function HasCyclesFrom(c: CorrelationChain, order: seq<IdType>, i: nat, visited: set<IdType>, fuel: nat): bool
    requires i <= |order|
    decreases |order| - i
  {
    if i == |order| then false
    else
      var (found, v) := DfsNode(c, order[i], visited, {}, fuel);
      found || HasCyclesFrom(c, order, i + 1, v, fuel)
  }

  /** `has_cycles`, visiting the message ids in the hash map's order `order`. */
  function HasCycles(c: CorrelationChain, order: seq<IdType>): bool
    requires Enumerates(order, c.messages.Keys)
  {
    HasCyclesFrom(c, order, 0, {}, |c.messages| + 1)
  }

  lemma DfsNodeNoCycle(c: CorrelationChain, rank: map<IdType, nat>, node: IdType, visited: set<IdType>, stack: set<IdType>, fuel: nat)
    requires ParentsRecorded(c, rank) && ChildrenRecorded(c) && node in rank
    requires forall s :: s in stack ==> s in rank && rank[s] < rank[node]
    ensures !DfsNode(c, node, visited, stack, fuel).0
    decreases fuel, 0, 0
  {
    assert node !in stack;
    if node !in visited && fuel > 0 {
      var kids := Children(c, node);
      forall i | 0 <= i < |kids|
        ensures IsChild(c, node, kids[i])
      {
        assert node in c.causedMessages;
      }
      DfsKidsNoCycle(c, rank, node, kids, visited + {node}, stack + {node}, fuel - 1);
    }
  }

  lemma DfsKidsNoCycle(c: CorrelationChain, rank: map<IdType, nat>, p: IdType, kids: seq<IdType>, visited: set<IdType>, stack: set<IdType>, fuel: nat)
    requires ParentsRecorded(c, rank) && ChildrenRecorded(c) && p in rank
    requires forall i :: 0 <= i < |kids| ==> IsChild(c, p, kids[i])
    requires forall s :: s in stack ==> s in rank && rank[s] <= rank[p]
    ensures !DfsKids(c, kids, visited, stack, fuel).0
    decreases fuel, 1, |kids|
  {
    if |kids| > 0 {
      assert IsChild(c, p, kids[0]);
      assert HasParent(c, rank, kids[0]);
      DfsNodeNoCycle(c, rank, kids[0], visited, stack, fuel);
      var v := DfsNode(c, kids[0], visited, stack, fuel).1;
      DfsKidsNoCycle(c, rank, p, kids[1..], v, stack, fuel);
    }
  }

  lemma {:induction false} HasCyclesFromRanked(c: CorrelationChain, rank: map<IdType, nat>, order: seq<IdType>, i: nat, visited: set<IdType>, fuel: nat)
    requires Ranked(c, rank) && i <= |order|
    requires forall j :: 0 <= j < |order| ==> order[j] in c.messages
    ensures !HasCyclesFrom(c, order, i, visited, fuel)
    decreases |order| - i
  {
    if i < |order| {
      DfsNodeNoCycle(c, rank, order[i], visited, {}, fuel);
      HasCyclesFromRanked(c, rank, order, i + 1, DfsNode(c, order[i], visited, {}, fuel).1, fuel);
    }
  }

  /** A chain built from fresh ids has no cycles, whatever order the keys are visited in. */
  lemma RankedChainsHaveNoCycles(c: CorrelationChain, order: seq<IdType>)
    requires IsRankedChain(c) && Enumerates(order, c.messages.Keys)
    ensures !HasCycles(c, order)
  {
    var rank :| Ranked(c, rank);
    HasCyclesFromRanked(c, rank, order, 0, {}, |c.messages| + 1);
  }

  /** A new chain has no cycles. */
  lemma NewChainHasNoCycles(root: MessageIdentity, order: seq<IdType>)
    requires IsRoot(root) && Enumerates(order, {root.messageId})
    ensures NewChain(root).value.messages.Keys == {root.messageId}
    ensures !HasCycles(NewChain(root).value, order)
  {
    NewChainRanked(root);
    RankedChainsHaveNoCycles(NewChain(root).value, order);
  }

  /** Every recorded child is a stored message, as in every chain `new` and `add_message` build. */
  ghost predicate ChildrenStored(c: CorrelationChain) {
    forall p, k :: k in Children(c, p) ==> k in c.messages
  }

  lemma NewChainChildrenStored(root: MessageIdentity)
    requires IsRoot(root)
    ensures ChildrenStored(NewChain(root).value)
  {
  }

  lemma AddMessageKeepsChildrenStored(c: CorrelationChain, m: MessageIdentity)
    requires ChildrenStored(c) && AddMessage(c, m).Ok?
    ensures ChildrenStored(AddMessage(c, m).value)
  {
    var r := AddMessage(c, m).value;
    forall p, k | k in Children(r, p)
      ensures k in r.messages
    {
      if !IsRoot(m) && p == m.causationId.id {
        assert Children(r, p) == Children(c, p) + [m.messageId];
      } else {
        assert Children(r, p) == Children(c, p);
      }
    }
  }

  /** A run of recorded causation from `w[0]` back to itself: each entry a recorded child of the one before. */
  predicate IsLoop(c: CorrelationChain, w: seq<IdType>) {
    && |w| >= 2 && w[0] == w[|w| - 1]
    && forall i :: 0 <= i < |w| - 1 ==> w[i + 1] in Children(c, w[i])
  }

  /** Every recorded child of a node of `done` is in `done`. */
  predicate ClosedUnderChildren(c: CorrelationChain, done: set<IdType>) {
    forall b, k :: b in done && k in Children(c, b) ==> k in done
  }

  /** No loop starts at a node of `done`. */
  ghost predicate NoLoopAt(c: CorrelationChain, done: set<IdType>) {
    forall w :: IsLoop(c, w) ==> w[0] !in done
  }

  /**
   * What the search keeps while it finds no cycle: the finished nodes (visited
   * and off the stack) are closed under children and start no loop.
   */
  ghost predicate SearchInvariant(c: CorrelationChain, visited: set<IdType>, stack: set<IdType>) {
    stack <= visited && ClosedUnderChildren(c, visited - stack) && NoLoopAt(c, visited - stack)
  }

  /** A loop that starts outside a closed set stays outside it: each entry is a child of the one before. */
  lemma {:induction false} LoopLeaves(c: CorrelationChain, done: set<IdType>, w: seq<IdType>, j: nat)
    requires ClosedUnderChildren(c, done) && IsLoop(c, w) && w[0] !in done && 1 <= j < |w|
    ensures w[j] !in done
    decreases |w| - j
  {
    if j < |w| - 1 {
      LoopLeaves(c, done, w, j + 1);
      assert w[j + 1] in Children(c, w[j]);
    }
  }

  /** A subset is no larger. */
  lemma SubsetNoLarger<T>(a: set<T>, b: set<T>)
    requires a <= b
    ensures |a| <= |b|
  {
    assert b == a + (b - a);
  }

  /**
   * Taking a node off the stack once all its children are finished keeps the
   * invariant: a loop from the node would have to come back through them.
   */
  lemma FinishNode(c: CorrelationChain, visited: set<IdType>, stack: set<IdType>, node: IdType)
    requires node !in stack && node in visited && SearchInvariant(c, visited, stack + {node})
    requires forall k :: k in Children(c, node) ==> k in visited - (stack + {node})
    ensures SearchInvariant(c, visited, stack) && node in visited - stack
  {
    var done := visited - (stack + {node});
    assert visited - stack == done + {node};
    forall w | IsLoop(c, w)
      ensures w[0] !in done + {node}
    {
      assert w[0] !in done;
      LoopLeaves(c, done, w, 1);
      assert w[1] in Children(c, w[0]) && w[1] !in done;
    }
  }

  /**
   * `detect_cycle_dfs` from a stored node, with enough fuel for a stack of
   * every stored node: when it reports no cycle, the invariant still holds
   * and the node is finished.
   */
  lemma SearchNodeFinishes(c: CorrelationChain, node: IdType, visited: set<IdType>, stack: set<IdType>, fuel: nat)
    requires ChildrenStored(c) && node in c.messages && stack <= c.messages.Keys
    requires fuel + |stack| > |c.messages| && SearchInvariant(c, visited, stack)
    ensures !DfsNode(c, node, visited, stack, fuel).0 ==>
      SearchInvariant(c, DfsNode(c, node, visited, stack, fuel).1, stack) && node in DfsNode(c, node, visited, stack, fuel).1 - stack
    decreases fuel, 0, 0
  {
    if node !in stack && node !in visited {
      SubsetNoLarger(stack + {node}, c.messages.Keys);
      assert fuel > 0;
      var kids := Children(c, node);
      var v0, s0 := visited + {node}, stack + {node};
      assert v0 - s0 == visited - stack;
      SearchKidsFinish(c, kids, v0, s0, fuel - 1);
      var r := DfsKids(c, kids, v0, s0, fuel - 1);
      assert DfsNode(c, node, visited, stack, fuel) == r;
      if !r.0 {
        forall k | k in Children(c, node)
          ensures k in r.1 - s0
        {
          var i :| 0 <= i < |kids| && kids[i] == k;
        }
        FinishNode(c, r.1, stack, node);
      }
    }
  }

  /** The children loop of `detect_cycle_dfs`: when it reports no cycle, every child is finished. */
  lemma SearchKidsFinish(c: CorrelationChain, kids: seq<IdType>, visited: set<IdType>, stack: set<IdType>, fuel: nat)
    requires ChildrenStored(c) && stack <= c.messages.Keys && forall i :: 0 <= i < |kids| ==> kids[i] in c.messages
    requires fuel + |stack| > |c.messages| && SearchInvariant(c, visited, stack)
    ensures !DfsKids(c, kids, visited, stack, fuel).0 ==>
      && SearchInvariant(c, DfsKids(c, kids, visited, stack, fuel).1, stack)
      && forall i :: 0 <= i < |kids| ==> kids[i] in DfsKids(c, kids, visited, stack, fuel).1 - stack
    decreases fuel, 1, |kids|
  {
    if |kids| > 0 {
      SearchNodeFinishes(c, kids[0], visited, stack, fuel);
      var (found, v) := DfsNode(c, kids[0], visited, stack, fuel);
      if !found {
        SearchKidsFinish(c, kids[1..], v, stack, fuel);
        assert forall i :: 1 <= i < |kids| ==> kids[i] == kids[1..][i - 1];
      }
    }
  }

  /** The key loop of `has_cycles` reports a cycle when a loop starts at a key still to be visited. */
  lemma {:induction false} SearchFromFindsLoop(c: CorrelationChain, order: seq<IdType>, i: nat, visited: set<IdType>, w: seq<IdType>)
    requires ChildrenStored(c) && i <= |order| && forall j :: 0 <= j < |order| ==> order[j] in c.messages
    requires SearchInvariant(c, visited, {}) && IsLoop(c, w) && w[0] in order[i..]
    ensures HasCyclesFrom(c, order, i, visited, |c.messages| + 1)
    decreases |order| - i
  {
    var fuel := |c.messages| + 1;
    SearchNodeFinishes(c, order[i], visited, {}, fuel);
    var (found, v) := DfsNode(c, order[i], visited, {}, fuel);
    if !found {
      assert w[0] !in v && order[i] in v;
      assert w[0] in order[i + 1..] by {
        var j :| 0 <= j < |order[i..]| && order[i..][j] == w[0];
        assert order[i + 1..][j - 1] == w[0];
      }
      SearchFromFindsLoop(c, order, i + 1, v, w);
    }
  }

  /**
   * `has_cycles` finds every loop: on a chain whose recorded children are
   * stored, a run of recorded causation from a message back to itself is
   * reported, whatever order the keys are visited in.
   */
  lemma LoopsAreDetected(c: CorrelationChain, order: seq<IdType>, w: seq<IdType>)
    requires ChildrenStored(c) && Enumerates(order, c.messages.Keys) && IsLoop(c, w)
    ensures HasCycles(c, order)
  {
    assert w[|w| - 1] in Children(c, w[|w| - 2]);
    assert order[0..] == order;
    SearchFromFindsLoop(c, order, 0, {}, w);
  }

  // ---------------------------------------------------------------------------
  // Depth
  // ---------------------------------------------------------------------------

  function Max(a: nat, b: nat): nat {
    if a >= b then a else b
  }

  /** The deepest level the breadth-first walk of `depth` reaches below `id`, looking at most `fuel` levels down. */
  function DepthFrom(c: CorrelationChain, id: IdType, fuel: nat): nat
    decreases fuel, 0, 0
  {
    if fuel == 0 then 0 else DepthOfKids(c, Children(c, id), fuel - 1)
  }

  function DepthOfKids(c: CorrelationChain, kids: seq<IdType>, fuel: nat): nat
    decreases fuel, 1, |kids|
  {
    if |kids| == 0 then 0
    else Max(1 + DepthFrom(c, kids[0], fuel), DepthOfKids(c, kids[1..], fuel))
  }

  /** `CorrelationChain::depth`: the longest run of causation from the root. */
  function Depth(c: CorrelationChain): nat {
    DepthFrom(c, c.root.messageId, |c.messages|)
  }

  /** The depth below a message is the generation gap to some stored descendant. */
  lemma DepthFromReached(c: CorrelationChain, rank: map<IdType, nat>, x: IdType, fuel: nat)
    requires ParentsRecorded(c, rank) && ChildrenRecorded(c) && x in c.messages && x in rank
    ensures exists y :: y in c.messages && y in rank && rank[y] == rank[x] + DepthFrom(c, x, fuel)
    decreases fuel, 0, 0
  {
    if fuel == 0 {
      assert rank[x] == rank[x] + DepthFrom(c, x, fuel);
    } else {
      var kids := Children(c, x);
      forall i | 0 <= i < |kids|
        ensures IsChild(c, x, kids[i])
      {
        assert x in c.causedMessages;
      }
      DepthOfKidsReached(c, rank, x, kids, fuel - 1);
      if DepthOfKids(c, kids, fuel - 1) == 0 {
        assert rank[x] == rank[x] + DepthFrom(c, x, fuel);
      }
    }
  }

  lemma DepthOfKidsReached(c: CorrelationChain, rank: map<IdType, nat>, p: IdType, kids: seq<IdType>, fuel: nat)
    requires ParentsRecorded(c, rank) && ChildrenRecorded(c) && p in c.messages && p in rank
    requires forall i :: 0 <= i < |kids| ==> IsChild(c, p, kids[i])
    ensures DepthOfKids(c, kids, fuel) == 0 || exists y :: y in c.messages && y in rank && rank[y] == rank[p] + DepthOfKids(c, kids, fuel)
    decreases fuel, 1, |kids|
  {
    if |kids| > 0 {
      assert IsChild(c, p, kids[0]);
      assert HasParent(c, rank, kids[0]);
      DepthFromReached(c, rank, kids[0], fuel);
      DepthOfKidsReached(c, rank, p, kids[1..], fuel);
    }
  }

  /** A listed child contributes one more than its own depth. */
  lemma {:induction false} DepthOfKidsCovers(c: CorrelationChain, kids: seq<IdType>, k: IdType, fuel: nat)
    requires k in kids
    ensures DepthOfKids(c, kids, fuel) >= 1 + DepthFrom(c, k, fuel)
    decreases |kids|
  {
    if kids[0] != k {
      DepthOfKidsCovers(c, kids[1..], k, fuel);
    }
  }

  /** A downward run of recorded children of length `|p| - 1` is within the depth. */
  lemma {:induction false} DepthAlongRun(c: CorrelationChain, p: seq<MessageIdentity>, fuel: nat)
    requires |p| >= 1 && fuel >= |p| - 1
    requires forall i :: 1 <= i < |p| ==> p[i].messageId in Children(c, p[i - 1].messageId)
    ensures DepthFrom(c, p[0].messageId, fuel) >= |p| - 1
    decreases |p|
  {
    if |p| > 1 {
      assert p[1].messageId in Children(c, p[0].messageId);
      DepthAlongRun(c, p[1..], fuel - 1);
      DepthOfKidsCovers(c, Children(c, p[0].messageId), p[1].messageId, fuel - 1);
    }
  }

  /**
   * On a chain built from fresh ids, `depth` is the length of the longest
   * path from the root: no path is longer, and some message's path is
   * exactly that long.
   */
  lemma DepthIsLongestPath(c: CorrelationChain)
    requires IsRankedChain(c)
    ensures forall y :: y in c.messages ==> GetPathTo(c, y).Ok? && |GetPathTo(c, y).value| - 1 <= Depth(c)
    ensures exists y :: y in c.messages && GetPathTo(c, y).Ok? && |GetPathTo(c, y).value| - 1 == Depth(c)
  {
    var rank :| Ranked(c, rank);
    forall y | y in c.messages
      ensures GetPathTo(c, y).Ok? && |GetPathTo(c, y).value| - 1 <= Depth(c)
    {
      RankedPath(c, rank, y);
      DepthAlongRun(c, GetPathTo(c, y).value, |c.messages|);
    }
    DepthFromReached(c, rank, c.root.messageId, |c.messages|);
    var y :| y in c.messages && y in rank && rank[y] == rank[c.root.messageId] + Depth(c);
    RankedPath(c, rank, y);
  }

  /** A new chain has depth 0. */
  lemma NewChainDepth(root: MessageIdentity)
    requires IsRoot(root)
    ensures Depth(NewChain(root).value) == 0
  {
    var c := NewChain(root).value;
    assert Children(c, root.messageId) == [];
    assert Depth(c) == DepthOfKids(c, [], 0);
  }

  // ---------------------------------------------------------------------------
  // MessageAlgebra
  // ---------------------------------------------------------------------------

  /**
   * The loop of `merge_chains` from position `i` of chain2's key order: a
   * message whose id is already present is skipped, any other is added, and
   * the first refused addition fails the merge.
   */
  function MergeFrom(merged: CorrelationChain, c2: CorrelationChain, order: seq<IdType>, i: nat): (r: Result<CorrelationChain, CorrelationError>)
    requires i <= |order| && forall j :: 0 <= j < |order| ==> order[j] in c2.messages
    ensures r.Ok? ==> r.value.root == merged.root
    ensures r.Ok? ==> forall k :: k in merged.messages ==> k in r.value.messages && r.value.messages[k] == merged.messages[k]
    ensures r.Ok? ==> forall j :: i <= j < |order| ==> c2.messages[order[j]].messageId in r.value.messages
    ensures r.Err? ==> r.error == InvalidIdentity
    decreases |order| - i
  {
    if i == |order| then Ok(merged)
    else
      var m := c2.messages[order[i]];
      if m.messageId in merged.messages then MergeFrom(merged, c2, order, i + 1)
      else
        var next :- AddMessage(merged, m);
        MergeFrom(next, c2, order, i + 1)
  }

  /**
   * `MessageAlgebra::merge_chains`, visiting chain2's messages in its hash
   * map's order `order`: the roots must share a correlation; the result
   * keeps every message of chain1 unchanged and holds the id of every
   * message of chain2.
   */
  function MergeChains(c1: CorrelationChain, c2: CorrelationChain, order: seq<IdType>): (r: Result<CorrelationChain, CorrelationError>)
    requires Enumerates(order, c2.messages.Keys)
    ensures c1.root.correlationId != c2.root.correlationId ==> r == Err(InvalidIdentity)
    ensures r.Err? ==> r.error == InvalidIdentity
    ensures r.Ok? ==> r.value.root == c1.root
    ensures r.Ok? ==> forall k :: k in c1.messages ==> k in r.value.messages && r.value.messages[k] == c1.messages[k]
    ensures r.Ok? ==> forall k :: k in c2.messages ==> c2.messages[k].messageId in r.value.messages
    ensures r.Ok? ==> r.value.messages.Keys == c1.messages.Keys + set k | k in c2.messages :: c2.messages[k].messageId
  {
    if c1.root.correlationId != c2.root.correlationId then Err(InvalidIdentity)
    else
      var r := MergeFrom(c1, c2, order, 0);
      assert r.Ok? ==> forall k :: k in c2.messages ==> exists j :: 0 <= j < |order| && order[j] == k;
      assert r.Ok? ==> r.value.messages.Keys == c1.messages.Keys + set k | k in c2.messages :: c2.messages[k].messageId by {
        if r.Ok? {
          MergeFromKeys(c1, c2, order, 0);
          assert (set j | 0 <= j < |order| :: c2.messages[order[j]].messageId)
              == set k | k in c2.messages :: c2.messages[k].messageId;
        }
      }
      r
  }

  /** The merge loop adds exactly the ids of the messages it visits. */
  lemma {:induction false} MergeFromKeys(merged: CorrelationChain, c2: CorrelationChain, order: seq<IdType>, i: nat)
    requires i <= |order| && forall j :: 0 <= j < |order| ==> order[j] in c2.messages
    requires MergeFrom(merged, c2, order, i).Ok?
    ensures MergeFrom(merged, c2, order, i).value.messages.Keys
      == merged.messages.Keys + set j | i <= j < |order| :: c2.messages[order[j]].messageId
    decreases |order| - i
  {
    if i < |order| {
      var m := c2.messages[order[i]];
      var later := set j | i + 1 <= j < |order| :: c2.messages[order[j]].messageId;
      assert (set j | i <= j < |order| :: c2.messages[order[j]].messageId) == {m.messageId} + later;
      if m.messageId in merged.messages {
        MergeFromKeys(merged, c2, order, i + 1);
      } else {
        MergeFromKeys(AddMessage(merged, m).value, c2, order, i + 1);
      }
    }
  }

  /** Every stored message is keyed by its own id, as in every chain built from fresh ids. */
  predicate KeyedById(c: CorrelationChain) {
    forall k :: k in c.messages ==> c.messages[k].messageId == k
  }

  /** A new chain stores its root under the root's id. */
  lemma NewChainKeyedById(root: MessageIdentity)
    requires IsRoot(root)
    ensures KeyedById(NewChain(root).value)
  {
  }

  /** `add_message` stores the message under its own id, so every chain it builds is keyed by id. */
  lemma AddMessageKeepsKeyedById(c: CorrelationChain, m: MessageIdentity)
    requires KeyedById(c) && AddMessage(c, m).Ok?
    ensures KeyedById(AddMessage(c, m).value)
  {
  }

  /** The merge loop stores, under each id it adds, chain2's message with that id. */
  lemma {:induction false} MergeFromAdds(merged: CorrelationChain, c2: CorrelationChain, order: seq<IdType>, i: nat)
    requires i <= |order| && forall j :: 0 <= j < |order| ==> order[j] in c2.messages
    requires KeyedById(c2) && MergeFrom(merged, c2, order, i).Ok?
    ensures forall j :: i <= j < |order| && order[j] !in merged.messages ==>
      MergeFrom(merged, c2, order, i).value.messages[order[j]] == c2.messages[order[j]]
    decreases |order| - i
  {
    if i < |order| {
      var m := c2.messages[order[i]];
      assert m.messageId == order[i];
      if m.messageId in merged.messages {
        MergeFromAdds(merged, c2, order, i + 1);
      } else {
        var next := AddMessage(merged, m).value;
        MergeFromAdds(next, c2, order, i + 1);
      }
    }
  }

  /**
   * When chain2 keys its messages by their ids (every chain built from fresh
   * ids does), each id the merge adds holds chain2's message.
   */
  lemma MergeAddsChain2Messages(c1: CorrelationChain, c2: CorrelationChain, order: seq<IdType>)
    requires Enumerates(order, c2.messages.Keys)
    requires KeyedById(c2) && MergeChains(c1, c2, order).Ok?
    ensures forall k :: k in c2.messages && k !in c1.messages ==> MergeChains(c1, c2, order).value.messages[k] == c2.messages[k]
  {
    MergeFromAdds(c1, c2, order, 0);
    forall k | k in c2.messages && k !in c1.messages
      ensures MergeChains(c1, c2, order).value.messages[k] == c2.messages[k]
    {
      var j :| 0 <= j < |order| && order[j] == k;
    }
  }

  lemma {:induction false} MergeFromRanked(merged: CorrelationChain, c2: CorrelationChain, order: seq<IdType>, i: nat)
    requires i <= |order| && forall j :: 0 <= j < |order| ==> order[j] in c2.messages
    requires IsRankedChain(merged) && MergeFrom(merged, c2, order, i).Ok?
    ensures IsRankedChain(MergeFrom(merged, c2, order, i).value)
    decreases |order| - i
  {
    if i < |order| {
      var m := c2.messages[order[i]];
      if m.messageId in merged.messages {
        MergeFromRanked(merged, c2, order, i + 1);
      } else {
        AddFreshRanked(merged, m);
        MergeFromRanked(AddMessage(merged, m).value, c2, order, i + 1);
      }
    }
  }

  /** Merging into a chain built from fresh ids gives one, so the merge has no cycles either. */
  lemma MergeKeepsRanked(c1: CorrelationChain, c2: CorrelationChain, order: seq<IdType>)
    requires Enumerates(order, c2.messages.Keys)
    requires IsRankedChain(c1) && MergeChains(c1, c2, order).Ok?
    ensures IsRankedChain(MergeChains(c1, c2, order).value)
  {
    MergeFromRanked(c1, c2, order, 0);
  }

  /** The message ids along a path. */
  function IdsOf(p: seq<MessageIdentity>): set<IdType> {
    set i | 0 <= i < |p| :: p[i].messageId
  }

  /** The messages along a path. */
  function Elems(p: seq<MessageIdentity>): set<MessageIdentity> {
    set i | 0 <= i < |p| :: p[i]
  }

  /**
   * `MessageAlgebra::find_common_ancestors`: the stored messages whose ids
   * lie on both paths (as a set: the source's order is a hash set's).
   */
  function FindCommonAncestors(c: CorrelationChain, a: IdType, b: IdType): (r: Result<set<MessageIdentity>, CorrelationError>)
    ensures r.Ok? <==> GetPathTo(c, a).Ok? && GetPathTo(c, b).Ok?
    ensures r.Ok? ==> forall m :: m in r.value <==>
      exists id :: id in IdsOf(GetPathTo(c, a).value) && id in IdsOf(GetPathTo(c, b).value) && id in c.messages && c.messages[id] == m
  {
    var p1 :- GetPathTo(c, a);
    var p2 :- GetPathTo(c, b);
    Ok(set id | id in IdsOf(p1) * IdsOf(p2) && id in c.messages :: c.messages[id])
  }

  /** The common ancestors do not depend on the order of the two messages. */
  lemma CommonAncestorsSymmetric(c: CorrelationChain, a: IdType, b: IdType)
    ensures FindCommonAncestors(c, a, b).Ok? <==> FindCommonAncestors(c, b, a).Ok?
    ensures FindCommonAncestors(c, a, b).Ok? ==> FindCommonAncestors(c, a, b) == FindCommonAncestors(c, b, a)
  {
    if FindCommonAncestors(c, a, b).Ok? {
      var p1 := GetPathTo(c, a).value;
      var p2 := GetPathTo(c, b).value;
      assert IdsOf(p1) * IdsOf(p2) == IdsOf(p2) * IdsOf(p1);
    }
  }

  /**
   * On a chain built from fresh ids the common ancestors of two messages are
   * exactly the messages on both of their paths, and the root is one of them.
   */
  lemma CommonAncestorsOnBothPaths(c: CorrelationChain, a: IdType, b: IdType)
    requires IsRankedChain(c) && a in c.messages && b in c.messages
    ensures FindCommonAncestors(c, a, b).Ok?
    ensures FindCommonAncestors(c, a, b).value == Elems(GetPathTo(c, a).value) * Elems(GetPathTo(c, b).value)
    ensures c.root in FindCommonAncestors(c, a, b).value
  {
    var rank :| Ranked(c, rank);
    RankedPath(c, rank, a);
    RankedPath(c, rank, b);
    var p1 := GetPathTo(c, a).value;
    var p2 := GetPathTo(c, b).value;
    StoredPathsCommon(c, p1, p2);
    assert p1[0] == c.root && p2[0] == c.root;
  }

  /** For paths of stored messages keyed by their ids, the ids in common give the messages in common. */
  lemma StoredPathsCommon(c: CorrelationChain, p1: seq<MessageIdentity>, p2: seq<MessageIdentity>)
    requires forall i :: 0 <= i < |p1| ==> p1[i].messageId in c.messages && c.messages[p1[i].messageId] == p1[i]
    requires forall i :: 0 <= i < |p2| ==> p2[i].messageId in c.messages && c.messages[p2[i].messageId] == p2[i]
    ensures (set id | id in IdsOf(p1) * IdsOf(p2) && id in c.messages :: c.messages[id]) == Elems(p1) * Elems(p2)
  {
    var r := set id | id in IdsOf(p1) * IdsOf(p2) && id in c.messages :: c.messages[id];
    forall m | m in r
      ensures m in Elems(p1) * Elems(p2)
    {
      var i :| 0 <= i < |p1| && p1[i].messageId == m.messageId;
      var j :| 0 <= j < |p2| && p2[j].messageId == m.messageId;
      assert m == c.messages[m.messageId] == p1[i] == p2[j];
    }
    forall m | m in Elems(p1) * Elems(p2)
      ensures m in r
    {
      var i :| 0 <= i < |p1| && p1[i] == m;
      var j :| 0 <= j < |p2| && p2[j] == m;
      assert m.messageId in IdsOf(p1) * IdsOf(p2);
      assert m == c.messages[m.messageId];
    }
  }

  /** The number of leading positions at which two paths have the same message ids. */
  function CommonPrefix(p1: seq<MessageIdentity>, p2: seq<MessageIdentity>): (n: nat)
    ensures n <= |p1| && n <= |p2|
    ensures forall i :: 0 <= i < n ==> p1[i].messageId == p2[i].messageId
    ensures n < |p1| && n < |p2| ==> p1[n].messageId != p2[n].messageId
    decreases |p1|
  {
    if |p1| == 0 || |p2| == 0 || p1[0].messageId != p2[0].messageId then 0
    else
      var n := CommonPrefix(p1[1..], p2[1..]);
      assert forall i :: 1 <= i < n + 1 ==> p1[i] == p1[1..][i - 1] && p2[i] == p2[1..][i - 1];
      1 + n
  }

  /** The lowest common ancestor's position, as the loop of `distance` leaves it (0 when even the first differ). */
  function LcaIndex(p1: seq<MessageIdentity>, p2: seq<MessageIdentity>): nat {
    var n := CommonPrefix(p1, p2);
    if n == 0 then 0 else n - 1
  }

  /**
   * `MessageAlgebra::distance`: the steps from each message up to their
   * lowest common ancestor, added.
   */
  function Distance(c: CorrelationChain, a: IdType, b: IdType): (r: Result<nat, CorrelationError>)
    ensures r.Ok? <==> GetPathTo(c, a).Ok? && GetPathTo(c, b).Ok?
    ensures r.Ok? ==> r.value <= |GetPathTo(c, a).value| + |GetPathTo(c, b).value| - 2
  {
    var p1 :- GetPathTo(c, a);
    var p2 :- GetPathTo(c, b);
    var lca := LcaIndex(p1, p2);
    Ok((|p1| - lca - 1) + (|p2| - lca - 1))
  }

  /** Two paths have one common prefix, however they are ordered. */
  lemma CommonPrefixSymmetric(p1: seq<MessageIdentity>, p2: seq<MessageIdentity>)
    ensures CommonPrefix(p1, p2) == CommonPrefix(p2, p1)
  {
    var n1 := CommonPrefix(p1, p2);
    var n2 := CommonPrefix(p2, p1);
    assert n1 <= n2 by {
      assert forall i :: 0 <= i < n2 ==> p1[i].messageId == p2[i].messageId;
    }
    assert n2 <= n1 by {
      assert forall i :: 0 <= i < n1 ==> p2[i].messageId == p1[i].messageId;
    }
  }

  /** A message is at distance 0 from itself. */
  lemma DistanceToSelf(c: CorrelationChain, a: IdType)
    ensures Distance(c, a, a).Ok? ==> Distance(c, a, a).value == 0
  {
    if GetPathTo(c, a).Ok? {
      var p := GetPathTo(c, a).value;
      assert CommonPrefix(p, p) == |p|;
    }
  }

  /** Distance does not depend on the order of the two messages. */
  lemma DistanceSymmetric(c: CorrelationChain, a: IdType, b: IdType)
    ensures Distance(c, a, b).Ok? <==> Distance(c, b, a).Ok?
    ensures Distance(c, a, b).Ok? ==> Distance(c, a, b).value == Distance(c, b, a).value
  {
    if GetPathTo(c, a).Ok? && GetPathTo(c, b).Ok? {
      var p1 := GetPathTo(c, a).value;
      var p2 := GetPathTo(c, b).value;
      DistanceOfPaths(c, a, b, p1, p2);
      DistanceOfPaths(c, b, a, p2, p1);
      CommonPrefixSymmetric(p1, p2);
    }
  }

  /** On a chain built from fresh ids, a message's distance from the root is its path length less one. */
  lemma DistanceFromRoot(c: CorrelationChain, y: IdType)
    requires IsRankedChain(c) && y in c.messages
    ensures Distance(c, c.root.messageId, y).Ok?
    ensures Distance(c, c.root.messageId, y).value == |GetPathTo(c, y).value| - 1
  {
    var rank :| Ranked(c, rank);
    RankedPath(c, rank, c.root.messageId);
    RankedPath(c, rank, y);
    var p1 := GetPathTo(c, c.root.messageId).value;
    var p2 := GetPathTo(c, y).value;
    assert |p1| == 1;
    assert p1[0].messageId == p2[0].messageId;
  }

  /** Two paths that meet at position `i` agree everywhere before it, as each entry is its successor's cause. */
  lemma {:induction false} SharedEntryPrefix(c: CorrelationChain, p1: seq<MessageIdentity>, p2: seq<MessageIdentity>, i: nat)
    requires IsPath(c, p1) && IsPath(c, p2) && i < |p1| && i < |p2| && p1[i] == p2[i]
    ensures forall k :: 0 <= k <= i ==> p1[k] == p2[k]
    decreases i
  {
    if i > 0 {
      assert CausedStep(c, p1[i], p1[i - 1]) && CausedStep(c, p2[i], p2[i - 1]);
      SharedEntryPrefix(c, p1, p2, i - 1);
    }
  }

  /** Entries with distinct positions are distinct messages: there are as many as the path is long. */
  lemma {:induction false} ElemsOfDistinct(p: seq<MessageIdentity>)
    requires forall i, j :: 0 <= i < j < |p| ==> p[i] != p[j]
    ensures |Elems(p)| == |p|
    decreases |p|
  {
    if |p| > 0 {
      var q := p[..|p| - 1];
      ElemsOfDistinct(q);
      assert Elems(p) == Elems(q) + {p[|p| - 1]};
      assert p[|p| - 1] !in Elems(q);
    }
  }

  /** The `i`-th entry of `p` is the stored message of generation `i`. */
  predicate RankedEntries(c: CorrelationChain, rank: map<IdType, nat>, p: seq<MessageIdentity>) {
    forall i :: 0 <= i < |p| ==>
      p[i].messageId in c.messages && c.messages[p[i].messageId] == p[i] && p[i].messageId in rank && rank[p[i].messageId] == i
  }

  /** A message on both of two such paths sits at the same position, inside their common prefix. */
  lemma SharedInPrefix(c: CorrelationChain, rank: map<IdType, nat>, p1: seq<MessageIdentity>, p2: seq<MessageIdentity>, m: MessageIdentity)
    requires IsPath(c, p1) && IsPath(c, p2) && RankedEntries(c, rank, p1) && RankedEntries(c, rank, p2)
    requires m in Elems(p1) && m in Elems(p2)
    ensures m in Elems(p1[..CommonPrefix(p1, p2)])
  {
    var n := CommonPrefix(p1, p2);
    var i :| 0 <= i < |p1| && p1[i] == m;
    var j :| 0 <= j < |p2| && p2[j] == m;
    assert rank[p1[i].messageId] == i && rank[p2[j].messageId] == j;
    SharedEntryPrefix(c, p1, p2, i);
    PrefixReaches(p1, p2, i);
    assert p1[..n][i] == m;
  }

  /** Paths agreeing on their ids up to position `i` have a common prefix longer than `i`. */
  lemma {:induction false} PrefixReaches(p1: seq<MessageIdentity>, p2: seq<MessageIdentity>, i: nat)
    requires i < |p1| && i < |p2|
    requires forall k :: 0 <= k <= i ==> p1[k].messageId == p2[k].messageId
    ensures i < CommonPrefix(p1, p2)
    decreases i
  {
    if i > 0 {
      assert forall k :: 0 <= k <= i - 1 ==> p1[1..][k] == p1[k + 1] && p2[1..][k] == p2[k + 1];
      PrefixReaches(p1[1..], p2[1..], i - 1);
    }
  }

  /** The messages of the common prefix lie on both paths. */
  lemma PrefixShared(c: CorrelationChain, rank: map<IdType, nat>, p1: seq<MessageIdentity>, p2: seq<MessageIdentity>, m: MessageIdentity)
    requires RankedEntries(c, rank, p1) && RankedEntries(c, rank, p2)
    requires m in Elems(p1[..CommonPrefix(p1, p2)])
    ensures m in Elems(p1) && m in Elems(p2)
  {
    var q := p1[..CommonPrefix(p1, p2)];
    var k :| 0 <= k < |q| && q[k] == m;
    assert p1[k].messageId == p2[k].messageId;
    assert p1[k] == c.messages[p1[k].messageId] == p2[k];
  }

  /** Two paths from one root share exactly their common prefix, which holds at least the root. */
  lemma CommonPrefixElems(c: CorrelationChain, rank: map<IdType, nat>, p1: seq<MessageIdentity>, p2: seq<MessageIdentity>)
    requires IsPath(c, p1) && IsPath(c, p2) && RankedEntries(c, rank, p1) && RankedEntries(c, rank, p2)
    requires p1[0].messageId == p2[0].messageId
    ensures |Elems(p1) * Elems(p2)| == CommonPrefix(p1, p2) >= 1
  {
    var q := p1[..CommonPrefix(p1, p2)];
    forall m | m in Elems(p1) * Elems(p2)
      ensures m in Elems(q)
    {
      SharedInPrefix(c, rank, p1, p2, m);
    }
    forall m | m in Elems(q)
      ensures m in Elems(p1) * Elems(p2)
    {
      PrefixShared(c, rank, p1, p2, m);
    }
    assert Elems(p1) * Elems(p2) == Elems(q);
    forall i, j | 0 <= i < j < |q|
      ensures q[i] != q[j]
    {
      assert rank[p1[i].messageId] == i && rank[p1[j].messageId] == j;
    }
    ElemsOfDistinct(q);
  }

  /**
   * On a chain built from fresh ids, the messages on both paths are the
   * common prefix of the two paths, so there are as many as its length.
   */
  lemma CommonAncestorsArePrefix(c: CorrelationChain, rank: map<IdType, nat>, a: IdType, b: IdType)
    requires Ranked(c, rank) && a in c.messages && b in c.messages
    ensures GetPathTo(c, a).Ok? && GetPathTo(c, b).Ok?
    ensures |Elems(GetPathTo(c, a).value) * Elems(GetPathTo(c, b).value)|
      == CommonPrefix(GetPathTo(c, a).value, GetPathTo(c, b).value) >= 1
  {
    RankedPath(c, rank, a);
    RankedPath(c, rank, b);
    var p1 := GetPathTo(c, a).value;
    var p2 := GetPathTo(c, b).value;
    assert RankedEntries(c, rank, p1) && RankedEntries(c, rank, p2);
    assert p1[0].messageId == p2[0].messageId;
    CommonPrefixElems(c, rank, p1, p2);
  }

  /**
   * On a chain built from fresh ids, the distance is the number of steps
   * from each message up to their deepest common ancestor: the two path
   * lengths, less twice the number of common ancestors.
   */
  lemma DistanceThroughCommonAncestors(c: CorrelationChain, a: IdType, b: IdType)
    requires IsRankedChain(c) && a in c.messages && b in c.messages
    ensures Distance(c, a, b).Ok? && FindCommonAncestors(c, a, b).Ok?
    ensures Distance(c, a, b).value
      == |GetPathTo(c, a).value| + |GetPathTo(c, b).value| - 2 * |FindCommonAncestors(c, a, b).value|
  {
    var rank :| Ranked(c, rank);
    CommonAncestorsArePrefix(c, rank, a, b);
    CommonAncestorsOnBothPaths(c, a, b);
    var p1 := GetPathTo(c, a).value;
    var p2 := GetPathTo(c, b).value;
    DistanceOfPaths(c, a, b, p1, p2);
  }

  // ---------------------------------------------------------------------------
  // Worked chains
  // ---------------------------------------------------------------------------

  /** A root command and two generations of commands below it. */
  function Gen0(): MessageIdentity { RootCommand(0) }
  function Gen1(): MessageIdentity { CommandOrQueryFrom(1, Gen0()) }
  function Gen2(): MessageIdentity { CommandOrQueryFrom(2, Gen1()) }

  /** Root and child. */
  function TwoGenerations(): CorrelationChain {
    CorrelationChain(Gen0(), map[Uuid(0) := Gen0(), Uuid(1) := Gen1()],
      map[Uuid(1) := Uuid(0)], map[Uuid(0) := [Uuid(1)]])
  }

  /** Root, child and grandchild. */
  function ThreeGenerations(): CorrelationChain {
    CorrelationChain(Gen0(),
      map[Uuid(0) := Gen0(), Uuid(1) := Gen1(), Uuid(2) := Gen2()],
      map[Uuid(1) := Uuid(0), Uuid(2) := Uuid(1)],
      map[Uuid(0) := [Uuid(1)], Uuid(1) := [Uuid(2)]])
  }

  /** `new` on the root, then `add_message` of the child, builds the two-generation chain. */
  lemma TwoGenerationsBuilt()
    ensures NewChain(Gen0()).Ok? && AddMessage(NewChain(Gen0()).value, Gen1()).Ok?
    ensures AddMessage(NewChain(Gen0()).value, Gen1()).value == TwoGenerations()
  {
    var c0 := NewChain(Gen0()).value;
    assert Children(c0, Uuid(0)) == [];
    assert [] + [Uuid(1)] == [Uuid(1)];
  }

  /** `add_message` of the grandchild then builds the three-generation chain. */
  lemma ThreeGenerationsBuilt()
    ensures AddMessage(TwoGenerations(), Gen2()).Ok? && AddMessage(TwoGenerations(), Gen2()).value == ThreeGenerations()
  {
    assert Children(TwoGenerations(), Uuid(1)) == [];
    assert [] + [Uuid(2)] == [Uuid(2)];
  }

  /** In the three-generation chain the grandchild's path runs root, child, grandchild. */
  lemma ThreeGenerationsPath()
    ensures GetPathTo(ThreeGenerations(), Uuid(2)).Ok? && GetPathTo(ThreeGenerations(), Uuid(2)).value == [Gen0(), Gen1(), Gen2()]
  {
    PathsOfThree(ThreeGenerations());
  }

  /** Root, child and grandchild as stored messages, whatever edges are recorded. */
  predicate StoresThreeGenerations(c: CorrelationChain) {
    c.messages == map[Uuid(0) := Gen0(), Uuid(1) := Gen1(), Uuid(2) := Gen2()]
  }

  /** The paths to the grandchild and to the root follow the stored causations alone. */
  lemma PathsOfThree(c: CorrelationChain)
    requires StoresThreeGenerations(c)
    ensures GetPathTo(c, Uuid(2)).Ok? && GetPathTo(c, Uuid(2)).value == [Gen0(), Gen1(), Gen2()]
    ensures GetPathTo(c, Uuid(0)).Ok? && GetPathTo(c, Uuid(0)).value == [Gen0()]
  {
    assert c.messages.Keys == {Uuid(0), Uuid(1), Uuid(2)};
    assert |c.messages| == 3;
    assert WalkBack(c, Uuid(0), 3).Ok? && WalkBack(c, Uuid(0), 3).value == [Gen0()];
    assert GetPathTo(c, Uuid(0)).value == Reverse([Gen0()]);
    WalkOfThree(c);
    assert GetPathTo(c, Uuid(2)).value == Reverse([Gen2(), Gen1(), Gen0()]);
    assert Reverse([Gen2(), Gen1(), Gen0()]) == [Gen0(), Gen1(), Gen2()];
  }

  /** The walk back from the grandchild: grandchild, child, root. */
  lemma WalkOfThree(c: CorrelationChain)
    requires StoresThreeGenerations(c)
    ensures WalkBack(c, Uuid(2), 3).Ok? && WalkBack(c, Uuid(2), 3).value == [Gen2(), Gen1(), Gen0()]
  {
    assert WalkBack(c, Uuid(0), 1).Ok? && WalkBack(c, Uuid(0), 1).value == [Gen0()];
    assert CauseOf(c, Uuid(1)) == Uuid(0) && !IsRoot(c.messages[Uuid(1)]);
    WalkBackStep(c, Uuid(1), 2);
    assert CauseOf(c, Uuid(2)) == Uuid(1) && !IsRoot(c.messages[Uuid(2)]);
    WalkBackStep(c, Uuid(2), 3);
  }

  /** In the three-generation chain the root has the child as its one effect, and the child the root as parent. */
  lemma ThreeGenerationsLinks()
    ensures GetCausedBy(ThreeGenerations(), Uuid(0)) == [Gen1()]
    ensures GetParent(ThreeGenerations(), Uuid(1)) == Some(Gen0())
  {
    StoredAll(ThreeGenerations(), [Uuid(1)]);
  }

  /** The three-generation chain has depth 2. */
  lemma ThreeGenerationsDepth()
    ensures Depth(ThreeGenerations()) == 2
  {
    var c := ThreeGenerations();
    assert Children(c, Uuid(0)) == [Uuid(1)] && Children(c, Uuid(1)) == [Uuid(2)] && Children(c, Uuid(2)) == [];
    assert DepthFrom(c, Uuid(2), 1) == DepthOfKids(c, [], 0) == 0;
    assert DepthOfKids(c, [Uuid(2)], 1) == Max(1 + DepthFrom(c, Uuid(2), 1), DepthOfKids(c, [], 1)) == 1;
    assert DepthFrom(c, Uuid(1), 2) == 1;
    assert DepthOfKids(c, [Uuid(1)], 2) == Max(1 + DepthFrom(c, Uuid(1), 2), DepthOfKids(c, [], 2)) == 2;
  }

  /** In the three-generation chain the grandchild is two steps from the root. */
  lemma ThreeGenerationsDistance()
    ensures Distance(ThreeGenerations(), Uuid(0), Uuid(2)).Ok? && Distance(ThreeGenerations(), Uuid(0), Uuid(2)).value == 2
  {
    DistanceInThree(ThreeGenerations());
  }

  lemma DistanceInThree(c: CorrelationChain)
    requires StoresThreeGenerations(c)
    ensures Distance(c, Uuid(0), Uuid(2)).Ok? && Distance(c, Uuid(0), Uuid(2)).value == 2
  {
    PathsOfThree(c);
    RootPrefix();
    DistanceOfPaths(c, Uuid(0), Uuid(2), [Gen0()], [Gen0(), Gen1(), Gen2()]);
  }

  lemma RootPrefix()
    ensures LcaIndex([Gen0()], [Gen0(), Gen1(), Gen2()]) == 0
  {
    assert CommonPrefix([Gen0()], [Gen0(), Gen1(), Gen2()]) == 1;
  }

  lemma DistanceOfPaths(c: CorrelationChain, a: IdType, b: IdType, p1: seq<MessageIdentity>, p2: seq<MessageIdentity>)
    requires GetPathTo(c, a).Ok? && GetPathTo(c, a).value == p1 && GetPathTo(c, b).Ok? && GetPathTo(c, b).value == p2
    ensures Distance(c, a, b).Ok? && Distance(c, a, b).value == (|p1| - LcaIndex(p1, p2) - 1) + (|p2| - LcaIndex(p1, p2) - 1)
  {
    assert GetPathTo(c, a).value == p1 && GetPathTo(c, b).value == p2;
  }

  /** Three-generation chain's keys, parent first and child first. */
  lemma ThreeGenerationsOrders()
    ensures Enumerates([Uuid(0), Uuid(1), Uuid(2)], ThreeGenerations().messages.Keys)
    ensures Enumerates([Uuid(2), Uuid(1), Uuid(0)], ThreeGenerations().messages.Keys)
  {
    assert ThreeGenerations().messages.Keys == {Uuid(0), Uuid(1), Uuid(2)};
  }

  /**
   * Merging the three-generation chain into its bare root succeeds when the
   * hash map yields parents before children and fails when it yields the
   * grandchild first: `merge_chains` depends on iteration order.
   */
  lemma MergeOrderMatters()
    ensures var c1 := NewChain(Gen0()).value;
      var c2 := ThreeGenerations();
      && Enumerates([Uuid(0), Uuid(1), Uuid(2)], c2.messages.Keys)
      && Enumerates([Uuid(2), Uuid(1), Uuid(0)], c2.messages.Keys)
      && MergeChains(c1, c2, [Uuid(0), Uuid(1), Uuid(2)]) == Ok(c2)
      && MergeChains(c1, c2, [Uuid(2), Uuid(1), Uuid(0)]) == Err(InvalidIdentity)
  {
    ThreeGenerationsOrders();
    MergeParentsFirst();
    MergeGrandchildFirst();
  }

  lemma MergeParentsFirst()
    ensures MergeFrom(NewChain(Gen0()).value, ThreeGenerations(), [Uuid(0), Uuid(1), Uuid(2)], 0) == Ok(ThreeGenerations())
  {
    var c1 := NewChain(Gen0()).value;
    var c2 := ThreeGenerations();
    var order := [Uuid(0), Uuid(1), Uuid(2)];
    TwoGenerationsBuilt();
    ThreeGenerationsBuilt();
    var m1 := TwoGenerations();
    assert MergeFrom(c2, c2, order, 3) == Ok(c2);
    assert MergeFrom(m1, c2, order, 2) == MergeFrom(c2, c2, order, 3);
    assert MergeFrom(c1, c2, order, 1) == MergeFrom(m1, c2, order, 2);
  }

  lemma MergeGrandchildFirst()
    ensures MergeFrom(NewChain(Gen0()).value, ThreeGenerations(), [Uuid(2), Uuid(1), Uuid(0)], 0) == Err(InvalidIdentity)
  {
    var c1 := NewChain(Gen0()).value;
    assert AddMessage(c1, Gen2()) == Err(InvalidIdentity);
  }

  // ---------------------------------------------------------------------------
  // Re-adding an id
  // ---------------------------------------------------------------------------

  /**
   * A message reusing the child's id, of the same conversation, naming itself
   * as its cause: what `command_from_command` makes from the child when
   * handed the child's own UUID.
   */
  function SelfCausedChild(): (m: MessageIdentity)
    ensures m == CommandOrQueryFrom(1, Gen1())
  {
    MessageIdentity(Uuid(1), Gen0().correlationId, CausationId(Uuid(1)))
  }

  /** What `add_message` makes of the two-generation chain and the self-caused message. */
  function LoopedChain(): (c: CorrelationChain)
    ensures AddMessage(TwoGenerations(), SelfCausedChild()) == Ok(c)
    ensures c == CorrelationChain(Gen0(), map[Uuid(0) := Gen0(), Uuid(1) := SelfCausedChild()],
      map[Uuid(1) := Uuid(1)], map[Uuid(0) := [Uuid(1)], Uuid(1) := [Uuid(1)]])
  {
    assert !IsRoot(SelfCausedChild());
    assert Children(TwoGenerations(), Uuid(1)) == [];
    assert [] + [Uuid(1)] == [Uuid(1)];
    AddMessage(TwoGenerations(), SelfCausedChild()).value
  }

  /**
   * `add_message` does not refuse an id already in the chain: re-adding the
   * child as its own cause is accepted, after which the child's causation
   * loops on itself. `has_cycles` then reports a cycle, whatever the key
   * order, the walk of `get_path_to` from the child never reaches a root
   * (the source loops forever; the model runs out of fuel).
   * `LoopedStaleChild` shows the stale child list left behind.
   */
  lemma ReAddedIdMakesLoop(order: seq<IdType>)
    requires Enumerates(order, LoopedChain().messages.Keys)
    ensures AddMessage(TwoGenerations(), SelfCausedChild()).Ok?
    ensures HasCycles(LoopedChain(), order)
    ensures GetPathTo(LoopedChain(), Uuid(1)) == Err(CyclicCausation)
  {
    LoopedHasCycle(order);
    LoopedWalk();
  }

  /** The root still lists the overwritten id as its child, now holding a message caused by itself. */
  lemma LoopedStaleChild()
    ensures GetCausedBy(LoopedChain(), Uuid(0)) == [SelfCausedChild()] && SelfCausedChild().causationId.id != Uuid(0)
  {
    var c := LoopedChain();
    assert Children(c, Uuid(0)) == [Uuid(1)];
    StoredAll(c, [Uuid(1)]);
  }

  lemma LoopedHasCycle(order: seq<IdType>)
    requires Enumerates(order, LoopedChain().messages.Keys)
    ensures HasCycles(LoopedChain(), order)
  {
    var c := LoopedChain();
    assert c.messages.Keys == {Uuid(0), Uuid(1)};
    assert |c.messages| + 1 == 3;
    assert Uuid(0) in c.messages;
    assert |order| > 0;
    assert order[0] == Uuid(0) || order[0] == Uuid(1);
    LoopedDfsFromRoot();
    LoopedDfsFromChild();
    assert DfsNode(c, order[0], {}, {}, 3).0;
    assert HasCyclesFrom(c, order, 0, {}, 3);
  }

  lemma LoopedDfsFromChild()
    ensures DfsNode(LoopedChain(), Uuid(1), {}, {}, 3).0
  {
    var c := LoopedChain();
    assert Children(c, Uuid(1)) == [Uuid(1)];
    assert DfsNode(c, Uuid(1), {Uuid(1)}, {Uuid(1)}, 2).0;
    assert DfsKids(c, [Uuid(1)], {Uuid(1)}, {Uuid(1)}, 2).0;
  }

  lemma LoopedDfsFromRoot()
    ensures DfsNode(LoopedChain(), Uuid(0), {}, {}, 3).0
  {
    var c := LoopedChain();
    var both := {Uuid(0), Uuid(1)};
    assert Children(c, Uuid(1)) == [Uuid(1)] && Children(c, Uuid(0)) == [Uuid(1)];
    assert DfsNode(c, Uuid(1), both, both, 1).0;
    assert DfsKids(c, [Uuid(1)], both, both, 1).0;
    assert {Uuid(0)} + {Uuid(1)} == both;
    assert DfsNode(c, Uuid(1), {Uuid(0)}, {Uuid(0)}, 2).0;
    assert DfsKids(c, [Uuid(1)], {Uuid(0)}, {Uuid(0)}, 2).0;
  }

  lemma LoopedWalk()
    ensures GetPathTo(LoopedChain(), Uuid(1)) == Err(CyclicCausation)
  {
    var c := LoopedChain();
    assert c.messages[Uuid(1)] == SelfCausedChild() && !IsRoot(SelfCausedChild());
    assert WalkBack(c, Uuid(1), 0) == Err(CyclicCausation);
    assert WalkBack(c, Uuid(1), 1) == Err(CyclicCausation);
    assert WalkBack(c, Uuid(1), 2) == Err(CyclicCausation);
  }

  /**
   * With ids kept unique, as `AddFresh` does, the self-caused message is
   * refused, and every chain grown from a new chain stays free of cycles,
   * with a path for every message and only true children listed by
   * `get_caused_by`.
   */
  lemma AddFreshKeepsAcyclic(c: CorrelationChain, m: MessageIdentity, order: seq<IdType>)
    requires IsRankedChain(c) && AddFresh(c, m).Ok? && Enumerates(order, AddFresh(c, m).value.messages.Keys)
    ensures !HasCycles(AddFresh(c, m).value, order)
    ensures forall id :: id in AddFresh(c, m).value.messages ==> GetPathTo(AddFresh(c, m).value, id).Ok?
    ensures forall id, x :: x in GetCausedBy(AddFresh(c, m).value, id) ==> x.causationId.id == id && !IsRoot(x)
  {
    AddFreshRanked(c, m);
    forall id, x | x in GetCausedBy(AddFresh(c, m).value, id)
      ensures x.causationId.id == id && !IsRoot(x)
    {
      GetCausedByIsCaused(AddFresh(c, m).value, id, x);
    }
    RankedChainsHaveNoCycles(AddFresh(c, m).value, order);
    forall id | id in AddFresh(c, m).value.messages
      ensures GetPathTo(AddFresh(c, m).value, id).Ok?
    {
      PathsOfRankedChains(AddFresh(c, m).value, id);
    }
  }

  lemma AddFreshRefusesReAdd()
    ensures AddFresh(TwoGenerations(), SelfCausedChild()) == Err(InvalidIdentity)
  {
  }
}
