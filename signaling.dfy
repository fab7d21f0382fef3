/** Background actions of the signalling thread (`src/signaling.rs`): the action
    record, its conversion into a transaction, and the bucket of pending actions. */
module Signaling {
  import opened Wrappers
  import opened Bytes
  import opened Nodes
  import opened Sorting
  import opened Transactions

  /** `Type`: what a signalling action asks for. */
  datatype Type = Ping | Pong | Lookup | Details

  /** `SignalingAction`: the action, its target and its uuid. */
  datatype SignalingAction = SignalingAction(action: Type, target: Address, uuid: Bytes16)

  /** `SignalingAction::pong`. */
  function PongAction(address: Address, uuid: Bytes16): (r: SignalingAction)
    ensures r.action == Type.Pong && r.target == address && r.uuid == uuid
  {
    SignalingAction(Type.Pong, address, uuid)
  }

  /** `SignalingAction::details`. */
  function DetailsAction(address: Address, uuid: Bytes16): (r: SignalingAction)
    ensures r.action == Type.Details && r.target == address && r.uuid == uuid
  {
    SignalingAction(Type.Details, address, uuid)
  }

  /** The class each action type is sent as. */
  function ClassOf(t: Type): Class
  {
    match t
    case Lookup => Class.Lookup
    case Details => Class.Details
    case Ping => Class.Ping
    case Pong => Class.Pong
  }

  /** `SignalingAction::to_transaction`: a message of the matching class from the
      centre to the action's target, with the default topic and an empty body. The
      fresh uuid and the creation time are parameters. */
  function ToTransaction(a: SignalingAction, center: Address, uuid: Bytes16, created: int): (t: Transaction)
    ensures t.uuid == uuid && t.created == created
    ensures t.message == Message(ClassOf(a.action), center, a.target, DefaultAddress(), [])
  {
    Transaction(uuid, created, Message(ClassOf(a.action), center, a.target, DefaultAddress(), []))
  }

  /** The four action types go out as four different classes, each the class of the
      same name. */
  lemma ClassOfFacts(s: Type, t: Type)
    ensures ClassOf(s) == ClassOf(t) ==> s == t
    ensures ClassOf(Type.Lookup) == Class.Lookup && ClassOf(Type.Details) == Class.Details
    ensures ClassOf(Type.Ping) == Class.Ping && ClassOf(Type.Pong) == Class.Pong
  {
  }

  /** A pong or details answer goes back to the address it names and keeps the
      uuid of the request it answers. */
  lemma AnswerTransaction(address: Address, uuid: Bytes16, center: Address, id: Bytes16, created: int)
    ensures var t := ToTransaction(PongAction(address, uuid), center, id, created);
      t.message.kind == Class.Pong && t.message.target == address && t.message.source == center
    ensures var t := ToTransaction(DetailsAction(address, uuid), center, id, created);
      t.message.kind == Class.Details && t.message.target == address && t.message.source == center
  {
  }

  // ---------------------------------------------------------------
  // The action bucket
  // ---------------------------------------------------------------

  predicate HasUuid(s: seq<SignalingAction>, uuid: Bytes16)
  {
    exists i :: 0 <= i < |s| && s[i].uuid == uuid
  }

  predicate UniqueUuids(s: seq<SignalingAction>)
  {
    forall i, j :: 0 <= i < j < |s| ==> s[i].uuid != s[j].uuid
  }

  /** `ActionBucket::add`: pushes the action unless one with its uuid is pending. */
  function AddAction(s: seq<SignalingAction>, action: SignalingAction): (r: seq<SignalingAction>)
    ensures HasUuid(s, action.uuid) ==> r == s
    ensures !HasUuid(s, action.uuid) ==> r == s + [action]
    ensures UniqueUuids(s) ==> UniqueUuids(r)
    ensures HasUuid(r, action.uuid)
  {
    match FirstIndex(s, (e: SignalingAction) => e.uuid == action.uuid)
    case None =>
      assert (s + [action])[|s|] == action;
      s + [action]
    case Some(_) => s
  }

  /** `ActionBucket::remove` as written: the guard is inverted, so a pending uuid
      leaves the bucket unchanged and an unknown uuid unwraps `None` and panics. */
  function RemoveAction(s: seq<SignalingAction>, uuid: Bytes16): (r: (seq<SignalingAction>, Outcome))
  {
    match FirstIndex(s, (e: SignalingAction) => e.uuid == uuid)
    case None => (s, Fail(Panicked))
    case Some(_) => (s, Pass)
  }

  /** `remove` never removes anything: a pending uuid stays pending and an unknown
      one panics. */
  lemma RemoveActionFacts(s: seq<SignalingAction>, uuid: Bytes16)
    ensures RemoveAction(s, uuid).0 == s
    ensures RemoveAction(s, uuid).1 == Pass <==> HasUuid(s, uuid)
    ensures RemoveAction(s, uuid).1.Fail? ==> RemoveAction(s, uuid).1.error == Panicked
    ensures HasUuid(s, uuid) ==> HasUuid(RemoveAction(s, uuid).0, uuid)
  {
  }

  /** `ActionBucket`: the pending actions, oldest first. */
  class ActionBucket {
    var actions: seq<SignalingAction>

    ghost predicate Valid()
      reads this
    {
      UniqueUuids(actions)
    }

    /** `ActionBucket::new`. */
    constructor ()
      ensures actions == [] && Valid()
    {
      actions := [];
    }

    /** `ActionBucket::get`: the oldest pending action. */
    function Get(): (r: Option<SignalingAction>)
      reads this
      ensures r.None? <==> actions == []
      ensures r.Some? ==> r.value == actions[0]
    {
      if actions == [] then None else Some(actions[0])
    }

    /** `ActionBucket::add`. */
    method Add(action: SignalingAction)
      requires Valid()
      modifies this
      ensures Valid()
      ensures actions == AddAction(old(actions), action)
    {
      var index := Position(actions, (e: SignalingAction) => e.uuid == action.uuid);
      if index.None? {
        actions := actions + [action];
      }
    }

    /** `ActionBucket::remove`: the bucket is never changed; an unknown uuid is a
        panic. */
    method Remove(uuid: Bytes16) returns (r: Outcome)
      requires Valid()
      modifies this
      ensures Valid()
      ensures (actions, r) == RemoveAction(old(actions), uuid)
    {
      var index := Position(actions, (e: SignalingAction) => e.uuid == uuid);
      if index.None? {
        return Fail(Panicked);
      }
      return Pass;
    }

    /** `ActionBucket::len`. */
    function Len(): (r: nat)
      reads this
      ensures r == |actions|
    {
      |actions|
    }
  }
}
