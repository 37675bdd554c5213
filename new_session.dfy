/**
 * The "new mediation session" form: a list of two to six participants that the user grows,
 * shrinks and edits field by field, and the check run on submit before the session is sent.
 */
module NewSession {
  import opened Wrappers
  import opened JsString

  datatype Participant = Participant(name: string, role: string, perspective: string)

  /** The `keyof Participant` an edit names. */
  datatype Field = Name | Role | Perspective

  const EmptyParticipant: Participant := Participant("", "", "")
  const MinParticipants: nat := 2
  const MaxParticipants: nat := 6

  function FieldOf(p: Participant, f: Field): string
  {
    match f
    case Name => p.name
    case Role => p.role
    case Perspective => p.perspective
  }

  /** `participant[field] = value`: that field takes the value, the other two keep theirs. */
  function WithField(p: Participant, f: Field, value: string): (r: Participant)
    ensures FieldOf(r, f) == value
    ensures forall g :: g != f ==> FieldOf(r, g) == FieldOf(p, g)
  {
    match f
    case Name => p.(name := value)
    case Role => p.(role := value)
    case Perspective => p.(perspective := value)
  }

  /** `s.filter((_, i) => i !== index)`: exactly the entry at `index` goes, the rest keep their order. */
  function WithoutIndex<T>(s: seq<T>, index: int): (r: seq<T>)
    ensures r == if 0 <= index < |s| then s[..index] + s[index + 1..] else s
  {
    if s == [] then []
    else
      var last := |s| - 1;
      var front := WithoutIndex(s[..last], index);
      if last == index then
        assert s[..index] + s[index + 1..] == s[..last];
        front
      else
        assert s == s[..last] + [s[last]];
        if 0 <= index < last then
          assert s[..last][..index] == s[..index];
          assert s[..last][index + 1..] + [s[last]] == s[index + 1..];
          front + [s[last]]
        else
          front + [s[last]]
  }

  /** `addParticipant`: one empty entry more, unless there are six already. */
  function Added(ps: seq<Participant>): (r: seq<Participant>)
    ensures |r| == if |ps| < MaxParticipants then |ps| + 1 else |ps|
    ensures r[..|ps|] == ps
    ensures |r| > |ps| ==> r[|ps|] == EmptyParticipant
  {
    if |ps| < MaxParticipants then ps + [EmptyParticipant] else ps
  }

  /** `removeParticipant(index)`: drops entry `index`, unless only two are left. */
  function Removed(ps: seq<Participant>, index: int): (r: seq<Participant>)
    ensures |ps| > MinParticipants && 0 <= index < |ps| ==> r == ps[..index] + ps[index + 1..]
    ensures |ps| <= MinParticipants || index < 0 || index >= |ps| ==> r == ps
  {
    if |ps| > MinParticipants then WithoutIndex(ps, index) else ps
  }

  /** `updateParticipant(index, field, value)` on a valid index. */
  function Updated(ps: seq<Participant>, index: int, f: Field, value: string): (r: seq<Participant>)
    requires 0 <= index < |ps|
    ensures |r| == |ps| && FieldOf(r[index], f) == value
    ensures forall g :: g != f ==> FieldOf(r[index], g) == FieldOf(ps[index], g)
    ensures forall j :: 0 <= j < |ps| && j != index ==> r[j] == ps[j]
  {
    ps[index := WithField(ps[index], f, value)]
  }

  /** One user action on the participant list. */
  datatype Edit = Add | Remove(index: int) | Update(index: int, field: Field, value: string)

  /**
   * The list after a series of actions, or `None` once an update names an index that is not
   * in the list (the source then fails with a TypeError).
   */
  function ApplyEdits(ps: seq<Participant>, edits: seq<Edit>): Option<seq<Participant>>
    decreases |edits|
  {
    if edits == [] then Some(ps)
    else
      match edits[0]
      case Add => ApplyEdits(Added(ps), edits[1..])
      case Remove(i) => ApplyEdits(Removed(ps, i), edits[1..])
      case Update(i, f, v) =>
        if 0 <= i < |ps| then ApplyEdits(Updated(ps, i, f, v), edits[1..]) else None
  }

  /** Whatever the user adds, removes and edits, the list keeps between two and six entries. */
  lemma {:induction false} EditsKeepBounds(ps: seq<Participant>, edits: seq<Edit>)
    requires MinParticipants <= |ps| <= MaxParticipants
    ensures ApplyEdits(ps, edits).Some? ==>
      MinParticipants <= |ApplyEdits(ps, edits).value| <= MaxParticipants
    decreases |edits|
  {
    if edits != [] {
      match edits[0]
      case Add => EditsKeepBounds(Added(ps), edits[1..]);
      case Remove(i) => EditsKeepBounds(Removed(ps, i), edits[1..]);
      case Update(i, f, v) =>
        if 0 <= i < |ps| {
          EditsKeepBounds(Updated(ps, i, f, v), edits[1..]);
        }
    }
  }

  /** Some text in both the name and the perspective, once surrounding whitespace is ignored. */
  ghost predicate HasContent(p: Participant)
  {
    !AllSpace(p.name) && !AllSpace(p.perspective)
  }

  /** The filter of `handleSubmit`: `p.name.trim() && p.perspective.trim()`. */
  function IsValidParticipant(p: Participant): (r: bool)
    ensures r <==> HasContent(p)
  {
    Trim(p.name) != "" && Trim(p.perspective) != ""
  }

  /** The participants that are sent: those with a non-blank name and perspective. */
  function ValidParticipants(ps: seq<Participant>): (r: seq<Participant>)
    ensures |r| <= |ps|
    ensures forall p :: p in r <==> p in ps && HasContent(p)
  {
    if ps == [] then []
    else
      var rest := ValidParticipants(ps[1..]);
      assert forall p :: p in ps <==> p == ps[0] || p in ps[1..];
      if IsValidParticipant(ps[0]) then [ps[0]] + rest else rest
  }

  /** The filter keeps the original order: filtering a concatenation concatenates the filtered parts. */
  lemma {:induction false} ValidParticipantsConcat(a: seq<Participant>, b: seq<Participant>)
    ensures ValidParticipants(a + b) == ValidParticipants(a) + ValidParticipants(b)
  {
    if a != [] {
      var c := a + b;
      assert c[0] == a[0] && c[1..] == a[1..] + b;
      ValidParticipantsFirst(c);
      ValidParticipantsFirst(a);
      ValidParticipantsConcat(a[1..], b);
    } else {
      assert a + b == b;
    }
  }

  /** The filter decides on the first participant, then filters the rest. */
  lemma ValidParticipantsFirst(ps: seq<Participant>)
    requires ps != []
    ensures ValidParticipants(ps) ==
      (if IsValidParticipant(ps[0]) then [ps[0]] else []) + ValidParticipants(ps[1..])
  {
  }

  /** What `handleSubmit` hands to the session request. */
  datatype SessionRequest = SessionRequest(
    relationshipContext: string,
    argumentCategory: string,
    participants: seq<Participant>)

  /** The two warnings shown instead of submitting, or the request that is sent. */
  datatype SubmitOutcome = MissingInformation | NeedMoreParticipants | Submitted(request: SessionRequest)

  /** The form's state: the two selections and the participant list. */
  class NewSessionForm {
    var relationshipContext: string
    var argumentCategory: string
    var participants: seq<Participant>

    ghost predicate Valid()
      reads this
    {
      MinParticipants <= |participants| <= MaxParticipants
    }

    /** Nothing selected, and two empty participants. */
    constructor ()
      ensures Valid()
      ensures relationshipContext == "" && argumentCategory == ""
      ensures participants == [EmptyParticipant, EmptyParticipant]
    {
      relationshipContext := "";
      argumentCategory := "";
      participants := [EmptyParticipant, EmptyParticipant];
    }

    /** The relationship selector's `onValueChange`. */
    method SetRelationshipContext(value: string)
      modifies this
      ensures relationshipContext == value
      ensures argumentCategory == old(argumentCategory) && participants == old(participants)
    {
      relationshipContext := value;
    }

    /** The category selector's `onValueChange`. */
    method SetArgumentCategory(value: string)
      modifies this
      ensures argumentCategory == value
      ensures relationshipContext == old(relationshipContext) && participants == old(participants)
    {
      argumentCategory := value;
    }

    /** Appends an empty participant when there are fewer than six, else changes nothing. */
    method AddParticipant()
      requires Valid()
      modifies this
      ensures Valid()
      ensures old(|participants|) < MaxParticipants ==> participants == old(participants) + [EmptyParticipant]
      ensures old(|participants|) >= MaxParticipants ==> participants == old(participants)
      ensures relationshipContext == old(relationshipContext) && argumentCategory == old(argumentCategory)
    {
      participants := Added(participants);
    }

    /**
     * With more than two entries, removes exactly the one at `index` (none if `index` is not
     * a position of the list) and keeps the others in order; with two, changes nothing.
     */
    method RemoveParticipant(index: int)
      requires Valid()
      modifies this
      ensures Valid()
      ensures old(|participants|) > MinParticipants && 0 <= index < old(|participants|) ==>
        participants == old(participants)[..index] + old(participants)[index + 1..]
      ensures !(old(|participants|) > MinParticipants && 0 <= index < old(|participants|)) ==>
        participants == old(participants)
      ensures relationshipContext == old(relationshipContext) && argumentCategory == old(argumentCategory)
    {
      participants := Removed(participants, index);
    }

    /** Sets one field of one entry; the length and every other entry and field stay as they were. */
    method UpdateParticipant(index: int, field: Field, value: string)
      requires Valid() && 0 <= index < |participants|
      modifies this
      ensures Valid()
      ensures |participants| == old(|participants|)
      ensures FieldOf(participants[index], field) == value
      ensures forall g :: g != field ==> FieldOf(participants[index], g) == FieldOf(old(participants)[index], g)
      ensures forall j :: 0 <= j < |participants| && j != index ==> participants[j] == old(participants)[j]
      ensures relationshipContext == old(relationshipContext) && argumentCategory == old(argumentCategory)
    {
      participants := Updated(participants, index, field, value);
    }

    /**
     * Rejects a missing selection first, then fewer than two participants with content;
     * otherwise sends exactly the participants with content, in their order.
     */
    method HandleSubmit() returns (outcome: SubmitOutcome)
      ensures outcome.MissingInformation? <==> relationshipContext == "" || argumentCategory == ""
      ensures outcome.NeedMoreParticipants? <==>
        relationshipContext != "" && argumentCategory != ""
        && |ValidParticipants(participants)| < MinParticipants
      ensures outcome.Submitted? ==>
        outcome.request == SessionRequest(relationshipContext, argumentCategory, ValidParticipants(participants))
      ensures outcome.Submitted? ==>
        MinParticipants <= |outcome.request.participants|
        && forall p :: p in outcome.request.participants ==> p in participants && HasContent(p)
    {
      if relationshipContext == "" || argumentCategory == "" {
        return MissingInformation;
      }
      var validParticipants := ValidParticipants(participants);
      if |validParticipants| < MinParticipants {
        return NeedMoreParticipants;
      }
      return Submitted(SessionRequest(relationshipContext, argumentCategory, validParticipants));
    }
  }
}
