/**
  Why a value could not be folded to a constant. Two reason kinds carry a
  payload: an unfoldable callee, and a trap with its message. The message is
  copied into the session's allocator with a terminating NUL and handed back as
  a C string.
 */
module UnknownReasons {
  import opened Types

  datatype UnknownKind =
    | Default
    | TooManyInstructions
    | Loop
    | Overflow
    | Trap
    | InvalidOperandValue
    | UnsupportedInstruction
    | CalleeImplementationUnknown
    | UntrackedSILValue
    | UnknownWitnessMethodConformance
    | NoWitnesTableEntry
    | NotTopLevelConstant
    | MutipleTopLevelWriters
    | ReturnedByUnevaluatedInstruction
    | MutatedByUnevaluatedInstruction

  /** The auxiliary information of a reason; `NoPayload` for the plain kinds. */
  datatype Payload =
    | NoPayload
    | Callee(callee: FunctionId)
    | TrapMessage(buffer: seq<char>)

  datatype UnknownReason = UnknownReason(kind: UnknownKind, payload: Payload)

  const NUL: char := '\0'

  /** The kinds whose reasons carry auxiliary information. */
  predicate IsUnknownKindWithPayload(kind: UnknownKind) {
    match kind
    case CalleeImplementationUnknown => true
    case Trap => true
    case _ => false
  }

  /**
    A reason as the three factories build it: the payload is the one its kind
    calls for, and a trap message buffer is NUL-terminated.
   */
  predicate ValidReason(r: UnknownReason) {
    match r.kind
    case CalleeImplementationUnknown => r.payload.Callee?
    case Trap => r.payload.TrapMessage? && |r.payload.buffer| > 0
                 && r.payload.buffer[|r.payload.buffer| - 1] == NUL
    case _ => r.payload.NoPayload?
  }

  /** A reason one of the three factories can build: what an unknown value records. */
  type Reason = r: UnknownReason | ValidReason(r) witness UnknownReason(Default, NoPayload)

  /** Reads a NUL-terminated buffer as a C string: everything before the first NUL. */
  function CString(buffer: seq<char>): (s: seq<char>)
    ensures NUL !in s
    ensures |s| <= |buffer| && buffer[..|s|] == s
    ensures |s| < |buffer| ==> buffer[|s|] == NUL
  {
    if |buffer| == 0 || buffer[0] == NUL then []
    else [buffer[0]] + CString(buffer[1..])
  }

  /** A reason without payload; the kind must not be one that carries one. */
  function Create(kind: UnknownKind): (r: UnknownReason)
    requires !IsUnknownKindWithPayload(kind)
    ensures ValidReason(r) && r.kind == kind
  {
    UnknownReason(kind, NoPayload)
  }

  /** The reason for a call whose callee has no body available. */
  function CreateCalleeImplementationUnknown(callee: FunctionId): (r: UnknownReason)
    ensures ValidReason(r) && r.kind == CalleeImplementationUnknown
    ensures GetCalleeWithoutImplementation(r) == callee
  {
    UnknownReason(CalleeImplementationUnknown, Callee(callee))
  }

  function GetCalleeWithoutImplementation(r: UnknownReason): FunctionId
    requires ValidReason(r) && r.kind == CalleeImplementationUnknown
  {
    r.payload.callee
  }

  /** A trap reason; the message is copied and NUL-terminated. */
  function CreateTrap(message: seq<char>): (r: UnknownReason)
    ensures ValidReason(r) && r.kind == Trap
    ensures |r.payload.buffer| == |message| + 1
    ensures forall i :: 0 <= i < |message| ==> r.payload.buffer[i] == message[i]
  {
    UnknownReason(Trap, TrapMessage(message + [NUL]))
  }

  /** The trap message, read as the C string the source hands out. */
  function GetTrapMessage(r: UnknownReason): seq<char>
    requires ValidReason(r) && r.kind == Trap
  {
    CString(r.payload.buffer)
  }

  /** A reason carries a payload exactly when its kind is one of the two payload kinds. */
  lemma PayloadIffPayloadKind(r: UnknownReason)
    requires ValidReason(r)
    ensures IsUnknownKindWithPayload(r.kind) <==> !r.payload.NoPayload?
  {
  }

  /** Reading a C string from `message + [NUL]` gives back `message` when it holds no NUL. */
  lemma {:induction false} CStringOfTerminated(message: seq<char>)
    requires NUL !in message
    ensures CString(message + [NUL]) == message
  {
    if |message| > 0 {
      assert (message + [NUL])[1..] == message[1..] + [NUL];
      CStringOfTerminated(message[1..]);
      assert [message[0]] + message[1..] == message;
    }
  }

  /**
    The trap message round-trips exactly when it holds no NUL; otherwise the
    reader stops at the first embedded NUL.
   */
  lemma TrapMessageRoundTrip(message: seq<char>)
    ensures GetTrapMessage(CreateTrap(message)) == message <==> NUL !in message
    ensures NUL in message ==> |GetTrapMessage(CreateTrap(message))| < |message|
  {
    if NUL !in message {
      CStringOfTerminated(message);
    }
  }

  /** Every valid reason is the result of one of the three factories. */
  lemma ValidReasonIsCreated(r: UnknownReason)
    requires ValidReason(r)
    ensures r.kind == CalleeImplementationUnknown ==>
              r == CreateCalleeImplementationUnknown(r.payload.callee)
    ensures r.kind == Trap ==>
              r == CreateTrap(r.payload.buffer[..|r.payload.buffer| - 1])
    ensures !IsUnknownKindWithPayload(r.kind) ==> r == Create(r.kind)
  {
    if r.kind == Trap {
      var b := r.payload.buffer;
      assert b[..|b| - 1] + [NUL] == b;
    }
  }
}
