/**
 The bytes behind a global handle's slot: state and flags share one byte, the wrapper
 class id has two of its own. Over every run of updates they act as independent fields.
 */
module NodeBits {

  const STATE_MASK: bv8 := 0x3
  const WEAK: bv8 := 2

  /** `1 << shift` in a byte. */
  function FlagBit(shift: nat): bv8
    requires shift < 8
  {
    match shift
    case 0 => 1 case 1 => 2 case 2 => 4 case 3 => 8
    case 4 => 16 case 5 => 32 case 6 => 64 case _ => 128
  }

  /** It is 1 moved up by `shift` places, and so one bit that no other flag has. */
  lemma FlagBitIsShift(shift: nat, other: nat)
    requires shift < 8 && other < 8
    ensures FlagBit(0) == 1 && (shift < 7 ==> FlagBit(shift + 1) == FlagBit(shift) << 1)
    ensures FlagBit(shift) & FlagBit(other) == if shift == other then FlagBit(shift) else 0
    ensures FlagBit(shift) != 0 && (FlagBit(shift) & STATE_MASK == 0 <==> 2 <= shift)
  {}

  /** The three bytes: the class id, low byte first, and the byte of state and flags. */
  datatype Bytes = Bytes(idLow: bv8, idHigh: bv8, flags: bv8)

  function GetNodeFlag(b: Bytes, shift: nat): bv8
    requires shift < 8
  {
    b.flags & FlagBit(shift)
  }

  function FlagByte(flags: bv8, value: bool, shift: nat): bv8
    requires shift < 8
  {
    (flags & !FlagBit(shift)) | (if value then FlagBit(shift) else 0)
  }

  /** `UpdateNodeFlag`. */
  function WithFlag(b: Bytes, value: bool, shift: nat): Bytes
    requires shift < 8
  {
    b.(flags := FlagByte(b.flags, value, shift))
  }

  function GetNodeState(b: Bytes): bv8 {
    b.flags & STATE_MASK
  }

  /** `UpdateNodeState`. */
  function WithState(b: Bytes, value: bv8): Bytes {
    b.(flags := (b.flags & !STATE_MASK) | value)
  }

  function WrapperClassId(b: Bytes): bv16 {
    (b.idHigh as bv16 << 8) | b.idLow as bv16
  }

  /** `SetWrapperClassId`. */
  function WithClassId(b: Bytes, id: bv16): Bytes {
    b.(idLow := (id & 0xff) as bv8, idHigh := (id >> 8) as bv8)
  }

  predicate IsWeak(b: Bytes) {
    GetNodeState(b) == WEAK
  }

  // ---------------------------------------------------------------- the independent fields

  /** State, the flags that are set among those from shift 2 up, and class id. */
  datatype Node = Node(state: bv8, flags: set<nat>, classId: bv16)

  predicate Flag(b: Bytes, shift: nat)
    requires shift < 8
  {
    GetNodeFlag(b, shift) != 0
  }

  ghost predicate SameFlags(b: Bytes, flags: set<nat>) {
    forall shift :: 2 <= shift < 8 ==> Flag(b, shift) == (shift in flags)
  }

  /** The bytes hold the record. */
  ghost predicate Holds(b: Bytes, n: Node) {
    GetNodeState(b) == n.state && SameFlags(b, n.flags) && WrapperClassId(b) == n.classId
  }

  /** The record that the reads give. */
  ghost function ReadAll(b: Bytes): Node {
    Node(GetNodeState(b), (set shift | 2 <= shift < 8 && Flag(b, shift)), WrapperClassId(b))
  }

  lemma EveryNodeHolds(b: Bytes)
    ensures Holds(b, ReadAll(b))
  {}

  datatype Update =
    | SetFlag(shift: nat, value: bool)
    | SetState(state: bv8)
    | SetClassId(id: bv16)
  {
    /** Flags above the state, states of two bits. */
    predicate Fits() {
      match this
      case SetFlag(shift, _) => 2 <= shift < 8
      case SetState(state) => state <= 3
      case SetClassId(_) => true
    }

    function ToBytes(b: Bytes): Bytes
      requires Fits()
    {
      match this
      case SetFlag(shift, value) => WithFlag(b, value, shift)
      case SetState(state) => WithState(b, state)
      case SetClassId(id) => WithClassId(b, id)
    }

    function ToNode(n: Node): Node {
      match this
      case SetFlag(shift, value) => n.(flags := if value then n.flags + {shift} else n.flags - {shift})
      case SetState(state) => n.(state := state)
      case SetClassId(id) => n.(classId := id)
    }

    predicate SameField(other: Update) {
      match this
      case SetFlag(shift, _) => other.SetFlag? && other.shift == shift
      case SetState(_) => other.SetState?
      case SetClassId(_) => other.SetClassId?
    }

    /** The record's field that this update writes has its value. */
    predicate InRecord(n: Node) {
      match this
      case SetFlag(shift, value) => (shift in n.flags) == value
      case SetState(state) => n.state == state
      case SetClassId(id) => n.classId == id
    }

    /** Reading that field from the bytes gives the value. */
    predicate Reads(b: Bytes)
      requires Fits()
    {
      match this
      case SetFlag(shift, value) => GetNodeFlag(b, shift) == if value then FlagBit(shift) else 0
      case SetState(state) => GetNodeState(b) == state && (IsWeak(b) <==> state == WEAK)
      case SetClassId(id) => WrapperClassId(b) == id
    }
  }

  lemma FlagWritten(x: bv8, value: bool, shift: nat, other: nat)
    requires shift < 8 && other < 8
    ensures FlagByte(x, value, shift) & FlagBit(other) ==
            if shift == other then (if value then FlagBit(shift) else 0) else x & FlagBit(other)
  {}

  /** A flag update keeps the state of every node if and only if the flag lies above it. */
  lemma FlagKeepsStateIff(shift: nat)
    requires shift < 8
    ensures (forall b, value :: GetNodeState(WithFlag(b, value, shift)) == GetNodeState(b)) <==> 2 <= shift
  {
    if shift < 2 {
      var b := Bytes(0, 0, 0);
      assert GetNodeState(WithFlag(b, true, shift)) != GetNodeState(b);
    }
  }

  /** A state update keeps the flags of every node if and only if the state has two bits. */
  lemma StateKeepsFlagsIff(value: bv8)
    ensures (forall b, shift :: 2 <= shift < 8 ==> Flag(WithState(b, value), shift) == Flag(b, shift)) <==> value <= 3
  {
    if value > 3 {
      var b := Bytes(0, 0, 0);
      var shift := HighBit(value);
      assert Flag(WithState(b, value), shift) && !Flag(b, shift);
    }
  }

  lemma HighBit(value: bv8) returns (shift: nat)
    requires value > 3
    ensures 2 <= shift < 8 && value & FlagBit(shift) != 0
  {
    shift := if value & 4 != 0 then 2 else if value & 8 != 0 then 3 else if value & 16 != 0 then 4
      else if value & 32 != 0 then 5 else if value & 64 != 0 then 6 else 7;
  }

  lemma StateWritten(x: bv8, state: bv8)
    requires state <= 3
    ensures ((x & !STATE_MASK) | state) & STATE_MASK == state
  {}

  lemma IdWritten(id: bv16)
    ensures (((id >> 8) as bv8) as bv16 << 8) | ((id & 0xff) as bv8) as bv16 == id
  {}

  lemma FlagAfter(b: Bytes, value: bool, shift: nat, other: nat)
    requires shift < 8 && other < 8
    ensures Flag(WithFlag(b, value, shift), other) == if other == shift then value else Flag(b, other)
  {
    FlagWritten(b.flags, value, shift, other);
  }

  lemma FlagsAfterFlag(b: Bytes, value: bool, shift: nat, flags: set<nat>)
    requires 2 <= shift < 8 && SameFlags(b, flags)
    ensures SameFlags(WithFlag(b, value, shift), if value then flags + {shift} else flags - {shift})
  {
    forall other | 2 <= other < 8
      ensures Flag(WithFlag(b, value, shift), other) == if other == shift then value else other in flags
    {
      FlagAfter(b, value, shift, other);
    }
  }

  lemma FlagsAfterState(b: Bytes, state: bv8, flags: set<nat>)
    requires state <= 3 && SameFlags(b, flags)
    ensures SameFlags(WithState(b, state), flags)
  {
    StateKeepsFlagsIff(state);
  }

  lemma HoldsAfterFlag(b: Bytes, n: Node, value: bool, shift: nat)
    requires 2 <= shift < 8 && Holds(b, n)
    ensures Holds(WithFlag(b, value, shift), SetFlag(shift, value).ToNode(n))
  {
    FlagsAfterFlag(b, value, shift, n.flags);
    FlagKeepsStateIff(shift);
  }

  lemma HoldsAfterState(b: Bytes, n: Node, state: bv8)
    requires state <= 3 && Holds(b, n)
    ensures Holds(WithState(b, state), SetState(state).ToNode(n))
  {
    FlagsAfterState(b, state, n.flags);
    StateWritten(b.flags, state);
  }

  /** The first byte is the low half of the class id, the second one the high half. */
  lemma ClassIdBytes(b: Bytes)
    ensures WrapperClassId(b) & 0xff == b.idLow as bv16
    ensures WrapperClassId(b) >> 8 == b.idHigh as bv16
  {}

  lemma HoldsAfterClassId(b: Bytes, n: Node, id: bv16)
    requires Holds(b, n)
    ensures Holds(WithClassId(b, id), SetClassId(id).ToNode(n))
  {
    IdWritten(id);
  }

  /** One update of the bytes is one update of the fields. */
  lemma UpdateRefines(b: Bytes, n: Node, u: Update)
    requires u.Fits() && Holds(b, n)
    ensures Holds(u.ToBytes(b), u.ToNode(n))
  {
    match u
    case SetFlag(shift, value) => HoldsAfterFlag(b, n, value, shift);
    case SetState(state) => HoldsAfterState(b, n, state);
    case SetClassId(id) => HoldsAfterClassId(b, n, id);
  }

  // ---------------------------------------------------------------- runs

  function BytesAfter(b: Bytes, us: seq<Update>): Bytes
    requires forall u <- us :: u.Fits()
  {
    if us == [] then b else us[|us| - 1].ToBytes(BytesAfter(b, us[..|us| - 1]))
  }

  function NodeAfter(n: Node, us: seq<Update>): Node {
    if us == [] then n else us[|us| - 1].ToNode(NodeAfter(n, us[..|us| - 1]))
  }

  lemma {:induction false} HoldsAfterRun(b: Bytes, n: Node, us: seq<Update>)
    requires Holds(b, n) && forall u <- us :: u.Fits()
    ensures Holds(BytesAfter(b, us), NodeAfter(n, us))
  {
    if us == [] {
    } else {
      var k := |us| - 1;
      HoldsAfterRun(b, n, us[..k]);
      UpdateRefines(BytesAfter(b, us[..k]), NodeAfter(n, us[..k]), us[k]);
    }
  }

  /** Any three bytes, and any run on them: the bytes hold the record of independent fields
      that the same run makes of what the source reads from the bytes before; and a node is
      weak exactly when the record's state says so. */
  lemma RunRefines(b: Bytes, us: seq<Update>)
    requires forall u <- us :: u.Fits()
    ensures Holds(BytesAfter(b, us), NodeAfter(ReadAll(b), us))
    ensures IsWeak(BytesAfter(b, us)) <==> NodeAfter(ReadAll(b), us).state == WEAK
  {
    EveryNodeHolds(b);
    HoldsAfterRun(b, ReadAll(b), us);
  }

  lemma {:induction false} RecordHasLastWrite(n: Node, us: seq<Update>, k: nat)
    requires k < |us| && forall l :: k < l < |us| ==> !us[k].SameField(us[l])
    ensures us[k].InRecord(NodeAfter(n, us))
  {
    var last := |us| - 1;
    if k == last {
    } else {
      assert us[..last][k] == us[k];
      RecordHasLastWrite(n, us[..last], k);
    }
  }

  lemma FlagIsBit(x: bv8, shift: nat)
    requires shift < 8
    ensures x & FlagBit(shift) == 0 || x & FlagBit(shift) == FlagBit(shift) != 0
  {}

  /** What the record holds is what the source reads. */
  lemma ReadsRecord(b: Bytes, n: Node, u: Update)
    requires u.Fits() && Holds(b, n)
    ensures u.Reads(b) <==> u.InRecord(n)
  {
    match u
    case SetFlag(shift, value) => ReadsFlag(b, n, shift, value);
    case SetState(_) =>
    case SetClassId(_) =>
  }

  lemma ReadsFlag(b: Bytes, n: Node, shift: nat, value: bool)
    requires 2 <= shift < 8 && SameFlags(b, n.flags)
    ensures SetFlag(shift, value).Reads(b) <==> (shift in n.flags) == value
  {
    FlagIsBit(b.flags, shift);
    assert Flag(b, shift) <==> shift in n.flags;
  }

  /** From any three bytes, over any run: reading a field of the bytes gives the value last
      written to it, whatever was written to the other fields since. */
  lemma ReadsLastWrite(b: Bytes, us: seq<Update>, k: nat)
    requires (forall u <- us :: u.Fits()) && k < |us|
    requires forall l :: k < l < |us| ==> !us[k].SameField(us[l])
    ensures us[k].Reads(BytesAfter(b, us))
  {
    RunRefines(b, us);
    RecordHasLastWrite(ReadAll(b), us, k);
    ReadsRecord(BytesAfter(b, us), NodeAfter(ReadAll(b), us), us[k]);
  }

  /** And a field that was never written keeps its value. */
  lemma {:induction false} UnwrittenKept(b: Bytes, us: seq<Update>, u: Update)
    requires (forall v <- us :: v.Fits() && !u.SameField(v)) && u.Fits() && u.Reads(b)
    ensures u.Reads(BytesAfter(b, us))
  {
    if us == [] {
    } else {
      var k := |us| - 1;
      UnwrittenKept(b, us[..k], u);
      var before := BytesAfter(b, us[..k]);
      var n := ReadAll(before);
      EveryNodeHolds(before);
      UpdateRefines(before, n, us[k]);
      ReadsRecord(before, n, u);
      ReadsRecord(BytesAfter(b, us), us[k].ToNode(n), u);
    }
  }

  // ---------------------------------------------------------------- in memory

  /** Whatever record the old bytes held, the new ones hold the updated record. */
  ghost predicate Refines(before: Bytes, after: Bytes, u: Update) {
    forall n :: Holds(before, n) ==> Holds(after, u.ToNode(n))
  }

  lemma Refined(b: Bytes, u: Update)
    requires u.Fits()
    ensures Refines(b, u.ToBytes(b), u)
  {
    forall n | Holds(b, n) ensures Holds(u.ToBytes(b), u.ToNode(n)) {
      UpdateRefines(b, n, u);
    }
  }

  /** The memory of a cell: the object's address in the first `word` bytes, then class id,
      index and flags. */
  class Cell {
    const word: nat
    const memory: array<bv8>

    constructor (word: nat, memory: array<bv8>)
      requires memory.Length >= word + 4
      ensures this.word == word && this.memory == memory
    {
      this.word, this.memory := word, memory;
    }

    ghost predicate Valid()
      reads this
    {
      memory.Length >= word + 4
    }

    function Contents(): Bytes
      requires Valid()
      reads this, memory
    {
      Bytes(memory[word], memory[word + 1], memory[word + 3])
    }

    /** The three bytes are now `b`, and all other memory is as before. */
    twostate predicate Stored(b: Bytes)
      requires Valid()
      reads this, memory
    {
      && Contents() == b
      && forall i :: 0 <= i < memory.Length && i != word && i != word + 1 && i != word + 3 ==> memory[i] == old(memory[i])
    }

    method UpdateNodeFlag(value: bool, shift: nat)
      requires Valid() && shift < 8
      modifies memory
      ensures Stored(WithFlag(old(Contents()), value, shift))
      ensures 2 <= shift ==> Refines(old(Contents()), Contents(), SetFlag(shift, value))
    {
      if 2 <= shift {
        Refined(Contents(), SetFlag(shift, value));
      }
      memory[word + 3] := FlagByte(memory[word + 3], value, shift);
    }

    method UpdateNodeState(state: bv8)
      requires Valid()
      modifies memory
      ensures Stored(WithState(old(Contents()), state))
      ensures state <= 3 ==> Refines(old(Contents()), Contents(), SetState(state))
    {
      if state <= 3 {
        Refined(Contents(), SetState(state));
      }
      memory[word + 3] := (memory[word + 3] & !STATE_MASK) | state;
    }

    method SetWrapperClassId(id: bv16)
      requires Valid()
      modifies memory
      ensures Stored(WithClassId(old(Contents()), id))
      ensures Refines(old(Contents()), Contents(), SetClassId(id))
    {
      Refined(Contents(), SetClassId(id));
      memory[word], memory[word + 1] := (id & 0xff) as bv8, (id >> 8) as bv8;
    }
  }
}
