/** The integer encodings of libserialport's enumerations as the binding declares them
    (libserialport/Libserialport.cs, region "enums"), the integer widths of its parameters,
    and the bit-mask semantics of its `[Flags]` enumerations. */
module Codes {
  import opened Results

  newtype byte = b: int | 0 <= b < 256

  /** C# `int` / `Int32`. */
  type i32 = x: int | -0x8000_0000 <= x < 0x8000_0000

  /** C# `UInt32`, the type of every millisecond timeout. */
  type u32 = x: int | 0 <= x < 0x1_0000_0000

  // ---------------------------------------------------------------- sp_return

  datatype SpReturn = SpOk | SpErrArg | SpErrFail | SpErrMem | SpErrSupp

  const SP_OK: int := 0
  const SP_ERR_ARG: int := -1
  const SP_ERR_FAIL: int := -2
  const SP_ERR_MEM: int := -3
  const SP_ERR_SUPP: int := -4

  function ReturnValue(r: SpReturn): int
  {
    match r
    case SpOk => SP_OK
    case SpErrArg => SP_ERR_ARG
    case SpErrFail => SP_ERR_FAIL
    case SpErrMem => SP_ERR_MEM
    case SpErrSupp => SP_ERR_SUPP
  }

  /** The `sp_return` member an integer stands for, if any: exactly 0, -1, -2, -3 and -4 are
      codes, and decoding undoes `ReturnValue`. */
  function ReturnOf(v: int): (r: Option<SpReturn>)
    ensures r.Some? <==> -4 <= v <= 0
    ensures r.Some? ==> ReturnValue(r.value) == v
  {
    if v == 0 then Some(SpOk)
    else if v == -1 then Some(SpErrArg)
    else if v == -2 then Some(SpErrFail)
    else if v == -3 then Some(SpErrMem)
    else if v == -4 then Some(SpErrSupp)
    else None
  }

  /** The native library reports errors only with one of the four negative codes. */
  predicate IsErrorCode(v: int)
  {
    v in {SP_ERR_ARG, SP_ERR_FAIL, SP_ERR_MEM, SP_ERR_SUPP}
  }

  lemma ReturnCodesDistinct(a: SpReturn, b: SpReturn)
    ensures ReturnValue(a) == ReturnValue(b) <==> a == b
    ensures ReturnOf(ReturnValue(a)) == Some(a)
  {
  }

  // ------------------------------------------------------ bit-mask semantics

  /** The value of a set of flags in which the i-th flag of `order` is bit i. */
  function MaskOf<F>(order: seq<F>, s: set<F>): nat
  {
    if order == [] then 0
    else (if order[0] in s then 1 else 0) + 2 * MaskOf(order[1..], s)
  }

  /** The flags of `order` whose bits are set in `v`. */
  function FlagsOf<F>(order: seq<F>, v: nat): set<F>
  {
    if order == [] then {}
    else (if v % 2 == 1 then {order[0]} else {}) + FlagsOf(order[1..], v / 2)
  }

  /** Bitwise OR of two non-negative integers, as C# `|` on a `[Flags]` enum. */
  function BitOr(x: nat, y: nat): nat
    decreases x + y
  {
    if x == 0 && y == 0 then 0
    else (if x % 2 == 1 || y % 2 == 1 then 1 else 0) + 2 * BitOr(x / 2, y / 2)
  }

  /** Bit 0 and the remaining bits of `b + 2 * rest`: the step that peels one flag off a
      mask in the inductions below. */
  lemma HalfOf(b: nat, rest: nat)
    requires b < 2
    ensures (b + 2 * rest) % 2 == b && (b + 2 * rest) / 2 == rest
  {
  }

  /** Decoding a mask gives back exactly the listed flags that were in the set. */
  lemma {:induction false} FlagsOfMaskOf<F>(order: seq<F>, s: set<F>)
    ensures FlagsOf(order, MaskOf(order, s)) == (set f | f in order && f in s)
  {
    if order != [] {
      var b := if order[0] in s then 1 else 0;
      var rest := MaskOf(order[1..], s);
      FlagsOfMaskOf(order[1..], s);
      HalfOf(b, rest);
      var head: set<F> := if b == 1 then {order[0]} else {};
      assert FlagsOf(order, MaskOf(order, s)) == head + (set f | f in order[1..] && f in s);
      forall f | f in order && f in s
        ensures f in head || f in order[1..]
      {
        if f != order[0] {
          var i :| 0 <= i < |order| && order[i] == f;
          assert order[1..][i - 1] == f;
        }
      }
    }
  }

  /** The mask of a union of flag sets is the bitwise OR of their masks. */
  lemma {:induction false} MaskOfUnion<F>(order: seq<F>, a: set<F>, b: set<F>)
    ensures MaskOf(order, a + b) == BitOr(MaskOf(order, a), MaskOf(order, b))
  {
    if order != [] {
      var x, y := MaskOf(order, a), MaskOf(order, b);
      var ba, bb := (if order[0] in a then 1 else 0), (if order[0] in b then 1 else 0);
      var ra, rb := MaskOf(order[1..], a), MaskOf(order[1..], b);
      MaskOfUnion(order[1..], a, b);
      assert x == ba + 2 * ra && y == bb + 2 * rb;
      HalfOf(ba, ra);
      HalfOf(bb, rb);
    }
  }

  // --------------------------------------------------------------- sp_mode

  datatype ModeFlag = ModeRead | ModeWrite
  const ModeOrder: seq<ModeFlag> := [ModeRead, ModeWrite]

  function ModeValue(m: set<ModeFlag>): nat { MaskOf(ModeOrder, m) }
  function ModeFlags(v: nat): set<ModeFlag> { FlagsOf(ModeOrder, v) }

  const SP_MODE_READ_WRITE: int := 3

  /** SP_MODE_READ = 1, SP_MODE_WRITE = 2 and SP_MODE_READ_WRITE = READ | WRITE = 3. */
  lemma ModeValues()
    ensures ModeValue({ModeRead}) == 1 && ModeValue({ModeWrite}) == 2
    ensures ModeValue({ModeRead, ModeWrite}) == SP_MODE_READ_WRITE
    ensures SP_MODE_READ_WRITE == BitOr(ModeValue({ModeRead}), ModeValue({ModeWrite}))
  {
    assert ModeOrder[1..] == [ModeWrite];
    assert ModeOrder[1..][1..] == [];
    MaskOfUnion(ModeOrder, {ModeRead}, {ModeWrite});
    assert {ModeRead} + {ModeWrite} == {ModeRead, ModeWrite};
  }

  lemma ModeRoundTrip(m: set<ModeFlag>)
    ensures ModeFlags(ModeValue(m)) == m
  {
    FlagsOfMaskOf(ModeOrder, m);
    forall f | f in m ensures f in ModeOrder {
      match f
      case ModeRead => assert ModeOrder[0] == ModeRead;
      case ModeWrite => assert ModeOrder[1] == ModeWrite;
    }
  }

  // -------------------------------------------------------------- sp_event

  datatype EventFlag = EventRxReady | EventTxReady | EventError
  const EventOrder: seq<EventFlag> := [EventRxReady, EventTxReady, EventError]

  function EventValue(m: set<EventFlag>): nat { MaskOf(EventOrder, m) }
  function EventFlags(v: nat): set<EventFlag> { FlagsOf(EventOrder, v) }

  /** SP_EVENT_RX_READY = 1, SP_EVENT_TX_READY = 2, SP_EVENT_ERROR = 4. */
  lemma EventValues()
    ensures EventValue({EventRxReady}) == 1
    ensures EventValue({EventTxReady}) == 2
    ensures EventValue({EventError}) == 4
  {
    assert EventOrder[1..] == [EventTxReady, EventError];
    assert EventOrder[1..][1..] == [EventError];
    assert EventOrder[1..][1..][1..] == [];
  }

  lemma EventRoundTrip(m: set<EventFlag>)
    ensures EventFlags(EventValue(m)) == m
  {
    FlagsOfMaskOf(EventOrder, m);
    forall f | f in m ensures f in EventOrder {
      match f
      case EventRxReady => assert EventOrder[0] == EventRxReady;
      case EventTxReady => assert EventOrder[1] == EventTxReady;
      case EventError => assert EventOrder[2] == EventError;
    }
  }

  // ------------------------------------------------------------- sp_buffer

  datatype BufferFlag = BufInput | BufOutput
  const BufferOrder: seq<BufferFlag> := [BufInput, BufOutput]

  function BufferValue(m: set<BufferFlag>): nat { MaskOf(BufferOrder, m) }
  function BufferFlags(v: nat): set<BufferFlag> { FlagsOf(BufferOrder, v) }

  const SP_BUF_BOTH: int := 3

  /** SP_BUF_INPUT = 1, SP_BUF_OUTPUT = 2 and SP_BUF_BOTH = INPUT | OUTPUT = 3. */
  lemma BufferValues()
    ensures BufferValue({BufInput}) == 1 && BufferValue({BufOutput}) == 2
    ensures BufferValue({BufInput, BufOutput}) == SP_BUF_BOTH
    ensures SP_BUF_BOTH == BitOr(BufferValue({BufInput}), BufferValue({BufOutput}))
  {
    assert BufferOrder[1..] == [BufOutput];
    assert BufferOrder[1..][1..] == [];
    MaskOfUnion(BufferOrder, {BufInput}, {BufOutput});
    assert {BufInput} + {BufOutput} == {BufInput, BufOutput};
  }

  lemma BufferRoundTrip(m: set<BufferFlag>)
    ensures BufferFlags(BufferValue(m)) == m
  {
    FlagsOfMaskOf(BufferOrder, m);
    forall f | f in m ensures f in BufferOrder {
      match f
      case BufInput => assert BufferOrder[0] == BufInput;
      case BufOutput => assert BufferOrder[1] == BufOutput;
    }
  }

  // ------------------------------------------------------------- sp_signal

  datatype SignalFlag = SigCts | SigDsr | SigDcd | SigRi
  const SignalOrder: seq<SignalFlag> := [SigCts, SigDsr, SigDcd, SigRi]

  function SignalValue(m: set<SignalFlag>): nat { MaskOf(SignalOrder, m) }
  function SignalFlags(v: nat): set<SignalFlag> { FlagsOf(SignalOrder, v) }

  /** SP_SIG_CTS = 1, SP_SIG_DSR = 2, SP_SIG_DCD = 4, SP_SIG_RI = 8. */
  lemma SignalValues()
    ensures SignalValue({SigCts}) == 1 && SignalValue({SigDsr}) == 2
    ensures SignalValue({SigDcd}) == 4 && SignalValue({SigRi}) == 8
  {
    assert SignalOrder[1..] == [SigDsr, SigDcd, SigRi];
    assert SignalOrder[1..][1..] == [SigDcd, SigRi];
    assert SignalOrder[1..][1..][1..] == [SigRi];
    assert SignalOrder[1..][1..][1..][1..] == [];
  }

  lemma SignalRoundTrip(m: set<SignalFlag>)
    ensures SignalFlags(SignalValue(m)) == m
  {
    FlagsOfMaskOf(SignalOrder, m);
    forall f | f in m ensures f in SignalOrder {
      match f
      case SigCts => assert SignalOrder[0] == SigCts;
      case SigDsr => assert SignalOrder[1] == SigDsr;
      case SigDcd => assert SignalOrder[2] == SigDcd;
      case SigRi => assert SignalOrder[3] == SigRi;
    }
  }

  // ------------------------------------------------------ value enumerations

  datatype ParityMode = ParityInvalid | ParityNone | ParityOdd | ParityEven | ParityMark | ParitySpace

  function ParityValue(p: ParityMode): int
  {
    match p
    case ParityInvalid => -1
    case ParityNone => 0
    case ParityOdd => 1
    case ParityEven => 2
    case ParityMark => 3
    case ParitySpace => 4
  }

  function ParityOf(v: int): (r: Option<ParityMode>)
    ensures r.Some? <==> -1 <= v <= 4
    ensures r.Some? ==> ParityValue(r.value) == v
  {
    if v == -1 then Some(ParityInvalid)
    else if v == 0 then Some(ParityNone)
    else if v == 1 then Some(ParityOdd)
    else if v == 2 then Some(ParityEven)
    else if v == 3 then Some(ParityMark)
    else if v == 4 then Some(ParitySpace)
    else None
  }

  datatype RtsMode = RtsInvalid | RtsOff | RtsOn | RtsFlowControl

  function RtsValue(m: RtsMode): int
  {
    match m
    case RtsInvalid => -1
    case RtsOff => 0
    case RtsOn => 1
    case RtsFlowControl => 2
  }

  function RtsOf(v: int): (r: Option<RtsMode>)
    ensures r.Some? <==> -1 <= v <= 2
    ensures r.Some? ==> RtsValue(r.value) == v
  {
    if v == -1 then Some(RtsInvalid)
    else if v == 0 then Some(RtsOff)
    else if v == 1 then Some(RtsOn)
    else if v == 2 then Some(RtsFlowControl)
    else None
  }

  datatype CtsMode = CtsInvalid | CtsIgnore | CtsFlowControl

  function CtsValue(m: CtsMode): int
  {
    match m
    case CtsInvalid => -1
    case CtsIgnore => 0
    case CtsFlowControl => 1
  }

  function CtsOf(v: int): (r: Option<CtsMode>)
    ensures r.Some? <==> -1 <= v <= 1
    ensures r.Some? ==> CtsValue(r.value) == v
  {
    if v == -1 then Some(CtsInvalid)
    else if v == 0 then Some(CtsIgnore)
    else if v == 1 then Some(CtsFlowControl)
    else None
  }

  datatype DtrMode = DtrInvalid | DtrOff | DtrOn | DtrFlowControl

  function DtrValue(m: DtrMode): int
  {
    match m
    case DtrInvalid => -1
    case DtrOff => 0
    case DtrOn => 1
    case DtrFlowControl => 2
  }

  function DtrOf(v: int): (r: Option<DtrMode>)
    ensures r.Some? <==> -1 <= v <= 2
    ensures r.Some? ==> DtrValue(r.value) == v
  {
    if v == -1 then Some(DtrInvalid)
    else if v == 0 then Some(DtrOff)
    else if v == 1 then Some(DtrOn)
    else if v == 2 then Some(DtrFlowControl)
    else None
  }

  datatype DsrMode = DsrInvalid | DsrIgnore | DsrFlowControl

  function DsrValue(m: DsrMode): int
  {
    match m
    case DsrInvalid => -1
    case DsrIgnore => 0
    case DsrFlowControl => 1
  }

  function DsrOf(v: int): (r: Option<DsrMode>)
    ensures r.Some? <==> -1 <= v <= 1
    ensures r.Some? ==> DsrValue(r.value) == v
  {
    if v == -1 then Some(DsrInvalid)
    else if v == 0 then Some(DsrIgnore)
    else if v == 1 then Some(DsrFlowControl)
    else None
  }

  datatype XonXoffMode = XonXoffInvalid | XonXoffDisabled | XonXoffIn | XonXoffOut | XonXoffInOut

  function XonXoffValue(m: XonXoffMode): int
  {
    match m
    case XonXoffInvalid => -1
    case XonXoffDisabled => 0
    case XonXoffIn => 1
    case XonXoffOut => 2
    case XonXoffInOut => 3
  }

  function XonXoffOf(v: int): (r: Option<XonXoffMode>)
    ensures r.Some? <==> -1 <= v <= 3
    ensures r.Some? ==> XonXoffValue(r.value) == v
  {
    if v == -1 then Some(XonXoffInvalid)
    else if v == 0 then Some(XonXoffDisabled)
    else if v == 1 then Some(XonXoffIn)
    else if v == 2 then Some(XonXoffOut)
    else if v == 3 then Some(XonXoffInOut)
    else None
  }

  datatype FlowControl = FlowNone | FlowXonXoff | FlowRtsCts | FlowDtrDsr

  function FlowControlValue(m: FlowControl): int
  {
    match m
    case FlowNone => 0
    case FlowXonXoff => 1
    case FlowRtsCts => 2
    case FlowDtrDsr => 3
  }

  datatype Transport = TransportNative | TransportUsb | TransportBluetooth

  function TransportValue(t: Transport): int
  {
    match t
    case TransportNative => 0
    case TransportUsb => 1
    case TransportBluetooth => 2
  }

  function TransportOf(v: int): (r: Option<Transport>)
    ensures r.Some? <==> 0 <= v <= 2
    ensures r.Some? ==> TransportValue(r.value) == v
  {
    if v == 0 then Some(TransportNative)
    else if v == 1 then Some(TransportUsb)
    else if v == 2 then Some(TransportBluetooth)
    else None
  }

  /** Decoding undoes every value encoding: the encodings are injective. */
  lemma ValueEnumsRoundTrip(p: ParityMode, rts: RtsMode, cts: CtsMode, dtr: DtrMode,
                            dsr: DsrMode, x: XonXoffMode, t: Transport)
    ensures ParityOf(ParityValue(p)) == Some(p)
    ensures RtsOf(RtsValue(rts)) == Some(rts)
    ensures CtsOf(CtsValue(cts)) == Some(cts)
    ensures DtrOf(DtrValue(dtr)) == Some(dtr)
    ensures DsrOf(DsrValue(dsr)) == Some(dsr)
    ensures XonXoffOf(XonXoffValue(x)) == Some(x)
    ensures TransportOf(TransportValue(t)) == Some(t)
  {
  }

  // ------------------------------------------------- port configuration fields

  /** The settings a port configuration holds, each with its get/set pair. */
  datatype Field = Baudrate | Bits | Parity | Stopbits | Rts | Cts | Dtr | Dsr | XonXoff

  /** The values a configuration field can hold: any `Int32` for the numeric fields, a
      member of the field's enumeration (its "leave unchanged" sentinel included) otherwise. */
  predicate Admits(f: Field, v: int)
  {
    match f
    case Baudrate => -0x8000_0000 <= v < 0x8000_0000
    case Bits => -0x8000_0000 <= v < 0x8000_0000
    case Stopbits => -0x8000_0000 <= v < 0x8000_0000
    case Parity => ParityOf(v).Some?
    case Rts => RtsOf(v).Some?
    case Cts => CtsOf(v).Some?
    case Dtr => DtrOf(v).Some?
    case Dsr => DsrOf(v).Some?
    case XonXoff => XonXoffOf(v).Some?
  }
}
