/** The native libserialport library, seen from the binding as an abstract oracle.

    The OS-level behaviour of every `[DllImport]` entry point is unknown to the binding, so
    each entry point here returns an arbitrary value constrained only by the library's
    documented contract. What the binding can rely on and must respect is kept as state:
    which handles are live, which were released (and how often), which ports are open,
    the contents of configuration structures, the out-of-band "last error" slot, and a
    ghost `trace` of every entry point invoked, in order, with its arguments and results. */
module NativeLib {
  import opened Results
  import opened Codes

  /** A native pointer; 0 is NULL. */
  type Ptr = nat
  const NULL: Ptr := 0

  /** A pointer known not to be NULL. */
  type NonNull = p: Ptr | p != NULL witness 1

  /** The "last error" slot: an OS error code and message. */
  datatype ErrorRecord = ErrorRecord(code: int, message: NStr)

  /** The native entry points the binding calls. */
  datatype Entry =
    | GetPortByName | CopyPort | FreePort | ListPorts | FreePortList
    | Open | Close
    | GetPortName | GetPortDescription | GetPortTransport
    | GetPortUsbBusAddress | GetPortUsbVidPid
    | GetPortUsbManufacturer | GetPortUsbProduct | GetPortUsbSerial | GetPortBluetoothAddress
    | GetPortHandle
    | NewConfig | FreeConfig | GetConfig | SetConfig
    | SetPortSetting(field: Field) | SetFlowcontrol
    | GetConfigSetting(field: Field) | SetConfigSetting(field: Field) | SetConfigFlowcontrol
    | BlockingRead | BlockingReadNext | NonblockingRead | BlockingWrite | NonblockingWrite
    | InputWaiting | OutputWaiting | Flush | Drain
    | NewEventSet | AddPortEvents | Wait | FreeEventSet
    | GetSignals | StartBreak | EndBreak
    | LastErrorCode | LastErrorMessage | FreeErrorMessage
    | GetPackageVersionString | GetLibVersionString

  /** One invocation of an entry point: the pointer it was given first (`target`), its other
      arguments, the bytes it read from or wrote to a buffer, its return value, the value or
      pointer it stored through an out-parameter (`out`), the string it handed back
      (`text`; the port name for `GetPortByName`), and the last-error slot it left behind. */
  datatype Call = Call(entry: Entry, target: Ptr, args: seq<int>, data: seq<byte>,
                       result: int, out: int, text: NStr, slot: ErrorRecord)

  /** The entry points that release a native resource. */
  predicate IsRelease(e: Entry)
  {
    e.FreePort? || e.FreeConfig? || e.FreeEventSet? || e.FreePortList? || e.FreeErrorMessage?
  }

  /** The entry points that the library refuses with SP_ERR_ARG on a port that is not open. */
  predicate NeedsOpenPort(e: Entry)
  {
    e.Close? || e.SetPortSetting? || e.SetFlowcontrol? || e.GetConfig? || e.SetConfig?
    || e.BlockingRead? || e.BlockingReadNext? || e.NonblockingRead?
    || e.BlockingWrite? || e.NonblockingWrite?
    || e.InputWaiting? || e.OutputWaiting? || e.Flush? || e.Drain?
    || e.GetSignals? || e.StartBreak? || e.EndBreak?
  }

  /** The entry points whose non-negative result is a byte count rather than SP_OK. */
  predicate ReturnsCount(e: Entry)
  {
    e.BlockingRead? || e.BlockingReadNext? || e.NonblockingRead?
    || e.BlockingWrite? || e.NonblockingWrite? || e.InputWaiting? || e.OutputWaiting?
  }

  /** The results an entry point may return: SP_OK or a byte count on success, otherwise
      one of the four negative codes. */
  predicate Answers(e: Entry, r: int)
  {
    (if ReturnsCount(e) then r >= 0 else r == SP_OK) || IsErrorCode(r)
  }

  /** What the library promises about the count a read returns: never more than requested;
      with timeout 0 a blocking read returns exactly the requested count, and a
      "read next" at least one byte. */
  predicate ReadContract(e: Entry, count: int, timeoutMs: int, n: int)
  {
    Answers(e, n) && n <= count
    && (e == BlockingRead && timeoutMs == 0 && n >= 0 ==> n == count)
    && (e == BlockingReadNext && timeoutMs == 0 && n >= 0 && count > 0 ==> n >= 1)
  }

  /** What the library promises about the count a write returns. */
  predicate WriteContract(e: Entry, count: int, timeoutMs: int, n: int)
  {
    Answers(e, n) && n <= count
    && (e == BlockingWrite && timeoutMs == 0 && n >= 0 ==> n == count)
  }

  /** The fields a flow-control preset may change. */
  predicate IsLineField(f: Field)
  {
    f.Rts? || f.Cts? || f.Dtr? || f.Dsr? || f.XonXoff?
  }

  /** A configuration structure: one value per field. */
  datatype Settings = Settings(baudrate: int, bits: int, parity: int, stopbits: int,
                               rts: int, cts: int, dtr: int, dsr: int, xonxoff: int)

  /** The configuration sp_new_config hands out: every field -1, "leave unchanged". */
  const Unset := Settings(-1, -1, -1, -1, -1, -1, -1, -1, -1)

  function Get(s: Settings, f: Field): int
  {
    match f
    case Baudrate => s.baudrate
    case Bits => s.bits
    case Parity => s.parity
    case Stopbits => s.stopbits
    case Rts => s.rts
    case Cts => s.cts
    case Dtr => s.dtr
    case Dsr => s.dsr
    case XonXoff => s.xonxoff
  }

  /** `s` with field `f` set to `v` and every other field kept. */
  function With(s: Settings, f: Field, v: int): (r: Settings)
    ensures Get(r, f) == v
    ensures forall g :: g != f ==> Get(r, g) == Get(s, g)
  {
    match f
    case Baudrate => s.(baudrate := v)
    case Bits => s.(bits := v)
    case Parity => s.(parity := v)
    case Stopbits => s.(stopbits := v)
    case Rts => s.(rts := v)
    case Cts => s.(cts := v)
    case Dtr => s.(dtr := v)
    case Dsr => s.(dsr := v)
    case XonXoff => s.(xonxoff := v)
  }

  /** Every field holds a value it admits. */
  predicate WellFormed(s: Settings)
  {
    Admits(Baudrate, s.baudrate) && Admits(Bits, s.bits) && Admits(Parity, s.parity)
    && Admits(Stopbits, s.stopbits) && Admits(Rts, s.rts) && Admits(Cts, s.cts)
    && Admits(Dtr, s.dtr) && Admits(Dsr, s.dsr) && Admits(XonXoff, s.xonxoff)
  }

  /** Setting an admissible value keeps a structure well formed. */
  lemma WithWellFormed(s: Settings, f: Field, v: int)
    requires WellFormed(s) && Admits(f, v)
    ensures WellFormed(With(s, f, v))
  {
  }

  // ------------------------------------------------------- release accounting

  /** How many calls of `t` release `p`. */
  function Releases(t: seq<Call>, p: Ptr): nat
  {
    if t == [] then 0
    else (if IsRelease(t[0].entry) && t[0].target == p then 1 else 0) + Releases(t[1..], p)
  }

  lemma {:induction false} ReleasesConcat(a: seq<Call>, b: seq<Call>, p: Ptr)
    ensures Releases(a + b, p) == Releases(a, p) + Releases(b, p)
  {
    if a == [] {
      assert a + b == b;
    } else {
      assert (a + b)[0] == a[0] && (a + b)[1..] == a[1..] + b;
      ReleasesConcat(a[1..], b, p);
    }
  }

  /** A key added, overwritten and removed again leaves the map as it was. */
  lemma UpdateThenRemove<K, V>(m: map<K, V>, k: K, x: V, y: V)
    requires k !in m
    ensures m[k := x][k := y] - {k} == m
  {
  }

  /** Exactly the pointers in `released` have been released, each of them exactly once. */
  ghost predicate Accounts(t: seq<Call>, released: set<Ptr>)
  {
    forall p :: Releases(t, p) == if p in released then 1 else 0
  }

  /** A call that releases nothing keeps the accounting; a call that releases a pointer not
      released before adds exactly that pointer. */
  lemma AccountsAfter(t: seq<Call>, released: set<Ptr>, c: Call)
    requires Accounts(t, released)
    ensures !IsRelease(c.entry) ==> Accounts(t + [c], released)
    ensures IsRelease(c.entry) && c.target !in released ==> Accounts(t + [c], released + {c.target})
  {
    forall p
      ensures Releases(t + [c], p) == Releases(t, p) + (if IsRelease(c.entry) && c.target == p then 1 else 0)
    {
      ReleasesConcat(t, [c], p);
      assert [c][1..] == [];
      assert Releases([c][1..], p) == 0;
    }
  }

  /** Under the accounting, nothing is released twice. */
  lemma AtMostOnce(t: seq<Call>, released: set<Ptr>, p: Ptr)
    requires Accounts(t, released)
    ensures Releases(t, p) <= 1
    ensures p !in released ==> Releases(t, p) == 0
  {
  }

  // ------------------------------------------------------ inline error retrieval

  /** The native calls a translation makes after a call that returned `result` and left
      `slot`: none unless the result is SP_ERR_FAIL; for SP_ERR_FAIL, the error code, then
      the error message, then the release of that same message string, carrying the code
      and message the failing call left. */
  ghost predicate ErrorQueries(result: int, slot: ErrorRecord, q: seq<Call>)
  {
    if result == SP_ERR_FAIL then
      |q| == 3
      && q[0].entry == LastErrorCode && q[0].result == slot.code
      && q[1].entry == LastErrorMessage && q[1].text == slot.message && q[1].out != NULL
      && q[2].entry == FreeErrorMessage && q[2].target == q[1].out
    else
      q == []
  }

  /** `t1` extends `t0` with one call of `e` on `target` with `args`, followed immediately by
      the error queries its result calls for and by nothing else. */
  ghost predicate Invoked(t0: seq<Call>, t1: seq<Call>, e: Entry, target: Ptr, args: seq<int>)
  {
    |t0| < |t1| && t1[..|t0|] == t0
    && t1[|t0|].entry == e && t1[|t0|].target == target && t1[|t0|].args == args
    && ErrorQueries(t1[|t0|].result, t1[|t0|].slot, t1[|t0| + 1..])
  }

  /** Every call that failed with SP_ERR_FAIL is followed at once by the queries of its code
      and message: no other native call comes in between. */
  ghost predicate InlineRetrieval(t: seq<Call>)
  {
    forall i | 0 <= i < |t| && t[i].result == SP_ERR_FAIL && !t[i].entry.LastErrorCode? ::
      i + 2 < |t| && t[i + 1].entry == LastErrorCode && t[i + 1].result == t[i].slot.code
      && t[i + 2].entry == LastErrorMessage && t[i + 2].text == t[i].slot.message
  }

  /** A call followed by its error queries retrieves its error inline. */
  lemma InvokedInline(t0: seq<Call>, t1: seq<Call>, e: Entry, target: Ptr, args: seq<int>)
    requires Invoked(t0, t1, e, target, args) && !e.LastErrorCode?
    requires forall k | |t0| < k < |t1| :: t1[k].result != SP_ERR_FAIL || t1[k].entry.LastErrorCode?
    ensures InlineRetrieval(t1[|t0|..])
  {
  }

  /** Inline retrieval is preserved by putting such stretches of calls one after another. */
  lemma {:induction false} InlineConcat(a: seq<Call>, b: seq<Call>)
    requires InlineRetrieval(a) && InlineRetrieval(b)
    ensures InlineRetrieval(a + b)
  {
    var t := a + b;
    forall i | 0 <= i < |t| && t[i].result == SP_ERR_FAIL && !t[i].entry.LastErrorCode?
      ensures i + 2 < |t| && t[i + 1].entry == LastErrorCode && t[i + 1].result == t[i].slot.code
              && t[i + 2].entry == LastErrorMessage && t[i + 2].text == t[i].slot.message
    {
      if i < |a| {
        assert a[i] == t[i];
        assert t[i + 1] == a[i + 1] && t[i + 2] == a[i + 2];
      } else {
        assert b[i - |a|] == t[i];
        assert t[i + 1] == b[i - |a| + 1] && t[i + 2] == b[i - |a| + 2];
      }
    }
  }

  /** What a live native pointer points to, with the part of its memory the binding can
      observe. The entries of a port list are not handles of their own: they belong to the
      list and are freed with it. */
  datatype Handle =
    | Port(open: bool)
    | Config(settings: Settings)
    | EventSet
    | PortList(entries: seq<NonNull>)
    | Message(text: NStr)

  class Native {
    /** The live handles. */
    var handles: map<Ptr, Handle>
    /** The pointers released so far. */
    ghost var released: set<Ptr>
    /** Every entry point invoked so far, in order. */
    ghost var trace: seq<Call>
    /** The out-of-band last-error slot. */
    var lastError: ErrorRecord
    /** The next address the allocator hands out. */
    var next: Ptr

    ghost predicate Valid()
      reads this
    {
      && 0 < next
      && NULL !in handles && NULL !in released
      && (forall p | p in handles :: p < next)
      && (forall p | p in released :: p < next)
      && handles.Keys !! released
      && Accounts(trace, released)
      && (forall c | c in handles && handles[c].Config? :: WellFormed(handles[c].settings))
    }

    predicate IsPort(p: Ptr) reads this { p in handles && handles[p].Port? }
    predicate IsOpen(p: Ptr) reads this { p in handles && handles[p].Port? && handles[p].open }
    predicate IsConfig(p: Ptr) reads this { p in handles && handles[p].Config? }
    predicate IsEventSet(p: Ptr) reads this { p in handles && handles[p].EventSet? }
    predicate IsPortList(p: Ptr) reads this { p in handles && handles[p].PortList? }
    predicate IsMessage(p: Ptr) reads this { p in handles && handles[p].Message? }

    /** What the four allocating entry points promise: SP_OK with a fresh non-null pointer
        to `h`, or an error code with the out-pointer left NULL and nothing allocated. */
    twostate predicate Allocated(r: int, p: Ptr, h: Handle)
      reads this
    {
      && (r == SP_OK || IsErrorCode(r))
      && released == old(released)
      && if r == SP_OK then
           p != NULL && p !in old(handles) && p !in old(released)
           && p == old(next) && next == old(next) + 1 && handles == old(handles)[p := h]
         else
           p == NULL && next == old(next) && handles == old(handles)
    }

    /** Append a call that releases nothing. */
    ghost method Record(c: Call)
      requires Accounts(trace, released) && !IsRelease(c.entry)
      modifies this`trace
      ensures trace == old(trace) + [c] && Accounts(trace, released)
    {
      AccountsAfter(trace, released, c);
      trace := trace + [c];
    }

    /** Append a call that releases `c.target`. */
    ghost method RecordRelease(c: Call)
      requires Accounts(trace, released) && IsRelease(c.entry) && c.target !in released
      modifies this`trace, this`released
      ensures trace == old(trace) + [c] && released == old(released) + {c.target}
      ensures Accounts(trace, released)
    {
      AccountsAfter(trace, released, c);
      trace := trace + [c];
      released := released + {c.target};
    }

    // ------------------------------------------------------------- allocation

    /** The allocator behind sp_get_port_by_name, sp_copy_port, sp_new_config and
        sp_new_event_set. */
    method Allocate(e: Entry, target: Ptr, h: Handle, name: NStr) returns (r: int, p: Ptr)
      requires Valid() && e in {GetPortByName, CopyPort, NewConfig, NewEventSet}
      requires h.Config? ==> WellFormed(h.settings)
      modifies this
      ensures Valid() && Allocated(r, p, h)
      ensures trace == old(trace) + [Call(e, target, [], [], r, p, name, lastError)]
    {
      r :| r == SP_OK || IsErrorCode(r);
      if r == SP_OK {
        p := Insert(h);
      } else {
        p := NULL;
      }
      lastError := *;
      Record(Call(e, target, [], [], r, p, name, lastError));
    }

    /** A new handle under the next unused pointer. */
    method Insert(h: Handle) returns (p: Ptr)
      requires Valid() && (h.Config? ==> WellFormed(h.settings))
      modifies this`handles, this`next
      ensures Valid()
      ensures p == old(next) && next == old(next) + 1 && handles == old(handles)[p := h]
      ensures p != NULL && p !in old(handles) && p !in released
    {
      p := next;
      next := next + 1;
      handles := handles[p := h];
    }

    /** sp_get_port_by_name: a closed port. */
    method PortByName(name: string) returns (r: int, p: Ptr)
      requires Valid()
      modifies this
      ensures Valid() && Allocated(r, p, Port(false))
      ensures trace == old(trace) + [Call(GetPortByName, NULL, [], [], r, p, Some(name), lastError)]
    {
      r, p := Allocate(GetPortByName, NULL, Port(false), Some(name));
    }

    /** `p` is an entry of a live port list. */
    ghost predicate Listed(p: Ptr)
      reads this
    {
      exists l | l in handles && handles[l].PortList? :: p in handles[l].entries
    }

    /** sp_copy_port on a port handle or on a port-list entry: an independent, closed copy. */
    method Copy(src: Ptr) returns (r: int, p: Ptr)
      requires Valid() && (IsPort(src) || Listed(src))
      modifies this
      ensures Valid() && Allocated(r, p, Port(false))
      ensures trace == old(trace) + [Call(CopyPort, src, [], [], r, p, None, lastError)]
    {
      r, p := Allocate(CopyPort, src, Port(false), None);
    }

    /** sp_new_config: every field "leave unchanged". */
    method AllocateConfig() returns (r: int, p: Ptr)
      requires Valid()
      modifies this
      ensures Valid() && Allocated(r, p, Config(Unset))
      ensures trace == old(trace) + [Call(NewConfig, NULL, [], [], r, p, None, lastError)]
    {
      r, p := Allocate(NewConfig, NULL, Config(Unset), None);
    }

    /** sp_new_event_set. */
    method AllocateEventSet() returns (r: int, p: Ptr)
      requires Valid()
      modifies this
      ensures Valid() && Allocated(r, p, EventSet)
      ensures trace == old(trace) + [Call(NewEventSet, NULL, [], [], r, p, None, lastError)]
    {
      r, p := Allocate(NewEventSet, NULL, EventSet, None);
    }

    /** sp_list_ports: on success a fresh list of non-null entries, NULL-terminated. */
    method Enumerate() returns (r: int, l: Ptr)
      requires Valid()
      modifies this
      ensures Valid()
      ensures r == SP_OK || IsErrorCode(r)
      ensures released == old(released)
      ensures r == SP_OK ==> (l != NULL && l !in old(handles) && l !in old(released)
                              && IsPortList(l) && handles == old(handles)[l := handles[l]]
                              && next == old(next) + 1)
      ensures r != SP_OK ==> l == NULL && handles == old(handles) && next == old(next)
      ensures trace == old(trace) + [Call(ListPorts, NULL, [], [], r, l, None, lastError)]
    {
      r :| r == SP_OK || IsErrorCode(r);
      if r == SP_OK {
        var entries: seq<NonNull> := *;
        l := next;
        next := next + 1;
        handles := handles[l := PortList(entries)];
      } else {
        l := NULL;
      }
      lastError := *;
      Record(Call(ListPorts, NULL, [], [], r, l, None, lastError));
    }

    /** Reads `portList[i]`: an entry, or the terminating NULL just past the last one. */
    function ListSlot(l: Ptr, i: nat): (p: Ptr)
      reads this
      requires IsPortList(l) && i <= |handles[l].entries|
      ensures p == NULL <==> i == |handles[l].entries|
    {
      if i < |handles[l].entries| then handles[l].entries[i] else NULL
    }

    // ---------------------------------------------------------------- release

    /** The release behind the sp_free_* entry points. */
    method Release(e: Entry, p: Ptr)
      requires Valid() && IsRelease(e) && p in handles
      modifies this
      ensures Valid()
      ensures handles == old(handles) - {p} && released == old(released) + {p} && next == old(next)
      ensures trace == old(trace) + [Call(e, p, [], [], 0, 0, None, lastError)]
    {
      handles := handles - {p};
      lastError := *;
      RecordRelease(Call(e, p, [], [], 0, 0, None, lastError));
    }

    /** sp_free_port: releases a port handle, open or not. */
    method ReleasePort(p: Ptr)
      requires Valid() && IsPort(p)
      modifies this
      ensures Valid()
      ensures handles == old(handles) - {p} && released == old(released) + {p} && next == old(next)
      ensures trace == old(trace) + [Call(FreePort, p, [], [], 0, 0, None, lastError)]
    {
      Release(FreePort, p);
    }

    /** sp_free_config. */
    method ReleaseConfig(p: Ptr)
      requires Valid() && IsConfig(p)
      modifies this
      ensures Valid()
      ensures handles == old(handles) - {p} && released == old(released) + {p} && next == old(next)
      ensures trace == old(trace) + [Call(FreeConfig, p, [], [], 0, 0, None, lastError)]
    {
      Release(FreeConfig, p);
    }

    /** sp_free_event_set: releases the set and touches no port registered in it. */
    method ReleaseEventSet(p: Ptr)
      requires Valid() && IsEventSet(p)
      modifies this
      ensures Valid()
      ensures handles == old(handles) - {p} && released == old(released) + {p} && next == old(next)
      ensures trace == old(trace) + [Call(FreeEventSet, p, [], [], 0, 0, None, lastError)]
    {
      Release(FreeEventSet, p);
    }

    /** sp_free_port_list: releases the list together with every entry it owns. */
    method ReleasePortList(l: Ptr)
      requires Valid() && IsPortList(l)
      modifies this
      ensures Valid()
      ensures handles == old(handles) - {l} && released == old(released) + {l} && next == old(next)
      ensures trace == old(trace) + [Call(FreePortList, l, [], [], 0, 0, None, lastError)]
    {
      Release(FreePortList, l);
    }

    /** sp_free_error_message. */
    method ReleaseMessage(m: Ptr)
      requires Valid() && IsMessage(m)
      modifies this
      ensures Valid()
      ensures handles == old(handles) - {m} && released == old(released) + {m} && next == old(next)
      ensures trace == old(trace) + [Call(FreeErrorMessage, m, [], [], 0, 0, None, lastError)]
    {
      Release(FreeErrorMessage, m);
    }

    // ------------------------------------------------------ port operations

    /** Nothing allocated, released or changed in native memory. */
    twostate predicate Stable()
      reads this
    {
      handles == old(handles) && released == old(released) && next == old(next)
    }

    /** Only the handle at `p` may have changed, and it is still the same kind of handle. */
    twostate predicate Updated(p: Ptr, h: Handle)
      reads this
    {
      p in old(handles) && handles == old(handles)[p := h]
      && released == old(released) && next == old(next)
    }

    /** sp_open: on success the port is open. */
    method OpenPort(p: Ptr, flags: int) returns (r: int)
      requires Valid() && IsPort(p)
      modifies this
      ensures Valid()
      ensures Answers(Open, r)
      ensures Updated(p, Port(r >= 0 || old(handles)[p].open))
      ensures trace == old(trace) + [Call(Open, p, [flags], [], r, 0, None, lastError)]
    {
      r :| Answers(Open, r);
      handles := handles[p := Port(r >= 0 || handles[p].open)];
      lastError := *;
      Record(Call(Open, p, [flags], [], r, 0, None, lastError));
    }

    /** sp_close: SP_ERR_ARG on a port that is not open; on success the port is closed. */
    method ClosePort(p: Ptr) returns (r: int)
      requires Valid() && IsPort(p)
      modifies this
      ensures Valid()
      ensures Answers(Close, r)
      ensures !old(IsOpen(p)) ==> r == SP_ERR_ARG
      ensures Updated(p, Port(r < 0 && old(handles)[p].open))
      ensures trace == old(trace) + [Call(Close, p, [], [], r, 0, None, lastError)]
    {
      if IsOpen(p) {
        r :| Answers(Close, r);
      } else {
        r := SP_ERR_ARG;
      }
      handles := handles[p := Port(r < 0 && handles[p].open)];
      lastError := *;
      Record(Call(Close, p, [], [], r, 0, None, lastError));
    }

    /** The entry points handled by `Invoke`. */
    static predicate PlainEntry(e: Entry)
    {
      e.SetPortSetting? || e.SetFlowcontrol? || e.InputWaiting? || e.OutputWaiting?
      || e.Flush? || e.Drain? || e.StartBreak? || e.EndBreak? || e.Wait?
    }

    /** Entry points that take a handle and integers and change no memory the binding
        observes: the port setters, flush, drain, the waiting counts, break control, and
        sp_wait on an event set. */
    method Invoke(e: Entry, p: Ptr, args: seq<int>) returns (r: int)
      requires Valid() && PlainEntry(e)
      requires if e.Wait? then IsEventSet(p) else IsPort(p)
      modifies this
      ensures Valid() && Stable()
      ensures Answers(e, r)
      ensures NeedsOpenPort(e) && !IsOpen(p) ==> r == SP_ERR_ARG
      ensures trace == old(trace) + [Call(e, p, args, [], r, 0, None, lastError)]
    {
      if NeedsOpenPort(e) && !IsOpen(p) {
        r := SP_ERR_ARG;
      } else {
        r :| Answers(e, r);
      }
      lastError := *;
      Record(Call(e, p, args, [], r, 0, None, lastError));
    }

    /** Entry points that store one integer through an out-pointer: the USB bus/address and
        vendor/product queries (`args` records which out-pointer is used) and sp_get_signals. */
    method InvokeOut(e: Entry, p: Ptr, args: seq<int>) returns (r: int, out: int)
      requires Valid() && IsPort(p)
      requires e.GetPortUsbBusAddress? || e.GetPortUsbVidPid? || e.GetSignals?
      modifies this
      ensures Valid() && Stable()
      ensures Answers(e, r)
      ensures NeedsOpenPort(e) && !IsOpen(p) ==> r == SP_ERR_ARG
      ensures e.GetSignals? && r >= 0 ==> 0 <= out < 16
      ensures trace == old(trace) + [Call(e, p, args, [], r, out, None, lastError)]
    {
      if NeedsOpenPort(e) && !IsOpen(p) {
        r := SP_ERR_ARG;
      } else {
        r :| Answers(e, r);
      }
      out :| 0 <= out < 16;
      if !e.GetSignals? {
        out := *;
      }
      lastError := *;
      Record(Call(e, p, args, [], r, out, None, lastError));
    }

    /** sp_get_port_transport: returns the enumeration value itself. */
    method PortTransport(p: Ptr) returns (t: int)
      requires Valid() && IsPort(p)
      modifies this
      ensures Valid() && Stable()
      ensures TransportOf(t).Some?
      ensures trace == old(trace) + [Call(GetPortTransport, p, [], [], t, 0, None, lastError)]
    {
      t :| 0 <= t <= 2;
      lastError := *;
      Record(Call(GetPortTransport, p, [], [], t, 0, None, lastError));
    }

    /** The string getters of a port: a pointer into the port structure (owned by it and
        never freed by the caller) or NULL, with the text stored there. */
    method PortString(e: Entry, p: Ptr) returns (ptr: Ptr, text: NStr)
      requires Valid() && IsPort(p)
      requires e in {GetPortName, GetPortDescription, GetPortUsbManufacturer,
                     GetPortUsbProduct, GetPortUsbSerial, GetPortBluetoothAddress}
      modifies this
      ensures Valid() && Stable()
      ensures ptr == NULL <==> text.None?
      ensures trace == old(trace) + [Call(e, p, [], [], 0, ptr, text, lastError)]
    {
      ptr := *;
      if ptr == NULL {
        text := None;
      } else {
        var s: string := *;
        text := Some(s);
      }
      lastError := *;
      Record(Call(e, p, [], [], 0, ptr, text, lastError));
    }

    /** sp_get_port_handle: stores an OS handle of `width` bytes through `result_ptr`. */
    method OsHandle(p: Ptr, width: int) returns (r: int, h: int)
      requires Valid() && IsPort(p) && width in {4, 8}
      modifies this
      ensures Valid() && Stable()
      ensures Answers(GetPortHandle, r)
      ensures width == 4 ==> -0x8000_0000 <= h < 0x8000_0000
      ensures width == 8 ==> -0x8000_0000_0000_0000 <= h < 0x8000_0000_0000_0000
      ensures trace == old(trace) + [Call(GetPortHandle, p, [width], [], r, h, None, lastError)]
    {
      r :| Answers(GetPortHandle, r);
      h :| -0x8000_0000 <= h < 0x8000_0000;
      lastError := *;
      Record(Call(GetPortHandle, p, [width], [], r, h, None, lastError));
    }

    // ------------------------------------------------ configuration structures

    /** sp_get_config: fills the configuration from an open port; on error the structure
        is left as it was. */
    method GetConfigOf(p: Ptr, c: Ptr) returns (r: int)
      requires Valid() && IsPort(p) && IsConfig(c)
      modifies this
      ensures Valid()
      ensures Answers(GetConfig, r)
      ensures !old(IsOpen(p)) ==> r == SP_ERR_ARG
      ensures IsConfig(c) && Updated(c, handles[c])
      ensures r < 0 ==> handles == old(handles)
      ensures trace == old(trace) + [Call(GetConfig, p, [c], [], r, 0, None, lastError)]
    {
      if IsOpen(p) {
        r :| Answers(GetConfig, r);
      } else {
        r := SP_ERR_ARG;
      }
      if r >= 0 {
        var filled: Settings := *;
        if !WellFormed(filled) {
          filled := handles[c].settings;
        }
        handles := handles[c := Config(filled)];
      }
      lastError := *;
      Record(Call(GetConfig, p, [c], [], r, 0, None, lastError));
    }

    /** sp_set_config: applies a configuration to an open port. */
    method SetConfigOf(p: Ptr, c: Ptr) returns (r: int)
      requires Valid() && IsPort(p) && IsConfig(c)
      modifies this
      ensures Valid() && Stable()
      ensures Answers(SetConfig, r)
      ensures !IsOpen(p) ==> r == SP_ERR_ARG
      ensures trace == old(trace) + [Call(SetConfig, p, [c], [], r, 0, None, lastError)]
    {
      if IsOpen(p) {
        r :| Answers(SetConfig, r);
      } else {
        r := SP_ERR_ARG;
      }
      lastError := *;
      Record(Call(SetConfig, p, [c], [], r, 0, None, lastError));
    }

    /** sp_get_config_<field>: on success the value the structure holds. */
    method GetSetting(c: Ptr, f: Field) returns (r: int, v: int)
      requires Valid() && IsConfig(c)
      modifies this
      ensures Valid() && Stable()
      ensures Answers(GetConfigSetting(f), r)
      ensures r >= 0 ==> v == Get(handles[c].settings, f)
      ensures trace == old(trace) + [Call(GetConfigSetting(f), c, [], [], r, v, None, lastError)]
    {
      r :| Answers(GetConfigSetting(f), r);
      v := if r >= 0 then Get(handles[c].settings, f) else 0;
      lastError := *;
      Record(Call(GetConfigSetting(f), c, [], [], r, v, None, lastError));
    }

    /** sp_set_config_<field>: on success the structure holds `v` in `f` and is otherwise
        unchanged. `v` is a value of the field's C type. */
    method SetSetting(c: Ptr, f: Field, v: int) returns (r: int)
      requires Valid() && IsConfig(c) && Admits(f, v)
      modifies this
      ensures Valid()
      ensures Answers(SetConfigSetting(f), r)
      ensures r >= 0 ==> Updated(c, Config(With(old(handles)[c].settings, f, v)))
      ensures r < 0 ==> Stable()
      ensures trace == old(trace) + [Call(SetConfigSetting(f), c, [v], [], r, 0, None, lastError)]
    {
      r :| Answers(SetConfigSetting(f), r);
      if r >= 0 {
        WithWellFormed(handles[c].settings, f, v);
        handles := handles[c := Config(With(handles[c].settings, f, v))];
      }
      lastError := *;
      Record(Call(SetConfigSetting(f), c, [v], [], r, 0, None, lastError));
    }

    /** sp_set_config_flowcontrol: a preset that changes the line fields only. */
    method SetFlowcontrolSetting(c: Ptr, v: int) returns (r: int)
      requires Valid() && IsConfig(c)
      modifies this
      ensures Valid()
      ensures Answers(SetConfigFlowcontrol, r)
      ensures IsConfig(c) && Updated(c, handles[c])
      ensures r < 0 ==> handles == old(handles)
      ensures forall f | !IsLineField(f) :: Get(handles[c].settings, f) == Get(old(handles)[c].settings, f)
      ensures trace == old(trace) + [Call(SetConfigFlowcontrol, c, [v], [], r, 0, None, lastError)]
    {
      r :| Answers(SetConfigFlowcontrol, r);
      if r >= 0 {
        var preset: Settings := *;
        var current := handles[c].settings;
        if !(WellFormed(preset) && forall f | !IsLineField(f) :: Get(preset, f) == Get(current, f)) {
          preset := current;
        }
        handles := handles[c := Config(preset)];
      }
      lastError := *;
      Record(Call(SetConfigFlowcontrol, c, [v], [], r, 0, None, lastError));
    }

    // ----------------------------------------------------------- data transfer

    /** The three reads: at most `count` bytes into `buf[0..n)`, nothing else written. The
        caller must supply room for `count` bytes. */
    method Read(e: Entry, p: Ptr, buf: array<byte>, count: int, timeoutMs: int) returns (n: int, ghost got: seq<byte>)
      requires Valid() && IsPort(p) && e in {BlockingRead, BlockingReadNext, NonblockingRead}
      requires 0 <= count <= buf.Length
      modifies this, buf
      ensures Valid() && Stable()
      ensures ReadContract(e, count, timeoutMs, n)
      ensures !IsOpen(p) ==> n == SP_ERR_ARG
      ensures |got| == (if n > 0 then n else 0)
      ensures buf[..] == got + old(buf[|got|..])
      ensures trace == old(trace) + [Call(e, p, if e == NonblockingRead then [count] else [count, timeoutMs],
                                          got, n, 0, None, lastError)]
    {
      if IsOpen(p) {
        n :| -4 <= n <= count && ReadContract(e, count, timeoutMs, n);
      } else {
        n := SP_ERR_ARG;
      }
      var bytes: seq<byte> := *;
      if |bytes| != (if n > 0 then n else 0) {
        bytes := seq(if n > 0 then n else 0, _ => 0 as byte);
      }
      Deliver(buf, bytes);
      got := bytes;
      lastError := *;
      Record(Call(e, p, if e == NonblockingRead then [count] else [count, timeoutMs], got, n, 0, None, lastError));
    }

    /** The bytes a read delivers, stored at the front of `buf`. */
    static method Deliver(buf: array<byte>, bytes: seq<byte>)
      requires |bytes| <= buf.Length
      modifies buf
      ensures buf[..] == bytes + old(buf[|bytes|..])
    {
      forall i | 0 <= i < |bytes| {
        buf[i] := bytes[i];
      }
    }

    /** The two writes: take the first `count` bytes of `buf`, which they do not modify. */
    method Write(e: Entry, p: Ptr, buf: array<byte>, count: int, timeoutMs: int) returns (n: int)
      requires Valid() && IsPort(p) && e in {BlockingWrite, NonblockingWrite}
      requires 0 <= count <= buf.Length
      modifies this
      ensures Valid() && Stable()
      ensures WriteContract(e, count, timeoutMs, n)
      ensures !IsOpen(p) ==> n == SP_ERR_ARG
      ensures trace == old(trace) + [Call(e, p, if e == NonblockingWrite then [count] else [count, timeoutMs],
                                          buf[..count], n, 0, None, lastError)]
    {
      if IsOpen(p) {
        n :| -4 <= n <= count && WriteContract(e, count, timeoutMs, n);
      } else {
        n := SP_ERR_ARG;
      }
      lastError := *;
      Record(Call(e, p, if e == NonblockingWrite then [count] else [count, timeoutMs], buf[..count], n, 0, None, lastError));
    }

    // --------------------------------------------------------------- event sets

    /** sp_add_port_events. */
    method AddEvents(s: Ptr, p: Ptr, mask: int) returns (r: int)
      requires Valid() && IsEventSet(s) && IsPort(p)
      modifies this
      ensures Valid() && Stable()
      ensures Answers(AddPortEvents, r)
      ensures trace == old(trace) + [Call(AddPortEvents, s, [p, mask], [], r, 0, None, lastError)]
    {
      r :| Answers(AddPortEvents, r);
      lastError := *;
      Record(Call(AddPortEvents, s, [p, mask], [], r, 0, None, lastError));
    }

    // ------------------------------------------------------------------- errors

    /** sp_last_error_code: reads the slot and leaves it as it is. */
    method ErrorCode() returns (code: int)
      requires Valid()
      modifies this
      ensures Valid() && Stable() && lastError == old(lastError)
      ensures code == lastError.code
      ensures trace == old(trace) + [Call(LastErrorCode, NULL, [], [], code, 0, None, lastError)]
    {
      code := lastError.code;
      Record(Call(LastErrorCode, NULL, [], [], code, 0, None, lastError));
    }

    /** sp_last_error_message: a freshly allocated copy of the slot's message, owned by the
        caller; leaves the slot as it is. The pointer is assumed never to be NULL (the
        library allocates the copy and is taken not to run out of memory here); the
        managed wrapper itself would pass a NULL on to the free unchecked. */
    method ErrorMessage() returns (m: Ptr)
      requires Valid()
      modifies this
      ensures Valid() && lastError == old(lastError)
      ensures released == old(released)
      ensures m != NULL && m !in old(handles) && m !in old(released) && m == old(next) && next == old(next) + 1
      ensures handles == old(handles)[m := Message(lastError.message)]
      ensures trace == old(trace) + [Call(LastErrorMessage, NULL, [], [], 0, m, lastError.message, lastError)]
    {
      m := next;
      next := next + 1;
      handles := handles[m := Message(lastError.message)];
      Record(Call(LastErrorMessage, NULL, [], [], 0, m, lastError.message, lastError));
    }

    // ------------------------------------------------------------------ versions

    /** sp_get_package_version_string / sp_get_lib_version_string: static strings. */
    method VersionString(e: Entry) returns (text: NStr)
      requires Valid() && e in {GetPackageVersionString, GetLibVersionString}
      modifies this
      ensures Valid() && Stable()
      ensures trace == old(trace) + [Call(e, NULL, [], [], 0, 0, text, lastError)]
    {
      text := *;
      lastError := *;
      Record(Call(e, NULL, [], [], 0, 0, text, lastError));
    }
  }
}
