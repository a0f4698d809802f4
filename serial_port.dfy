/** `SerialPortObj`: owner of one native `sp_port` handle. The pointer is NULL exactly when
    the object is disposed (or its construction failed); every member then raises
    ObjectDisposedException before any native call, and the handle is freed at most once,
    by the first of Dispose and the finaliser. Every native result goes through
    `throwExceptionWhenNegative` at once. */
module SerialPort {
  import opened Results
  import opened Codes
  import opened NativeLib
  import opened Errors
  import opened PortConfig
  import Libserialport

  class SerialPortObj {
    const native: Native
    var port: Ptr

    ghost predicate Valid()
      reads this, native
    {
      native.Valid() && (port != NULL ==> native.IsPort(port))
    }

    /** The object as the field initialiser leaves it, before any constructor body. */
    constructor Blank(native: Native)
      ensures this.native == native && port == NULL
    {
      this.native := native;
      port := NULL;
    }

    // ------------------------------------------------------------ construction

    /** `SerialPortObj(string portName)`: a null name is refused before any native call;
        otherwise sp_get_port_by_name writes the new handle straight into the field, which
        stays NULL when the lookup fails. */
    static method New(native: Native, portName: NStr) returns (obj: SerialPortObj, o: Outcome<()>)
      requires native.Valid()
      modifies native
      ensures fresh(obj) && obj.native == native && obj.Valid()
      ensures o.Ok? <==> obj.port != NULL
      ensures portName.None? ==> o == Fail(ArgumentNull("portName")) && unchanged(native)
      ensures portName.Some? ==>
                Reports(old(native.trace), native.trace, GetPortByName, NULL, [], o)
                && native.trace[|old(native.trace)|].text == portName
      ensures o.Ok? ==> obj.port !in old(native.handles) && obj.port !in old(native.released)
                        && native.handles == old(native.handles)[obj.port := Port(false)]
      ensures o.Fail? ==> native.handles == old(native.handles)
    {
      obj := new SerialPortObj.Blank(native);
      if portName.None? {
        return obj, Fail(ArgumentNull("portName"));
      }
      ghost var t := native.trace;
      var r, p := native.PortByName(portName.value);
      obj.port := p;
      assert native.trace[..|t|] == t;
      var n := Translated(native, r, t);
      o := Forward(n, ());
    }

    /** The private `SerialPortObj(sp_port* otherPort)`: an independent copy of a port
        handle or of a port-list entry, made by sp_copy_port. */
    static method FromPort(native: Native, otherPort: Ptr) returns (obj: SerialPortObj, o: Outcome<()>)
      requires native.Valid() && (otherPort == NULL || native.IsPort(otherPort) || native.Listed(otherPort))
      modifies native
      ensures fresh(obj) && obj.native == native && obj.Valid()
      ensures o.Ok? <==> obj.port != NULL
      ensures otherPort == NULL ==> o == Fail(ArgumentNull("otherPort")) && unchanged(native)
      ensures otherPort != NULL ==> Reports(old(native.trace), native.trace, CopyPort, otherPort, [], o)
                                    && native.trace[|old(native.trace)|].out == obj.port
      ensures o.Ok? ==> obj.port !in old(native.handles) && obj.port !in old(native.released)
                        && native.handles == old(native.handles)[obj.port := Port(false)]
      ensures o.Fail? ==> native.handles == old(native.handles)
      ensures old(native.released) <= native.released
    {
      obj := new SerialPortObj.Blank(native);
      if otherPort == NULL {
        return obj, Fail(ArgumentNull("otherPort"));
      }
      var p;
      p, o := CopyHandle(native, otherPort);
      obj.port := p;
    }

    /** sp_copy_port, translated: `p` is what the call stores into the new object's field. */
    static method CopyHandle(native: Native, src: Ptr) returns (p: Ptr, o: Outcome<()>)
      requires native.Valid() && src != NULL && (native.IsPort(src) || native.Listed(src))
      modifies native
      ensures native.Valid() && (p != NULL ==> native.IsPort(p))
      ensures o.Ok? <==> p != NULL
      ensures Reports(old(native.trace), native.trace, CopyPort, src, [], o)
      ensures native.trace[|old(native.trace)|].out == p
      ensures o.Ok? ==> p !in old(native.handles) && p !in old(native.released)
                        && native.handles == old(native.handles)[p := Port(false)]
      ensures o.Fail? ==> native.handles == old(native.handles)
      ensures old(native.released) <= native.released
    {
      ghost var t := native.trace;
      var r;
      r, p := native.Copy(src);
      assert native.trace[..|t|] == t;
      var n := Translated(native, r, t);
      o := Forward(n, ());
    }

    /** The copy constructor `SerialPortObj(SerialPortObj other)`: `other.Port` is read
        first, so a null `other` raises NullReferenceException and a disposed one
        ObjectDisposedException, neither with a native call; then a copy of its handle. */
    static method CopyOf(native: Native, other: SerialPortObj?) returns (obj: SerialPortObj?, o: Outcome<()>)
      requires native.Valid() && (other != null ==> other.native == native && other.Valid())
      modifies native
      ensures other == null ==> obj == null && o == Fail(NullReference) && unchanged(native)
      ensures other != null && other.port == NULL ==> obj == null && o == Fail(ObjectDisposed) && unchanged(native)
      ensures other != null && other.port != NULL ==>
                obj != null && fresh(obj) && obj.native == native && obj.Valid()
                && (o.Ok? <==> obj.port != NULL)
                && Reports(old(native.trace), native.trace, CopyPort, other.port, [], o)
                && (o.Ok? ==> obj.port != other.port && native.handles == old(native.handles)[obj.port := Port(false)])
                && (o.Fail? ==> native.handles == old(native.handles))
    {
      if other == null {
        return null, Fail(NullReference);
      }
      var p := other.PortPtr();
      if p.Fail? {
        return null, Fail(p.error);
      }
      obj, o := FromPort(native, p.value);
    }

    // --------------------------------------------------------- port enumeration

    /** `listPorts()`: one new `SerialPortObj` per entry of the list sp_list_ports returns,
        each owning its own copy of the entry. The `finally` block frees the list whether
        or not a copy fails, so no list outlives the call: what stays behind are the new
        port handles `ps`, all closed. After a failed copy the objects already made are
        unreachable and their handles are left to the finalisers. */
    static method ListPorts(native: Native)
      returns (o: Outcome<seq<SerialPortObj>>, ghost ps: seq<Ptr>, ghost listed: Handle, ghost copies: seq<Call>,
               ghost failed: seq<Call>)
      requires native.Valid()
      modifies native
      ensures native.Valid()
      ensures Adds(old(native.handles), native.handles, ps)
      ensures |old(native.trace)| < |native.trace| && native.trace[|old(native.trace)|].entry == Entry.ListPorts
      ensures IsErrorCode(native.trace[|old(native.trace)|].result) ==>
                o == Fail(Translation(native.trace[|old(native.trace)|].result, native.trace[|old(native.trace)|].slot).error)
                && native.handles == old(native.handles)
      ensures !IsErrorCode(native.trace[|old(native.trace)|].result) ==>
                listed.PortList? && CopiesOf(copies, listed.entries, ps)
                && native.trace == old(native.trace) + [native.trace[|old(native.trace)|]] + copies + failed + [Last(native.trace)]
                && Last(native.trace).entry == FreePortList
                && Last(native.trace).target == native.trace[|old(native.trace)|].out
      ensures !IsErrorCode(native.trace[|old(native.trace)|].result) && o.Fail? ==>
                |ps| < |listed.entries|
                && Reports(old(native.trace) + [native.trace[|old(native.trace)|]] + copies,
                           old(native.trace) + [native.trace[|old(native.trace)|]] + copies + failed,
                           CopyPort, listed.entries[|ps|], [], o)
      ensures o.Ok? ==>
                !IsErrorCode(native.trace[|old(native.trace)|].result) && failed == []
                && listed.PortList? && |o.value| == |ps| == |listed.entries|
                && (forall j | 0 <= j < |ps| :: fresh(o.value[j]) && o.value[j].native == native && o.value[j].port == ps[j])
    {
      ps := [];
      copies := [];
      failed := [];
      listed := PortList([]);
      ghost var t0 := native.trace;
      ghost var h0 := native.handles;
      var r, list := native.Enumerate();
      assert native.trace[..|t0|] == t0;
      var u := Translated(native, r, t0);
      if u.Fail? {
        return Fail(u.error), ps, listed, copies, failed;
      }
      listed := native.handles[list];
      ghost var t1 := native.trace;
      assert t1[|t0| + 1..] == [];
      assert t1 == t0 + [t1[|t0|]];
      ghost var free;
      o, ps, copies, failed, free := CopyAndRelease(native, list, |t0|, h0);
    }

    /** The `try` body after sp_list_ports succeeded, with the `finally` block: copy the
        entries of `l`, then free `l` whatever the copies gave. */
    static method CopyAndRelease(native: Native, l: Ptr, ghost k: nat, ghost h0: map<Ptr, Handle>)
      returns (o: Outcome<seq<SerialPortObj>>, ghost ps: seq<Ptr>, ghost copies: seq<Call>, ghost failed: seq<Call>,
               ghost free: Call)
      requires native.Valid() && native.IsPortList(l) && k < |native.trace|
      requires l !in h0 && native.handles == h0[l := native.handles[l]]
      modifies native
      ensures native.Valid()
      ensures k < |native.trace| && native.trace[k] == old(native.trace[k])
      ensures Adds(h0, native.handles, ps) && CopiesOf(copies, old(native.handles[l]).entries, ps)
      ensures native.trace == old(native.trace) + copies + failed + [free]
              && free.entry == FreePortList && free.target == l
      ensures o.Ok? ==>
                failed == [] && |o.value| == |ps| == |old(native.handles[l]).entries|
                && (forall j | 0 <= j < |ps| :: fresh(o.value[j]) && o.value[j].native == native && o.value[j].port == ps[j])
      ensures o.Fail? ==>
                |ps| < |old(native.handles[l]).entries|
                && Reports(old(native.trace) + copies, old(native.trace) + copies + failed, CopyPort,
                           old(native.handles[l]).entries[|ps|], [], o)
    {
      ghost var h1 := native.handles;
      var c;
      c, ps, copies, failed := CopyEntries(native, l);
      free := FreeList(native, l, k, h0, h1, ps);
      if c.Fail? {
        return Fail(c.error), ps, copies, failed, free;
      }
      o := Ok(c.value);
    }

    /** The `finally` block of `listPorts`: sp_free_port_list on `l`, which leaves just
        the handles the copies added. */
    static method FreeList(native: Native, l: Ptr, ghost k: nat, ghost h0: map<Ptr, Handle>,
                           ghost h1: map<Ptr, Handle>, ghost ps: seq<Ptr>) returns (ghost free: Call)
      requires native.Valid() && native.IsPortList(l) && k < |native.trace|
      requires l in h1 && l !in h0 && h1 == h0[l := h1[l]] && Adds(h1, native.handles, ps)
      modifies native
      ensures native.Valid() && Adds(h0, native.handles, ps)
      ensures k < |native.trace| && native.trace[k] == old(native.trace[k])
      ensures native.trace == old(native.trace) + [free] && free.entry == FreePortList && free.target == l
    {
      ghost var h2 := native.handles;
      ghost var t2 := native.trace;
      native.ReleasePortList(l);
      free := Call(FreePortList, l, [], [], 0, 0, None, native.lastError);
      assert native.trace[..|t2|][k] == t2[k];
      AddsWithout(h0, l, h1, h2, ps);
    }

    /** The loop of `listPorts`: a copy of `portList[i]` for each `i` up to the terminating
        NULL, stopping at the first copy that fails. */
    static method CopyEntries(native: Native, l: Ptr)
      returns (o: Outcome<seq<SerialPortObj>>, ghost ps: seq<Ptr>, ghost copies: seq<Call>, ghost failed: seq<Call>)
      requires native.Valid() && native.IsPortList(l)
      modifies native
      ensures native.Valid() && native.IsPortList(l)
      ensures Adds(old(native.handles), native.handles, ps) && CopiesOf(copies, old(native.handles[l]).entries, ps)
      ensures native.trace == old(native.trace) + copies + failed
      ensures o.Ok? ==>
                failed == [] && |o.value| == |ps| == |old(native.handles[l]).entries|
                && (forall j | 0 <= j < |ps| :: fresh(o.value[j]) && o.value[j].native == native && o.value[j].port == ps[j])
      ensures o.Fail? ==>
                |ps| < |old(native.handles[l]).entries|
                && Reports(old(native.trace) + copies, old(native.trace) + copies + failed, CopyPort,
                           old(native.handles[l]).entries[|ps|], [], o)
    {
      ghost var t0 := native.trace;
      ghost var h0 := native.handles;
      ghost var entries := native.handles[l].entries;
      var ports: seq<SerialPortObj> := [];
      ps := [];
      copies := [];
      failed := [];
      ghost var made: set<SerialPortObj> := {};
      var i := 0;
      while native.ListSlot(l, i) != NULL
        invariant native.Valid() && fresh(made) && i == |ps|
        invariant Listing(native, l, h0, t0, entries, ports, ps, made, copies)
        decreases |entries| - i
      {
        var sp, u;
        ghost var q;
        sp, u, q := Extend(native, l, i, h0, t0, entries, ports, ps, made, copies);
        if u.Fail? {
          return Fail(u.error), ps, copies, q;
        }
        ports, ps, made, copies := ports + [sp], ps + [sp.port], made + {sp}, copies + [Last(native.trace)];
        i := i + 1;
      }
      assert native.trace == t0 + copies + failed;
      o := Ok(ports);
    }

    /** The body of the loop: a copy of the next entry, with what it adds to each of the
        sequences the loop keeps. */
    static method Extend(native: Native, l: Ptr, i: nat, ghost h0: map<Ptr, Handle>, ghost t0: seq<Call>, ghost entries: seq<NonNull>,
                         ports: seq<SerialPortObj>, ghost ps: seq<Ptr>, ghost made: set<SerialPortObj>,
                         ghost copies: seq<Call>)
      returns (sp: SerialPortObj, o: Outcome<()>, ghost failed: seq<Call>)
      requires native.Valid() && Listing(native, l, h0, t0, entries, ports, ps, made, copies)
      requires i == |ps| < |entries|
      modifies native
      ensures native.Valid() && fresh(sp)
      ensures o.Fail? ==> native.handles == old(native.handles) && native.trace == t0 + copies + failed
                          && Reports(t0 + copies, t0 + copies + failed, CopyPort, entries[i], [], o)
      ensures o.Ok? ==> failed == []
      ensures o.Ok? ==> 0 < |native.trace|
                        && Listing(native, l, h0, t0, entries, ports + [sp], ps + [sp.port], made + {sp}, copies + [Last(native.trace)])
    {
      var entry := native.ListSlot(l, i);
      ghost var c;
      sp, o, c := CopyStep(native, l, entry, h0, ps, t0, entries, copies);
      if o.Ok? {
        WrappingSnoc(ports, native, ps, made, sp);
        assert Last(native.trace) == c;
        failed := [];
      } else {
        failed := native.trace[|t0 + copies|..];
        assert native.trace == t0 + copies + failed;
      }
    }

    /** One pass of the loop: a copy of `entries[|ps|]`, whose new handle joins `ps` and
        whose call joins `copies`. */
    static method CopyStep(native: Native, ghost l: Ptr, entry: Ptr, ghost h0: map<Ptr, Handle>, ghost ps: seq<Ptr>,
                           ghost t0: seq<Call>, ghost entries: seq<NonNull>, ghost copies: seq<Call>)
      returns (sp: SerialPortObj, o: Outcome<()>, ghost c: Call)
      requires native.Valid() && native.IsPortList(l) && native.handles[l].entries == entries
      requires Adds(h0, native.handles, ps) && native.trace == t0 + copies && CopiesOf(copies, entries, ps)
      requires |copies| < |entries| && entries[|copies|] == entry
      modifies native
      ensures native.Valid() && fresh(sp) && sp.native == native
      ensures o.Fail? ==> native.handles == old(native.handles) && Reports(old(native.trace), native.trace, CopyPort, entry, [], o)
      ensures o.Ok? ==> sp.port !in old(native.handles) && native.handles == old(native.handles)[sp.port := Port(false)]
      ensures o.Ok? ==> Adds(h0, native.handles, ps + [sp.port])
      ensures o.Ok? ==> native.trace == t0 + (copies + [c]) && CopiesOf(copies + [c], entries, ps + [sp.port])
    {
      ghost var t := native.trace;
      ghost var h := native.handles;
      assert entry in native.handles[l].entries;
      sp, o := FromPort(native, entry);
      c := native.trace[|t|];
      if o.Ok? {
        AddsSnoc(h0, h, ps, sp.port);
        ReportedOk(t, native.trace, CopyPort, entry, [], o);
        CopiesOfSnoc(copies, entries, ps, c, sp.port);
      }
    }

    // ------------------------------------------------------------------ disposal

    /** `Dispose(bool)`: whatever `disposing` says, a live handle is freed once and the
        field cleared; a disposed object makes no native call. The port is not closed
        first. */
    method DisposeCore(disposing: bool)
      requires Valid()
      modifies this, native
      ensures Valid() && port == NULL
      ensures old(port) != NULL ==>
                native.handles == old(native.handles) - {old(port)}
                && native.released == old(native.released) + {old(port)}
                && native.trace == old(native.trace) + [Call(FreePort, old(port), [], [], 0, 0, None, native.lastError)]
      ensures old(port) == NULL ==> unchanged(native)
    {
      if port != NULL {
        native.ReleasePort(port);
        port := NULL;
      }
    }

    /** `Dispose()`. */
    method Dispose()
      requires Valid()
      modifies this, native
      ensures Valid() && port == NULL
      ensures old(port) != NULL ==>
                native.handles == old(native.handles) - {old(port)}
                && native.released == old(native.released) + {old(port)}
                && native.trace == old(native.trace) + [Call(FreePort, old(port), [], [], 0, 0, None, native.lastError)]
      ensures old(port) == NULL ==> unchanged(native)
    {
      DisposeCore(true);
    }

    /** The finaliser `~SerialPortObj()`. */
    method Finalize()
      requires Valid()
      modifies this, native
      ensures Valid() && port == NULL
      ensures old(port) != NULL ==>
                native.handles == old(native.handles) - {old(port)}
                && native.released == old(native.released) + {old(port)}
                && native.trace == old(native.trace) + [Call(FreePort, old(port), [], [], 0, 0, None, native.lastError)]
      ensures old(port) == NULL ==> unchanged(native)
    {
      DisposeCore(false);
    }

    // ---------------------------------------------------------------- properties

    /** The internal `Port` property, used by the event set: the handle, or
        ObjectDisposedException. */
    function PortPtr(): (o: Outcome<Ptr>)
      reads this
      ensures o.Fail? <==> port == NULL
      ensures o.Fail? ==> o.error == ObjectDisposed
      ensures o.Ok? ==> o.value == port && o.value != NULL
    {
      if port == NULL then Fail(ObjectDisposed) else Ok(port)
    }

    /** The string properties `Name`, `UsbManufacturer`, `UsbProduct`, `UsbSerial` and
        `BluetoothAddress`: the port's string, null when the library has none. */
    method StringProperty(e: Entry) returns (o: Outcome<NStr>)
      requires Valid()
      requires e in {GetPortName, GetPortUsbManufacturer, GetPortUsbProduct, GetPortUsbSerial, GetPortBluetoothAddress}
      modifies native
      ensures Valid() && native.Stable()
      ensures port == NULL ==> o == Fail(ObjectDisposed) && unchanged(native)
      ensures port != NULL ==>
                o.Ok? && |native.trace| == |old(native.trace)| + 1
                && native.trace[..|old(native.trace)|] == old(native.trace)
                && Last(native.trace).entry == e && Last(native.trace).target == port
                && Last(native.trace).text == o.value
                && (Last(native.trace).out == NULL <==> o.value.None?)
    {
      if port == NULL {
        return Fail(ObjectDisposed);
      }
      ghost var t := native.trace;
      var s, ptr := Libserialport.PortString(native, e, port);
      assert native.trace[..|t|] == t && Last(native.trace) == Call(e, port, [], [], 0, ptr, s, native.lastError);
      o := Ok(s);
    }

    /** `Name`. */
    method Name() returns (o: Outcome<NStr>)
      requires Valid()
      modifies native
      ensures Valid() && native.Stable()
      ensures port == NULL ==> o == Fail(ObjectDisposed) && unchanged(native)
      ensures port != NULL ==>
                o.Ok? && |native.trace| == |old(native.trace)| + 1
                && native.trace[..|old(native.trace)|] == old(native.trace)
                && Last(native.trace).entry == GetPortName && Last(native.trace).target == port
                && Last(native.trace).text == o.value
    {
      o := StringProperty(GetPortName);
    }

    /** `Description`. */
    method Description() returns (o: Outcome<NStr>)
      requires Valid()
      modifies native
      ensures Valid() && native.Stable()
      ensures port == NULL ==> o == Fail(ObjectDisposed) && unchanged(native)
      ensures port != NULL ==>
                o.Ok? && |native.trace| == |old(native.trace)| + 1
                && native.trace[..|old(native.trace)|] == old(native.trace)
                && Last(native.trace).entry == GetPortDescription && Last(native.trace).target == port
                && Last(native.trace).text == o.value
                && (Last(native.trace).out == NULL <==> o.value.None?)
    {
      if port == NULL {
        return Fail(ObjectDisposed);
      }
      var s, ptr := Libserialport.PortDescription(native, port);
      o := Ok(s);
    }

    /** `Transport`: the library's value, which is always one of the three transports. */
    method Transport() returns (o: Outcome<Transport>)
      requires Valid()
      modifies native
      ensures Valid() && native.Stable()
      ensures port == NULL ==> o == Fail(ObjectDisposed) && unchanged(native)
      ensures port != NULL ==>
                o.Ok? && |native.trace| == |old(native.trace)| + 1
                && native.trace[..|old(native.trace)|] == old(native.trace)
                && Last(native.trace).entry == GetPortTransport && Last(native.trace).target == port
                && TransportValue(o.value) == Last(native.trace).result
    {
      if port == NULL {
        return Fail(ObjectDisposed);
      }
      var t := native.PortTransport(port);
      o := Ok(TransportOf(t).value);
    }

    /** `UsbBus`, `UsbAddress`, `UsbVendorId` and `UsbProductId`: one integer stored by the
        library through one of two out-pointers (`which` is 0 for the first, 1 for the
        second; the other is passed as NULL), returned when the call succeeds. */
    method UsbProperty(e: Entry, which: nat) returns (o: Outcome<int>)
      requires Valid() && (e.GetPortUsbBusAddress? || e.GetPortUsbVidPid?) && which < 2
      modifies native
      ensures Valid()
      ensures native.handles == old(native.handles)
      ensures port == NULL ==> o == Fail(ObjectDisposed) && unchanged(native)
      ensures port != NULL ==>
                Reports(old(native.trace), native.trace, e, port, if which == 0 then [1, 0] else [0, 1], o)
                && (o.Ok? ==> o.value == native.trace[|old(native.trace)|].out)
    {
      if port == NULL {
        return Fail(ObjectDisposed);
      }
      ghost var t := native.trace;
      var r, v := native.InvokeOut(e, port, if which == 0 then [1, 0] else [0, 1]);
      assert native.trace[..|t|] == t;
      var u := ThrowExceptionWhenNegative(native, r);
      o := Forward(u, v);
    }

    /** `Handle`: the OS handle, read with the platform's pointer size; a size other than
        4 or 8 raises InvalidOperationException without a native call. */
    method Handle(pointerSize: int) returns (o: Outcome<int>)
      requires Valid()
      modifies native
      ensures Valid()
      ensures native.handles == old(native.handles)
      ensures port == NULL ==> o == Fail(ObjectDisposed) && unchanged(native)
      ensures port != NULL && pointerSize !in {4, 8} ==> o == Fail(InvalidOperation) && unchanged(native)
      ensures port != NULL && pointerSize in {4, 8} ==>
                Reports(old(native.trace), native.trace, GetPortHandle, port, [pointerSize], o)
                && (o.Ok? ==> o.value == native.trace[|old(native.trace)|].out)
      ensures pointerSize == 4 && o.Ok? ==> -0x8000_0000 <= o.value < 0x8000_0000
    {
      if port == NULL {
        return Fail(ObjectDisposed);
      }
      ghost var t := native.trace;
      var h := Libserialport.PortHandle(native, port, pointerSize);
      if h.Fail? {
        return Fail(h.error);
      }
      assert native.trace[..|t|] == t;
      var u := ThrowExceptionWhenNegative(native, h.value.0);
      o := Forward(u, h.value.1);
    }

    // ------------------------------------------------------------ plain commands

    /** The shape shared by the members that make one native call on the port and return
        its non-negative result: the port setters, `setFlowcontrol`, the waiting counts,
        `flush`, `drain` and the break controls. */
    method Command(e: Entry, args: seq<int>) returns (o: Outcome<int>)
      requires Valid() && Native.PlainEntry(e) && !e.Wait?
      modifies native
      ensures Valid()
      ensures native.handles == old(native.handles)
      ensures port == NULL ==> o == Fail(ObjectDisposed) && unchanged(native)
      ensures port != NULL ==>
                Reports(old(native.trace), native.trace, e, port, args, o)
                && (o.Ok? ==> o.value == native.trace[|old(native.trace)|].result && o.value >= 0)
                && (NeedsOpenPort(e) && !native.IsOpen(port) ==> o == Fail(ArgumentError))
    {
      if port == NULL {
        return Fail(ObjectDisposed);
      }
      ghost var t := native.trace;
      var r := native.Invoke(e, port, args);
      assert native.trace[..|t|] == t;
      TranslationOfAnswers(e, r, native.lastError);
      var u := ThrowExceptionWhenNegative(native, r);
      o := Forward(u, r);
    }

    // -------------------------------------------------------------- open, close

    /** `open(sp_mode flags)`: on success the port is open. */
    method Open(flags: set<ModeFlag>) returns (o: Outcome<()>)
      requires Valid()
      modifies native
      ensures Valid()
      ensures port == NULL ==> o == Fail(ObjectDisposed) && unchanged(native)
      ensures port != NULL ==>
                Reports(old(native.trace), native.trace, Entry.Open, port, [ModeValue(flags)], o)
                && native.IsPort(port) && native.handles == old(native.handles)[port := native.handles[port]]
                && (native.IsOpen(port) <==> o.Ok? || old(native.IsOpen(port)))
    {
      if port == NULL {
        return Fail(ObjectDisposed);
      }
      var mode := ModeValue(flags);
      ghost var t := native.trace;
      var r := native.OpenPort(port, mode);
      assert native.trace[..|t|] == t;
      TranslationOfAnswers(Entry.Open, r, native.lastError);
      ghost var h := native.handles;
      assert native.IsPort(port);
      o := ThrowExceptionWhenNegative(native, r);
      assert native.handles == h && native.Valid();
    }

    /** `open()`: read/write mode. */
    method OpenReadWrite() returns (o: Outcome<()>)
      requires Valid()
      modifies native
      ensures Valid()
      ensures port == NULL ==> o == Fail(ObjectDisposed) && unchanged(native)
      ensures port != NULL ==>
                Reports(old(native.trace), native.trace, Entry.Open, port, [SP_MODE_READ_WRITE], o)
                && native.handles == old(native.handles)[port := Port(o.Ok? || old(native.handles)[port].open)]
    {
      ModeValues();
      o := Open({ModeRead, ModeWrite});
    }

    /** `close()`: on success the port is closed; closing a port that is not open raises
        ArgumentException. */
    method Close() returns (o: Outcome<()>)
      requires Valid()
      modifies native
      ensures Valid()
      ensures port == NULL ==> o == Fail(ObjectDisposed) && unchanged(native)
      ensures port != NULL ==>
                Reports(old(native.trace), native.trace, Entry.Close, port, [], o)
                && native.handles == old(native.handles)[port := Port(o.Fail? && old(native.handles)[port].open)]
                && (!old(native.IsOpen(port)) ==> o == Fail(ArgumentError))
    {
      if port == NULL {
        return Fail(ObjectDisposed);
      }
      o := Shut();
    }

    /** The native step of `close()`, on a live port. */
    method Shut() returns (o: Outcome<()>)
      requires Valid() && port != NULL
      modifies native
      ensures Valid()
      ensures Reports(old(native.trace), native.trace, Entry.Close, port, [], o)
      ensures native.handles == old(native.handles)[port := Port(o.Fail? && old(native.handles)[port].open)]
      ensures !old(native.IsOpen(port)) ==> o == Fail(ArgumentError)
    {
      ghost var t := native.trace;
      var r := native.ClosePort(port);
      assert native.trace[..|t|] == t;
      TranslationOfAnswers(Entry.Close, r, native.lastError);
      ghost var closed := Port(r < 0 && old(native.handles)[port].open);
      assert native.handles == old(native.handles)[port := closed];
      var n := Translated(native, r, t);
      assert closed == Port(n.Fail? && old(native.handles)[port].open);
      o := Forward(n, ());
    }

    // ------------------------------------------------------------- configuration

    /** `getConfig()`: a new configuration structure filled from the port and handed to a
        new `PortConfigObj`, which then owns it. Whatever fails, the structure is freed
        before the exception leaves, so a failed call leaves no handle behind. The ghost
        results split the trace: `tNew` ends with sp_new_config, whose translation is
        `first` and whose structure is `cfg`, and `tGet` with sp_get_config. */
    method GetConfig() returns (o: Outcome<PortConfigObj>, ghost first: Outcome<()>, ghost cfg: Ptr,
                                ghost tNew: seq<Call>, ghost tGet: seq<Call>)
      requires Valid()
      modifies native
      ensures Valid()
      ensures port == NULL ==> o == Fail(ObjectDisposed) && unchanged(native)
      ensures o.Fail? ==> native.handles == old(native.handles)
      ensures o.Ok? ==>
                fresh(o.value) && o.value.native == native && o.value.Valid()
                && o.value.config != NULL && o.value.config !in old(native.handles)
                && o.value.config !in old(native.released)
                && native.handles == old(native.handles)[o.value.config := native.handles[o.value.config]]
      ensures port != NULL ==>
                Reports(old(native.trace), tNew, NewConfig, NULL, [], first)
                && tNew[|old(native.trace)|].out == cfg
                && (first.Fail? ==> o == Fail(first.error) && native.trace == tNew)
      ensures port != NULL && first.Ok? ==>
                Reports(tNew, tGet, Entry.GetConfig, port, [cfg], o)
                && (o.Fail? ==> native.trace == tGet + [Call(FreeConfig, cfg, [], [], 0, 0, None, native.lastError)])
                && (o.Ok? ==> native.trace == tGet && o.value.config == cfg)
      ensures port != NULL && !old(native.IsOpen(port)) ==> o.Fail?
    {
      if port == NULL {
        return Fail(ObjectDisposed), Ok(()), NULL, [], [];
      }
      ghost var h0 := native.handles;
      ghost var t0 := native.trace;
      var c, u := NewConfigStruct();
      first, cfg, tNew := u, c, native.trace;
      if u.Fail? {
        return Fail(u.error), first, cfg, tNew, tNew;
      }
      o, tGet := FillAndAdopt(c, |t0|, h0);
    }

    /** The rest of `getConfig` once sp_new_config has given `c`, a structure that `h0`
        did not hold: sp_get_config into it, then either the new owner or, through the
        `finally` block, the release of `c`; `tGet` is the trace up to the translation of
        sp_get_config. */
    method FillAndAdopt(c: Ptr, ghost k: nat, ghost h0: map<Ptr, Handle>) returns (o: Outcome<PortConfigObj>, ghost tGet: seq<Call>)
      requires Valid() && port != NULL && k < |native.trace|
      requires c != NULL && c !in h0 && native.handles == h0[c := Config(Unset)]
      modifies native
      ensures Valid()
      ensures k < |native.trace| && native.trace[k] == old(native.trace[k])
      ensures o.Fail? ==> native.handles == h0
      ensures o.Ok? ==>
                fresh(o.value) && o.value.native == native && o.value.Valid()
                && o.value.config == c && native.handles == h0[c := native.handles[c]]
      ensures Reports(old(native.trace), tGet, Entry.GetConfig, port, [c], o)
      ensures o.Fail? ==> native.trace == tGet + [Call(FreeConfig, c, [], [], 0, 0, None, native.lastError)]
      ensures o.Ok? ==> native.trace == tGet
      ensures !old(native.IsOpen(port)) ==> o.Fail?
    {
      var u := FillConfig(c, k);
      tGet := native.trace;
      ghost var h2 := native.handles;
      if u.Fail? {
        native.ReleaseConfig(c);
        UpdateThenRemove(h0, c, Config(Unset), h2[c]);
        return Fail(u.error), tGet;
      }
      var cfg, adopted := PortConfigObj.Adopt(native, c);
      o := Ok(cfg);
    }

    /** The first step of `getConfig`: sp_new_config, translated. */
    method NewConfigStruct() returns (c: Ptr, u: Outcome<()>)
      requires native.Valid()
      modifies native
      ensures native.Valid()
      ensures Reports(old(native.trace), native.trace, NewConfig, NULL, [], u)
      ensures native.trace[|old(native.trace)|].out == c
      ensures u.Ok? ==> c != NULL && c !in old(native.handles) && c !in old(native.released)
                        && native.handles == old(native.handles)[c := Config(Unset)]
      ensures u.Fail? ==> c == NULL && native.handles == old(native.handles)
    {
      ghost var t := native.trace;
      var r;
      r, c := native.AllocateConfig();
      assert native.trace[..|t|] == t;
      ghost var h := native.handles;
      u := ThrowExceptionWhenNegative(native, r);
      assert native.handles == h;
    }

    /** The second step of `getConfig`: sp_get_config into `c`, translated. */
    method FillConfig(c: Ptr, ghost k: nat) returns (u: Outcome<()>)
      requires Valid() && port != NULL && native.IsConfig(c) && k < |native.trace|
      modifies native
      ensures Valid() && native.IsConfig(c)
      ensures k < |native.trace| && native.trace[k] == old(native.trace[k])
      ensures native.handles == old(native.handles)[c := native.handles[c]]
      ensures u.Fail? ==> native.handles == old(native.handles)
      ensures Reports(old(native.trace), native.trace, Entry.GetConfig, port, [c], u)
      ensures !old(native.IsOpen(port)) ==> u.Fail?
    {
      ghost var t0 := native.trace;
      u := Fill(native, port, c);
      assert native.trace[..|t0|][k] == t0[k];
    }

    /** sp_get_config of `port` into `c`, translated. */
    static method Fill(native: Native, port: Ptr, c: Ptr) returns (u: Outcome<()>)
      requires native.Valid() && native.IsPort(port) && native.IsConfig(c)
      modifies native
      ensures native.Valid() && native.IsConfig(c)
      ensures native.handles == old(native.handles)[c := native.handles[c]]
      ensures u.Fail? ==> native.handles == old(native.handles)
      ensures Reports(old(native.trace), native.trace, Entry.GetConfig, port, [c], u)
      ensures !old(native.IsOpen(port)) ==> u.Fail?
    {
      ghost var t0 := native.trace;
      var r := native.GetConfigOf(port, c);
      assert native.trace[..|t0|] == t0;
      TranslationOfAnswers(Entry.GetConfig, r, native.lastError);
      u := ThrowExceptionWhenNegative(native, r);
    }

    /** `setConfig(PortConfigObj config)`: the checks come in order (this port, a null
        configuration, a disposed configuration), then the configuration is applied. */
    method SetConfig(config: PortConfigObj?) returns (o: Outcome<()>)
      requires Valid() && (config != null ==> config.native == native && config.Valid())
      modifies native
      ensures Valid() && native.handles == old(native.handles)
      ensures port == NULL ==> o == Fail(ObjectDisposed) && unchanged(native)
      ensures port != NULL && config == null ==> o == Fail(ArgumentNull("config")) && unchanged(native)
      ensures port != NULL && config != null && config.config == NULL ==> o == Fail(ObjectDisposed) && unchanged(native)
      ensures port != NULL && config != null && config.config != NULL ==>
                Reports(old(native.trace), native.trace, Entry.SetConfig, port, [config.config], o)
                && (!native.IsOpen(port) ==> o == Fail(ArgumentError))
    {
      if port == NULL {
        return Fail(ObjectDisposed);
      }
      if config == null {
        return Fail(ArgumentNull("config"));
      }
      var c := config.ConfigPtr();
      if c.Fail? {
        return Fail(c.error);
      }
      o := ApplyConfig(c.value);
    }

    /** The native step of `setConfig`: sp_set_config with a live structure, translated. */
    method ApplyConfig(c: Ptr) returns (o: Outcome<()>)
      requires Valid() && port != NULL && native.IsConfig(c)
      modifies native
      ensures Valid() && native.handles == old(native.handles)
      ensures Reports(old(native.trace), native.trace, Entry.SetConfig, port, [c], o)
      ensures !native.IsOpen(port) ==> o == Fail(ArgumentError)
    {
      ghost var t := native.trace;
      var r := native.SetConfigOf(port, c);
      assert native.trace[..|t|] == t;
      TranslationOfAnswers(Entry.SetConfig, r, native.lastError);
      o := ThrowExceptionWhenNegative(native, r);
    }

    /** `setBaudrate`, `setBits`, `setParity`, `setStopbits`, `setRts`, `setCts`, `setDtr`,
        `setDsr` and `setXonXoff`: one setting of the port, given as a value of the
        parameter's type. */
    method SetField(f: Field, v: int) returns (o: Outcome<()>)
      requires Valid() && Admits(f, v)
      modifies native
      ensures Valid() && native.handles == old(native.handles)
      ensures port == NULL ==> o == Fail(ObjectDisposed) && unchanged(native)
      ensures port != NULL ==>
                Reports(old(native.trace), native.trace, SetPortSetting(f), port, [v], o)
                && (!native.IsOpen(port) ==> o == Fail(ArgumentError))
    {
      var n := Command(SetPortSetting(f), [v]);
      o := Forward(n, ());
    }

    /** `setFlowcontrol(sp_flowcontrol)`. */
    method SetFlowcontrol(fc: FlowControl) returns (o: Outcome<()>)
      requires Valid()
      modifies native
      ensures Valid() && native.handles == old(native.handles)
      ensures port == NULL ==> o == Fail(ObjectDisposed) && unchanged(native)
      ensures port != NULL ==>
                Reports(old(native.trace), native.trace, Entry.SetFlowcontrol, port, [FlowControlValue(fc)], o)
                && (!native.IsOpen(port) ==> o == Fail(ArgumentError))
    {
      var n := Command(Entry.SetFlowcontrol, [FlowControlValue(fc)]);
      o := Forward(n, ());
    }

    // ----------------------------------------------------------- data handling

    /** What a read of `count` bytes into `buffer` reports: a count the buffer cannot
        hold is refused before the native call; otherwise the native call's result,
        translated, with exactly the bytes it delivered copied to the front of the buffer
        and the rest of the buffer as it was. */
    twostate predicate ReadReported(e: Entry, buffer: array<byte>, count: i32, timeoutMs: int,
                                    new o: Outcome<int>, got: seq<byte>)
      reads this, native, buffer
    {
      if !Libserialport.AdmitsCount(count, buffer.Length) then
        o == Fail(CountArgument) && native.trace == old(native.trace) && buffer[..] == old(buffer[..])
      else
        Reports(old(native.trace), native.trace, e, port, Libserialport.TransferArgs(e, count, timeoutMs), o)
        && native.trace[|old(native.trace)|].data == got
        && ReadContract(e, count, timeoutMs, native.trace[|old(native.trace)|].result)
        && (o.Ok? ==> o.value == native.trace[|old(native.trace)|].result)
        && |got| == (if native.trace[|old(native.trace)|].result > 0 then native.trace[|old(native.trace)|].result else 0)
        && |got| <= buffer.Length
        && buffer[..] == Libserialport.Delivered(old(buffer[..]), got, native.trace[|old(native.trace)|].result)
    }

    /** The body shared by the three-argument reads. */
    method ReadWith(e: Entry, buffer: array?<byte>, count: i32, timeoutMs: u32) returns (o: Outcome<int>, ghost got: seq<byte>)
      requires Valid() && e in {Entry.BlockingRead, Entry.BlockingReadNext, Entry.NonblockingRead}
      modifies native, buffer
      ensures Valid() && native.handles == old(native.handles)
      ensures port == NULL ==> o == Fail(ObjectDisposed) && unchanged(native) && (buffer != null ==> unchanged(buffer))
      ensures port != NULL && buffer == null ==> o == Fail(ArgumentNull("buffer")) && unchanged(native)
      ensures port != NULL && buffer != null ==> ReadReported(e, buffer, count, timeoutMs, o, got)
    {
      got := [];
      if port == NULL {
        return Fail(ObjectDisposed), got;
      }
      if buffer == null {
        return Fail(ArgumentNull("buffer")), got;
      }
      o, got := ReadOn(e, buffer, count, timeoutMs);
    }

    /** A three-argument read on a live port and a buffer that is there. */
    method ReadOn(e: Entry, buffer: array<byte>, count: i32, timeoutMs: u32) returns (o: Outcome<int>, ghost got: seq<byte>)
      requires Valid() && port != NULL && e in {Entry.BlockingRead, Entry.BlockingReadNext, Entry.NonblockingRead}
      modifies native, buffer
      ensures Valid() && native.handles == old(native.handles)
      ensures ReadReported(e, buffer, count, timeoutMs, o, got)
    {
      ghost var t0 := native.trace;
      var r;
      r, got := NativeRead(e, buffer, count, timeoutMs);
      if r.Fail? {
        return r, got;
      }
      ghost var b := buffer[..];
      o := Translated(native, r.value, t0);
      assert buffer[..] == b;
    }

    /** The byte[] wrapper each three-argument read calls. */
    method NativeRead(e: Entry, buffer: array<byte>, count: i32, timeoutMs: u32) returns (o: Outcome<int>, ghost got: seq<byte>)
      requires Valid() && port != NULL
      requires e in {Entry.BlockingRead, Entry.BlockingReadNext, Entry.NonblockingRead}
      modifies native, buffer
      ensures Valid() && native.Stable()
      ensures !Libserialport.AdmitsCount(count, buffer.Length) ==>
                o == Fail(CountArgument) && unchanged(native) && unchanged(buffer)
      ensures Libserialport.AdmitsCount(count, buffer.Length) ==>
                o.Ok? && ReadContract(e, count, timeoutMs, o.value)
                && |got| == (if o.value > 0 then o.value else 0) <= buffer.Length
                && buffer[..] == Libserialport.Delivered(old(buffer[..]), got, o.value)
                && native.trace == old(native.trace)
                     + [Call(e, port, Libserialport.TransferArgs(e, count, timeoutMs), got, o.value, 0, None, native.lastError)]
    {
      if e == Entry.BlockingRead {
        o, got := Libserialport.BlockingRead(native, port, buffer, count, timeoutMs);
      } else if e == Entry.BlockingReadNext {
        o, got := Libserialport.BlockingReadNext(native, port, buffer, count, timeoutMs);
      } else {
        o, got := Libserialport.NonblockingRead(native, port, buffer, count);
      }
    }

    /** `blockingRead(byte[] buffer, int count, UInt32 timeoutMs)`. */
    method BlockingRead(buffer: array?<byte>, count: i32, timeoutMs: u32) returns (o: Outcome<int>, ghost got: seq<byte>)
      requires Valid()
      modifies native, buffer
      ensures Valid() && native.handles == old(native.handles)
      ensures port == NULL ==> o == Fail(ObjectDisposed) && unchanged(native) && (buffer != null ==> unchanged(buffer))
      ensures port != NULL && buffer == null ==> o == Fail(ArgumentNull("buffer")) && unchanged(native)
      ensures port != NULL && buffer != null ==> ReadReported(Entry.BlockingRead, buffer, count, timeoutMs, o, got)
    {
      o, got := ReadWith(Entry.BlockingRead, buffer, count, timeoutMs);
    }

    /** `blockingReadNext(byte[] buffer, int count, UInt32 timeoutMs)`. */
    method BlockingReadNext(buffer: array?<byte>, count: i32, timeoutMs: u32) returns (o: Outcome<int>, ghost got: seq<byte>)
      requires Valid()
      modifies native, buffer
      ensures Valid() && native.handles == old(native.handles)
      ensures port == NULL ==> o == Fail(ObjectDisposed) && unchanged(native) && (buffer != null ==> unchanged(buffer))
      ensures port != NULL && buffer == null ==> o == Fail(ArgumentNull("buffer")) && unchanged(native)
      ensures port != NULL && buffer != null ==> ReadReported(Entry.BlockingReadNext, buffer, count, timeoutMs, o, got)
    {
      o, got := ReadWith(Entry.BlockingReadNext, buffer, count, timeoutMs);
    }

    /** `nonblockingRead(byte[] buffer, int count)`. */
    method NonblockingRead(buffer: array?<byte>, count: i32) returns (o: Outcome<int>, ghost got: seq<byte>)
      requires Valid()
      modifies native, buffer
      ensures Valid() && native.handles == old(native.handles)
      ensures port == NULL ==> o == Fail(ObjectDisposed) && unchanged(native) && (buffer != null ==> unchanged(buffer))
      ensures port != NULL && buffer == null ==> o == Fail(ArgumentNull("buffer")) && unchanged(native)
      ensures port != NULL && buffer != null ==> ReadReported(Entry.NonblockingRead, buffer, count, 0, o, got)
    {
      o, got := ReadWith(Entry.NonblockingRead, buffer, count, 0);
    }

    /** The two-argument reads `blockingRead(byte[], UInt32)`, `blockingReadNext(byte[],
        UInt32)` and `nonblockingRead(byte[])`: `buffer.Length` is read before anything
        else, so a null buffer raises NullReferenceException even on a disposed object;
        otherwise the whole buffer is requested, a count that is never refused. */
    method ReadWhole(e: Entry, buffer: array?<byte>, timeoutMs: u32) returns (o: Outcome<int>, ghost got: seq<byte>)
      requires Valid() && e in {Entry.BlockingRead, Entry.BlockingReadNext, Entry.NonblockingRead}
      requires buffer != null ==> buffer.Length < 0x8000_0000
      modifies native, buffer
      ensures Valid() && native.handles == old(native.handles)
      ensures buffer == null ==> o == Fail(NullReference) && unchanged(native)
      ensures buffer != null && port == NULL ==> o == Fail(ObjectDisposed) && unchanged(native) && unchanged(buffer)
      ensures buffer != null && port != NULL ==>
                ReadReported(e, buffer, buffer.Length, if e.NonblockingRead? then 0 else timeoutMs, o, got)
                && o != Fail(CountArgument)
    {
      if buffer == null {
        return Fail(NullReference), [];
      }
      o, got := ReadWith(e, buffer, buffer.Length as i32, if e.NonblockingRead? then 0 else timeoutMs);
    }

    /** What a write of `count` bytes from `buffer` reports: a count the buffer cannot
        hold is refused before the native call; otherwise the native call received the
        first `count` bytes, and its result is translated. */
    twostate predicate WriteReported(e: Entry, buffer: array<byte>, count: i32, timeoutMs: int, new o: Outcome<int>)
      reads this, native, buffer
    {
      if !Libserialport.AdmitsCount(count, buffer.Length) then
        o == Fail(CountArgument) && native.trace == old(native.trace)
      else
        Reports(old(native.trace), native.trace, e, port, Libserialport.TransferArgs(e, count, timeoutMs), o)
        && native.trace[|old(native.trace)|].data == buffer[..count]
        && WriteContract(e, count, timeoutMs, native.trace[|old(native.trace)|].result)
        && (o.Ok? ==> o.value == native.trace[|old(native.trace)|].result)
    }

    /** The body shared by the three-argument writes, neither of which changes the buffer. */
    method WriteWith(e: Entry, buffer: array?<byte>, count: i32, timeoutMs: u32) returns (o: Outcome<int>)
      requires Valid() && e in {Entry.BlockingWrite, Entry.NonblockingWrite}
      modifies native
      ensures Valid() && native.handles == old(native.handles)
      ensures port == NULL ==> o == Fail(ObjectDisposed) && unchanged(native)
      ensures port != NULL && buffer == null ==> o == Fail(ArgumentNull("buffer")) && unchanged(native)
      ensures port != NULL && buffer != null ==> WriteReported(e, buffer, count, timeoutMs, o)
    {
      if port == NULL {
        return Fail(ObjectDisposed);
      }
      if buffer == null {
        return Fail(ArgumentNull("buffer"));
      }
      o := WriteOn(e, buffer, count, timeoutMs);
    }

    /** A three-argument write on a live port and a buffer that is there. */
    method WriteOn(e: Entry, buffer: array<byte>, count: i32, timeoutMs: u32) returns (o: Outcome<int>)
      requires Valid() && port != NULL && e in {Entry.BlockingWrite, Entry.NonblockingWrite}
      modifies native
      ensures Valid() && native.handles == old(native.handles)
      ensures WriteReported(e, buffer, count, timeoutMs, o)
    {
      ghost var t0 := native.trace;
      var r := NativeWrite(e, buffer, count, timeoutMs);
      if r.Fail? {
        return r;
      }
      o := Translated(native, r.value, t0);
    }

    /** The byte[] wrapper each three-argument write calls. */
    method NativeWrite(e: Entry, buffer: array<byte>, count: i32, timeoutMs: u32) returns (o: Outcome<int>)
      requires Valid() && port != NULL && e in {Entry.BlockingWrite, Entry.NonblockingWrite}
      modifies native
      ensures Valid() && native.Stable()
      ensures !Libserialport.AdmitsCount(count, buffer.Length) ==> o == Fail(CountArgument) && unchanged(native)
      ensures Libserialport.AdmitsCount(count, buffer.Length) ==>
                o.Ok? && WriteContract(e, count, timeoutMs, o.value)
                && native.trace == old(native.trace)
                     + [Call(e, port, Libserialport.TransferArgs(e, count, timeoutMs), buffer[..count], o.value, 0, None, native.lastError)]
    {
      if e == Entry.BlockingWrite {
        o := Libserialport.BlockingWrite(native, port, buffer, count, timeoutMs);
      } else {
        o := Libserialport.NonblockingWrite(native, port, buffer, count);
      }
    }

    /** `blockingWrite(byte[] buffer, int count, UInt32 timeoutMs)`. */
    method BlockingWrite(buffer: array?<byte>, count: i32, timeoutMs: u32) returns (o: Outcome<int>)
      requires Valid()
      modifies native
      ensures Valid() && native.handles == old(native.handles)
      ensures port == NULL ==> o == Fail(ObjectDisposed) && unchanged(native)
      ensures port != NULL && buffer == null ==> o == Fail(ArgumentNull("buffer")) && unchanged(native)
      ensures port != NULL && buffer != null ==> WriteReported(Entry.BlockingWrite, buffer, count, timeoutMs, o)
    {
      o := WriteWith(Entry.BlockingWrite, buffer, count, timeoutMs);
    }

    /** `nonblockingWrite(byte[] buffer, int count, UInt32 timeoutMs)`: the timeout is
        accepted and not passed on. */
    method NonblockingWrite(buffer: array?<byte>, count: i32, timeoutMs: u32) returns (o: Outcome<int>)
      requires Valid()
      modifies native
      ensures Valid() && native.handles == old(native.handles)
      ensures port == NULL ==> o == Fail(ObjectDisposed) && unchanged(native)
      ensures port != NULL && buffer == null ==> o == Fail(ArgumentNull("buffer")) && unchanged(native)
      ensures port != NULL && buffer != null ==> WriteReported(Entry.NonblockingWrite, buffer, count, 0, o)
      ensures port != NULL && buffer != null && Libserialport.AdmitsCount(count, buffer.Length) ==>
                native.trace[|old(native.trace)|].args == [count]
    {
      o := WriteWith(Entry.NonblockingWrite, buffer, count, timeoutMs);
    }

    /** The two-argument writes `blockingWrite(byte[], UInt32)` and `nonblockingWrite(byte[],
        UInt32)`: a null buffer raises NullReferenceException before anything else; then
        the whole buffer is written. */
    method WriteWhole(e: Entry, buffer: array?<byte>, timeoutMs: u32) returns (o: Outcome<int>)
      requires Valid() && e in {Entry.BlockingWrite, Entry.NonblockingWrite}
      requires buffer != null ==> buffer.Length < 0x8000_0000
      modifies native
      ensures Valid() && native.handles == old(native.handles)
      ensures buffer == null ==> o == Fail(NullReference) && unchanged(native)
      ensures buffer != null && port == NULL ==> o == Fail(ObjectDisposed) && unchanged(native)
      ensures buffer != null && port != NULL ==>
                WriteReported(e, buffer, buffer.Length, timeoutMs, o) && o != Fail(CountArgument)
                && native.trace[|old(native.trace)|].data == buffer[..]
    {
      if buffer == null {
        return Fail(NullReference);
      }
      assert Libserialport.AdmitsCount(buffer.Length as i32, buffer.Length);
      o := WriteWith(e, buffer, buffer.Length as i32, timeoutMs);
      assert buffer[..buffer.Length] == buffer[..];
    }

    /** `inputWaiting()`: the number of bytes waiting in the input buffer. */
    method InputWaiting() returns (o: Outcome<int>)
      requires Valid()
      modifies native
      ensures Valid() && native.handles == old(native.handles)
      ensures port == NULL ==> o == Fail(ObjectDisposed) && unchanged(native)
      ensures port != NULL ==>
                Reports(old(native.trace), native.trace, Entry.InputWaiting, port, [], o)
                && (o.Ok? ==> o.value == native.trace[|old(native.trace)|].result && o.value >= 0)
                && (!native.IsOpen(port) ==> o == Fail(ArgumentError))
    {
      o := Command(Entry.InputWaiting, []);
    }

    /** `outputWaiting()`: the number of bytes waiting in the output buffer. */
    method OutputWaiting() returns (o: Outcome<int>)
      requires Valid()
      modifies native
      ensures Valid() && native.handles == old(native.handles)
      ensures port == NULL ==> o == Fail(ObjectDisposed) && unchanged(native)
      ensures port != NULL ==>
                Reports(old(native.trace), native.trace, Entry.OutputWaiting, port, [], o)
                && (o.Ok? ==> o.value == native.trace[|old(native.trace)|].result && o.value >= 0)
                && (!native.IsOpen(port) ==> o == Fail(ArgumentError))
    {
      o := Command(Entry.OutputWaiting, []);
    }

    /** `flush(sp_buffer buffers)`. */
    method Flush(buffers: set<BufferFlag>) returns (o: Outcome<()>)
      requires Valid()
      modifies native
      ensures Valid() && native.handles == old(native.handles)
      ensures port == NULL ==> o == Fail(ObjectDisposed) && unchanged(native)
      ensures port != NULL ==>
                Reports(old(native.trace), native.trace, Entry.Flush, port, [BufferValue(buffers)], o)
                && (!native.IsOpen(port) ==> o == Fail(ArgumentError))
    {
      var n := Command(Entry.Flush, [BufferValue(buffers)]);
      o := Forward(n, ());
    }

    /** `drain()`, `startBreak()` and `endBreak()`. */
    method Control(e: Entry) returns (o: Outcome<()>)
      requires Valid() && e in {Entry.Drain, Entry.StartBreak, Entry.EndBreak}
      modifies native
      ensures Valid() && native.handles == old(native.handles)
      ensures port == NULL ==> o == Fail(ObjectDisposed) && unchanged(native)
      ensures port != NULL ==>
                Reports(old(native.trace), native.trace, e, port, [], o)
                && (!native.IsOpen(port) ==> o == Fail(ArgumentError))
    {
      var n := Command(e, []);
      o := Forward(n, ());
    }

    /** `getSignals()`: the set of signals whose bits the library reported. */
    method GetSignals() returns (o: Outcome<set<SignalFlag>>)
      requires Valid()
      modifies native
      ensures Valid() && native.handles == old(native.handles)
      ensures port == NULL ==> o == Fail(ObjectDisposed) && unchanged(native)
      ensures port != NULL ==>
                Reports(old(native.trace), native.trace, Entry.GetSignals, port, [], o)
                && (o.Ok? ==> 0 <= native.trace[|old(native.trace)|].out < 16
                              && o.value == SignalFlags(native.trace[|old(native.trace)|].out))
                && (!native.IsOpen(port) ==> o == Fail(ArgumentError))
    {
      if port == NULL {
        return Fail(ObjectDisposed);
      }
      o := Signals();
    }

    /** The native step of `getSignals`, on a live port. */
    method Signals() returns (o: Outcome<set<SignalFlag>>)
      requires Valid() && port != NULL
      modifies native
      ensures Valid() && native.handles == old(native.handles)
      ensures Reports(old(native.trace), native.trace, Entry.GetSignals, port, [], o)
      ensures o.Ok? ==> 0 <= native.trace[|old(native.trace)|].out < 16
                        && o.value == SignalFlags(native.trace[|old(native.trace)|].out)
      ensures !native.IsOpen(port) ==> o == Fail(ArgumentError)
    {
      ghost var t := native.trace;
      var r, mask := native.InvokeOut(Entry.GetSignals, port, []);
      assert native.trace[..|t|] == t;
      TranslationOfAnswers(Entry.GetSignals, r, native.lastError);
      var u := Translated(native, r, t);
      o := Forward(u, if 0 <= mask < 16 then SignalFlags(mask) else {});
    }

    // ------------------------------------------------------------------ equality

    /** `Equals(object)`: false for anything that is not a port object; otherwise the
        names of both ports compared, `this.Name` first. Either name raises
        ObjectDisposedException for a disposed object, and a null name on this side
        raises NullReferenceException. */
    method Equals(other: SerialPortObj?) returns (o: Outcome<bool>)
      requires Valid() && (other != null ==> other.native == native && other.Valid())
      modifies native
      ensures Valid() && native.handles == old(native.handles)
      ensures other == null ==> o == Ok(false) && unchanged(native)
      ensures other != null && port == NULL ==> o == Fail(ObjectDisposed) && unchanged(native)
      ensures other != null && port != NULL && other.port == NULL ==> o == Fail(ObjectDisposed)
      ensures other != null && port != NULL && other.port != NULL ==>
                |native.trace| == |old(native.trace)| + 2
                && native.trace[|old(native.trace)|].entry == GetPortName
                && native.trace[|old(native.trace)|].target == port
                && native.trace[|old(native.trace)| + 1].entry == GetPortName
                && native.trace[|old(native.trace)| + 1].target == other.port
                && o == (if native.trace[|old(native.trace)|].text.None? then Fail(NullReference)
                         else Ok(native.trace[|old(native.trace)|].text == native.trace[|old(native.trace)| + 1].text))
    {
      if other == null {
        return Ok(false);
      }
      ghost var t := native.trace;
      var a := Name();
      if a.Fail? {
        return Fail(a.error);
      }
      ghost var t1 := native.trace;
      var b := other.Name();
      if b.Fail? {
        return Fail(b.error);
      }
      assert native.trace[|t|] == t1[|t|];
      if a.value.None? {
        return Fail(NullReference);
      }
      o := Ok(a.value == b.value);
    }
  }

  /** `h` is `h0` with exactly the handles `ps` added, each a closed port and each added
      once: nothing of `h0` was released or changed, and no other handle was left behind. */
  ghost predicate Adds(h0: map<Ptr, Handle>, h: map<Ptr, Handle>, ps: seq<Ptr>)
  {
    (forall p | p in h0 :: p in h && h[p] == h0[p])
    && (forall p | p in h :: p in h0 || p in ps)
    && (forall j | 0 <= j < |ps| :: ps[j] !in h0 && ps[j] in h && h[ps[j]] == Port(false))
    && (forall i, j | 0 <= i < j < |ps| :: ps[i] != ps[j])
  }

  /** `t` is one call of sp_copy_port per entry of `entries`, from the first on and in
      order, the j-th of them giving the pointer `ps[j]`. */
  ghost predicate CopiesOf(t: seq<Call>, entries: seq<NonNull>, ps: seq<Ptr>)
  {
    |t| == |ps| <= |entries|
    && forall j | 0 <= j < |t| :: t[j].entry == CopyPort && t[j].target == entries[j] && t[j].out == ps[j]
  }

  /** A copy of the next entry extends the copies made so far. */
  lemma CopiesOfSnoc(t: seq<Call>, entries: seq<NonNull>, ps: seq<Ptr>, c: Call, p: Ptr)
    requires CopiesOf(t, entries, ps) && |t| < |entries|
    requires c.entry == CopyPort && c.target == entries[|t|] && c.out == p
    ensures CopiesOf(t + [c], entries, ps + [p])
  {
  }

  /** The state `listPorts` keeps while copying the entries of `l`: the list itself as it
      was, the copies so far added to the handles of `h0` and to the trace `t0`, and `ports`
      wrapping them one to one. */
  ghost predicate Listing(native: Native, l: Ptr, h0: map<Ptr, Handle>, t0: seq<Call>, entries: seq<NonNull>,
                          ports: seq<SerialPortObj>, ps: seq<Ptr>, made: set<SerialPortObj>, copies: seq<Call>)
    reads native, made
  {
    && native.IsPortList(l) && l in h0 && native.handles[l] == h0[l] && h0[l].entries == entries
    && |ps| <= |entries| && Adds(h0, native.handles, ps)
    && Wrapping(ports, native, ps, made)
    && native.trace == t0 + copies && CopiesOf(copies, entries, ps)
  }

  /** `ports[j]` is an object of `made` over `native` that owns `ps[j]`, for every `j`. */
  ghost predicate Wrapping(ports: seq<SerialPortObj>, native: Native, ps: seq<Ptr>, made: set<SerialPortObj>)
    reads made
  {
    |ports| == |ps| && forall j | 0 <= j < |ports| :: ports[j] in made && ports[j].native == native && ports[j].port == ps[j]
  }

  /** One more object extends the wrapping. */
  lemma WrappingSnoc(ports: seq<SerialPortObj>, native: Native, ps: seq<Ptr>, made: set<SerialPortObj>, sp: SerialPortObj)
    requires Wrapping(ports, native, ps, made) && sp.native == native
    ensures Wrapping(ports + [sp], native, ps + [sp.port], made + {sp})
  {
    var q := ports + [sp];
    assert forall j | 0 <= j < |ports| :: q[j] == ports[j];
  }

  /** A new closed port extends what has been added. */
  lemma AddsSnoc(h0: map<Ptr, Handle>, h: map<Ptr, Handle>, ps: seq<Ptr>, p: Ptr)
    requires Adds(h0, h, ps) && p !in h
    ensures Adds(h0, h[p := Port(false)], ps + [p])
  {
    var q := ps + [p];
    forall j | 0 <= j < |ps|
      ensures q[j] == ps[j] && q[j] != p
    {
    }
  }

  /** A list allocated after `h0` and freed again leaves just the handles added meanwhile. */
  lemma AddsWithout(h0: map<Ptr, Handle>, l: Ptr, h1: map<Ptr, Handle>, h2: map<Ptr, Handle>, ps: seq<Ptr>)
    requires l in h1 && l !in h0 && h1 == h0[l := h1[l]] && Adds(h1, h2, ps)
    ensures Adds(h0, h2 - {l}, ps)
  {
  }

  /** A port closed successfully is no longer open, so closing it again makes sp_close
      answer SP_ERR_ARG, which raises ArgumentException. */
  method CloseTwice(sp: SerialPortObj) returns (first: Outcome<()>, second: Outcome<()>)
    requires sp.Valid() && sp.port != NULL
    modifies sp.native
    ensures first.Ok? ==> second == Fail(ArgumentError)
  {
    first := sp.Close();
    second := sp.Close();
  }

  /** Disposing and then finalising frees the handle once. */
  method DisposeThenFinalize(sp: SerialPortObj)
    requires sp.Valid() && sp.port != NULL
    modifies sp, sp.native
    ensures Releases(sp.native.trace, old(sp.port)) == Releases(old(sp.native.trace), old(sp.port)) + 1
    ensures Releases(sp.native.trace, old(sp.port)) == 1
  {
    ghost var p := sp.port;
    ghost var t := sp.native.trace;
    sp.Dispose();
    ghost var t1 := sp.native.trace;
    sp.Finalize();
    assert sp.native.trace == t1;
    ReleasesConcat(t, t1[|t|..], p);
    assert t1 == t + t1[|t|..];
    assert Releases(t1[|t|..], p) == 1 by {
      assert t1[|t|..][1..] == [];
    }
  }

  /** Once disposed, a port object refuses its operations with ObjectDisposedException
      before any native call: after `Dispose()`, `open` and `getConfig` both fail so, and
      the release of the handle is the only native call the three make. */
  method UseAfterDispose(sp: SerialPortObj, flags: set<ModeFlag>) returns (a: Outcome<()>, b: Outcome<PortConfigObj>)
    requires sp.Valid()
    modifies sp, sp.native
    ensures sp.port == NULL && a == Fail(ObjectDisposed) && b == Fail(ObjectDisposed)
    ensures old(sp.port) != NULL ==>
              sp.native.trace == old(sp.native.trace) + [Call(FreePort, old(sp.port), [], [], 0, 0, None, sp.native.lastError)]
    ensures old(sp.port) == NULL ==> sp.native.trace == old(sp.native.trace)
  {
    sp.Dispose();
    a := sp.Open(flags);
    ghost var first, cfg, tNew, tGet;
    b, first, cfg, tNew, tGet := sp.GetConfig();
  }
}
