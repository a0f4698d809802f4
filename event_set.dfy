/** `EventSetObj`: owner of one native `sp_event_set`. As with the other handle classes,
    the pointer is NULL exactly when the object is disposed (or its construction failed),
    every method then raises ObjectDisposedException before any native call, and the set
    is freed at most once. */
module EventSets {
  import opened Results
  import opened Codes
  import opened NativeLib
  import opened Errors
  import SerialPort

  class EventSetObj {
    const native: Native
    var eventSet: Ptr

    ghost predicate Valid()
      reads this, native
    {
      native.Valid() && (eventSet != NULL ==> native.IsEventSet(eventSet))
    }

    /** The object as the field initialiser leaves it, before any constructor body. */
    constructor Blank(native: Native)
      ensures this.native == native && eventSet == NULL
    {
      this.native := native;
      eventSet := NULL;
    }

    /** `public EventSetObj()`: sp_new_event_set writes the new pointer straight into the
        field, so after a failure the field is NULL. */
    static method New(native: Native) returns (obj: EventSetObj, o: Outcome<()>)
      requires native.Valid()
      modifies native
      ensures fresh(obj) && obj.native == native && obj.Valid()
      ensures Reports(old(native.trace), native.trace, NewEventSet, NULL, [], o)
      ensures o.Ok? <==> obj.eventSet != NULL
      ensures o.Ok? ==> obj.eventSet !in old(native.handles) && obj.eventSet !in old(native.released)
                        && native.handles == old(native.handles)[obj.eventSet := EventSet]
      ensures o.Fail? ==> native.handles == old(native.handles)
    {
      obj := new EventSetObj.Blank(native);
      ghost var t := native.trace;
      var r, p := native.AllocateEventSet();
      obj.eventSet := p;
      assert native.trace[..|t|] == t;
      var n := Translated(native, r, t);
      o := Forward(n, ());
    }

    /** `EventSetObj(sp_event_set*)`: takes ownership of a set the caller allocated; NULL is
        refused with ArgumentNullException. */
    static method Adopt(native: Native, s: Ptr) returns (obj: EventSetObj, o: Outcome<()>)
      requires native.Valid() && (s == NULL || native.IsEventSet(s))
      ensures fresh(obj) && obj.native == native && obj.Valid()
      ensures s == NULL ==> o == Fail(ArgumentNull("eventSet")) && obj.eventSet == NULL
      ensures s != NULL ==> o == Ok(()) && obj.eventSet == s
    {
      obj := new EventSetObj.Blank(native);
      if s == NULL {
        return obj, Fail(ArgumentNull("eventSet"));
      }
      obj.eventSet := s;
      o := Ok(());
    }

    /** `Dispose(bool)`: a live set is freed once and the field cleared, whatever
        `disposing` says; a disposed object makes no native call. */
    method DisposeCore(disposing: bool)
      requires Valid()
      modifies this, native
      ensures Valid() && eventSet == NULL
      ensures old(eventSet) != NULL ==>
                native.handles == old(native.handles) - {old(eventSet)}
                && native.released == old(native.released) + {old(eventSet)}
                && native.trace == old(native.trace) + [Call(FreeEventSet, old(eventSet), [], [], 0, 0, None, native.lastError)]
      ensures old(eventSet) == NULL ==> unchanged(native)
    {
      if eventSet != NULL {
        native.ReleaseEventSet(eventSet);
        eventSet := NULL;
      }
    }

    /** `Dispose()`. */
    method Dispose()
      requires Valid()
      modifies this, native
      ensures Valid() && eventSet == NULL
      ensures old(eventSet) != NULL ==>
                native.handles == old(native.handles) - {old(eventSet)}
                && native.released == old(native.released) + {old(eventSet)}
                && native.trace == old(native.trace) + [Call(FreeEventSet, old(eventSet), [], [], 0, 0, None, native.lastError)]
      ensures old(eventSet) == NULL ==> unchanged(native)
    {
      DisposeCore(true);
    }

    /** The finaliser `~EventSetObj()`. */
    method Finalize()
      requires Valid()
      modifies this, native
      ensures Valid() && eventSet == NULL
      ensures old(eventSet) != NULL ==>
                native.handles == old(native.handles) - {old(eventSet)}
                && native.released == old(native.released) + {old(eventSet)}
                && native.trace == old(native.trace) + [Call(FreeEventSet, old(eventSet), [], [], 0, 0, None, native.lastError)]
      ensures old(eventSet) == NULL ==> unchanged(native)
    {
      DisposeCore(false);
    }

    /** `throwExceptionWhenDisposed()`, as a value: the pointer, or ObjectDisposedException. */
    function SetPtr(): (o: Outcome<Ptr>)
      reads this
      ensures o.Fail? <==> eventSet == NULL
      ensures o.Fail? ==> o.error == ObjectDisposed
      ensures o.Ok? ==> o.value == eventSet && o.value != NULL
    {
      if eventSet == NULL then Fail(ObjectDisposed) else Ok(eventSet)
    }

    /** `addPortEvents(SerialPortObj port, sp_event mask)`: this set disposed, a null port
        and a disposed port are refused, in that order, before the native call; then the
        port's events in `mask` are added to the set. */
    method AddPortEvents(port: SerialPort.SerialPortObj?, mask: set<EventFlag>) returns (o: Outcome<()>)
      requires Valid() && (port != null ==> port.native == native && port.Valid())
      modifies native
      ensures Valid() && native.handles == old(native.handles)
      ensures eventSet == NULL ==> o == Fail(ObjectDisposed) && unchanged(native)
      ensures eventSet != NULL && port == null ==> o == Fail(ArgumentNull("port")) && unchanged(native)
      ensures eventSet != NULL && port != null && port.port == NULL ==> o == Fail(ObjectDisposed) && unchanged(native)
      ensures eventSet != NULL && port != null && port.port != NULL ==>
                Reports(old(native.trace), native.trace, Entry.AddPortEvents, eventSet, [port.port, EventValue(mask)], o)
                && (o.Ok? <==> native.trace[|old(native.trace)|].result == SP_OK)
    {
      if eventSet == NULL {
        return Fail(ObjectDisposed);
      }
      if port == null {
        return Fail(ArgumentNull("port"));
      }
      var p := port.PortPtr();
      if p.Fail? {
        return Fail(p.error);
      }
      o := Register(p.value, EventValue(mask));
    }

    /** The native step of `addPortEvents`, on a live set and a live port. */
    method Register(p: Ptr, mask: int) returns (o: Outcome<()>)
      requires Valid() && eventSet != NULL && native.IsPort(p)
      modifies native
      ensures Valid() && native.handles == old(native.handles)
      ensures Reports(old(native.trace), native.trace, Entry.AddPortEvents, eventSet, [p, mask], o)
      ensures o.Ok? <==> native.trace[|old(native.trace)|].result == SP_OK
    {
      ghost var t := native.trace;
      var r := native.AddEvents(eventSet, p, mask);
      assert native.trace[..|t|] == t;
      TranslationOfAnswers(Entry.AddPortEvents, r, native.lastError);
      var n := Translated(native, r, t);
      o := Forward(n, ());
    }

    /** `wait(UInt32 timeoutMs)`: blocks until an event of the set occurs or the timeout
        passes; either way the library answers SP_OK, and only an error code raises. */
    method Wait(timeoutMs: u32) returns (o: Outcome<()>)
      requires Valid()
      modifies native
      ensures Valid() && native.handles == old(native.handles)
      ensures eventSet == NULL ==> o == Fail(ObjectDisposed) && unchanged(native)
      ensures eventSet != NULL ==>
                Reports(old(native.trace), native.trace, Entry.Wait, eventSet, [timeoutMs as int], o)
                && (o.Ok? <==> native.trace[|old(native.trace)|].result == SP_OK)
    {
      if eventSet == NULL {
        return Fail(ObjectDisposed);
      }
      o := Await(timeoutMs);
    }

    /** The native step of `wait`, on a live set. */
    method Await(timeoutMs: u32) returns (o: Outcome<()>)
      requires Valid() && eventSet != NULL
      modifies native
      ensures Valid() && native.handles == old(native.handles)
      ensures Reports(old(native.trace), native.trace, Entry.Wait, eventSet, [timeoutMs as int], o)
      ensures o.Ok? <==> native.trace[|old(native.trace)|].result == SP_OK
    {
      ghost var t := native.trace;
      var r := native.Invoke(Entry.Wait, eventSet, [timeoutMs as int]);
      assert native.trace[..|t|] == t;
      TranslationOfAnswers(Entry.Wait, r, native.lastError);
      var n := Translated(native, r, t);
      o := Forward(n, ());
    }
  }

  /** Disposing and then finalising frees the set once. */
  method DisposeThenFinalize(es: EventSetObj)
    requires es.Valid() && es.eventSet != NULL
    modifies es, es.native
    ensures Releases(es.native.trace, old(es.eventSet)) == Releases(old(es.native.trace), old(es.eventSet)) + 1
    ensures Releases(es.native.trace, old(es.eventSet)) == 1
  {
    ghost var s := es.eventSet;
    ghost var t := es.native.trace;
    es.Dispose();
    ghost var t1 := es.native.trace;
    es.Finalize();
    assert es.native.trace == t1;
    ReleasesConcat(t, t1[|t|..], s);
    assert t1 == t + t1[|t|..];
    assert Releases(t1[|t|..], s) == 1 by {
      assert t1[|t|..][1..] == [];
    }
  }

  /** Once disposed, an event set refuses its methods with ObjectDisposedException before
      any native call: after `Dispose()`, `addPortEvents` (whatever the port) and `wait`
      both fail so, and the release of the set is the only native call. */
  method UseAfterDispose(es: EventSetObj, port: SerialPort.SerialPortObj?, mask: set<EventFlag>, timeoutMs: u32)
      returns (a: Outcome<()>, w: Outcome<()>)
    requires es.Valid() && (port != null ==> port.native == es.native && port.Valid())
    modifies es, es.native
    ensures es.eventSet == NULL && a == Fail(ObjectDisposed) && w == Fail(ObjectDisposed)
    ensures old(es.eventSet) != NULL ==>
              es.native.trace == old(es.native.trace) + [Call(FreeEventSet, old(es.eventSet), [], [], 0, 0, None, es.native.lastError)]
    ensures old(es.eventSet) == NULL ==> es.native.trace == old(es.native.trace)
  {
    es.Dispose();
    a := es.AddPortEvents(port, mask);
    w := es.Wait(timeoutMs);
  }
}
