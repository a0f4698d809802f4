/** The static `Libserialport` class: the thin managed wrappers that sit between the
    object layer and the native entry points. Most of its members are bare `[DllImport]`
    declarations (the methods of `NativeLib.Native`); what is modelled here is the managed
    code around them: the byte[] marshalling of reads and writes, the conversion of native
    strings, the copy-then-free of the error message, the pointer-size switch of
    sp_get_port_handle, and the version-string bindings. */
module Libserialport {
  import opened Results
  import opened Codes
  import opened NativeLib

  // ------------------------------------------------------------- count guard

  /** `(Int64) count` handed to a `size_t` parameter: the two's-complement reinterpretation
      of a 64-bit signed value as an unsigned one. */
  function SizeT(count: i32): (s: nat)
    ensures s < 0x1_0000_0000_0000_0000
    ensures count >= 0 ==> s == count
    ensures count < 0 ==> s == count + 0x1_0000_0000_0000_0000
  {
    count % 0x1_0000_0000_0000_0000
  }

  /** The guard of the byte[] wrappers as written: only a count greater than the buffer
      length is refused. */
  predicate AdmitsCountAsWritten(count: i32, length: nat)
  {
    !(count > length)
  }

  /** A negative count passes the guard as written and reaches the native side as a size
      far beyond the buffer. */
  lemma NegativeCountAdmitted(count: i32, length: nat)
    requires count < 0 && length < 0x8000_0000
    ensures AdmitsCountAsWritten(count, length)
    ensures SizeT(count) > length
  {
  }

  /** The guard the wrappers need: the count must lie between 0 and the buffer length. */
  predicate AdmitsCount(count: i32, length: nat)
  {
    0 <= count <= length
  }

  /** For a buffer the CLR can allocate, the corrected guard admits exactly the counts
      whose native size fits the buffer. */
  lemma AdmitsCountExactly(count: i32, length: nat)
    requires length < 0x8000_0000
    ensures AdmitsCount(count, length) <==> SizeT(count) <= length
  {
    if count < 0 {
      assert SizeT(count) >= 0x1_0000_0000_0000_0000 - 0x8000_0000;
    }
  }

  // ----------------------------------------------------------------- buffers

  /** The caller's buffer after a read that returned `n` and delivered `data`: the first
      `n` bytes replaced when `n` is positive, otherwise untouched. */
  function Delivered(buf: seq<byte>, data: seq<byte>, n: int): (r: seq<byte>)
    requires |data| == (if n > 0 then n else 0) <= |buf|
    ensures |r| == |buf|
    ensures forall i | 0 <= i < |r| :: r[i] == if i < n then data[i] else buf[i]
    ensures n <= 0 ==> r == buf
  {
    data + buf[|data|..]
  }

  /** The arguments a read or write passes on: the count, and the timeout for the
      blocking forms. */
  function TransferArgs(e: Entry, count: int, timeoutMs: int): seq<int>
  {
    if e.NonblockingRead? || e.NonblockingWrite? then [count] else [count, timeoutMs]
  }

  /** The body shared by the three byte[] reads: refuse a bad count, let the native call
      fill a zeroed scratch array of the buffer's length, and copy the bytes it reports
      into the caller's buffer. `buffer.Length` is read first, so a null buffer raises
      NullReferenceException. */
  method ReadInto(native: Native, e: Entry, port: Ptr, buffer: array?<byte>, count: i32, timeoutMs: u32)
      returns (o: Outcome<int>, ghost got: seq<byte>)
    requires native.Valid() && native.IsPort(port)
    requires e in {Entry.BlockingRead, Entry.BlockingReadNext, Entry.NonblockingRead}
    modifies native, buffer
    ensures native.Valid() && native.Stable()
    ensures buffer == null ==> o == Fail(NullReference) && unchanged(native)
    ensures buffer != null && !AdmitsCount(count, buffer.Length) ==>
              o == Fail(CountArgument) && unchanged(native) && unchanged(buffer)
    ensures buffer != null && AdmitsCount(count, buffer.Length) ==>
              o.Ok? && ReadContract(e, count, timeoutMs, o.value)
              && |got| == (if o.value > 0 then o.value else 0) <= buffer.Length
              && buffer[..] == Delivered(old(buffer[..]), got, o.value)
              && native.trace == old(native.trace)
                   + [Call(e, port, TransferArgs(e, count, timeoutMs), got, o.value, 0, None, native.lastError)]
  {
    got := [];
    if buffer == null {
      return Fail(NullReference), got;
    }
    if !AdmitsCount(count, buffer.Length) {
      return Fail(CountArgument), got;
    }
    var temp := new byte[buffer.Length](_ => 0);
    var n;
    n, got := native.Read(e, port, temp, count, timeoutMs);
    if n > 0 {
      ArrayCopy(temp, buffer, n);
      assert temp[..n] == got;
    }
    o := Ok(n);
  }

  /** `Array.Copy(src, dst, n)`: the first `n` elements of `src` over those of `dst`. */
  method ArrayCopy(src: array<byte>, dst: array<byte>, n: int)
    requires 0 <= n <= src.Length && n <= dst.Length && src != dst
    modifies dst
    ensures dst[..] == src[..n] + old(dst[n..])
  {
    forall i | 0 <= i < n {
      dst[i] := src[i];
    }
  }

  /** The byte[] form of sp_blocking_read. */
  method BlockingRead(native: Native, port: Ptr, buffer: array?<byte>, count: i32, timeoutMs: u32)
      returns (o: Outcome<int>, ghost got: seq<byte>)
    requires native.Valid() && native.IsPort(port)
    modifies native, buffer
    ensures native.Valid() && native.Stable()
    ensures buffer == null ==> o == Fail(NullReference) && unchanged(native)
    ensures buffer != null && !AdmitsCount(count, buffer.Length) ==>
              o == Fail(CountArgument) && unchanged(native) && unchanged(buffer)
    ensures buffer != null && AdmitsCount(count, buffer.Length) ==>
              o.Ok? && ReadContract(Entry.BlockingRead, count, timeoutMs, o.value)
              && |got| == (if o.value > 0 then o.value else 0) <= buffer.Length
              && buffer[..] == Delivered(old(buffer[..]), got, o.value)
              && native.trace == old(native.trace)
                   + [Call(Entry.BlockingRead, port, [count, timeoutMs], got, o.value, 0, None, native.lastError)]
  {
    o, got := ReadInto(native, Entry.BlockingRead, port, buffer, count, timeoutMs);
  }

  /** The byte[] form of sp_blocking_read_next, calling the entry point it is named after. */
  method BlockingReadNext(native: Native, port: Ptr, buffer: array?<byte>, count: i32, timeoutMs: u32)
      returns (o: Outcome<int>, ghost got: seq<byte>)
    requires native.Valid() && native.IsPort(port)
    modifies native, buffer
    ensures native.Valid() && native.Stable()
    ensures buffer == null ==> o == Fail(NullReference) && unchanged(native)
    ensures buffer != null && !AdmitsCount(count, buffer.Length) ==>
              o == Fail(CountArgument) && unchanged(native) && unchanged(buffer)
    ensures buffer != null && AdmitsCount(count, buffer.Length) ==>
              o.Ok? && ReadContract(Entry.BlockingReadNext, count, timeoutMs, o.value)
              && |got| == (if o.value > 0 then o.value else 0) <= buffer.Length
              && buffer[..] == Delivered(old(buffer[..]), got, o.value)
              && native.trace == old(native.trace)
                   + [Call(Entry.BlockingReadNext, port, [count, timeoutMs], got, o.value, 0, None, native.lastError)]
  {
    o, got := ReadInto(native, Entry.BlockingReadNext, port, buffer, count, timeoutMs);
  }

  /** The byte[] form of sp_blocking_read_next as written: it calls sp_blocking_read, so
      it behaves as `BlockingRead` in every case. */
  method BlockingReadNextAsWritten(native: Native, port: Ptr, buffer: array?<byte>, count: i32, timeoutMs: u32)
      returns (o: Outcome<int>, ghost got: seq<byte>)
    requires native.Valid() && native.IsPort(port)
    modifies native, buffer
    ensures native.Valid() && native.Stable()
    ensures buffer == null ==> o == Fail(NullReference) && unchanged(native)
    ensures buffer != null && !AdmitsCount(count, buffer.Length) ==>
              o == Fail(CountArgument) && unchanged(native) && unchanged(buffer)
    ensures buffer != null && AdmitsCount(count, buffer.Length) ==>
              o.Ok? && ReadContract(Entry.BlockingRead, count, timeoutMs, o.value)
              && |got| == (if o.value > 0 then o.value else 0) <= buffer.Length
              && buffer[..] == Delivered(old(buffer[..]), got, o.value)
              && native.trace == old(native.trace)
                   + [Call(Entry.BlockingRead, port, [count, timeoutMs], got, o.value, 0, None, native.lastError)]
  {
    o, got := ReadInto(native, Entry.BlockingRead, port, buffer, count, timeoutMs);
  }

  /** With no timeout, "read next" may return as soon as one byte has arrived, but the
      entry point the wrapper as written calls may not: a one-byte answer to a ten-byte
      request is allowed for the one and impossible for the other. */
  lemma ReadNextDiffers()
    ensures ReadContract(Entry.BlockingReadNext, 10, 0, 1)
    ensures !ReadContract(Entry.BlockingRead, 10, 0, 1)
  {
  }

  /** More generally, with no timeout the wrapper as written never returns fewer bytes
      than requested, while the entry point it is named after promises only one. */
  lemma ReadNextAsWrittenWaitsForAll(count: int, n: int)
    requires ReadContract(Entry.BlockingRead, count, 0, n) && n >= 0
    ensures n == count
  {
  }

  /** The byte[] form of sp_nonblocking_read. */
  method NonblockingRead(native: Native, port: Ptr, buffer: array?<byte>, count: i32)
      returns (o: Outcome<int>, ghost got: seq<byte>)
    requires native.Valid() && native.IsPort(port)
    modifies native, buffer
    ensures native.Valid() && native.Stable()
    ensures buffer == null ==> o == Fail(NullReference) && unchanged(native)
    ensures buffer != null && !AdmitsCount(count, buffer.Length) ==>
              o == Fail(CountArgument) && unchanged(native) && unchanged(buffer)
    ensures buffer != null && AdmitsCount(count, buffer.Length) ==>
              o.Ok? && ReadContract(Entry.NonblockingRead, count, 0, o.value)
              && |got| == (if o.value > 0 then o.value else 0) <= buffer.Length
              && buffer[..] == Delivered(old(buffer[..]), got, o.value)
              && native.trace == old(native.trace)
                   + [Call(Entry.NonblockingRead, port, [count], got, o.value, 0, None, native.lastError)]
  {
    o, got := ReadInto(native, Entry.NonblockingRead, port, buffer, count, 0);
  }

  /** The body shared by the two byte[] writes: refuse a bad count and hand the buffer
      itself to the native call, which only reads it. */
  method WriteFrom(native: Native, e: Entry, port: Ptr, buffer: array?<byte>, count: i32, timeoutMs: u32)
      returns (o: Outcome<int>)
    requires native.Valid() && native.IsPort(port)
    requires e in {Entry.BlockingWrite, Entry.NonblockingWrite}
    modifies native
    ensures native.Valid() && native.Stable()
    ensures buffer == null ==> o == Fail(NullReference) && unchanged(native)
    ensures buffer != null && !AdmitsCount(count, buffer.Length) ==> o == Fail(CountArgument) && unchanged(native)
    ensures buffer != null && AdmitsCount(count, buffer.Length) ==>
              o.Ok? && WriteContract(e, count, timeoutMs, o.value)
              && native.trace == old(native.trace)
                   + [Call(e, port, TransferArgs(e, count, timeoutMs), buffer[..count], o.value, 0, None, native.lastError)]
  {
    if buffer == null {
      return Fail(NullReference);
    }
    if !AdmitsCount(count, buffer.Length) {
      return Fail(CountArgument);
    }
    var n := native.Write(e, port, buffer, count, timeoutMs);
    o := Ok(n);
  }

  /** The byte[] form of sp_blocking_write. */
  method BlockingWrite(native: Native, port: Ptr, buffer: array?<byte>, count: i32, timeoutMs: u32)
      returns (o: Outcome<int>)
    requires native.Valid() && native.IsPort(port)
    modifies native
    ensures native.Valid() && native.Stable()
    ensures buffer == null ==> o == Fail(NullReference) && unchanged(native)
    ensures buffer != null && !AdmitsCount(count, buffer.Length) ==> o == Fail(CountArgument) && unchanged(native)
    ensures buffer != null && AdmitsCount(count, buffer.Length) ==>
              o.Ok? && WriteContract(Entry.BlockingWrite, count, timeoutMs, o.value)
              && native.trace == old(native.trace)
                   + [Call(Entry.BlockingWrite, port, [count, timeoutMs], buffer[..count], o.value, 0, None, native.lastError)]
  {
    o := WriteFrom(native, Entry.BlockingWrite, port, buffer, count, timeoutMs);
  }

  /** The byte[] form of sp_nonblocking_write. */
  method NonblockingWrite(native: Native, port: Ptr, buffer: array?<byte>, count: i32)
      returns (o: Outcome<int>)
    requires native.Valid() && native.IsPort(port)
    modifies native
    ensures native.Valid() && native.Stable()
    ensures buffer == null ==> o == Fail(NullReference) && unchanged(native)
    ensures buffer != null && !AdmitsCount(count, buffer.Length) ==> o == Fail(CountArgument) && unchanged(native)
    ensures buffer != null && AdmitsCount(count, buffer.Length) ==>
              o.Ok? && WriteContract(Entry.NonblockingWrite, count, 0, o.value)
              && native.trace == old(native.trace)
                   + [Call(Entry.NonblockingWrite, port, [count], buffer[..count], o.value, 0, None, native.lastError)]
  {
    o := WriteFrom(native, Entry.NonblockingWrite, port, buffer, count, 0);
  }

  // ----------------------------------------------------------------- strings

  /** The string getters other than the description: the native string copied into a
      managed one, null for a NULL pointer. */
  method PortString(native: Native, e: Entry, port: Ptr) returns (s: NStr, ghost ptr: Ptr)
    requires native.Valid() && native.IsPort(port)
    requires e in {GetPortName, GetPortUsbManufacturer, GetPortUsbProduct, GetPortUsbSerial, GetPortBluetoothAddress}
    modifies native
    ensures native.Valid() && native.Stable()
    ensures native.trace == old(native.trace) + [Call(e, port, [], [], 0, ptr, s, native.lastError)]
    ensures ptr == NULL <==> s.None?
  {
    var text;
    ptr, text := native.PortString(e, port);
    s := text;
  }

  /** sp_get_port_description: null for a NULL pointer, checked before the copy. */
  method PortDescription(native: Native, port: Ptr) returns (s: NStr, ghost ptr: Ptr)
    requires native.Valid() && native.IsPort(port)
    modifies native
    ensures native.Valid() && native.Stable()
    ensures native.trace == old(native.trace) + [Call(GetPortDescription, port, [], [], 0, ptr, s, native.lastError)]
    ensures ptr == NULL <==> s.None?
  {
    var p, text := native.PortString(GetPortDescription, port);
    ptr := p;
    if p == NULL {
      return None, ptr;
    }
    s := text;
  }

  /** sp_last_error_message: copies the message the library allocated, then frees that
      same pointer, and returns the copy. */
  method LastErrorMessage(native: Native) returns (s: NStr)
    requires native.Valid()
    modifies native
    ensures native.Valid()
    ensures s == old(native.lastError).message
    ensures native.handles == old(native.handles) && old(native.released) < native.released
    ensures old(native.next) < native.next
    ensures |native.trace| == |old(native.trace)| + 2
    ensures native.trace[..|old(native.trace)|] == old(native.trace)
    ensures native.trace[|old(native.trace)|].entry == Entry.LastErrorMessage
    ensures native.trace[|old(native.trace)|].text == s
    ensures native.trace[|old(native.trace)|].out != NULL
    ensures native.trace[|old(native.trace)| + 1].entry == FreeErrorMessage
    ensures native.trace[|old(native.trace)| + 1].target == native.trace[|old(native.trace)|].out
  {
    var m := native.ErrorMessage();
    s := native.handles[m].text;
    native.ReleaseMessage(m);
  }

  // ----------------------------------------------------------- port handle

  /** sp_get_port_handle: the OS handle is read as a 32- or 64-bit integer according to
      the platform's pointer size; any other size is refused without a native call. */
  method PortHandle(native: Native, port: Ptr, pointerSize: int) returns (o: Outcome<(int, int)>)
    requires native.Valid() && native.IsPort(port)
    modifies native
    ensures native.Valid() && native.Stable()
    ensures pointerSize !in {4, 8} <==> o == Fail(InvalidOperation)
    ensures pointerSize !in {4, 8} ==> unchanged(native)
    ensures pointerSize in {4, 8} ==>
              o.Ok? && native.trace == old(native.trace)
                + [Call(GetPortHandle, port, [pointerSize], [], o.value.0, o.value.1, None, native.lastError)]
              && Answers(GetPortHandle, o.value.0)
    ensures pointerSize == 4 && o.Ok? ==> -0x8000_0000 <= o.value.1 < 0x8000_0000
  {
    if pointerSize == 4 {
      var rc, h := native.OsHandle(port, 4);
      o := Ok((rc, h));
    } else if pointerSize == 8 {
      var rc, h := native.OsHandle(port, 8);
      o := Ok((rc, h));
    } else {
      o := Fail(InvalidOperation);
    }
  }

  // ---------------------------------------------------------------- versions

  /** sp_get_package_version_string. */
  method PackageVersionString(native: Native) returns (s: NStr)
    requires native.Valid()
    modifies native
    ensures native.Valid() && native.Stable()
    ensures native.trace == old(native.trace) + [Call(GetPackageVersionString, NULL, [], [], 0, 0, s, native.lastError)]
  {
    s := native.VersionString(GetPackageVersionString);
  }

  /** sp_get_lib_version_string as written: bound to the package-version entry point. */
  method LibVersionStringAsWritten(native: Native) returns (s: NStr)
    requires native.Valid()
    modifies native
    ensures native.Valid() && native.Stable()
    ensures native.trace == old(native.trace) + [Call(GetPackageVersionString, NULL, [], [], 0, 0, s, native.lastError)]
  {
    s := native.VersionString(GetPackageVersionString);
  }

  /** sp_get_lib_version_string, bound to the entry point of the same name. */
  method LibVersionString(native: Native) returns (s: NStr)
    requires native.Valid()
    modifies native
    ensures native.Valid() && native.Stable()
    ensures native.trace == old(native.trace) + [Call(GetLibVersionString, NULL, [], [], 0, 0, s, native.lastError)]
  {
    s := native.VersionString(GetLibVersionString);
  }
}
