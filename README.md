# libserialportCS binding, modelled in Dafny

libserialportCS is a C# binding for the native C library libserialport. It has two layers:

- the static class `Libserialport`: `[DllImport]` declarations of the native entry points, the enumerations of `libserialport.h`, and a few managed wrappers (byte[] reads and writes, string getters, the error message, the OS handle and the version strings);
- three handle classes, `SerialPortObj`, `PortConfigObj` and `EventSetObj`. Each owns one native pointer and frees it once, from `Dispose()` or from the finaliser. Each turns every negative `sp_return` into a managed exception through `throwExceptionWhenNegative`.

This project models both layers. The native library itself is unknown, so it is an abstract oracle: the class `NativeLib.Native`.

- Every entry point is a method that returns any value the library's documented contract allows.
- The memory the binding can observe is kept as state: the live handles and what they point to (open/closed ports, configuration structures, event sets, port lists, error message strings), the last-error slot, and the allocator's next address.
- A ghost `trace` records every call in order, with its arguments, the bytes it read or wrote, its results and the error slot it left.
- A ghost `released` set records every release. The invariant `Accounts` says each pointer in it was released exactly once, and no other pointer at all.

The contracts of the binding members are stated against this trace and state. They say:

- which native call each member makes, and in which order;
- that an SP_ERR_FAIL is followed at once by the queries of its OS code and message;
- which managed exception each outcome becomes;
- that memory is freed once on every path, including the `finally` blocks of `listPorts` and `getConfig`;
- what a read leaves in the caller's buffer.

Files:

- `results.dfy`: nullable strings, the exceptions and the outcome type;
- `codes.dfy`: the enumerations and the bit-mask semantics of the `[Flags]` ones;
- `native.dfy`: the oracle;
- `errors.dfy`: `throwExceptionWhenNegative`;
- `libserialport.dfy`: the managed wrappers of `Libserialport`;
- `port_config.dfy`, `event_set.dfy`, `serial_port.dfy`: the three handle classes.

Interpretation choices:

- Constructors that can throw are static methods returning the new object and an `Outcome`. When the exception comes from the constructor body (a NULL argument, a failing native call), the object is returned in the failed case too, with its pointer NULL, because that is what its finaliser sees. The copy constructor `SerialPortObj(SerialPortObj other)` is the exception: a null `other` raises NullReferenceException and a disposed one ObjectDisposedException while its argument is still being evaluated, before any object exists, so `SerialPortObj.CopyOf` returns `null` in those two cases.
- `IntPtr.Size` is a parameter of `PortHandle` and `SerialPortObj.Handle`.
- A C# `[Flags]` value is a set of flags encoded as a bit mask.

## Model

| member | source | states |
|---|---|---|
| Codes.ReturnOf | libserialport/Libserialport.cs:52-64 | exactly 0, -1, -2, -3, -4 are `sp_return` codes, and decoding inverts the encoding |
| Codes.ReturnCodesDistinct | libserialport/Libserialport.cs:52-64 | the five return codes have distinct values, and each decodes back to itself |
| Codes.FlagsOfMaskOf | libserialport/Libserialport.cs:66-100 | decoding the mask of a flag set gives back exactly those of its flags that have a bit |
| Codes.MaskOfUnion | libserialport/Libserialport.cs:66-100 | the mask of a union of flag sets is the bitwise OR of their masks |
| Codes.ModeValues | libserialport/Libserialport.cs:68-76 | SP_MODE_READ = 1, SP_MODE_WRITE = 2, SP_MODE_READ_WRITE = 3 = READ OR WRITE |
| Codes.ModeRoundTrip | libserialport/Libserialport.cs:68-76 | decoding the value of any mode set gives back the set |
| Codes.EventValues | libserialport/Libserialport.cs:80-88 | RX_READY = 1, TX_READY = 2, ERROR = 4 |
| Codes.EventRoundTrip | libserialport/Libserialport.cs:80-88 | decoding the value of any event set gives back the set |
| Codes.BufferValues | libserialport/Libserialport.cs:92-100 | INPUT = 1, OUTPUT = 2, BOTH = 3 = INPUT OR OUTPUT |
| Codes.BufferRoundTrip | libserialport/Libserialport.cs:92-100 | decoding the value of any buffer set gives back the set |
| Codes.SignalValues | libserialport/Libserialport.cs:197-207 | CTS = 1, DSR = 2, DCD = 4, RI = 8 |
| Codes.SignalRoundTrip | libserialport/Libserialport.cs:197-207 | decoding the value of any signal set gives back the set |
| Codes.ParityOf | libserialport/Libserialport.cs:103-117 | exactly -1..4 are `sp_parity` values, and decoding inverts the encoding |
| Codes.RtsOf | libserialport/Libserialport.cs:120-130 | exactly -1..2 are `sp_rts` values, and decoding inverts the encoding |
| Codes.CtsOf | libserialport/Libserialport.cs:133-141 | exactly -1..1 are `sp_cts` values, and decoding inverts the encoding |
| Codes.DtrOf | libserialport/Libserialport.cs:144-154 | exactly -1..2 are `sp_dtr` values, and decoding inverts the encoding |
| Codes.DsrOf | libserialport/Libserialport.cs:157-165 | exactly -1..1 are `sp_dsr` values, and decoding inverts the encoding |
| Codes.XonXoffOf | libserialport/Libserialport.cs:168-180 | exactly -1..3 are `sp_xonxoff` values, and decoding inverts the encoding |
| Codes.TransportOf | libserialport/Libserialport.cs:214-222 | exactly 0..2 are `sp_transport` values (implicitly numbered from 0), and decoding inverts the encoding |
| Codes.ValueEnumsRoundTrip | libserialport/Libserialport.cs:103-222 | each value enumeration decodes back to the member it encodes, so no two members share a value |
| Errors.Translation | libserialport/SerialPortObj.cs:816-866 | a result raises an exception exactly when it is one of the four error codes, and the exception is the one for its code; SP_ERR_FAIL carries the OS code and message of the error slot |
| Errors.TranslationSeparatesCodes | libserialport/SerialPortObj.cs:824-865 | different error codes raise different exceptions |
| Errors.TranslationReadsSlotOnlyOnFail | libserialport/SerialPortObj.cs:832-841 | the error slot affects only the SP_ERR_FAIL outcome, which reports it as it is |
| Errors.TranslationOfAnswers | libserialport/SerialPortObj.cs:818-821 | for every answer a native entry point can give, the translation fails exactly on the negative ones |
| Errors.ReportsByParts | libserialport/SerialPortObj.cs:816-866 | a call, then its error queries, with an outcome that fails as the call's result translates, is a reported call |
| Errors.ReportedOk | libserialport/SerialPortObj.cs:818-821 | a reported call that succeeded is followed by no other native call |
| Errors.ReportsLast | libserialport/SerialPortObj.cs:816-866 | the error queries after the last call of a trace, with the outcome its result translates to, report that call |
| Errors.RetrieveError | libserialport/SerialPortObj.cs:838-840 | the SP_ERR_FAIL branch: sp_last_error_code, then sp_last_error_message with the free of that message, and nothing else; returns the code and message the failing call left; handles unchanged |
| Errors.ThrowExceptionWhenNegative | libserialport/SerialPortObj.cs:816-866 | the outcome is the translation of the result under the error slot as the previous call left it; no native call unless the result is SP_ERR_FAIL, then exactly the error queries; right after a call, it reports that call |
| Errors.Translated | libserialport/SerialPortObj.cs:816-866 | `throwExceptionWhenNegative` right after a native call: reports that call, and on success carries its result |
| NativeLib.With | libserialport/Libserialport.cs:878-884 | setting one field of a configuration changes that field to the value and keeps every other field |
| NativeLib.WithWellFormed | libserialport/Libserialport.cs:878-884 | setting a field to a value its type admits keeps every field admissible |
| NativeLib.ReleasesConcat | libserialport/SerialPortObj.cs:138-156 | the releases of a pointer in two stretches of calls add up |
| NativeLib.UpdateThenRemove | libserialport/SerialPortObj.cs:472-475 | a structure allocated, filled and then freed leaves the handles as they were before |
| NativeLib.AccountsAfter | libserialport/SerialPortObj.cs:138-156 | a call that releases nothing keeps the release accounting; releasing a pointer not released before adds just that pointer |
| NativeLib.AtMostOnce | libserialport/SerialPortObj.cs:138-156 | under the accounting, no pointer is released twice, and one not in `released` not at all |
| NativeLib.InvokedInline | libserialport/SerialPortObj.cs:832-841 | a call followed by its error queries retrieves its error before any other native call |
| NativeLib.InlineConcat | libserialport/SerialPortObj.cs:832-841 | inline error retrieval is kept when stretches of calls are put one after another |
| NativeLib.Native.PortByName | libserialport/Libserialport.cs:286-292 | sp_get_port_by_name: SP_OK with a fresh closed port, or an error code with the out-pointer NULL and nothing allocated; records the name |
| NativeLib.Native.Copy | libserialport/Libserialport.cs:362-368 | sp_copy_port of a port or of a list entry: SP_OK with a fresh closed port, or an error code and NULL |
| NativeLib.Native.AllocateConfig | libserialport/Libserialport.cs:763-768 | sp_new_config: a fresh structure with every field -1, or an error code and NULL |
| NativeLib.Native.AllocateEventSet | libserialport/Libserialport.cs:1469-1474 | sp_new_event_set: a fresh event set, or an error code and NULL |
| NativeLib.Native.Enumerate | libserialport/Libserialport.cs:333-338 | sp_list_ports: SP_OK with a fresh list of non-null entries, or an error code and NULL |
| NativeLib.Native.ListSlot | libserialport/SerialPortObj.cs:372 | `portList[i]` is NULL exactly one past the last entry |
| NativeLib.Native.ReleasePort | libserialport/Libserialport.cs:303-308 | sp_free_port: the handle is no longer live and is released once more |
| NativeLib.Native.ReleaseConfig | libserialport/Libserialport.cs:773-778 | sp_free_config, likewise |
| NativeLib.Native.ReleaseEventSet | libserialport/Libserialport.cs:1540-1545 | sp_free_event_set, likewise |
| NativeLib.Native.ReleasePortList | libserialport/Libserialport.cs:383-388 | sp_free_port_list, likewise; the entries belong to the list and go with it |
| NativeLib.Native.ReleaseMessage | libserialport/Libserialport.cs:1605-1609 | sp_free_error_message, likewise |
| NativeLib.Native.OpenPort | libserialport/Libserialport.cs:408-414 | sp_open: on success the port is open, on failure as it was; nothing else changes |
| NativeLib.Native.ClosePort | libserialport/Libserialport.cs:427-432 | sp_close: SP_ERR_ARG on a port that is not open; on success the port is closed |
| NativeLib.Native.Invoke | libserialport/Libserialport.cs:840-846 | the port setters, flush, drain, the waiting counts, the break controls and sp_wait change no observable memory; those that need an open port answer SP_ERR_ARG on a closed one |
| NativeLib.Native.InvokeOut | libserialport/Libserialport.cs:571-606 | the USB queries and sp_get_signals store one integer through an out-pointer; a successful sp_get_signals stores a 4-bit mask |
| NativeLib.Native.PortTransport | libserialport/Libserialport.cs:544-549 | sp_get_port_transport returns one of the three transports |
| NativeLib.Native.PortString | libserialport/Libserialport.cs:453-459 | the string getters return NULL exactly when there is no string |
| NativeLib.Native.OsHandle | libserialport/Libserialport.cs:718-725 | sp_get_port_handle stores a handle of the requested width |
| NativeLib.Native.GetConfigOf | libserialport/Libserialport.cs:807-813 | sp_get_config: SP_ERR_ARG on a port that is not open; on success it fills the structure with admissible values, on error it leaves it unchanged |
| NativeLib.Native.SetConfigOf | libserialport/Libserialport.cs:818-824 | sp_set_config: SP_ERR_ARG on a port that is not open; no observable memory changes |
| NativeLib.Native.GetSetting | libserialport/Libserialport.cs:867-873 | sp_get_config_<field>: on success the value the structure holds |
| NativeLib.Native.SetSetting | libserialport/Libserialport.cs:878-884 | sp_set_config_<field>: on success the structure holds the value in that field and is otherwise unchanged; on error nothing changes |
| NativeLib.Native.SetFlowcontrolSetting | libserialport/Libserialport.cs:1153-1159 | sp_set_config_flowcontrol changes only the RTS, CTS, DTR, DSR and XON/XOFF fields |
| NativeLib.Native.Read | libserialport/Libserialport.cs:1211-1219 | the native reads: at most the requested count; with timeout 0 a blocking read returns all of it and a read-next at least one byte; exactly the reported bytes are written to the front of the buffer |
| NativeLib.Native.Deliver | libserialport/Libserialport.cs:1211-1219 | the delivered bytes at the front of the buffer, the rest as it was |
| NativeLib.Native.Write | libserialport/Libserialport.cs:1308-1316 | the native writes take the first `count` bytes of the buffer; with timeout 0 a blocking write writes all of them |
| NativeLib.Native.AddEvents | libserialport/Libserialport.cs:1501-1508 | sp_add_port_events changes no observable memory |
| NativeLib.Native.ErrorCode | libserialport/Libserialport.cs:1589-1592 | sp_last_error_code returns the slot's code and leaves the slot as it is |
| NativeLib.Native.ErrorMessage | libserialport/Libserialport.cs:1597-1602 | sp_last_error_message returns a freshly allocated copy of the slot's message, owned by the caller |
| NativeLib.Native.VersionString | libserialport/Libserialport.cs:1679-1683 | the version getters change no observable memory |
| Libserialport.SizeT | libserialport/Libserialport.cs:1234-1235 | `(Int64) count` as the native `size_t`: the count itself when non-negative, otherwise the count plus 2^64 |
| Libserialport.NegativeCountAdmitted | libserialport/Libserialport.cs:1226-1229 | a negative count passes the guard as written, and its native size exceeds the buffer length |
| Libserialport.AdmitsCountExactly | libserialport/Libserialport.cs:1226-1229 | for any buffer the runtime can allocate, the corrected guard admits exactly the counts whose native size fits the buffer |
| Libserialport.Delivered | libserialport/Libserialport.cs:1236 | after a read of `n` bytes the first `n` bytes come from the read and the rest of the buffer is unchanged; nothing changes when `n <= 0` |
| Libserialport.ReadInto | libserialport/Libserialport.cs:1222-1239 | a null buffer raises NullReferenceException; under the corrected count guard of the Findings section, a count outside 0..Length raises ArgumentException, both with no native call and the buffer unchanged; otherwise exactly one native read, whose bytes end up at the front of the caller's buffer and nothing else changes |
| Libserialport.ArrayCopy | libserialport/Libserialport.cs:1236 | `Array.Copy(temp, buffer, n)`: the first `n` bytes copied, the rest kept |
| Libserialport.BlockingRead | libserialport/Libserialport.cs:1222-1239 | as `ReadInto`, with sp_blocking_read and the timeout |
| Libserialport.BlockingReadNext | libserialport/Libserialport.cs:1255-1272 | the corrected read-next wrapper of the Findings section: as `ReadInto`, with one call of sp_blocking_read_next and the timeout |
| Libserialport.BlockingReadNextAsWritten | libserialport/Libserialport.cs:1255-1272 | the wrapper as written: in every case as `BlockingRead`, i.e. one call of sp_blocking_read and not of sp_blocking_read_next, with the same buffer contents and count bound |
| Libserialport.ReadNextDiffers | libserialport/Libserialport.cs:1268-1269 | with no timeout a one-byte answer to a ten-byte request is allowed for sp_blocking_read_next and impossible for sp_blocking_read |
| Libserialport.ReadNextAsWrittenWaitsForAll | libserialport/Libserialport.cs:1268-1269 | with no timeout the wrapper as written returns all the bytes requested or an error |
| Libserialport.NonblockingRead | libserialport/Libserialport.cs:1287-1302 | as `ReadInto`, with sp_nonblocking_read and no timeout |
| Libserialport.WriteFrom | libserialport/Libserialport.cs:1319-1334 | a null buffer raises NullReferenceException; under the corrected count guard of the Findings section, a count outside 0..Length raises ArgumentException, both with no native call; otherwise one native write of the first `count` bytes |
| Libserialport.BlockingWrite | libserialport/Libserialport.cs:1319-1334 | as `WriteFrom`, with sp_blocking_write and the timeout |
| Libserialport.NonblockingWrite | libserialport/Libserialport.cs:1349-1363 | as `WriteFrom`, with sp_nonblocking_write and no timeout |
| Libserialport.PortString | libserialport/Libserialport.cs:479-486 | the name, USB and Bluetooth string getters: one native call; the managed string is null exactly when the pointer is NULL |
| Libserialport.PortDescription | libserialport/Libserialport.cs:523-531 | sp_get_port_description: a NULL pointer gives null, otherwise the copied text |
| Libserialport.LastErrorMessage | libserialport/Libserialport.cs:1612-1619 | returns the message of the error slot; exactly two native calls, the query and then the free of the very pointer it returned, so no message string is leaked |
| Libserialport.PortHandle | libserialport/Libserialport.cs:728-752 | a pointer size other than 4 or 8 raises InvalidOperationException with no native call; otherwise one call with that width, whose return code and handle are passed on, a 32-bit value on a 32-bit platform |
| Libserialport.PackageVersionString | libserialport/Libserialport.cs:1692-1699 | one call of sp_get_package_version_string, whose string is returned |
| Libserialport.LibVersionStringAsWritten | libserialport/Libserialport.cs:1754-1761 | as written, sp_get_lib_version_string calls sp_get_package_version_string |
| Libserialport.LibVersionString | libserialport/Libserialport.cs:1754-1761 | one call of sp_get_lib_version_string, whose string is returned |
| PortConfig.PortConfigObj.New | libserialport/PortConfigObj.cs:47-55 | reports sp_new_config; on success the object owns a fresh structure with every field "leave unchanged", on failure its pointer is NULL and nothing is allocated |
| PortConfig.PortConfigObj.Adopt | libserialport/PortConfigObj.cs:57-61 | NULL raises ArgumentNullException; otherwise the object owns the given structure |
| PortConfig.PortConfigObj.DisposeCore | libserialport/PortConfigObj.cs:74-90 | a live structure is freed once and the pointer cleared, whatever `disposing` says; a disposed object makes no native call |
| PortConfig.PortConfigObj.Dispose | libserialport/PortConfigObj.cs:63-67 | as `DisposeCore` |
| PortConfig.PortConfigObj.Finalize | libserialport/PortConfigObj.cs:69-72 | as `DisposeCore` |
| PortConfig.PortConfigObj.GetField | libserialport/PortConfigObj.cs:108-286 | the getters: ObjectDisposedException with no native call when disposed; otherwise a reported sp_get_config_<field> whose success value is the field's value, one its type admits |
| PortConfig.PortConfigObj.SetField | libserialport/PortConfigObj.cs:108-286 | the setters: ObjectDisposedException with no native call when disposed; otherwise a reported sp_set_config_<field> that on success changes that field alone and on failure nothing |
| PortConfig.PortConfigObj.Store | libserialport/PortConfigObj.cs:119-125 | the native step of a setter, as `SetField` on a live object |
| PortConfig.PortConfigObj.SetFlowcontrol | libserialport/PortConfigObj.cs:300-306 | ObjectDisposedException when disposed; otherwise a reported sp_set_config_flowcontrol that keeps baud rate, bits, parity and stop bits |
| PortConfig.SetThenGet | libserialport/PortConfigObj.cs:108-126 | a field that was set successfully reads back as the value set |
| PortConfig.DisposeThenFinalize | libserialport/PortConfigObj.cs:63-90 | `Dispose()` then the finaliser releases the structure exactly once |
| PortConfig.UseAfterDispose | libserialport/PortConfigObj.cs:313-320 | after `Dispose()` a property getter and setter both raise ObjectDisposedException, and the release of the structure is the only native call made |
| EventSets.EventSetObj.New | libserialport/EventSetObj.cs:42-50 | reports sp_new_event_set; the object owns a fresh set exactly on success |
| EventSets.EventSetObj.Adopt | libserialport/EventSetObj.cs:52-56 | NULL raises ArgumentNullException; otherwise the object owns the given set |
| EventSets.EventSetObj.DisposeCore | libserialport/EventSetObj.cs:69-85 | a live set is freed once and the pointer cleared; a disposed object makes no native call |
| EventSets.EventSetObj.Dispose | libserialport/EventSetObj.cs:58-62 | as `DisposeCore` |
| EventSets.EventSetObj.Finalize | libserialport/EventSetObj.cs:64-67 | as `DisposeCore` |
| EventSets.EventSetObj.AddPortEvents | libserialport/EventSetObj.cs:94-101 | checks in order that this set is live, the port is not null and the port is live, with no native call before; then a reported sp_add_port_events with the port and the mask's value, failing exactly on a negative answer |
| EventSets.EventSetObj.Register | libserialport/EventSetObj.cs:97-100 | the native step of `addPortEvents` |
| EventSets.EventSetObj.Wait | libserialport/EventSetObj.cs:103-110 | ObjectDisposedException when disposed; otherwise a reported sp_wait with the timeout, failing exactly on a negative answer |
| EventSets.EventSetObj.Await | libserialport/EventSetObj.cs:106-109 | the native step of `wait` |
| EventSets.DisposeThenFinalize | libserialport/EventSetObj.cs:58-85 | `Dispose()` then the finaliser releases the set exactly once |
| EventSets.UseAfterDispose | libserialport/EventSetObj.cs:116-123 | after `Dispose()` `addPortEvents` (with any port) and `wait` both raise ObjectDisposedException, and the release of the set is the only native call made |
| SerialPort.SerialPortObj.New | libserialport/SerialPortObj.cs:74-84 | a null name raises ArgumentNullException with no native call; otherwise a reported sp_get_port_by_name of that name; the object owns a fresh closed port exactly on success |
| SerialPort.SerialPortObj.FromPort | libserialport/SerialPortObj.cs:107-116 | NULL raises ArgumentNullException; otherwise a reported sp_copy_port whose new handle the object owns exactly on success |
| SerialPort.SerialPortObj.CopyHandle | libserialport/SerialPortObj.cs:111-115 | sp_copy_port, translated: a fresh closed port exactly on success |
| SerialPort.SerialPortObj.CopyOf | libserialport/SerialPortObj.cs:122-125 | a null original raises NullReferenceException and a disposed one ObjectDisposedException, with no native call; otherwise an independent copy with a handle of its own |
| SerialPort.SerialPortObj.ListPorts | libserialport/SerialPortObj.cs:354-380 | a failing sp_list_ports raises its exception with nothing allocated and no free; otherwise one copy call per entry in list order, up to and including the first that fails, and then sp_free_port_list of the listed pointer as the last call, whatever the copies gave; on success one new object per entry, each owning a fresh closed copy of its entry; after a failing copy the outcome is that copy's exception and fewer objects than entries were made; only the copies are left behind |
| SerialPort.SerialPortObj.CopyAndRelease | libserialport/SerialPortObj.cs:370-380 | the loop, then the `finally` block: the trace is the successful copies, then the failing copy with its error queries (none on success), then sp_free_port_list of the list, whether or not a copy failed; the outcome after a failing copy is that copy's exception |
| SerialPort.SerialPortObj.FreeList | libserialport/SerialPortObj.cs:377-380 | sp_free_port_list on the list, after which the handles are those before the listing plus the copies |
| SerialPort.SerialPortObj.CopyEntries | libserialport/SerialPortObj.cs:372-375 | one copy call per entry, from the first on, then stops at the terminating NULL or at the first failing copy: on success new objects that own the copies in entry order; on failure fewer copies than entries, followed by a reported copy of the next entry whose exception is the outcome |
| SerialPort.SerialPortObj.CopyStep | libserialport/SerialPortObj.cs:374 | one pass of the loop: one copy call for the next entry, whose fresh handle joins the copies on success, and which on failure is reported with nothing else changed |
| SerialPort.SerialPortObj.DisposeCore | libserialport/SerialPortObj.cs:138-156 | a live handle is freed once and the pointer cleared, whatever `disposing` says; the port is not closed first; a disposed object makes no native call |
| SerialPort.SerialPortObj.Dispose | libserialport/SerialPortObj.cs:127-131 | as `DisposeCore` |
| SerialPort.SerialPortObj.Finalize | libserialport/SerialPortObj.cs:133-136 | as `DisposeCore` |
| SerialPort.SerialPortObj.StringProperty | libserialport/SerialPortObj.cs:283-335 | the USB and Bluetooth string properties (and `Name`): ObjectDisposedException when disposed; otherwise one native call and its string, null exactly when the pointer is NULL |
| SerialPort.SerialPortObj.Name | libserialport/SerialPortObj.cs:174-181 | ObjectDisposedException when disposed; otherwise one sp_get_port_name call, whose string is returned |
| SerialPort.SerialPortObj.Description | libserialport/SerialPortObj.cs:183-190 | as `Name`, with sp_get_port_description; null exactly when the pointer is NULL |
| SerialPort.SerialPortObj.Transport | libserialport/SerialPortObj.cs:192-199 | ObjectDisposedException when disposed; otherwise the transport whose value the library returned |
| SerialPort.SerialPortObj.UsbProperty | libserialport/SerialPortObj.cs:207-275 | ObjectDisposedException when disposed; otherwise a reported USB query through the chosen out-pointer, whose stored value is returned on success |
| SerialPort.SerialPortObj.Handle | libserialport/SerialPortObj.cs:337-348 | ObjectDisposedException when disposed, InvalidOperationException for an unknown pointer size, both with no native call; otherwise a reported sp_get_port_handle whose handle is returned on success |
| SerialPort.SerialPortObj.Command | libserialport/SerialPortObj.cs:486-546 | ObjectDisposedException when disposed; otherwise one reported native call whose non-negative result is returned; ArgumentException on a closed port for the entry points that need an open one |
| SerialPort.SerialPortObj.Open | libserialport/SerialPortObj.cs:404-409 | ObjectDisposedException when disposed; otherwise a reported sp_open with the mode's value; afterwards the port is open exactly when it was or the call succeeded |
| SerialPort.SerialPortObj.OpenReadWrite | libserialport/SerialPortObj.cs:426-429 | as `open`, with mode 3 (read and write) |
| SerialPort.SerialPortObj.Close | libserialport/SerialPortObj.cs:446-451 | ObjectDisposedException when disposed; otherwise a reported sp_close; afterwards the port is open only if it was and the call failed; closing a port that is not open raises ArgumentException |
| SerialPort.SerialPortObj.Shut | libserialport/SerialPortObj.cs:449-450 | the native step of `close` |
| SerialPort.SerialPortObj.GetConfig | libserialport/SerialPortObj.cs:457-476 | ObjectDisposedException when disposed with no call; otherwise a reported sp_new_config, whose failure is the outcome with nothing more called; after it succeeds, a reported sp_get_config on that structure whose exception is the outcome, followed on failure by exactly sp_free_config of the structure and on success by nothing, the new `PortConfigObj` owning it; on any failure no handle is left behind; a port that is not open always fails |
| SerialPort.SerialPortObj.FillAndAdopt | libserialport/SerialPortObj.cs:466-475 | after sp_new_config: a reported sp_get_config on the structure whose translation is the outcome; on success the new object owns the structure and nothing else is called, on failure the `finally` block's sp_free_config of it is the one further call and the handles are as before sp_new_config |
| SerialPort.SerialPortObj.NewConfigStruct | libserialport/SerialPortObj.cs:464-465 | sp_new_config, translated: a fresh structure exactly on success |
| SerialPort.SerialPortObj.FillConfig | libserialport/SerialPortObj.cs:466-467 | a reported sp_get_config of this port into the structure, which fails as its result translates: only the structure may change, and only on success |
| SerialPort.SerialPortObj.SetConfig | libserialport/SerialPortObj.cs:478-484 | checks this port, then a null configuration, then a disposed one, with no native call before; then a reported sp_set_config |
| SerialPort.SerialPortObj.ApplyConfig | libserialport/SerialPortObj.cs:482-483 | the native step of `setConfig` |
| SerialPort.SerialPortObj.SetField | libserialport/SerialPortObj.cs:486-546 | the nine setters: a reported sp_set_<field> with the value; ArgumentException on a closed port |
| SerialPort.SerialPortObj.SetFlowcontrol | libserialport/SerialPortObj.cs:548-554 | a reported sp_set_flowcontrol with the preset's value |
| SerialPort.SerialPortObj.ReadWith | libserialport/SerialPortObj.cs:606-614 | ObjectDisposedException, then ArgumentNullException for a null buffer, with no native call before; then the wrapper's count check (the corrected guard), one reported native read, and the bytes it delivered at the front of the caller's buffer |
| SerialPort.SerialPortObj.ReadOn | libserialport/SerialPortObj.cs:610-613 | the wrapper call and its translation, on a live port and a buffer |
| SerialPort.SerialPortObj.NativeRead | libserialport/SerialPortObj.cs:610-611 | the byte[] wrapper each three-argument read calls |
| SerialPort.SerialPortObj.BlockingRead | libserialport/SerialPortObj.cs:606-614 | as `ReadWith`, with sp_blocking_read |
| SerialPort.SerialPortObj.BlockingReadNext | libserialport/SerialPortObj.cs:621-629 | as `ReadWith`, through the corrected read-next wrapper (one call of sp_blocking_read_next) |
| SerialPort.SerialPortObj.NonblockingRead | libserialport/SerialPortObj.cs:666-673 | as `ReadWith`, with sp_nonblocking_read |
| SerialPort.SerialPortObj.ReadWhole | libserialport/SerialPortObj.cs:616-619 | the two-argument reads (also 631-634 and 675-678): a null buffer raises NullReferenceException before the disposed check; otherwise the whole buffer is requested, a count never refused |
| SerialPort.SerialPortObj.WriteWith | libserialport/SerialPortObj.cs:680-688 | ObjectDisposedException, then ArgumentNullException for a null buffer, with no native call before; then the count check (the corrected guard) and one reported native write of the first `count` bytes |
| SerialPort.SerialPortObj.WriteOn | libserialport/SerialPortObj.cs:684-687 | the wrapper call and its translation, on a live port and a buffer |
| SerialPort.SerialPortObj.NativeWrite | libserialport/SerialPortObj.cs:684-685 | the byte[] wrapper each three-argument write calls |
| SerialPort.SerialPortObj.BlockingWrite | libserialport/SerialPortObj.cs:680-688 | as `WriteWith`, with sp_blocking_write |
| SerialPort.SerialPortObj.NonblockingWrite | libserialport/SerialPortObj.cs:695-703 | as `WriteWith`, with sp_nonblocking_write; the timeout is accepted and not passed on |
| SerialPort.SerialPortObj.WriteWhole | libserialport/SerialPortObj.cs:690-693 | the two-argument writes (also 705-708): a null buffer raises NullReferenceException first; otherwise the whole buffer is written, a count never refused |
| SerialPort.SerialPortObj.InputWaiting | libserialport/SerialPortObj.cs:710-716 | a reported sp_input_waiting whose non-negative count is returned |
| SerialPort.SerialPortObj.OutputWaiting | libserialport/SerialPortObj.cs:718-724 | a reported sp_output_waiting whose non-negative count is returned |
| SerialPort.SerialPortObj.Flush | libserialport/SerialPortObj.cs:726-731 | a reported sp_flush with the value of the buffer set |
| SerialPort.SerialPortObj.Control | libserialport/SerialPortObj.cs:733-800 | `drain`, `startBreak` and `endBreak`: a reported call of the matching entry point |
| SerialPort.SerialPortObj.GetSignals | libserialport/SerialPortObj.cs:766-780 | ObjectDisposedException when disposed; otherwise a reported sp_get_signals whose mask, decoded to a signal set, is returned on success |
| SerialPort.SerialPortObj.Signals | libserialport/SerialPortObj.cs:768-779 | the native step of `getSignals` |
| SerialPort.SerialPortObj.Equals | libserialport/SerialPortObj.cs:872-877 | null gives false with no native call; otherwise this name, then the other's; a disposed side raises ObjectDisposedException, a null name on this side NullReferenceException, else the names are compared |
| SerialPort.CopiesOfSnoc | libserialport/SerialPortObj.cs:372-375 | one more copy of the next entry extends the in-order copies |
| SerialPort.WrappingSnoc | libserialport/SerialPortObj.cs:374 | one more object extends the list of objects that own the copies |
| SerialPort.AddsSnoc | libserialport/SerialPortObj.cs:374 | one more fresh closed port extends the handles the listing added |
| SerialPort.AddsWithout | libserialport/SerialPortObj.cs:377-380 | once the list is freed, what the listing leaves behind is just the copies |
| SerialPort.CloseTwice | libserialport/SerialPortObj.cs:446-451 | after a successful close, closing again raises ArgumentException |
| SerialPort.DisposeThenFinalize | libserialport/SerialPortObj.cs:127-156 | `Dispose()` then the finaliser releases the handle exactly once |
| SerialPort.UseAfterDispose | libserialport/SerialPortObj.cs:806-813 | after `Dispose()` `open` and `getConfig` both raise ObjectDisposedException, and the release of the handle is the only native call made |

## Left out

- `GetHashCode` and `ToString` of `SerialPortObj`: they only format or hash the port name.
- The static constructor and the DLL loading and naming (`LIBSERIALPORT_DLL_NAME`): platform set-up, no behaviour of the binding.
- `GC.SuppressFinalize`: in the model the finaliser is just the second, harmless call of `Dispose(false)`.
- String marshalling (`Marshal.PtrToStringAnsi`): text is a Dafny string; encodings are not modelled.
- The `[DllImport]` members that have no managed code around them (the integer version getters and the other bare entry points): they are the oracle's methods.
- The obsolete `sp_free_error_message` wrapper at Libserialport.cs:1623-1628: it does nothing.
- `Equals` with an argument that is not a `SerialPortObj`: an argument of another type behaves as null, which is modelled.
- Concurrency and thread affinity: the model is sequential, so "no other call between an SP_ERR_FAIL and its error queries" is stated about the trace only.
- What the OS does: every native result is any value the library's documented contract allows.
- Event-set registrations: which ports an event set watches is not tracked, because nothing in the binding reads it back.
- The settings each flow-control preset chooses: only "the line fields change, the others do not" is stated.
- Enumeration values the C# enums do not declare: `Transport` assumes the library returns one of the three transports.
- PortConfig.PortConfigObj.SetField: requires an admitted value for the field (`Admits`: a 32-bit integer for the integer fields, a declared value for the enum fields); the C# setters of the enum fields take any value of the enum type, including one the enum does not declare, and pass it on (PortConfigObj.cs:159-164).
- SerialPort.SerialPortObj.SetField: requires an admitted value for the setting (`Admits`, as above); `setParity` and the other setters take any value of the enum type and pass it on (SerialPortObj.cs:500).
- Memory safety of the unsafe code (pinning with `fixed`, pointer arithmetic on `portList`): pointers are abstract.
- SerialPort.SerialPortObj.ListPorts: after a copy fails, the objects already made are unreachable; their handles stay live until the finalisers run. This is stated as "only copies are left behind", not as a leak.
- SerialPort.SerialPortObj.Transport: the C# enum cast of an undeclared value is not modelled; the oracle returns a declared one.
- NativeLib.Native.OsHandle: on a 64-bit platform the handle chosen by the oracle is any 64-bit value allowed by the contract, but the model's oracle only ever returns a 32-bit one.
- EventSets.EventSetObj.Wait: the source notes that sp_wait answers SP_OK whether or not the timeout passed; the contract allows any answer, as the library's documented contract does.
- Libserialport.ReadInto: uses the corrected count guard of the Findings section (0 <= count <= Length). The guard as written (Libserialport.cs:1226) refuses only count > Length, so a negative count reaches the native read as a `size_t` near 2^64 and overruns the scratch array; that memory-unsafe path is not modelled, and a negative count is refused with ArgumentException instead.
- Libserialport.BlockingRead: as `ReadInto`, the corrected count guard; a negative count is refused rather than passed to sp_blocking_read.
- Libserialport.NonblockingRead: as `ReadInto`, the corrected count guard; a negative count is refused rather than passed to sp_nonblocking_read (Libserialport.cs:1291).
- Libserialport.BlockingReadNext: as `ReadInto`, the corrected count guard; a negative count is refused rather than passed on as a `size_t`.
- Libserialport.BlockingReadNextAsWritten: routes to sp_blocking_read as written but keeps the corrected count guard.
- Libserialport.WriteFrom: uses the corrected count guard; the guard as written (Libserialport.cs:1323, 1353) lets a negative count through to the native write as a `size_t` near 2^64, which is not modelled.
- Libserialport.BlockingWrite: as `WriteFrom`, the corrected count guard.
- Libserialport.NonblockingWrite: as `WriteFrom`, the corrected count guard.
- SerialPort.SerialPortObj.ReadWith: calls the corrected wrappers, so a negative count is refused with no native call, and `blockingReadNext` makes a call of sp_blocking_read_next where the binding as written calls sp_blocking_read (with timeout 0 the source waits for every byte requested, the model may return after one).
- SerialPort.SerialPortObj.ReadOn: as `ReadWith`, the corrected wrappers.
- SerialPort.SerialPortObj.NativeRead: dispatches to the corrected wrappers, `Libserialport.BlockingReadNext` for read-next rather than `Libserialport.BlockingReadNextAsWritten`.
- SerialPort.SerialPortObj.BlockingRead: the corrected count guard; a negative count is refused with no native call.
- SerialPort.SerialPortObj.BlockingReadNext: the corrected read-next wrapper: one call of sp_blocking_read_next, not the sp_blocking_read the source reaches through Libserialport.cs:1268-1269; and the corrected count guard.
- SerialPort.SerialPortObj.NonblockingRead: the corrected count guard; a negative count is refused with no native call.
- SerialPort.SerialPortObj.ReadWhole: the two-argument `blockingReadNext` uses the corrected read-next wrapper as well.
- SerialPort.SerialPortObj.WriteWith: calls the corrected write wrappers, so a negative count is refused with no native call.
- SerialPort.SerialPortObj.WriteOn: as `WriteWith`, the corrected write wrappers.
- SerialPort.SerialPortObj.NativeWrite: dispatches to the corrected write wrappers.
- SerialPort.SerialPortObj.BlockingWrite: the corrected count guard; a negative count is refused with no native call.
- SerialPort.SerialPortObj.NonblockingWrite: the corrected count guard; a negative count is refused with no native call.
- NativeLib.Native.ErrorMessage: the message pointer is taken never to be NULL; a NULL would be passed on to sp_free_error_message unchecked.

## Findings

| source | as written | input that shows it | evidently intended | confidence | as-written member | corrected member |
|---|---|---|---|---|---|---|
| libserialport/Libserialport.cs:1226-1229 (and the same guard in the other four byte[] wrappers) | only `count > buffer.Length` is refused, and `(Int64) count` becomes the native `size_t` | `count = -1` with a 16-byte buffer passes the guard and reaches the native read as 2^64 - 1 bytes into a 16-byte scratch array | refuse a negative count too (`count < 0 \|\| count > buffer.Length`) | not executed | Libserialport.NegativeCountAdmitted | Libserialport.AdmitsCountExactly |
| libserialport/Libserialport.cs:1268-1269 | the byte[] `sp_blocking_read_next` calls the native `sp_blocking_read` | `count = 10`, timeout 0, one byte arrives: read-next may return 1, but the call made waits for all 10 | call the native `sp_blocking_read_next` | not executed | Libserialport.ReadNextDiffers | Libserialport.BlockingReadNext |
| libserialport/Libserialport.cs:1742-1746 | `sp_get_lib_version_string_intern` is bound to the entry point `sp_get_package_version_string` | any call of `sp_get_lib_version_string` returns the package version | bind to `sp_get_lib_version_string` | not executed | Libserialport.LibVersionStringAsWritten | Libserialport.LibVersionString |
