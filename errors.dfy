/** Error translation: `SerialPortObj.throwExceptionWhenNegative`, shared by the three
    handle classes, which turns a negative `sp_return` into the matching managed
    exception and, for SP_ERR_FAIL, retrieves the OS error code and message at once. */
module Errors {
  import opened Results
  import opened Codes
  import opened NativeLib
  import Libserialport

  /** The exception that stands for each `sp_return` code; none for SP_OK. For SP_ERR_FAIL
      it carries the code and message of the last-error slot. */
  function ExceptionFor(code: SpReturn, slot: ErrorRecord): Option<Error>
  {
    match code
    case SpOk => None
    case SpErrArg => Some(ArgumentError)
    case SpErrFail => Some(OSError(slot.code, slot.message))
    case SpErrMem => Some(OutOfMemory)
    case SpErrSupp => Some(NotSupported)
  }

  /** The outcome `throwExceptionWhenNegative` produces for a native result, given the
      last-error slot the native call left: an exception exactly for the four error codes,
      the one `ExceptionFor` names; every other value, a byte count included, passes. */
  function Translation(result: int, slot: ErrorRecord): (o: Outcome<()>)
    ensures o.Fail? <==> IsErrorCode(result)
    ensures o.Fail? ==> ReturnOf(result).Some? && ExceptionFor(ReturnOf(result).value, slot) == Some(o.error)
  {
    if result >= SP_OK then Ok(())
    else if result == SP_ERR_ARG then Fail(ArgumentError)
    else if result == SP_ERR_FAIL then Fail(OSError(slot.code, slot.message))
    else if result == SP_ERR_SUPP then Fail(NotSupported)
    else if result == SP_ERR_MEM then Fail(OutOfMemory)
    else Ok(())
  }

  /** Different error codes raise different exceptions. */
  lemma TranslationSeparatesCodes(a: int, b: int, s: ErrorRecord, t: ErrorRecord)
    requires IsErrorCode(a) && IsErrorCode(b) && a != b
    ensures Translation(a, s) != Translation(b, t)
  {
  }

  /** The last-error slot matters only for SP_ERR_FAIL, and there it is reported as is. */
  lemma TranslationReadsSlotOnlyOnFail(r: int, s: ErrorRecord, t: ErrorRecord)
    ensures r != SP_ERR_FAIL ==> Translation(r, s) == Translation(r, t)
    ensures Translation(SP_ERR_FAIL, s) == Fail(OSError(s.code, s.message))
  {
  }

  /** Because every answer of an entry point is SP_OK, a count or an error code, the
      translation fails exactly on the negative answers. */
  lemma TranslationOfAnswers(e: Entry, r: int, s: ErrorRecord)
    requires Answers(e, r)
    ensures Translation(r, s).Ok? <==> r >= 0
  {
  }

  /** `t1` extends `t0` with one call of `e` on `target` with `args`, followed by the error
      queries its result calls for, and `o` fails exactly as that call's result translates. */
  ghost predicate Reports<T>(t0: seq<Call>, t1: seq<Call>, e: Entry, target: Ptr, args: seq<int>, o: Outcome<T>)
  {
    Invoked(t0, t1, e, target, args)
    && (o.Fail? <==> Translation(t1[|t0|].result, t1[|t0|].slot).Fail?)
    && (o.Fail? ==> o.error == Translation(t1[|t0|].result, t1[|t0|].slot).error)
  }

  /** The last call of a non-empty trace. */
  ghost function Last(t: seq<Call>): Call
    requires |t| > 0
  {
    t[|t| - 1]
  }

  /** A call followed by its error queries, with an outcome that fails as the call's
      result translates, is reported. */
  lemma ReportsByParts<T>(t0: seq<Call>, c: Call, t2: seq<Call>, o: Outcome<T>)
    requires |t0| + 1 <= |t2| && t2[..|t0| + 1] == t0 + [c]
    requires ErrorQueries(c.result, c.slot, t2[|t0| + 1..])
    requires o.Fail? <==> Translation(c.result, c.slot).Fail?
    requires o.Fail? ==> o.error == Translation(c.result, c.slot).error
    ensures Reports(t0, t2, c.entry, c.target, c.args, o)
  {
    assert t2[..|t0|] == (t0 + [c])[..|t0|] == t0;
    assert t2[|t0|] == (t0 + [c])[|t0|] == c;
  }

  /** A reported call that succeeded is followed by no error queries. */
  lemma ReportedOk<T>(t0: seq<Call>, t1: seq<Call>, e: Entry, target: Ptr, args: seq<int>, o: Outcome<T>)
    requires Reports(t0, t1, e, target, args, o) && o.Ok?
    ensures t1 == t0 + [t1[|t0|]]
  {
    assert t1[|t0| + 1..] == [];
    assert t1 == t1[..|t0|] + [t1[|t0|]] + t1[|t0| + 1..];
  }

  /** The SP_ERR_FAIL branch: the error code, then the message, both as the failing call
      left them. */
  method RetrieveError(native: Native) returns (code: int, message: NStr)
    requires native.Valid()
    modifies native
    ensures native.Valid()
    ensures code == old(native.lastError).code && message == old(native.lastError).message
    ensures native.handles == old(native.handles)
    ensures old(native.released) <= native.released && old(native.next) <= native.next
    ensures |old(native.trace)| <= |native.trace| && native.trace[..|old(native.trace)|] == old(native.trace)
    ensures ErrorQueries(SP_ERR_FAIL, old(native.lastError), native.trace[|old(native.trace)|..])
  {
    ghost var t := native.trace;
    code := native.ErrorCode();
    ghost var c0 := native.trace[|t|];
    ghost var t1 := native.trace;
    message := Libserialport.LastErrorMessage(native);
    assert native.trace[|t|] == t1[|t|] == c0;
    assert native.trace[..|t|] == t1[..|t|] == t;
    ghost var q := native.trace[|t|..];
    assert q == [c0, native.trace[|t| + 1], native.trace[|t| + 2]];
  }

  /** `throwExceptionWhenNegative`. On SP_ERR_FAIL it queries the error code, then the
      message (which the message wrapper copies and frees), and on no other result does it
      make a native call. Called right after a native call, with that call's result, it
      reports exactly that call's error. */
  method ThrowExceptionWhenNegative(native: Native, result: int) returns (o: Outcome<()>)
    requires native.Valid()
    modifies native
    ensures native.Valid()
    ensures o == Translation(result, old(native.lastError))
    ensures native.handles == old(native.handles)
    ensures old(native.released) <= native.released && old(native.next) <= native.next
    ensures result != SP_ERR_FAIL ==> unchanged(native)
    ensures |old(native.trace)| <= |native.trace| && native.trace[..|old(native.trace)|] == old(native.trace)
    ensures ErrorQueries(result, old(native.lastError), native.trace[|old(native.trace)|..])
    ensures |old(native.trace)| > 0 && Last(old(native.trace)).result == result
            && Last(old(native.trace)).slot == old(native.lastError) ==>
              Reports(old(native.trace)[..|old(native.trace)| - 1], native.trace,
                      Last(old(native.trace)).entry, Last(old(native.trace)).target,
                      Last(old(native.trace)).args, o)
  {
    ghost var t := native.trace;
    ghost var slot := native.lastError;
    if result >= SP_OK {
      o := Ok(());
    } else if result == SP_ERR_ARG {
      o := Fail(ArgumentError);
    } else if result == SP_ERR_FAIL {
      var code, message := RetrieveError(native);
      o := Fail(OSError(code, message));
    } else if result == SP_ERR_SUPP {
      o := Fail(NotSupported);
    } else if result == SP_ERR_MEM {
      o := Fail(OutOfMemory);
    } else {
      o := Ok(());
    }
    if result != SP_ERR_FAIL {
      assert native.trace[|t|..] == [];
    }
    if |t| > 0 && Last(t).result == result && Last(t).slot == slot {
      ReportsLast(t, native.trace, o);
    }
  }

  /** Error queries after the last call of `t`, and the outcome its result translates to,
      report that call. */
  lemma ReportsLast<T>(t: seq<Call>, t2: seq<Call>, o: Outcome<T>)
    requires |t| > 0 && |t| <= |t2| && t2[..|t|] == t
    requires ErrorQueries(Last(t).result, Last(t).slot, t2[|t|..])
    requires o.Fail? <==> Translation(Last(t).result, Last(t).slot).Fail?
    requires o.Fail? ==> o.error == Translation(Last(t).result, Last(t).slot).error
    ensures Reports(t[..|t| - 1], t2, Last(t).entry, Last(t).target, Last(t).args, o)
  {
    assert t == t[..|t| - 1] + [Last(t)];
    ReportsByParts(t[..|t| - 1], Last(t), t2, o);
  }

  /** `throwExceptionWhenNegative` right after the native call whose result `n` is, the
      call that extended `t0`: the outcome reports that call, and on success carries its
      result. */
  method Translated(native: Native, n: int, ghost t0: seq<Call>) returns (o: Outcome<int>)
    requires native.Valid() && |native.trace| == |t0| + 1 && native.trace[..|t0|] == t0
    requires native.trace[|t0|].result == n && native.trace[|t0|].slot == native.lastError
    modifies native
    ensures native.Valid() && native.handles == old(native.handles) && old(native.released) <= native.released
    ensures |old(native.trace)| <= |native.trace| && native.trace[..|old(native.trace)|] == old(native.trace)
    ensures native.trace[|t0|] == old(native.trace)[|t0|]
    ensures Reports(t0, native.trace, old(native.trace)[|t0|].entry, old(native.trace)[|t0|].target,
                    old(native.trace)[|t0|].args, o)
    ensures o.Ok? ==> o.value == n
  {
    ghost var t1 := native.trace;
    assert t1[..|t1| - 1] == t0 && Last(t1) == t1[|t0|];
    var u := ThrowExceptionWhenNegative(native, n);
    assert native.trace[..|t1|] == t1;
    o := Forward(u, n);
  }
}
