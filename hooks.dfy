/**
 * `decodeValueViaFunc`: the signature checks on a `bytes_fn` decode hook,
 * run in a fixed order, and the call of the hook on the remaining bytes.
 */
module Hooks {
  import opened Options
  import opened Words
  import opened Shapes

  /** The signature the checks accept: `func (*S) Name([]byte) (int, error)`. */
  predicate HookSignature(m: Method)
  {
    && m.params == [PointerParam, ByteSliceParam]
    && |m.results| == 2
    && m.results[0] in {IntParam, NamedIntParam}
    && m.results[1] == ErrorParam
  }

  predicate IsSignatureRejection(e: Error)
  {
    || e.HookArgCount? || e.HookArgNotBytes? || e.HookResultCount?
    || e.HookFirstResultNotInt? || e.HookSecondResultNotError? || e == Panicked(ValueReceiver)
  }

  /** The checks in the source's order; None when all of them pass. */
  function CheckSignature(structName: string, name: string, m: Method): (r: Option<Error>)
    ensures r.None? <==> HookSignature(m)
    ensures r.Some? ==> IsSignatureRejection(r.value)
    ensures |m.params| != 2 ==> r == Some(HookArgCount(structName, name))
    ensures |m.params| == 2 && m.params[0] != PointerParam ==> r == Some(Panicked(ValueReceiver))
    ensures |m.params| == 2 && m.params[0] == PointerParam && m.params[1] != ByteSliceParam
        ==> r == Some(HookArgNotBytes(structName, name))
    ensures m.params == [PointerParam, ByteSliceParam] && |m.results| != 2
        ==> r == Some(HookResultCount(structName, name))
    ensures m.params == [PointerParam, ByteSliceParam] && |m.results| == 2 && m.results[0] !in {IntParam, NamedIntParam}
        ==> r == Some(HookFirstResultNotInt(structName, name))
    ensures m.params == [PointerParam, ByteSliceParam] && |m.results| == 2 && m.results[0] in {IntParam, NamedIntParam}
            && m.results[1] != ErrorParam
        ==> r == Some(HookSecondResultNotError(structName, name))
  {
    if |m.params| != 2 then Some(HookArgCount(structName, name))
    else if m.params[0] != PointerParam then Some(Panicked(ValueReceiver))
    else if m.params[1] != ByteSliceParam then Some(HookArgNotBytes(structName, name))
    else if |m.results| != 2 then Some(HookResultCount(structName, name))
    else if m.results[0] != IntParam && m.results[0] != NamedIntParam then Some(HookFirstResultNotInt(structName, name))
    else if m.results[1] != ErrorParam then Some(HookSecondResultNotError(structName, name))
    else None
  }

  /**
   * Checks the hook, then calls it on `data`. A hook error comes back
   * unchanged; otherwise the hook's count, read as a plain `int` (a count
   * of a named int type does not pass that type assertion and reads as 0).
   */
  function DecodeViaHook(structName: string, name: string, m: Method, data: seq<byte>): (r: Result<int, Error>)
    ensures r.Ok? <==> HookSignature(m) && m.call(data).err.None?
    ensures !HookSignature(m) ==> r.Err? && IsSignatureRejection(r.error)
    ensures HookSignature(m) && m.call(data).err.Some? ==> r == Err(HookFailed(m.call(data).err.value))
    ensures r.Ok? && m.results[0] == IntParam ==> r.value == m.call(data).count
    ensures r.Ok? && m.results[0] == NamedIntParam ==> r.value == 0
  {
    match CheckSignature(structName, name, m)
    case Some(e) => Err(e)
    case None =>
      var ret := m.call(data);
      if ret.err.Some? then Err(HookFailed(ret.err.value))
      else Ok(if m.results[0] == IntParam then ret.count else 0)
  }
}
