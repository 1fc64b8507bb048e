/**
 * Encoding detection for the replacement table: the candidate encodings are tried
 * in a fixed priority order (UTF-8 first, then Shift-JIS) and the first one under
 * which the WHOLE file decodes without error is chosen.
 *
 * Whether a byte string decodes fully under an encoding is codec behaviour that is
 * not modelled; it is passed in as the relation `decodes(bytes, encoding)`.
 */
module Encodings {
  import opened Wrappers

  type Bytes = seq<bv8>

  datatype Encoding = Utf8 | ShiftJis

  /** The candidates, highest priority first. */
  const Candidates: seq<Encoding> := [Utf8, ShiftJis]

  /** The position of an encoding in the priority order. */
  function Priority(e: Encoding): (k: nat)
    ensures k < |Candidates| && Candidates[k] == e
  {
    match e
    case Utf8 => 0
    case ShiftJis => 1
  }

  /** The encoding detection decides, as a value. */
  function Detect(bytes: Bytes, decodes: (Bytes, Encoding) -> bool): (r: Option<Encoding>)
    ensures r.Some? ==> decodes(bytes, r.value)
    ensures r.Some? ==> forall k :: 0 <= k < Priority(r.value) ==> !decodes(bytes, Candidates[k])
    ensures r.None? <==> forall k :: 0 <= k < |Candidates| ==> !decodes(bytes, Candidates[k])
  {
    assert Candidates[0] == Utf8 && Candidates[1] == ShiftJis;
    if decodes(bytes, Utf8) then Some(Utf8)
    else if decodes(bytes, ShiftJis) then Some(ShiftJis)
    else None
  }

  /** Tries each candidate in turn and returns the first whose full decode succeeds,
      or `None` when none does. */
  method DetectEncoding(bytes: Bytes, decodes: (Bytes, Encoding) -> bool) returns (r: Option<Encoding>)
    ensures r.Some? ==> r.value in Candidates && decodes(bytes, r.value)
    ensures r.Some? ==> forall k :: 0 <= k < Priority(r.value) ==> !decodes(bytes, Candidates[k])
    ensures r.None? <==> forall k :: 0 <= k < |Candidates| ==> !decodes(bytes, Candidates[k])
    ensures r == Detect(bytes, decodes)
  {
    for i := 0 to |Candidates|
      invariant forall k :: 0 <= k < i ==> !decodes(bytes, Candidates[k])
    {
      var encoding := Candidates[i];
      if decodes(bytes, encoding) {
        return Some(encoding);
      }
    }
    return None;
  }

  /** Bytes that decode only as Shift-JIS are detected as Shift-JIS; bytes that decode
      under neither candidate are not detected. */
  lemma DetectOnlyShiftJis(bytes: Bytes, decodes: (Bytes, Encoding) -> bool)
    requires !decodes(bytes, Utf8)
    ensures Detect(bytes, decodes) == (if decodes(bytes, ShiftJis) then Some(ShiftJis) else None)
  {
  }
}
