/**
 * The frames the decoders hand to `struct.pack`: a type tag followed by typed
 * fields, each an `i` (C int) or a `d` (C double) of the pack format. The
 * byte image itself is platform-dependent (native order, size and alignment)
 * and is described by the format string rather than computed.
 */
module Frames {

  datatype Field = Int(i: int) | Real(x: real)

  /** A tag plus its ordered fields; on the wire the tag is the first `i`. */
  datatype Frame = Frame(tag: int, fields: seq<Field>)

  /** What a decoder returns: a frame, the source's `return 0`, or a raised exception. */
  datatype Outcome = Packed(frame: Frame) | Rejected | Fault

  /** The values passed to `struct.pack`, tag first. */
  function Values(f: Frame): (vs: seq<Field>)
    ensures |vs| == |f.fields| + 1 && vs[0] == Int(f.tag) && vs[1..] == f.fields
  {
    [Int(f.tag)] + f.fields
  }

  /** The values match a pack format position by position: `i` for integers, `d` for reals. */
  predicate Conforms(vs: seq<Field>, fmt: string) {
    |vs| == |fmt|
    && forall k | 0 <= k < |vs| :: (vs[k].Int? && fmt[k] == 'i') || (vs[k].Real? && fmt[k] == 'd')
  }

  predicate FitsInt32(n: int) {
    -0x8000_0000 <= n < 0x8000_0000
  }

  predicate IntsFit(vs: seq<Field>) {
    forall k | 0 <= k < |vs| :: vs[k].Int? ==> FitsInt32(vs[k].i)
  }

  /**
   * `struct.pack(fmt, tag, *fields)`: the frame, or a fault (`struct.error`)
   * when an `i` value lies outside the 32-bit signed range.
   */
  function Pack(fmt: string, tag: int, fields: seq<Field>): (r: Outcome)
    requires Conforms([Int(tag)] + fields, fmt)
    ensures !r.Rejected?
    ensures r.Packed? <==> IntsFit([Int(tag)] + fields)
    ensures r.Packed? ==> r.frame.tag == tag && r.frame.fields == fields
    ensures r.Packed? ==> Conforms(Values(r.frame), fmt) && IntsFit(Values(r.frame))
  {
    if IntsFit([Int(tag)] + fields) then Packed(Frame(tag, fields)) else Fault
  }

  /** Turns integers into `i` fields, in order. */
  function IntFields(ns: seq<int>): (fs: seq<Field>)
    ensures |fs| == |ns|
    ensures forall k | 0 <= k < |ns| :: fs[k] == Int(ns[k])
  {
    seq(|ns|, k requires 0 <= k < |ns| => Int(ns[k]))
  }

  /** Where the fields of a list that ends in integer fields sit. */
  lemma FieldsThenInts(fields: seq<Field>, head: seq<Field>, ns: seq<int>)
    requires fields == head + IntFields(ns)
    ensures |fields| == |head| + |ns|
    ensures forall k | 0 <= k < |head| :: fields[k] == head[k]
    ensures forall k | 0 <= k < |ns| :: fields[|head| + k] == Int(ns[k])
  {
  }

  lemma ConformsConcat(a: seq<Field>, f: string, b: seq<Field>, g: string)
    requires Conforms(a, f) && Conforms(b, g)
    ensures Conforms(a + b, f + g)
  {
    forall k | 0 <= k < |a + b|
      ensures ((a + b)[k].Int? && (f + g)[k] == 'i') || ((a + b)[k].Real? && (f + g)[k] == 'd')
    {
      if k >= |a| {
        assert (a + b)[k] == b[k - |a|] && (f + g)[k] == g[k - |a|];
      }
    }
  }

  /** `n` integer fields conform to `n` copies of `i`. */
  lemma IntFieldsConform(ns: seq<int>, fmt: string)
    requires |fmt| == |ns| && forall k | 0 <= k < |fmt| :: fmt[k] == 'i'
    ensures Conforms(IntFields(ns), fmt)
  {
  }

  lemma IntsFitConcat(a: seq<Field>, b: seq<Field>)
    requires IntsFit(a) && IntsFit(b)
    ensures IntsFit(a + b)
  {
    forall k | 0 <= k < |a + b| && (a + b)[k].Int? ensures FitsInt32((a + b)[k].i) {
      if k >= |a| {
        assert (a + b)[k] == b[k - |a|];
      }
    }
  }

  /** A field outside the range stays outside once the tag is put in front. */
  lemma {:induction false} IntsFitTail(tag: int, fs: seq<Field>)
    ensures IntsFit([Int(tag)] + fs) ==> IntsFit(fs)
  {
    if IntsFit([Int(tag)] + fs) {
      forall k | 0 <= k < |fs| && fs[k].Int? ensures FitsInt32(fs[k].i) {
        assert ([Int(tag)] + fs)[k + 1] == fs[k];
      }
    }
  }

  /** Integers in the 32-bit range make `i` fields `struct.pack` accepts. */
  lemma IntFieldsFit(ns: seq<int>)
    requires forall k | 0 <= k < |ns| :: FitsInt32(ns[k])
    ensures IntsFit(IntFields(ns))
  {
  }
}
