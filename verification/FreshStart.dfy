/**
 Decoders that start from fresh variables: they accept exactly what the grammar accepts, whether the
 input is in memory or comes from a stream.
 */
module FreshStart {
  import opened Wire
  import opened Codec
  import opened Destination
  import opened Agreement
  import opened Acceptance
  import opened SlipGuards

  /** Into a fresh destination nothing but what the grammar accepts. */
  lemma IntoOnly(stream: bool, c: Codec, b: bytes)
    requires WF(c) && |b| <= MAX_LEN && DecInto(stream, c, Zero(c), b).Ok?
    ensures Dec(c, b).Ok?
  {
    IntoExactly(stream, c, Zero(c), b);
    FreshNeverSlips(stream, c, b);
  }

  /**
   Slice and stream decoders agree: started on fresh variables they accept the same payloads, with
   the same value and the same bytes consumed, although only one knows how many bytes remain.
   */
  lemma SliceStreamAgree(c: Codec, b: bytes)
    requires WF(c) && |b| <= MAX_LEN
    ensures var memory, stream := DecInto(false, c, Zero(c), b), DecInto(true, c, Zero(c), b);
      && (memory.Ok? <==> stream.Ok?)
      && (memory.Ok? ==> View(memory.val) == View(stream.val) && memory.rest == stream.rest)
  {
    hide Dec, DecInto, Enc, WF, Typed, Encodable, Shaped, View;
    if DecInto(false, c, Zero(c), b).Ok? {
      IntoOnly(false, c, b);
    } else if DecInto(true, c, Zero(c), b).Ok? {
      IntoOnly(true, c, b);
    }
    if Dec(c, b).Ok? {
      IntoOk(false, c, Zero(c), b);
      IntoOk(true, c, Zero(c), b);
    }
  }
}
