/** Small value types shared by the encoder and decoder models: an optional
    value, a byte and GStreamer's flow return codes. */
module GstTypes {

  datatype Option<+T> = None | Some(value: T)

  /** A `guint8`. */
  type Byte = x: int | 0 <= x < 0x100

  /** The GstFlowReturn codes the two elements produce or pass through.
      `OtherFlow` stands for any further code a collaborator may return. */
  datatype FlowReturn =
    | FlowOk
    | FlowError
    | FlowFlushing
    | FlowNotNegotiated
    | FlowEos
    | OtherFlow(code: int)

  /** Largest value of a 32-bit `guint32`, plus one. */
  const Two32: nat := 0x1_0000_0000

  /** Largest value of a C `gint`. */
  const MaxGint: nat := 0x7FFF_FFFF

  /** Concatenation is associative. */
  lemma Associative<T>(a: seq<T>, b: seq<T>, c: seq<T>)
    ensures a + (b + c) == a + b + c
  {
  }
}
