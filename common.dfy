/** Shared vocabulary of both file system generations: optional values,
    results carrying a typed error, and the content-store blob. */
module Common {

  datatype Option<+T> = None | Some(value: T)

  datatype Result<+T, +E> = Ok(value: T) | Err(error: E)

  newtype byte = x: int | 0 <= x < 256

  type Bytes = seq<byte>

  /** A blob of the content store (filedb): its bytes and the MIME type the
      store reports for them. The store computes the MIME type itself; the
      model receives it with the bytes. */
  datatype Blob = Blob(bytes: Bytes, mimetype: string)

  /** Size in bytes as the content store reports it. */
  function Size(b: Blob): nat
  {
    |b.bytes|
  }

  /** Identifier of a customer (tenant). */
  type CustomerId = nat
}
