/** The input side of the transport: a byte sequence consumed from the front
    by a blocking "read exactly n bytes or fail" primitive. */
module ByteInput {
  import opened Outcomes

  /** An octet, as the integer value it carries. */
  type byte = x: int | 0 <= x < 0x100

  /** The bytes a read returned and the input left behind it. */
  datatype Read = Read(bytes: seq<byte>, rest: seq<byte>)

  /** `readFully(n)`: exactly `n` bytes from the front of the input; a short
      input is an exception, never a shorter result. */
  function ReadFully(input: seq<byte>, n: nat): (r: Result<Read>)
    ensures r.Ok? <==> n <= |input|
    ensures r.Err? ==> r.error == ShortRead
    ensures r.Ok? ==> |r.value.bytes| == n && r.value.bytes + r.value.rest == input
  {
    if n <= |input| then Ok(Read(input[..n], input[n..])) else Err(ShortRead)
  }

  /** Appending bytes to the input never changes what a successful read
      returns; it only lengthens what is left behind. */
  lemma ReadFullyExtends(input: seq<byte>, more: seq<byte>, n: nat)
    requires n <= |input|
    ensures ReadFully(input + more, n)
         == Ok(Read(ReadFully(input, n).value.bytes, ReadFully(input, n).value.rest + more))
  {
    assert (input + more)[..n] == input[..n];
    assert (input + more)[n..] == input[n..] + more;
  }
}
