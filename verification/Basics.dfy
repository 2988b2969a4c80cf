// Types shared by every module: bytes, text, Option and Result.

module Basics {

  type byte = x: int | 0 <= x < 256

  type Bytes = seq<byte>

  // A Rust `String`, as its UTF-8 bytes.
  type Text = seq<byte>

  // `String::from_utf8_lossy`: any total map from bytes to text.
  type Lossy = Bytes -> Text

  newtype u32 = x: int | 0 <= x < 0x1_0000_0000

  datatype Option<+T> = None | Some(value: T)

  datatype Result<+T, +E> = Ok(value: T) | Err(error: E)

  const LF: byte := 10
  const CR: byte := 13
  const SPACE: byte := 32
  const COLON: byte := 58

  /** The bytes of an ASCII literal. */
  function Ascii(s: string): (b: Bytes)
    requires forall i | 0 <= i < |s| :: s[i] < 128 as char
    ensures |b| == |s|
    ensures forall i | 0 <= i < |s| :: b[i] == s[i] as int
  {
    seq(|s|, i requires 0 <= i < |s| => s[i] as int)
  }

  function Concat(chunks: seq<Bytes>): Bytes {
    if chunks == [] then [] else chunks[0] + Concat(chunks[1..])
  }

  lemma {:induction false} ConcatSplit(chunks: seq<Bytes>, j: nat)
    requires j <= |chunks|
    ensures Concat(chunks) == Concat(chunks[..j]) + Concat(chunks[j..])
  {
    if j == 0 {
      assert chunks[..0] == [] && chunks[0..] == chunks;
    } else {
      ConcatSplit(chunks[1..], j - 1);
      assert chunks[..j][1..] == chunks[1..][..j - 1] && chunks[1..][j - 1..] == chunks[j..];
      var x, y, z := chunks[0], Concat(chunks[1..][..j - 1]), Concat(chunks[j..]);
      assert Concat(chunks[..j]) == x + y;
      assert x + (y + z) == (x + y) + z;
    }
  }

  /** The elements an optional value contributes to a sequence. */
  function Opt<T>(o: Option<T>): seq<T> {
    if o.Some? then [o.value] else []
  }

  lemma Assoc<T>(a: seq<T>, b: seq<T>, c: seq<T>)
    ensures a + (b + c) == (a + b) + c
  {
  }
}
