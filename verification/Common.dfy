/** A value that may be missing. */
module Options {

  datatype Option<T> = None | Some(value: T)
}

/** Bytes and 64-bit words. */
module Words {

  const WORD := 0x1_0000_0000_0000_0000

  type U64 = x: int | 0 <= x < WORD
  type Byte = x: int | 0 <= x < 256
}

module Seqs {

  lemma Regroup<T>(a: seq<T>, b: seq<T>, c: seq<T>)
    ensures (a + b) + c == a + (b + c)
  {
  }
}
