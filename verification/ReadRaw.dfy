/** A read pointer over a byte slice that is advanced by every read. */
module ReadRaw {
  import opened Bits
  import opened Leb128
  import opened Options
  import opened Words

  class Cursor {
    var data: seq<Byte>

    constructor (data: seq<Byte>)
      ensures this.data == data
    {
      this.data := data;
    }

    predicate Ensure(len: nat)
      reads this
    {
      len <= |data|
    }

    /** A read that is too long leaves the pointer where it was. */
    method ReadSlice(len: nat) returns (r: Option<seq<Byte>>)
      modifies this
      ensures r.Some? <==> len <= |old(data)|
      ensures r.None? ==> data == old(data)
      ensures r.Some? ==> r.value == old(data)[..len] && data == old(data)[len..]
    {
      if !Ensure(len) {
        return None;
      }
      r := Some(data[..len]);
      data := data[len..];
    }

    /** Consumes exactly the bytes of the number. */
    method ReadU64Leb128() returns (r: Outcome)
      modifies this
      ensures r == DecodeU(old(data))
      ensures r.Done? ==> r.count <= |old(data)| && data == old(data)[r.count..]
      ensures r.Truncated? ==> data == []
    {
      ghost var s := data;
      var shift: nat, value: U64 := 0, 0;
      ghost var n: nat := 0;
      assert s[0..] == s;
      while true
        invariant n <= |s| && n <= 10 && shift == 7 * n && data == s[n..]
        invariant forall i :: 0 <= i < n ==> s[i] >= 128
        invariant value == Value(s[..n]) % WORD
        decreases |data|
      {
        RunPast(s, n);
        var bytes := ReadSlice(1);
        if bytes.None? {
          return Truncated;
        }
        var byte := bytes.value[0];
        assert byte == s[n] && data == s[n + 1..];
        if shift >= 64 {
          return Overflow;
        }
        Step(s, n, value, shift, 64);
        value := Or(value, Shl(byte % 128, shift));
        shift := shift + 7;
        n := n + 1;
        if byte < 128 {
          return Done(value, shift / 7);
        }
      }
    }

    method ReadI64Leb128() returns (r: Outcome)
      modifies this
      ensures r == DecodeI(old(data))
      ensures r.Done? ==> r.count <= |old(data)| && data == old(data)[r.count..]
      ensures r.Truncated? ==> data == []
    {
      ghost var s := data;
      var unsigned := ReadU64Leb128();
      if !unsigned.Done? {
        return unsigned;
      }
      if unsigned.count * 7 > 64 {
        return Overflow;
      }
      SignedRead(s, 64);
      var signBits := 64 - unsigned.count * 7;
      r := Done(ExtendSign(unsigned.value, signBits), unsigned.count);
    }
  }

  /** After `n` bytes that announce another one. */
  lemma {:induction false} RunPast(s: seq<Byte>, n: nat)
    requires n <= |s| && forall i :: 0 <= i < n ==> s[i] >= 128
    ensures Run(s) >= n
    ensures n < |s| && s[n] < 128 ==> Run(s) == n
  {
    if n > 0 {
      RunPast(s[1..], n - 1);
    }
  }

  lemma Step(s: seq<Byte>, n: nat, value: U64, shift: nat, word: nat)
    requires n < |s| && shift == 7 * n < word == 64 && value == Value(s[..n]) % WORD
    ensures Or(value, Shl(s[n] % 128, shift)) == Value(s[..n + 1]) % WORD < WORD
  {
    ValueBound(s[..n]);
    OrGroup(Value(s[..n]), value, s[n] % 128, shift, word);
    ValueAppend(s[..n], s[n]);
    assert s[..n] + [s[n]] == s[..n + 1];
  }

  lemma SignedRead(s: seq<Byte>, word: nat)
    requires DecodeU(s).Done? && DecodeU(s).count < 10 && word == 64
    ensures DecodeI(s) == Done(ExtendSign(DecodeU(s).value, word - 7 * DecodeU(s).count), DecodeU(s).count)
  {
    var n := DecodeU(s).count;
    var t := s[..n];
    NineBytes(t, word);
    DivModUnique(Value(t), WORD, 0, Value(t));
    ValueBound(t);
    SignedIsExtended(t);
    ExtendSignMeaning(Value(t), 7 * n, word);
  }
}
