/** Packed little-endian records of 16-bit and 32-bit fields. */
module Pod {
  import opened Words

  function Pair(low: nat, high: nat, base: nat): nat { low + base * high }

  function U16(s: seq<Byte>, i: nat): (n: nat)
    requires i + 2 <= |s|
    ensures n < 0x1_0000
  {
    Pair(s[i], s[i + 1], 256)
  }

  function U32(s: seq<Byte>, i: nat): nat
    requires i + 4 <= |s|
  {
    Pair(U16(s, i), U16(s, i + 2), 0x1_0000)
  }

  datatype Width = W16 | W32

  function Bytes(w: Width): nat { if w.W16? then 2 else 4 }

  function Limit(w: Width): nat { if w.W16? then 0x1_0000 else 0x1_0000_0000 }

  /** The field of width `w` at position `i`. */
  function Field(w: Width, s: seq<Byte>, i: nat): nat
    requires i + Bytes(w) <= |s|
  {
    if w.W16? then U16(s, i) else U32(s, i)
  }

  function PutField(w: Width, n: nat): (s: seq<Byte>)
    requires n < Limit(w)
    ensures |s| == Bytes(w) && Field(w, s, 0) == n
  {
    if w.W16? then [n % 256, n / 256]
    else
      var low, high := n % 0x1_0000, n / 0x1_0000;
      [low % 256, low / 256, high % 256, high / 256]
  }

  /** Where field `n` of a record begins. */
  function Place(layout: seq<Width>, n: nat): nat
    requires n <= |layout|
  {
    if n == 0 then 0 else Place(layout, n - 1) + Bytes(layout[n - 1])
  }

  ghost predicate Fits(layout: seq<Width>, fields: seq<nat>) {
    |fields| == |layout| && forall i :: 0 <= i < |fields| ==> fields[i] < Limit(layout[i])
  }

  /** The bytes of the first `n` fields. */
  ghost function Put(layout: seq<Width>, fields: seq<nat>, n: nat): (s: seq<Byte>)
    requires Fits(layout, fields) && n <= |layout|
    ensures |s| == Place(layout, n)
  {
    if n == 0 then [] else Put(layout, fields, n - 1) + PutField(layout[n - 1], fields[n - 1])
  }

  lemma FieldInside(w: Width, s: seq<Byte>, i: nat, front: seq<Byte>, tail: seq<Byte>)
    requires i + Bytes(w) <= |s|
    ensures Field(w, front + s + tail, |front| + i) == Field(w, s, i)
  {
  }

  /** Every field is found in its place. */
  lemma {:induction false} PutAt(layout: seq<Width>, fields: seq<nat>, n: nat, k: nat)
    requires Fits(layout, fields) && k < n <= |layout|
    ensures Place(layout, k) + Bytes(layout[k]) <= Place(layout, n)
    ensures Field(layout[k], Put(layout, fields, n), Place(layout, k)) == fields[k]
  {
    var front, last := Put(layout, fields, n - 1), PutField(layout[n - 1], fields[n - 1]);
    if k == n - 1 {
      assert front + last + [] == front + last;
      FieldInside(layout[k], last, 0, front, []);
    } else {
      PutAt(layout, fields, n - 1, k);
      assert [] + front + last == front + last;
      FieldInside(layout[k], front, Place(layout, k), [], last);
    }
  }
}
