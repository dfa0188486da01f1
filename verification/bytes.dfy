/**
 Bytes and the big-endian unsigned integer fields the bridge reads and writes
 (the `byteorder` crate's `read_u16/read_u32::<BigEndian>` and
 `write_u16/write_u32::<BigEndian>`).
 */
module Bytes {

  type Byte = b: int | 0 <= b < 0x100
  type U16 = n: int | 0 <= n < 0x1_0000
  type U32 = n: int | 0 <= n < 0x1_0000_0000

  /** 256 to the power `w`: the number of distinct values of a `w`-byte field. */
  function Pow256(w: nat): (r: nat)
    ensures r > 0
  {
    if w == 0 then 1 else 256 * Pow256(w - 1)
  }

  /** The unsigned value of `s` read most significant byte first. */
  function BEValue(s: seq<Byte>): (r: nat)
    ensures r < Pow256(|s|)
  {
    if |s| == 0 then 0 else BEValue(s[..|s| - 1]) * 256 + s[|s| - 1]
  }

  /** The low `w` bytes of `v`, most significant first: a truncating cast to a
      `w`-byte unsigned integer followed by a big-endian write. */
  function EncodeBE(v: nat, w: nat): (r: seq<Byte>)
    ensures |r| == w
  {
    if w == 0 then [] else EncodeBE(v / 256, w - 1) + [v % 256]
  }

  lemma FieldRanges()
    ensures Pow256(2) == 0x1_0000 && Pow256(4) == 0x1_0000_0000
  {
    assert Pow256(1) == 0x100;
    assert Pow256(3) == 0x100_0000;
  }

  /** The value of a 4-byte field in terms of its bytes. */
  lemma BEValueQuad(s: seq<Byte>)
    requires |s| == 4
    ensures BEValue(s) == (s[0] as int) * 0x100_0000 + (s[1] as int) * 0x1_0000 + (s[2] as int) * 0x100 + s[3] as int
  {
    assert s[..3][..2] == s[..2] && s[..2][..1] == s[..1] && s[..1][..0] == [];
    assert BEValue(s[..1]) == s[0];
    assert BEValue(s[..2]) == (s[0] as int) * 0x100 + s[1] as int;
    assert BEValue(s[..3]) == (s[0] as int) * 0x1_0000 + (s[1] as int) * 0x100 + s[2] as int;
  }

  /** Concatenation of a sequence of buffers, in order. */
  function Flatten(xs: seq<seq<Byte>>): (r: seq<Byte>)
  {
    if |xs| == 0 then [] else Flatten(xs[..|xs| - 1]) + xs[|xs| - 1]
  }

  lemma MulAwayFromZero(m: int, k: int)
    requires m > 0
    ensures k >= 1 ==> m * k >= m
    ensures k <= -1 ==> m * k <= -m
  {
  }

  lemma ModUnique(v: int, m: int, q: int, rem: int)
    requires m > 0 && 0 <= rem < m && v == m * q + rem
    ensures v % m == rem && v / m == q
  {
    var d := v / m;
    assert v == m * d + v % m;
    assert m * (q - d) == v % m - rem;
    MulAwayFromZero(m, q - d);
  }

  /** Splitting off the low byte and then `w - 1` more bytes is the same as
      taking `w` bytes at once. */
  lemma ModSplit(v: nat, p: nat)
    requires p > 0
    ensures ((v / 256) % p) * 256 + v % 256 == v % (256 * p)
  {
    var q, r0 := v / 256, v % 256;
    var a, b := q / p, q % p;
    assert q == p * a + b;
    assert v == 256 * q + r0;
    assert v == (256 * p) * a + (b * 256 + r0);
    assert 0 <= b * 256 + r0 < 256 * p;
    ModUnique(v, 256 * p, a, b * 256 + r0);
  }

  /** Reading back a written field gives the written value, truncated to the
      field's width. */
  lemma {:induction false} DecodeEncode(v: nat, w: nat)
    ensures BEValue(EncodeBE(v, w)) == v % Pow256(w)
  {
    if w > 0 {
      var r := EncodeBE(v, w);
      assert r[..w - 1] == EncodeBE(v / 256, w - 1);
      DecodeEncode(v / 256, w - 1);
      ModSplit(v, Pow256(w - 1));
    }
  }

  /** Writing back a read field reproduces the bytes it was read from. */
  lemma {:induction false} EncodeDecode(s: seq<Byte>)
    ensures EncodeBE(BEValue(s), |s|) == s
  {
    if |s| > 0 {
      var init, last := s[..|s| - 1], s[|s| - 1];
      var v := BEValue(s);
      ModUnique(v, 256, BEValue(init), last);
      EncodeDecode(init);
      assert s == init + [last];
    }
  }

  /** A field is determined by its value: two equally wide fields with the same
      value are the same bytes. */
  lemma BEValueInjective(s: seq<Byte>, t: seq<Byte>)
    requires |s| == |t| && BEValue(s) == BEValue(t)
    ensures s == t
  {
    EncodeDecode(s);
    EncodeDecode(t);
  }

  /** Flattening distributes over concatenation. */
  lemma {:induction false} FlattenAppend(xs: seq<seq<Byte>>, ys: seq<seq<Byte>>)
    ensures Flatten(xs + ys) == Flatten(xs) + Flatten(ys)
  {
    if |ys| == 0 {
      assert xs + ys == xs;
    } else {
      var init, last := ys[..|ys| - 1], ys[|ys| - 1];
      assert (xs + ys)[..|xs + ys| - 1] == xs + init;
      FlattenAppend(xs, init);
    }
  }
}
