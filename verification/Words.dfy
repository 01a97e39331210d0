/** Bytes and little-endian words, as the interpreter and the header parsers read them. */
module Words {

  type Byte = b: int | 0 <= b < 256

  const DWORD: nat := 4
  const QWORD: nat := 8

  function Power256(width: nat): (p: nat)
    ensures p > 0
  {
    if width == 0 then 1 else 256 * Power256(width - 1)
  }

  /** The low `width` bytes of a value, least significant first. */
  function Pack(value: int, width: nat): (r: seq<Byte>)
    ensures |r| == width
    decreases width
  {
    if width == 0 then [] else [value % 256] + Pack(value / 256, width - 1)
  }

  function Unpack(data: seq<Byte>): (v: nat)
    ensures v < Power256(|data|)
  {
    if data == [] then 0 else data[0] + 256 * Unpack(data[1..])
  }

  /** Packing keeps a value modulo the word size, for negative values too. */
  lemma {:induction false} UnpackPack(value: int, width: nat)
    ensures Unpack(Pack(value, width)) == value % Power256(width)
    decreases width
  {
    if width > 0 {
      UnpackPack(value / 256, width - 1);
      assert Pack(value, width)[1..] == Pack(value / 256, width - 1);
      ModSplit(value, Power256(width - 1));
    }
  }

  lemma ModSplit(v: int, p: nat)
    requires p > 0
    ensures v % (256 * p) == v % 256 + 256 * ((v / 256) % p)
  {
    var q, r := v / 256, v % 256;
    var a, b := q / p, q % p;
    assert v == 256 * (p * a + b) + r;
    assert 256 * (p * a + b) == (256 * p) * a + 256 * b;
    var s := 256 * b + r;
    assert 0 <= s < 256 * p;
    DivModUnique(v, 256 * p, a, s);
  }

  lemma {:induction false} MulMonotone(d: nat, x: int, y: nat)
    ensures d * (x + y) >= d * x
  {
    if y > 0 {
      MulMonotone(d, x, y - 1);
      assert d * (x + y) == d * (x + (y - 1)) + d;
    }
  }

  /** Quotient and remainder are unique. */
  lemma DivModUnique(v: int, d: nat, q: int, r: int)
    requires d > 0 && 0 <= r < d && v == d * q + r
    ensures v % d == r
  {
    var q' := v / d;
    if q < q' {
      MulMonotone(d, q + 1, q' - (q + 1));
    } else if q' < q {
      MulMonotone(d, q' + 1, q - (q' + 1));
    }
  }

  lemma {:induction false} PackUnpack(data: seq<Byte>)
    ensures Pack(Unpack(data), |data|) == data
  {
    if data != [] {
      PackUnpack(data[1..]);
      var v := Unpack(data);
      assert v % 256 == data[0] && v / 256 == Unpack(data[1..]);
    }
  }

  /** Byte `i` of a word is the digit of weight 256^i: the least significant one comes first. */
  lemma {:induction false} PackDigits(value: int, width: nat, i: nat)
    requires i < width
    ensures Pack(value, width)[i] == value / Power256(i) % 256
    decreases width
  {
    if i > 0 {
      PackDigits(value / 256, width - 1, i - 1);
      DivDiv(value, Power256(i - 1));
    }
  }

  lemma DivDiv(v: int, p: nat)
    requires p > 0
    ensures v / 256 / p == v / (256 * p)
  {
    var q, r := v / 256 / p, v / 256 % p;
    assert v == 256 * (p * q + r) + v % 256;
    assert 256 * (p * q + r) == (256 * p) * q + 256 * r;
    DivModUnique(v, 256 * p, q, 256 * r + v % 256);
    MulCancel(256 * p, q, v / (256 * p));
  }

  lemma MulCancel(d: nat, x: int, y: int)
    requires d > 0 && d * x == d * y
    ensures x == y
  {
    if x < y {
      MulMonotone(d, x + 1, y - (x + 1));
    } else if y < x {
      MulMonotone(d, y + 1, x - (y + 1));
    }
  }

  lemma Powers()
    ensures Power256(2) == 0x1_0000 && Power256(4) == 0x1_0000_0000 && Power256(8) == 0x1_0000_0000_0000_0000
  {
    assert Power256(1) == 256;
    assert Power256(3) == 0x100_0000;
    assert Power256(5) == 256 * Power256(4);
    assert Power256(6) == 256 * Power256(5);
    assert Power256(7) == 256 * Power256(6);
  }

  lemma PackLow(value: int, width: nat)
    ensures Pack(value % Power256(width), width) == Pack(value, width)
  {
    UnpackPack(value, width);
    PackUnpack(Pack(value, width));
  }
}
