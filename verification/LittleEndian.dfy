/** Little-endian integers of a given width. */
module LittleEndian {
  import opened Records

  type Bytes = seq<byte>

  const U16: nat := 0x1_0000
  const U32: nat := 0x1_0000_0000
  const U64: nat := 0x1_0000_0000_0000_0000

  function Limit(w: nat): nat {
    if w == 0 then 1 else 256 * Limit(w - 1)
  }

  lemma Widths()
    ensures Limit(1) == 256 && Limit(2) == U16 && Limit(4) == U32 && Limit(8) == U64
  {
    assert Limit(1) == 256 * Limit(0);
    assert Limit(2) == 256 * Limit(1);
    assert Limit(3) == 256 * Limit(2);
    assert Limit(4) == 256 * Limit(3);
    assert Limit(5) == 256 * Limit(4);
    assert Limit(6) == 256 * Limit(5);
    assert Limit(7) == 256 * Limit(6);
  }

  /** The `w` low bytes of `n`, lowest first; higher ones are cut off. */
  function Encode(n: nat, w: nat): (r: Bytes)
    ensures |r| == w
    decreases w
  {
    if w == 0 then [] else [(n % 256) as byte] + Encode(n / 256, w - 1)
  }

  function Decode(s: Bytes): nat {
    if s == [] then 0 else s[0] as nat + 256 * Decode(s[1..])
  }

  /** Decoding gives the number back, up to what the width cuts off. */
  lemma {:induction false} DecodeEncode(n: nat, w: nat)
    ensures Limit(w) > 0 && Decode(Encode(n, w)) == n % Limit(w)
    ensures n < Limit(w) ==> Decode(Encode(n, w)) == n
    decreases w
  {
    if w > 0 {
      DecodeEncode(n / 256, w - 1);
      assert Encode(n, w)[1..] == Encode(n / 256, w - 1);
      ModStep(n, Limit(w - 1));
    }
  }

  lemma ModStep(n: nat, l: nat)
    requires l > 0
    ensures n % 256 + 256 * ((n / 256) % l) == n % (256 * l)
  {
    Parts(n, l, (n / 256) / l, (n / 256) % l);
  }

  lemma DivUnique(n: nat, d: nat, q: nat, r: nat)
    requires d > 0 && n == d * q + r && r < d
    ensures n % d == r && n / d == q
  {
    var q', r' := n / d, n % d;
    assert n == d * q' + r';
    Apart(d, q', q);
    Apart(d, q, q');
  }

  lemma Apart(d: nat, a: nat, b: nat)
    ensures a < b ==> d * a + d <= d * b
  {
    if a < b {
      assert d * b == d * (a + 1) + d * (b - a - 1);
    }
  }

  lemma LowByte(b: byte, n: nat)
    ensures (b as nat + 256 * n) % 256 == b as nat && (b as nat + 256 * n) / 256 == n
  {
  }

  /** Encoding gives the bytes back. */
  lemma {:induction false} EncodeDecode(s: Bytes)
    ensures Decode(s) < Limit(|s|) && Encode(Decode(s), |s|) == s
  {
    if s != [] {
      EncodeDecode(s[1..]);
      LowByte(s[0], Decode(s[1..]));
      assert s == [s[0]] + s[1..];
    }
  }

  /** The number `n` lies in `w` bytes at offset `off`, its lowest byte first. */
  ghost predicate Lies(s: Bytes, off: nat, n: nat, w: nat) {
    off + w <= |s| && forall i: nat {:trigger Limit(i)} :: i < w ==>
      Limit(i) > 0 && s[off + i] as nat == n / Limit(i) % 256
  }

  /** Byte `i` of an encoding is digit `i` of the number in base 256. */
  lemma {:induction false} EncodeAt(n: nat, w: nat, i: nat)
    requires i < w
    ensures Limit(i) > 0 && Encode(n, w)[i] as nat == n / Limit(i) % 256
    decreases w
  {
    if i > 0 {
      EncodeAt(n / 256, w - 1, i - 1);
      DivTwice(n, Limit(i - 1));
    }
  }

  lemma DivTwice(n: nat, l: nat)
    requires l > 0
    ensures (n / 256) / l == n / (256 * l)
  {
    Parts(n, l, (n / 256) / l, (n / 256) % l);
  }

  lemma Parts(n: nat, l: nat, q: nat, r: nat)
    requires l > 0 && n / 256 == l * q + r && r < l
    ensures n / (256 * l) == q && n % (256 * l) == n % 256 + 256 * r
  {
    assert n == 256 * (n / 256) + n % 256;
    var rest := n % 256 + 256 * r;
    assert 256 * (l * q) == (256 * l) * q;
    assert n == (256 * l) * q + rest && rest < 256 * l;
    DivUnique(n, 256 * l, q, rest);
  }

  lemma EncodingLies(s: Bytes, off: nat, n: nat, w: nat)
    requires off + w <= |s| && s[off..off + w] == Encode(n, w)
    ensures Lies(s, off, n, w)
  {
    hide Encode, Limit;
    forall i: nat {:trigger Limit(i)} | i < w ensures Limit(i) > 0 && s[off + i] as nat == n / Limit(i) % 256 {
      EncodeAt(n, w, i);
      assert s[off + i] == s[off..off + w][i];
    }
  }
}
