/** Why a product of table start and entry offset never equals their sum in 32-bit arithmetic: with
    r reserved sectors and cluster c, 512 r * 2 c == 512 r + 2 c modulo 2^32 leaves, after dividing out
    the factors, a residue that none of the 256 possible values of c / 256 has. */
module LookupArithmetic {
  import opened Bits

  predicate Below16(x: int) {
    x in {0, 1, 2, 3, 4, 5, 6, 7, 8, 9, 10, 11, 12, 13, 14, 15}
  }

  predicate FarFrom(d: int) {
    (d * d * (512 * d + 1)) % 16384 < 16384 - 128
  }

  // The numbers from 1 to 256, sixteen at a time.
  lemma Far1(x: int) ensures Below16(x) ==> FarFrom(1 + x) {}
  lemma Far17(x: int) ensures Below16(x) ==> FarFrom(17 + x) {}
  lemma Far33(x: int) ensures Below16(x) ==> FarFrom(33 + x) {}
  lemma Far49(x: int) ensures Below16(x) ==> FarFrom(49 + x) {}
  lemma Far65(x: int) ensures Below16(x) ==> FarFrom(65 + x) {}
  lemma Far81(x: int) ensures Below16(x) ==> FarFrom(81 + x) {}
  lemma Far97(x: int) ensures Below16(x) ==> FarFrom(97 + x) {}
  lemma Far113(x: int) ensures Below16(x) ==> FarFrom(113 + x) {}
  lemma Far129(x: int) ensures Below16(x) ==> FarFrom(129 + x) {}
  lemma Far145(x: int) ensures Below16(x) ==> FarFrom(145 + x) {}
  lemma Far161(x: int) ensures Below16(x) ==> FarFrom(161 + x) {}
  lemma Far177(x: int) ensures Below16(x) ==> FarFrom(177 + x) {}
  lemma Far193(x: int) ensures Below16(x) ==> FarFrom(193 + x) {}
  lemma Far209(x: int) ensures Below16(x) ==> FarFrom(209 + x) {}
  lemma Far225(x: int) ensures Below16(x) ==> FarFrom(225 + x) {}
  lemma Far241(x: int) ensures Below16(x) ==> FarFrom(241 + x) {}

  lemma AllFar(d: nat)
    requires d < 256
    ensures FarFrom(d)
  {
    if d == 0 {
      return;
    }
    hide FarFrom;
    var x := (d - 1) % 16;
    Far1(x); Far17(x); Far33(x); Far49(x);
    Far65(x); Far81(x); Far97(x); Far113(x);
    Far129(x); Far145(x); Far161(x); Far177(x);
    Far193(x); Far209(x); Far225(x); Far241(x);
    assert d in {1 + x, 17 + x, 33 + x, 49 + x, 65 + x, 81 + x, 97 + x, 113 + x, 129 + x, 145 + x, 161 + x,
                 177 + x, 193 + x, 209 + x, 225 + x, 241 + x};
  }

  /** The cluster number is a multiple d of 256, and r + d a multiple e of 512. */
  lemma Factors(r: nat, c: nat, k: int) returns (d: nat, e: int)
    requires 1 <= r < 65536 && c < 65536
    requires 1024 * (r * c) == 512 * r + 2 * c + U32 * k
    ensures d < 256 && 1 <= e <= 128 && e == (512 * e - d) * d - 16384 * k
  {
    var q := 2 * (r * c) - r - 0x80_0000 * k;
    assert c == 256 * q;
    d := q;
    assert r * c == 256 * (r * d);
    e := r * d - 16384 * k;
    assert r == 512 * e - d;
  }

  lemma Residue(d: nat, e: int, k: int)
    requires 1 <= e <= 128 && e == (512 * e - d) * d - 16384 * k
    ensures !FarFrom(d)
  {
    Expand(d, e, k);
    Remainder(d * d * (512 * d + 1), e, k * (1 + 512 * d) - 16 * (e * (d * d)));
  }

  lemma Remainder(x: int, e: int, m: int)
    requires x == -e - 16384 * m && 1 <= e <= 128
    ensures x % 16384 == 16384 - e
  {
  }

  lemma Expand(d: int, e: int, k: int)
    requires e == (512 * e - d) * d - 16384 * k
    ensures d * d * (512 * d + 1) == -e - 16384 * (k * (1 + 512 * d) - 16 * (e * (d * d)))
  {
    var s, t, u := d * d, e * d, k * d;
    assert (512 * e - d) * d == 512 * t - s;
    assert e * d == (512 * t - s - 16384 * k) * d;
    assert (512 * t - s - 16384 * k) * d == 512 * (e * s) - d * s - 16384 * u;
    assert k * (1 + 512 * d) == k + 512 * u;
    assert s * (512 * d + 1) == 512 * (d * s) + s;
  }

  lemma NeverEqual(r: nat, c: nat)
    requires 1 <= r < 65536 && c < 65536
    ensures (1024 * (r * c)) % U32 != 512 * r + 2 * c
  {
    if (1024 * (r * c)) % U32 == 512 * r + 2 * c {
      var d, e := Factors(r, c, (1024 * (r * c)) / U32);
      Residue(d, e, (1024 * (r * c)) / U32);
      AllFar(d);
      assert false;
    }
  }
}
