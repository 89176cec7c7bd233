/** Arithmetic in GF(2^8), the field AES computes in.

    IsProduct is the definition of section 4.2 of FIPS 197 (multiplication of polynomials over GF(2) modulo
    x^8 + x^4 + x^3 + x + 1) and GMul computes it. Xtime and Multiply are the shift-and-mask forms the cipher
    uses; the lemmas say where they are products in the field. */
module Gf256 {
  type byte = bv8

  /** The carry-less product of two polynomials of degree below eight. */
  function Clmul(x: byte, y: byte): bv16 {
    var w := x as bv16;
    (if y & 0x01 != 0 then w else 0) ^ (if y & 0x02 != 0 then w << 1 else 0) ^
    (if y & 0x04 != 0 then w << 2 else 0) ^ (if y & 0x08 != 0 then w << 3 else 0) ^
    (if y & 0x10 != 0 then w << 4 else 0) ^ (if y & 0x20 != 0 then w << 5 else 0) ^
    (if y & 0x40 != 0 then w << 6 else 0) ^ (if y & 0x80 != 0 then w << 7 else 0)
  }

  /** The polynomial q times the modulus 0x11b. */
  function TimesModulus(q: byte): bv16 {
    var w := q as bv16;
    (w << 8) ^ (w << 4) ^ (w << 3) ^ (w << 1) ^ w
  }

  /** r is the remainder, and q the quotient, of the product of x and y divided by the modulus. */
  predicate IsProduct(x: byte, y: byte, q: byte, r: byte) {
    Clmul(x, y) == TimesModulus(q) ^ r as bv16
  }

  function Quotient(x: byte, y: byte): byte {
    var h := (Clmul(x, y) >> 8) as byte;
    h ^ (h >> 4) ^ (h >> 5) ^ (h >> 7)
  }

  lemma RemainderFitsAByte(x: byte, y: byte)
    ensures Clmul(x, y) ^ TimesModulus(Quotient(x, y)) < 0x100
  {
  }

  /** The product in the field. */
  function GMul(x: byte, y: byte): byte {
    RemainderFitsAByte(x, y);
    (Clmul(x, y) ^ TimesModulus(Quotient(x, y))) as byte
  }

  lemma XorBack(p: bv16, m: bv16)
    requires p ^ m < 0x100
    ensures p == m ^ ((p ^ m) as byte) as bv16
  {
  }

  lemma GMulIsProduct(x: byte, y: byte)
    ensures IsProduct(x, y, Quotient(x, y), GMul(x, y))
  {
    hide Clmul, TimesModulus, Quotient;
    RemainderFitsAByte(x, y);
    XorBack(Clmul(x, y), TimesModulus(Quotient(x, y)));
  }

  /** The high byte of a multiple of the modulus determines the multiple. */
  lemma ModulusMultipleHighByte(q: byte, q': byte)
    requires TimesModulus(q) >> 8 == TimesModulus(q') >> 8
    ensures q == q'
  {
  }

  lemma SameHighByte(p: bv16, m: bv16, r: byte, m': bv16, r': byte)
    requires p == m ^ r as bv16 && p == m' ^ r' as bv16
    ensures m >> 8 == m' >> 8
    ensures m == m' ==> r == r'
  {
  }

  lemma QuotientUnique(p: bv16, q: byte, r: byte, q': byte, r': byte)
    requires p == TimesModulus(q) ^ r as bv16 && p == TimesModulus(q') ^ r' as bv16
    ensures r == r'
  {
    hide *;
    SameHighByte(p, TimesModulus(q), r, TimesModulus(q'), r');
    ModulusMultipleHighByte(q, q');
  }

  /** Division has one answer, so IsProduct does define a product. */
  lemma ProductIff(x: byte, y: byte, r: byte)
    ensures (exists q :: IsProduct(x, y, q, r)) <==> r == GMul(x, y)
  {
    hide Clmul, TimesModulus, Quotient, GMul;
    GMulIsProduct(x, y);
    if q :| IsProduct(x, y, q, r) {
      QuotientUnique(Clmul(x, y), q, r, Quotient(x, y), GMul(x, y));
    }
  }

  /** Addition in the field. Proofs that need only its laws hide this definition. */
  function Add(x: byte, y: byte): byte {
    x ^ y
  }

  lemma AddIsXor(x: byte, y: byte)
    ensures Add(x, y) == x ^ y
  {
  }

  lemma XorInterchange(p: byte, q: byte, r: byte, s: byte, a: byte, b: byte, c: byte, d: byte)
    requires p == a ^ b && q == c ^ d && r == a ^ c && s == b ^ d
    ensures p ^ q == r ^ s
  {
  }

  lemma AddInterchange(a: byte, b: byte, c: byte, d: byte)
    ensures Add(Add(a, b), Add(c, d)) == Add(Add(a, c), Add(b, d))
  {
    hide Add;
    AddIsXor(a, b);
    AddIsXor(c, d);
    AddIsXor(a, c);
    AddIsXor(b, d);
    AddIsXor(Add(a, b), Add(c, d));
    AddIsXor(Add(a, c), Add(b, d));
    XorInterchange(Add(a, b), Add(c, d), Add(a, c), Add(b, d), a, b, c, d);
  }

  function Xtime(x: byte): byte {
    (x << 1) ^ (((x >> 7) & 1) * 0x1b)
  }

  /** Xtime is multiplication by x (section 4.2.1). */
  lemma XtimeIsTimesTwo(x: byte)
    ensures Xtime(x) == GMul(x, 2)
  {
  }

  lemma XtimeLinear(x: byte, y: byte)
    ensures Xtime(Add(x, y)) == Add(Xtime(x), Xtime(y))
  {
  }

  /** The Multiply macro: it looks at the low five bits of y only. */
  function Multiply(x: byte, y: byte): byte {
    ((y & 1) * x) ^
    (((y >> 1) & 1) * Xtime(x)) ^
    (((y >> 2) & 1) * Xtime(Xtime(x))) ^
    (((y >> 3) & 1) * Xtime(Xtime(Xtime(x)))) ^
    (((y >> 4) & 1) * Xtime(Xtime(Xtime(Xtime(x)))))
  }

  lemma MultiplyLow(x: byte, y: byte)
    requires y < 0x10
    ensures Multiply(x, y) == GMul(x, y)
  {
  }

  lemma MultiplyMiddle(x: byte, y: byte)
    requires 0x10 <= y < 0x18
    ensures Multiply(x, y) == GMul(x, y)
  {
  }

  lemma MultiplyHigh(x: byte, y: byte)
    requires 0x18 <= y < 0x20
    ensures Multiply(x, y) == GMul(x, y)
  {
  }

  /** Multiply is the product of the field for every x exactly when y has no bit above the fifth. */
  lemma MultiplyIsProductIff(y: byte)
    ensures (forall x: byte :: Multiply(x, y) == GMul(x, y)) <==> y < 0x20
  {
    hide Multiply, GMul;
    if y < 0x20 {
      forall x: byte ensures Multiply(x, y) == GMul(x, y) {
        if y < 0x10 {
          MultiplyLow(x, y);
        } else if y < 0x18 {
          MultiplyMiddle(x, y);
        } else {
          MultiplyHigh(x, y);
        }
      }
    } else {
      MultiplyOne(y);
    }
  }

  lemma MultiplyOne(y: byte)
    ensures Multiply(1, y) == y & 0x1f && GMul(1, y) == y
  {
  }
}
