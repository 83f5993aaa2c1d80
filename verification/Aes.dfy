/** The AES-128 block functions of src/crypto_ext.rs, as in section 5 of FIPS 197. */
module Aes {
  import opened Cipher
  import opened Columns
  import opened Polynomials

  // ----- The tables -----

  /** The substitution table: the row is the high half of the byte, the column the low half. */
  function Sbox(x: bv8): bv8 {
    match x >> 4
    case 0 => Sbox0(x & 0xf)
    case 1 => Sbox1(x & 0xf)
    case 2 => Sbox2(x & 0xf)
    case 3 => Sbox3(x & 0xf)
    case 4 => Sbox4(x & 0xf)
    case 5 => Sbox5(x & 0xf)
    case 6 => Sbox6(x & 0xf)
    case 7 => Sbox7(x & 0xf)
    case 8 => Sbox8(x & 0xf)
    case 9 => Sbox9(x & 0xf)
    case 10 => SboxA(x & 0xf)
    case 11 => SboxB(x & 0xf)
    case 12 => SboxC(x & 0xf)
    case 13 => SboxD(x & 0xf)
    case 14 => SboxE(x & 0xf)
    case _ => SboxF(x & 0xf)
  }

  function Sbox0(c: bv8): bv8 {
    match c
    case 0 => 0x63 case 1 => 0x7c case 2 => 0x77 case 3 => 0x7b case 4 => 0xf2 case 5 => 0x6b
    case 6 => 0x6f case 7 => 0xc5 case 8 => 0x30 case 9 => 0x01 case 10 => 0x67
    case 11 => 0x2b case 12 => 0xfe case 13 => 0xd7 case 14 => 0xab case _ => 0x76
  }

  function Sbox1(c: bv8): bv8 {
    match c
    case 0 => 0xca case 1 => 0x82 case 2 => 0xc9 case 3 => 0x7d case 4 => 0xfa case 5 => 0x59
    case 6 => 0x47 case 7 => 0xf0 case 8 => 0xad case 9 => 0xd4 case 10 => 0xa2
    case 11 => 0xaf case 12 => 0x9c case 13 => 0xa4 case 14 => 0x72 case _ => 0xc0
  }

  function Sbox2(c: bv8): bv8 {
    match c
    case 0 => 0xb7 case 1 => 0xfd case 2 => 0x93 case 3 => 0x26 case 4 => 0x36 case 5 => 0x3f
    case 6 => 0xf7 case 7 => 0xcc case 8 => 0x34 case 9 => 0xa5 case 10 => 0xe5
    case 11 => 0xf1 case 12 => 0x71 case 13 => 0xd8 case 14 => 0x31 case _ => 0x15
  }

  function Sbox3(c: bv8): bv8 {
    match c
    case 0 => 0x04 case 1 => 0xc7 case 2 => 0x23 case 3 => 0xc3 case 4 => 0x18 case 5 => 0x96
    case 6 => 0x05 case 7 => 0x9a case 8 => 0x07 case 9 => 0x12 case 10 => 0x80
    case 11 => 0xe2 case 12 => 0xeb case 13 => 0x27 case 14 => 0xb2 case _ => 0x75
  }

  function Sbox4(c: bv8): bv8 {
    match c
    case 0 => 0x09 case 1 => 0x83 case 2 => 0x2c case 3 => 0x1a case 4 => 0x1b case 5 => 0x6e
    case 6 => 0x5a case 7 => 0xa0 case 8 => 0x52 case 9 => 0x3b case 10 => 0xd6
    case 11 => 0xb3 case 12 => 0x29 case 13 => 0xe3 case 14 => 0x2f case _ => 0x84
  }

  function Sbox5(c: bv8): bv8 {
    match c
    case 0 => 0x53 case 1 => 0xd1 case 2 => 0x00 case 3 => 0xed case 4 => 0x20 case 5 => 0xfc
    case 6 => 0xb1 case 7 => 0x5b case 8 => 0x6a case 9 => 0xcb case 10 => 0xbe
    case 11 => 0x39 case 12 => 0x4a case 13 => 0x4c case 14 => 0x58 case _ => 0xcf
  }

  function Sbox6(c: bv8): bv8 {
    match c
    case 0 => 0xd0 case 1 => 0xef case 2 => 0xaa case 3 => 0xfb case 4 => 0x43 case 5 => 0x4d
    case 6 => 0x33 case 7 => 0x85 case 8 => 0x45 case 9 => 0xf9 case 10 => 0x02
    case 11 => 0x7f case 12 => 0x50 case 13 => 0x3c case 14 => 0x9f case _ => 0xa8
  }

  function Sbox7(c: bv8): bv8 {
    match c
    case 0 => 0x51 case 1 => 0xa3 case 2 => 0x40 case 3 => 0x8f case 4 => 0x92 case 5 => 0x9d
    case 6 => 0x38 case 7 => 0xf5 case 8 => 0xbc case 9 => 0xb6 case 10 => 0xda
    case 11 => 0x21 case 12 => 0x10 case 13 => 0xff case 14 => 0xf3 case _ => 0xd2
  }

  function Sbox8(c: bv8): bv8 {
    match c
    case 0 => 0xcd case 1 => 0x0c case 2 => 0x13 case 3 => 0xec case 4 => 0x5f case 5 => 0x97
    case 6 => 0x44 case 7 => 0x17 case 8 => 0xc4 case 9 => 0xa7 case 10 => 0x7e
    case 11 => 0x3d case 12 => 0x64 case 13 => 0x5d case 14 => 0x19 case _ => 0x73
  }

  function Sbox9(c: bv8): bv8 {
    match c
    case 0 => 0x60 case 1 => 0x81 case 2 => 0x4f case 3 => 0xdc case 4 => 0x22 case 5 => 0x2a
    case 6 => 0x90 case 7 => 0x88 case 8 => 0x46 case 9 => 0xee case 10 => 0xb8
    case 11 => 0x14 case 12 => 0xde case 13 => 0x5e case 14 => 0x0b case _ => 0xdb
  }

  function SboxA(c: bv8): bv8 {
    match c
    case 0 => 0xe0 case 1 => 0x32 case 2 => 0x3a case 3 => 0x0a case 4 => 0x49 case 5 => 0x06
    case 6 => 0x24 case 7 => 0x5c case 8 => 0xc2 case 9 => 0xd3 case 10 => 0xac
    case 11 => 0x62 case 12 => 0x91 case 13 => 0x95 case 14 => 0xe4 case _ => 0x79
  }

  function SboxB(c: bv8): bv8 {
    match c
    case 0 => 0xe7 case 1 => 0xc8 case 2 => 0x37 case 3 => 0x6d case 4 => 0x8d case 5 => 0xd5
    case 6 => 0x4e case 7 => 0xa9 case 8 => 0x6c case 9 => 0x56 case 10 => 0xf4
    case 11 => 0xea case 12 => 0x65 case 13 => 0x7a case 14 => 0xae case _ => 0x08
  }

  function SboxC(c: bv8): bv8 {
    match c
    case 0 => 0xba case 1 => 0x78 case 2 => 0x25 case 3 => 0x2e case 4 => 0x1c case 5 => 0xa6
    case 6 => 0xb4 case 7 => 0xc6 case 8 => 0xe8 case 9 => 0xdd case 10 => 0x74
    case 11 => 0x1f case 12 => 0x4b case 13 => 0xbd case 14 => 0x8b case _ => 0x8a
  }

  function SboxD(c: bv8): bv8 {
    match c
    case 0 => 0x70 case 1 => 0x3e case 2 => 0xb5 case 3 => 0x66 case 4 => 0x48 case 5 => 0x03
    case 6 => 0xf6 case 7 => 0x0e case 8 => 0x61 case 9 => 0x35 case 10 => 0x57
    case 11 => 0xb9 case 12 => 0x86 case 13 => 0xc1 case 14 => 0x1d case _ => 0x9e
  }

  function SboxE(c: bv8): bv8 {
    match c
    case 0 => 0xe1 case 1 => 0xf8 case 2 => 0x98 case 3 => 0x11 case 4 => 0x69 case 5 => 0xd9
    case 6 => 0x8e case 7 => 0x94 case 8 => 0x9b case 9 => 0x1e case 10 => 0x87
    case 11 => 0xe9 case 12 => 0xce case 13 => 0x55 case 14 => 0x28 case _ => 0xdf
  }

  function SboxF(c: bv8): bv8 {
    match c
    case 0 => 0x8c case 1 => 0xa1 case 2 => 0x89 case 3 => 0x0d case 4 => 0xbf case 5 => 0xe6
    case 6 => 0x42 case 7 => 0x68 case 8 => 0x41 case 9 => 0x99 case 10 => 0x2d
    case 11 => 0x0f case 12 => 0xb0 case 13 => 0x54 case 14 => 0xbb case _ => 0x16
  }

  /** The inverse substitution table. */
  function InvSbox(x: bv8): bv8 {
    match x >> 4
    case 0 => InvSbox0(x & 0xf)
    case 1 => InvSbox1(x & 0xf)
    case 2 => InvSbox2(x & 0xf)
    case 3 => InvSbox3(x & 0xf)
    case 4 => InvSbox4(x & 0xf)
    case 5 => InvSbox5(x & 0xf)
    case 6 => InvSbox6(x & 0xf)
    case 7 => InvSbox7(x & 0xf)
    case 8 => InvSbox8(x & 0xf)
    case 9 => InvSbox9(x & 0xf)
    case 10 => InvSboxA(x & 0xf)
    case 11 => InvSboxB(x & 0xf)
    case 12 => InvSboxC(x & 0xf)
    case 13 => InvSboxD(x & 0xf)
    case 14 => InvSboxE(x & 0xf)
    case _ => InvSboxF(x & 0xf)
  }

  function InvSbox0(c: bv8): bv8 {
    match c
    case 0 => 0x52 case 1 => 0x09 case 2 => 0x6a case 3 => 0xd5 case 4 => 0x30 case 5 => 0x36
    case 6 => 0xa5 case 7 => 0x38 case 8 => 0xbf case 9 => 0x40 case 10 => 0xa3
    case 11 => 0x9e case 12 => 0x81 case 13 => 0xf3 case 14 => 0xd7 case _ => 0xfb
  }

  function InvSbox1(c: bv8): bv8 {
    match c
    case 0 => 0x7c case 1 => 0xe3 case 2 => 0x39 case 3 => 0x82 case 4 => 0x9b case 5 => 0x2f
    case 6 => 0xff case 7 => 0x87 case 8 => 0x34 case 9 => 0x8e case 10 => 0x43
    case 11 => 0x44 case 12 => 0xc4 case 13 => 0xde case 14 => 0xe9 case _ => 0xcb
  }

  function InvSbox2(c: bv8): bv8 {
    match c
    case 0 => 0x54 case 1 => 0x7b case 2 => 0x94 case 3 => 0x32 case 4 => 0xa6 case 5 => 0xc2
    case 6 => 0x23 case 7 => 0x3d case 8 => 0xee case 9 => 0x4c case 10 => 0x95
    case 11 => 0x0b case 12 => 0x42 case 13 => 0xfa case 14 => 0xc3 case _ => 0x4e
  }

  function InvSbox3(c: bv8): bv8 {
    match c
    case 0 => 0x08 case 1 => 0x2e case 2 => 0xa1 case 3 => 0x66 case 4 => 0x28 case 5 => 0xd9
    case 6 => 0x24 case 7 => 0xb2 case 8 => 0x76 case 9 => 0x5b case 10 => 0xa2
    case 11 => 0x49 case 12 => 0x6d case 13 => 0x8b case 14 => 0xd1 case _ => 0x25
  }

  function InvSbox4(c: bv8): bv8 {
    match c
    case 0 => 0x72 case 1 => 0xf8 case 2 => 0xf6 case 3 => 0x64 case 4 => 0x86 case 5 => 0x68
    case 6 => 0x98 case 7 => 0x16 case 8 => 0xd4 case 9 => 0xa4 case 10 => 0x5c
    case 11 => 0xcc case 12 => 0x5d case 13 => 0x65 case 14 => 0xb6 case _ => 0x92
  }

  function InvSbox5(c: bv8): bv8 {
    match c
    case 0 => 0x6c case 1 => 0x70 case 2 => 0x48 case 3 => 0x50 case 4 => 0xfd case 5 => 0xed
    case 6 => 0xb9 case 7 => 0xda case 8 => 0x5e case 9 => 0x15 case 10 => 0x46
    case 11 => 0x57 case 12 => 0xa7 case 13 => 0x8d case 14 => 0x9d case _ => 0x84
  }

  function InvSbox6(c: bv8): bv8 {
    match c
    case 0 => 0x90 case 1 => 0xd8 case 2 => 0xab case 3 => 0x00 case 4 => 0x8c case 5 => 0xbc
    case 6 => 0xd3 case 7 => 0x0a case 8 => 0xf7 case 9 => 0xe4 case 10 => 0x58
    case 11 => 0x05 case 12 => 0xb8 case 13 => 0xb3 case 14 => 0x45 case _ => 0x06
  }

  function InvSbox7(c: bv8): bv8 {
    match c
    case 0 => 0xd0 case 1 => 0x2c case 2 => 0x1e case 3 => 0x8f case 4 => 0xca case 5 => 0x3f
    case 6 => 0x0f case 7 => 0x02 case 8 => 0xc1 case 9 => 0xaf case 10 => 0xbd
    case 11 => 0x03 case 12 => 0x01 case 13 => 0x13 case 14 => 0x8a case _ => 0x6b
  }

  function InvSbox8(c: bv8): bv8 {
    match c
    case 0 => 0x3a case 1 => 0x91 case 2 => 0x11 case 3 => 0x41 case 4 => 0x4f case 5 => 0x67
    case 6 => 0xdc case 7 => 0xea case 8 => 0x97 case 9 => 0xf2 case 10 => 0xcf
    case 11 => 0xce case 12 => 0xf0 case 13 => 0xb4 case 14 => 0xe6 case _ => 0x73
  }

  function InvSbox9(c: bv8): bv8 {
    match c
    case 0 => 0x96 case 1 => 0xac case 2 => 0x74 case 3 => 0x22 case 4 => 0xe7 case 5 => 0xad
    case 6 => 0x35 case 7 => 0x85 case 8 => 0xe2 case 9 => 0xf9 case 10 => 0x37
    case 11 => 0xe8 case 12 => 0x1c case 13 => 0x75 case 14 => 0xdf case _ => 0x6e
  }

  function InvSboxA(c: bv8): bv8 {
    match c
    case 0 => 0x47 case 1 => 0xf1 case 2 => 0x1a case 3 => 0x71 case 4 => 0x1d case 5 => 0x29
    case 6 => 0xc5 case 7 => 0x89 case 8 => 0x6f case 9 => 0xb7 case 10 => 0x62
    case 11 => 0x0e case 12 => 0xaa case 13 => 0x18 case 14 => 0xbe case _ => 0x1b
  }

  function InvSboxB(c: bv8): bv8 {
    match c
    case 0 => 0xfc case 1 => 0x56 case 2 => 0x3e case 3 => 0x4b case 4 => 0xc6 case 5 => 0xd2
    case 6 => 0x79 case 7 => 0x20 case 8 => 0x9a case 9 => 0xdb case 10 => 0xc0
    case 11 => 0xfe case 12 => 0x78 case 13 => 0xcd case 14 => 0x5a case _ => 0xf4
  }

  function InvSboxC(c: bv8): bv8 {
    match c
    case 0 => 0x1f case 1 => 0xdd case 2 => 0xa8 case 3 => 0x33 case 4 => 0x88 case 5 => 0x07
    case 6 => 0xc7 case 7 => 0x31 case 8 => 0xb1 case 9 => 0x12 case 10 => 0x10
    case 11 => 0x59 case 12 => 0x27 case 13 => 0x80 case 14 => 0xec case _ => 0x5f
  }

  function InvSboxD(c: bv8): bv8 {
    match c
    case 0 => 0x60 case 1 => 0x51 case 2 => 0x7f case 3 => 0xa9 case 4 => 0x19 case 5 => 0xb5
    case 6 => 0x4a case 7 => 0x0d case 8 => 0x2d case 9 => 0xe5 case 10 => 0x7a
    case 11 => 0x9f case 12 => 0x93 case 13 => 0xc9 case 14 => 0x9c case _ => 0xef
  }

  function InvSboxE(c: bv8): bv8 {
    match c
    case 0 => 0xa0 case 1 => 0xe0 case 2 => 0x3b case 3 => 0x4d case 4 => 0xae case 5 => 0x2a
    case 6 => 0xf5 case 7 => 0xb0 case 8 => 0xc8 case 9 => 0xeb case 10 => 0xbb
    case 11 => 0x3c case 12 => 0x83 case 13 => 0x53 case 14 => 0x99 case _ => 0x61
  }

  function InvSboxF(c: bv8): bv8 {
    match c
    case 0 => 0x17 case 1 => 0x2b case 2 => 0x04 case 3 => 0x7e case 4 => 0xba case 5 => 0x77
    case 6 => 0xd6 case 7 => 0x26 case 8 => 0xe1 case 9 => 0x69 case 10 => 0x14
    case 11 => 0x63 case 12 => 0x55 case 13 => 0x21 case 14 => 0x0c case _ => 0x7d
  }

  lemma InvSboxOfSbox(x: bv8)
    ensures InvSbox(Sbox(x)) == x
  {
  }

  lemma SboxOfInvSbox(x: bv8)
    ensures Sbox(InvSbox(x)) == x
  {
  }

  // ----- Multiplication in GF(2^8) -----

  /** Multiplication by x modulo the AES polynomial. */
  function Xtime(a: bv8): bv8 {
    (a << 1) ^ (if a & 0x80 != 0 then 0x1b else 0)
  }

  function XorOf(p: bv8, q: bv8): bv8 {
    p ^ q
  }

  /** Bytes as remainders of polynomials over GF(2) modulo the AES polynomial. */
  function Remainders(): Space<bv8> {
    Space(0, XorOf, Xtime)
  }

  function Mul(a: bv8, b: bv8): bv8 {
    ShiftAdd(Remainders(), a, b)
  }

  lemma XorComm(p: bv8, q: bv8)
    ensures XorOf(p, q) == XorOf(q, p)
  {
  }

  lemma XorAssoc(p: bv8, q: bv8, r: bv8)
    ensures XorOf(XorOf(p, q), r) == XorOf(p, XorOf(q, r))
  {
  }

  lemma XorZero(p: bv8)
    ensures XorOf(0, p) == p && XorOf(p, 0) == p
  {
  }

  lemma XorCancel(p: bv8, q: bv8)
    ensures XorOf(p, XorOf(p, q)) == q
  {
  }

  lemma ShiftXor(a: bv8, b: bv8)
    ensures (a ^ b) << 1 == (a << 1) ^ (b << 1)
  {
  }

  lemma TopXor(a: bv8, b: bv8)
    ensures (a ^ b) & 0x80 == (a & 0x80) ^ (b & 0x80)
  {
  }

  lemma TopCases(a: bv8)
    ensures a & 0x80 == 0 || a & 0x80 == 0x80
  {
  }

  lemma XorExchange(p: bv8, q: bv8, r: bv8, t: bv8)
    ensures (p ^ q) ^ (r ^ t) == (p ^ r) ^ (q ^ t)
  {
  }

  lemma XtimeXor(a: bv8, b: bv8)
    ensures Xtime(a ^ b) == Xtime(a) ^ Xtime(b)
  {
    ShiftXor(a, b);
    TopXor(a, b);
    TopCases(a);
    TopCases(b);
    XorExchange(a << 1, if a & 0x80 != 0 then 0x1b else 0, b << 1, if b & 0x80 != 0 then 0x1b else 0);
  }

  lemma XtimeLinear(a: bv8, b: bv8)
    ensures Xtime(XorOf(a, b)) == XorOf(Xtime(a), Xtime(b))
  {
    XtimeXor(a, b);
  }

  lemma RemaindersLaws()
    ensures Laws(Remainders())
  {
    var v := Remainders();
    forall p: bv8 ensures ZeroAt(v, p) {
      XorZero(p);
    }
    forall p: bv8, q: bv8, r: bv8 ensures AssocAt(v, p, q, r) {
      XorAssoc(p, q, r);
    }
    forall p: bv8, q: bv8 ensures CommAt(v, p, q) && LinearAt(v, p, q) {
      XorComm(p, q);
      XtimeLinear(p, q);
    }
  }

  // ----- The product is the remainder of the product of polynomials -----

  function XorWide(p: bv16, q: bv16): bv16 {
    p ^ q
  }

  function ShiftWide(p: bv16): bv16 {
    p << 1
  }

  /** Polynomials over GF(2) of degree up to 15. */
  function Wide(): Space<bv16> {
    Space(0, XorWide, ShiftWide)
  }

  /** The product of two polynomials of degree up to 7. */
  function Product(a: bv8, b: bv8): bv16 {
    ShiftAdd(Wide(), Widened(a), b)
  }

  /** The product by the AES polynomial, for a factor of degree up to 7. */
  function Multiple(q: bv16): bv16 {
    MultipleOf(Wide(), q)
  }

  lemma ShiftsIs(q: bv16)
    ensures q << 1 << 1 << 1 == q << 3 && q << 3 << 1 == q << 4 && q << 4 << 1 << 1 << 1 << 1 == q << 8
  {
  }

  lemma DoubledWide(q: bv16)
    ensures Doubled(Wide(), q, 3) == q << 3 && Doubled(Wide(), q, 4) == q << 4 && Doubled(Wide(), q, 8) == q << 8
  {
    DoubledIs(Wide(), q);
    ShiftsIs(q);
  }

  lemma MultipleIs(q: bv16)
    ensures Multiple(q) == XorWide(q << 8, XorWide(q << 4, XorWide(q << 3, XorWide(q << 1, q))))
  {
    DoubledWide(q);
  }

  function SelfOrZero(r: bv8): bv16 {
    if r & 0x80 != 0 then 1 else 0
  }

  function Widened(r: bv8): bv16 {
    r as bv16
  }

  /** Factors of degree below i, for i up to 7. */
  predicate Small(i: nat, q: bv16) {
    match i
    case 0 => q < 1
    case 1 => q < 2
    case 2 => q < 4
    case 3 => q < 8
    case 4 => q < 0x10
    case 5 => q < 0x20
    case 6 => q < 0x40
    case _ => q < 0x80
  }

  /** Division by the AES polynomial. */
  function ByAes(): Division<bv16, bv16, bv8> {
    Division(Wide(), Wide(), Remainders(), Multiple, Widened, SelfOrZero, Small)
  }

  lemma WideLaw(p: bv16, q: bv16, r: bv16)
    ensures XorWide(XorWide(p, q), r) == XorWide(p, XorWide(q, r)) && XorWide(p, q) == XorWide(q, p)
    ensures XorWide(0, p) == p == XorWide(p, 0)
  {
  }

  lemma ShiftWideXor(p: bv16, q: bv16)
    ensures ShiftWide(XorWide(p, q)) == XorWide(ShiftWide(p), ShiftWide(q))
  {
  }

  lemma WideLaws()
    ensures Laws(Wide())
  {
    forall p: bv16, q: bv16, r: bv16
      ensures ZeroAt(Wide(), p) && AssocAt(Wide(), p, q, r) && CommAt(Wide(), p, q) && LinearAt(Wide(), p, q)
    {
      WideLaw(p, q, r);
      ShiftWideXor(p, q);
    }
  }

  lemma WidenedXor(r: bv8, t: bv8)
    ensures Widened(XorOf(r, t)) == XorWide(Widened(r), Widened(t))
  {
  }

  lemma WidenedShift(r: bv8)
    ensures ShiftWide(Widened(r)) == XorWide(Multiple(SelfOrZero(r)), Widened(Xtime(r)))
  {
    MultipleIs(SelfOrZero(r));
  }

  lemma SmallGrows(i: nat, q: bv16, r: bv8)
    requires i < 7 && Small(i, q)
    ensures Small(i + 1, XorWide(ShiftWide(q), SelfOrZero(r)))
  {
  }

  lemma SmallJoins(i: nat, q: bv16, q': bv16)
    requires i <= 7 && Small(i, q) && Small(7, q')
    ensures Small(7, XorWide(q, q'))
  {
    assert q < 0x80 && q' < 0x80;
  }

  lemma AesDivides()
    ensures Divides(ByAes())
  {
    var d := ByAes();
    WideLaws();
    forall q: bv16, q': bv16 ensures MultipleAt(d, q, q') {
      MultipleSum(Wide(), q, q');
      MultipleDouble(Wide(), q);
    }
    forall r: bv8, r': bv8 ensures EmbedAt(d, r, r') {
      WidenedXor(r, r');
      WidenedShift(r);
    }
    forall i: nat, q: bv16, r: bv8 | i < 7 ensures GrowsAt(d, i, q, r) {
      if Small(i, q) {
        SmallGrows(i, q, r);
      }
    }
    forall i: nat, q: bv16, q': bv16 | i <= 7 ensures JoinsAt(d, i, q, q') {
      if Small(i, q) && Small(7, q') {
        SmallJoins(i, q, q');
      }
    }
    assert ZeroIsMultiple(d);
  }

  /** The product of bytes is the remainder of the product of polynomials by the AES polynomial. */
  lemma MulIsRemainder(a: bv8, b: bv8)
    ensures Leaves(ByAes(), 7, Product(a, b), Mul(a, b))
  {
    AesDivides();
    LeavesItself(ByAes(), a);
    AllBelowEight(b);
    ProductLeaves(ByAes(), 0, 8, Widened(a), a, b);
  }

  lemma LowMultiple(q: bv16)
    requires q < 0x80 && XorWide(q << 8, XorWide(q << 4, XorWide(q << 3, XorWide(q << 1, q)))) < 0x100
    ensures q == 0
  {
  }

  lemma ZeroMultiple(q: bv16)
    requires Small(7, q) && Multiple(q) < 0x100
    ensures q == 0
  {
    MultipleIs(q);
    LowMultiple(q);
  }

  lemma WidenedIsSmall(r: bv8, r': bv8)
    ensures Widened(r) < 0x100 && (Widened(r) == Widened(r') ==> r == r')
  {
  }

  lemma WideCancel(p: bv16, q: bv16)
    ensures XorWide(p, XorWide(p, q)) == q
  {
  }

  /** A polynomial leaves one remainder. */
  lemma OneRemainder(p: bv16, r: bv8, r': bv8)
    requires Leaves(ByAes(), 7, p, r) && Leaves(ByAes(), 7, p, r')
    ensures r == r'
  {
    AesDivides();
    forall s: bv16, t: bv16 ensures CancelAt(Wide(), s, t) {
      WideCancel(s, t);
    }
    forall q: bv16, t: bv8, t': bv8 ensures SeparateAt(ByAes(), q, t, t') {
      WidenedIsSmall(t, t');
      if Small(7, q) && Multiple(q) == Widened(t) {
        ZeroMultiple(q);
      }
    }
    LeavesOne(ByAes(), p, r, r');
  }

  /** `gmul`: the remainder of the product of two polynomials by the AES polynomial. */
  method Gmul(a: bv8, b: bv8) returns (p: bv8)
    ensures p == Mul(a, b) && Leaves(ByAes(), 7, Product(a, b), p)
  {
    RemaindersLaws();
    p := ShiftAddLoop(Remainders(), a, b);
    MulIsRemainder(a, b);
  }

  // ----- The constant products -----

  function LowBit(a: bv8, b: bv8): bv8 {
    if b & 1 != 0 then a else 0
  }

  /** The eight steps without function values. */
  function Direct(a: bv8, b: bv8): bv8 {
    var a1 := Xtime(a);
    var a2 := Xtime(a1);
    var a3 := Xtime(a2);
    var a4 := Xtime(a3);
    var a5 := Xtime(a4);
    var a6 := Xtime(a5);
    var a7 := Xtime(a6);
    XorOf(LowBit(a, b), XorOf(LowBit(a1, b >> 1), XorOf(LowBit(a2, b >> 2), XorOf(LowBit(a3, b >> 3),
    XorOf(LowBit(a4, b >> 4), XorOf(LowBit(a5, b >> 5), XorOf(LowBit(a6, b >> 6),
    XorOf(LowBit(a7, b >> 7), 0))))))))
  }

  lemma MulIsDirect(a: bv8, b: bv8)
    ensures Mul(a, b) == Direct(a, b)
  {
    RemaindersLaws();
    UnrolledIs(Remainders(), a, b);
  }

  lemma DirectOfOne(s: bv8)
    ensures Direct(1, s) == s
  {
  }

  /** The products of the column mixes. */
  lemma MulOf(s: bv8, x: bv8, y: bv8, z: bv8)
    requires x == Xtime(s) && y == Xtime(x) && z == Xtime(y)
    ensures Mul(2, s) == x && Mul(3, s) == XorOf(x, s) && Mul(9, s) == XorOf(z, s)
    ensures Mul(11, s) == XorOf(z, XorOf(x, s)) && Mul(13, s) == XorOf(z, XorOf(y, s))
    ensures Mul(14, s) == XorOf(z, XorOf(y, x))
  {
    RemaindersLaws();
    MulIsDirect(1, s);
    DirectOfOne(s);
    SmallProducts(Remainders(), 1, s, s);
    ConstantsOfX();
  }

  lemma ConstantsOfX()
    ensures Xtime(1) == 2 && Xtime(2) == 4 && Xtime(4) == 8
    ensures XorOf(2, 1) == 3 && XorOf(8, 1) == 9 && XorOf(8, XorOf(2, 1)) == 11
    ensures XorOf(8, XorOf(4, 1)) == 13 && XorOf(8, XorOf(4, 2)) == 14
  {
  }

  /** The product by one of the constants of the column mixes. */
  function Times(k: nat, s: bv8): bv8 {
    match k
    case 2 => Mul(2, s)
    case 3 => Mul(3, s)
    case 9 => Mul(9, s)
    case 11 => Mul(11, s)
    case 13 => Mul(13, s)
    case _ => Mul(14, s)
  }

  function Bytes(): Field<bv8> {
    Field(Remainders(), Times)
  }

  /** Bytes under exclusive or satisfy what the column mixes need. */
  lemma BytesLaws()
    ensures Mixes(Bytes())
  {
    RemaindersLaws();
    forall p: bv8, q: bv8 ensures CancelAt(Remainders(), p, q) {
      XorCancel(p, q);
    }
    forall s: bv8 ensures ProductsAt(Bytes(), s) {
      MulOf(s, Xtime(s), Xtime(Xtime(s)), Xtime(Xtime(Xtime(s))));
    }
  }

  // ----- The substitution table is an inverse in the field and an affine map -----

  function Affine(y: bv8): bv8 {
    y ^ y.RotateLeft(1) ^ y.RotateLeft(2) ^ y.RotateLeft(3) ^ y.RotateLeft(4) ^ 0x63
  }

  function AffineInverse(z: bv8): bv8 {
    var y := z ^ 0x63;
    y.RotateLeft(1) ^ y.RotateLeft(3) ^ y.RotateLeft(6)
  }

  lemma AffineOfInverse(z: bv8)
    ensures Affine(AffineInverse(z)) == z
  {
  }

  lemma SboxQuarter0(x: bv8, y: bv8)
    requires x >> 6 == 0 && x != 0 && Sbox(x) == Affine(y)
    ensures Direct(y, x) == 1
  {
  }

  lemma SboxQuarter1(x: bv8, y: bv8)
    requires x >> 6 == 1 && x != 0 && Sbox(x) == Affine(y)
    ensures Direct(y, x) == 1
  {
  }

  lemma SboxQuarter2(x: bv8, y: bv8)
    requires x >> 6 == 2 && x != 0 && Sbox(x) == Affine(y)
    ensures Direct(y, x) == 1
  {
  }

  lemma SboxQuarter3(x: bv8, y: bv8)
    requires x >> 6 == 3 && x != 0 && Sbox(x) == Affine(y)
    ensures Direct(y, x) == 1
  {
  }

  lemma QuarterCases(x: bv8)
    ensures x >> 6 == 0 || x >> 6 == 1 || x >> 6 == 2 || x >> 6 == 3
  {
  }

  /** The table holds the affine image of the field inverse, and of zero for zero. */
  lemma SboxIsAffineOfInverse(x: bv8) returns (y: bv8)
    ensures Sbox(x) == Affine(y)
    ensures if x == 0 then y == 0 else Mul(y, x) == 1
  {
    y := AffineInverse(Sbox(x));
    AffineOfInverse(Sbox(x));
    if x == 0 {
      assert Sbox(0) == 0x63;
    } else {
      MulIsDirect(y, x);
      QuarterCases(x);
      if x >> 6 == 0 {
        SboxQuarter0(x, y);
      } else if x >> 6 == 1 {
        SboxQuarter1(x, y);
      } else if x >> 6 == 2 {
        SboxQuarter2(x, y);
      } else {
        SboxQuarter3(x, y);
      }
    }
  }

  // ----- The block cipher -----

  function Suite128(): Suite<bv8> {
    Suite(Bytes(), Sbox, InvSbox)
  }

  lemma Suite128Sound()
    ensures Sound(Suite128())
  {
    BytesLaws();
    forall x: bv8 ensures InverseAt(Suite128(), x) {
      InvSboxOfSbox(x);
    }
  }

  const RCON: seq<bv8> := [0x00, 0x01, 0x02, 0x04, 0x08, 0x10, 0x20, 0x40, 0x80, 0x1b, 0x36]

  /** The round constants are the powers of x. */
  lemma RconDoubles(i: nat)
    requires 1 <= i < 10
    ensures RCON[1] == 1 && RCON[i + 1] == Xtime(RCON[i])
  {
  }

  method Encrypt(block: seq<bv8>, key: seq<bv8>) returns (out: seq<bv8>)
    requires |block| == 16 && |key| == 16
    ensures out == Encrypted(Suite128(), block, Keys(Suite128(), key, RCON))
  {
    out := EncryptBlock(Suite128(), block, key, RCON);
  }

  method Decrypt(block: seq<bv8>, key: seq<bv8>) returns (out: seq<bv8>)
    requires |block| == 16 && |key| == 16
    ensures out == Decrypted(Suite128(), block, Keys(Suite128(), key, RCON))
  {
    out := DecryptBlock(Suite128(), block, key, RCON);
  }

  /** Decrypting an encrypted block gives back the block, for every block and key. */
  lemma RoundTrip(block: seq<bv8>, key: seq<bv8>)
    requires |block| == 16 && |key| == 16
    ensures var keys := Keys(Suite128(), key, RCON);
            Decrypted(Suite128(), Encrypted(Suite128(), block, keys), keys) == block
  {
    Suite128Sound();
    DecryptedBack(Suite128(), block, Keys(Suite128(), key, RCON));
  }

  /** Two keys with the same last round key are the same key. */
  lemma LastRoundKeyDetermines(k: seq<bv8>, l: seq<bv8>)
    requires |k| == 16 && |l| == 16 && RoundKey(Suite128(), k, RCON, 10) == RoundKey(Suite128(), l, RCON, 10)
    ensures k == l
  {
    BytesLaws();
    RoundKeyInjective(Suite128(), k, l, RCON, 10);
  }
}
