/** Bytes as numbers: what a store of a C integer type keeps and a load brings back. */
module Bytes {
  /** The lowest binary digit of a number, and the others. */
  function Low(m: int): (d: int)
    ensures 0 <= d <= 1
  {
    m % 2
  }

  function Half(m: int): int {
    m / 2
  }

  function One(d: int, mask: bv8): bv8 {
    if d == 1 then mask else 0
  }

  function Join(d0: int, d1: int, d2: int, d3: int, d4: int, d5: int, d6: int, d7: int): bv8 {
    One(d0, 1) | One(d1, 2) | One(d2, 4) | One(d3, 8) | One(d4, 16) | One(d5, 32) | One(d6, 64) | One(d7, 128)
  }

  /** The byte of value `m`, bit by bit. */
  function ToByte(m: int): bv8 {
    var m1 := Half(m);
    var m2 := Half(m1);
    var m3 := Half(m2);
    var m4 := Half(m3);
    var m5 := Half(m4);
    var m6 := Half(m5);
    var m7 := Half(m6);
    Join(Low(m), Low(m1), Low(m2), Low(m3), Low(m4), Low(m5), Low(m6), Low(m7))
  }

  function Digit(b: bv8, mask: bv8): int {
    if b & mask != 0 then 1 else 0
  }

  /** The value of a byte. */
  function OfByte(b: bv8): int {
    Digit(b, 1) + 2 * Digit(b, 2) + 4 * Digit(b, 4) + 8 * Digit(b, 8)
    + 16 * Digit(b, 16) + 32 * Digit(b, 32) + 64 * Digit(b, 64) + 128 * Digit(b, 128)
  }

  predicate Binary(d: int) {
    0 <= d <= 1
  }

  lemma JoinDigits(d0: int, d1: int, d2: int, d3: int, d4: int, d5: int, d6: int, d7: int)
    requires Binary(d0) && Binary(d1) && Binary(d2) && Binary(d3) && Binary(d4) && Binary(d5) && Binary(d6)
             && Binary(d7)
    ensures var b := Join(d0, d1, d2, d3, d4, d5, d6, d7);
            && Digit(b, 1) == d0 && Digit(b, 2) == d1 && Digit(b, 4) == d2 && Digit(b, 8) == d3
            && Digit(b, 16) == d4 && Digit(b, 32) == d5 && Digit(b, 64) == d6 && Digit(b, 128) == d7
  {
  }

  lemma Halve(m: int, k: int)
    requires 0 <= m < 2 * k
    ensures m == 2 * Half(m) + Low(m) && 0 <= Half(m) < k
  {
  }

  /** A number below 256 survives being stored in a byte. */
  lemma ToAndOfByte(m: int)
    requires 0 <= m < 256
    ensures OfByte(ToByte(m)) == m
  {
    hide Low, Half, Join, Digit;
    var m1 := Half(m);
    var m2 := Half(m1);
    var m3 := Half(m2);
    var m4 := Half(m3);
    var m5 := Half(m4);
    var m6 := Half(m5);
    var m7 := Half(m6);
    JoinDigits(Low(m), Low(m1), Low(m2), Low(m3), Low(m4), Low(m5), Low(m6), Low(m7));
    Halve(m, 128);
    Halve(m1, 64);
    Halve(m2, 32);
    Halve(m3, 16);
    Halve(m4, 8);
    Halve(m5, 4);
    Halve(m6, 2);
    Halve(m7, 1);
  }
}
