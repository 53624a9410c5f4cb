// Signed integers of 32 and of 64 bits that wrap around.
module Wrapping {

  function Wrap32(x: int): (w: int)
    ensures -0x8000_0000 <= w < 0x8000_0000
  {
    (x + 0x8000_0000) % 0x1_0000_0000 - 0x8000_0000
  }

  function Wrap64(x: int): (w: int)
    ensures -0x8000_0000_0000_0000 <= w < 0x8000_0000_0000_0000
  {
    (x + 0x8000_0000_0000_0000) % 0x1_0000_0000_0000_0000 - 0x8000_0000_0000_0000
  }

  // How often x has gone round.
  lemma Turns32(x: int) returns (k: int)
    ensures x == Wrap32(x) + 0x1_0000_0000 * k
  {
    k := (x + 0x8000_0000) / 0x1_0000_0000;
  }

  lemma Turns64(x: int) returns (k: int)
    ensures x == Wrap64(x) + 0x1_0000_0000_0000_0000 * k
  {
    k := (x + 0x8000_0000_0000_0000) / 0x1_0000_0000_0000_0000;
  }

  lemma Same32(x: int, w: int, k: int)
    requires x == w + 0x1_0000_0000 * k && -0x8000_0000 <= w < 0x8000_0000
    ensures Wrap32(x) == w
  {
    var j := Turns32(x);
    hide Wrap32;
    assert Wrap32(x) - w == 0x1_0000_0000 * (k - j);
  }

  lemma Same64(x: int, w: int, k: int)
    requires x == w + 0x1_0000_0000_0000_0000 * k && -0x8000_0000_0000_0000 <= w < 0x8000_0000_0000_0000
    ensures Wrap64(x) == w
  {
    var j := Turns64(x);
    hide Wrap64;
    assert Wrap64(x) - w == 0x1_0000_0000_0000_0000 * (k - j);
  }

  // Numbers that differ by whole turns wrap to the same.
  lemma Congruent32(x: int, y: int, k: int)
    requires x == y + 0x1_0000_0000 * k
    ensures Wrap32(x) == Wrap32(y)
  {
    hide Wrap32;
    var j := Turns32(y);
    Same32(x, Wrap32(y), j + k);
  }

  lemma Congruent64(x: int, y: int, k: int)
    requires x == y + 0x1_0000_0000_0000_0000 * k
    ensures Wrap64(x) == Wrap64(y)
  {
    hide Wrap64;
    var j := Turns64(y);
    Same64(x, Wrap64(y), j + k);
  }

  // A wrapped number can stand for the number in further steps.
  lemma WrapDigit32(v: int, d: int)
    ensures Wrap32(Wrap32(v) * 10 + d) == Wrap32(v * 10 + d)
  {
    hide Wrap32;
    var k := Turns32(v);
    Congruent32(v * 10 + d, Wrap32(v) * 10 + d, k * 10);
  }

  lemma WrapPlus32(v: int, d: int)
    ensures Wrap32(Wrap32(v) + d) == Wrap32(v + d)
  {
    hide Wrap32;
    var k := Turns32(v);
    Congruent32(v + d, Wrap32(v) + d, k);
  }

  lemma WrapDigit64(v: int, d: int)
    ensures Wrap64(Wrap64(v) * 10 + d) == Wrap64(v * 10 + d)
  {
    hide Wrap64;
    var k := Turns64(v);
    Congruent64(v * 10 + d, Wrap64(v) * 10 + d, k * 10);
  }

  lemma WrapPlus64(v: int, d: int)
    ensures Wrap64(Wrap64(v) + d) == Wrap64(v + d)
  {
    hide Wrap64;
    var k := Turns64(v);
    Congruent64(v + d, Wrap64(v) + d, k);
  }

  lemma WrapNegated64(v: int)
    ensures Wrap64(-Wrap64(v)) == Wrap64(-v)
  {
    hide Wrap64;
    var k := Turns64(v);
    Congruent64(-v, -Wrap64(v), -k);
  }

  // Counting a wrapped number down to zero takes its residue modulo 2^32 in steps.
  lemma CountDown32(n: int, k: nat)
    requires -0x8000_0000 <= n < 0x8000_0000 && k <= n % 0x1_0000_0000
    ensures Wrap32(n - k) == 0 <==> k == n % 0x1_0000_0000
  {
    var turn := if n < 0 then -1 else 0;
    assert n % 0x1_0000_0000 == n - 0x1_0000_0000 * turn;
    if k == n % 0x1_0000_0000 {
      Same32(n - k, 0, turn);
    } else {
      var j := Turns32(n - k);
      hide Wrap32;
    }
  }

  // The residue modulo 2^32 is kept.
  lemma Residue32(x: int)
    ensures Wrap32(x) % 0x1_0000_0000 == x % 0x1_0000_0000
  {
  }
}
