/** The module's own decimal parser `atoui`: naive digit accumulation in an
    `unsigned int`, with no check of the characters and silent wrap-around. */
module Atoui {

  /** 2^32: `unsigned int` arithmetic is arithmetic modulo this. */
  const UINT_MOD := 0x1_0000_0000

  /** The values of a C `unsigned int`; user ids have this type. */
  type UInt = x: int | 0 <= x < UINT_MOD

  /** The value `atoui` computes: for each character c in turn,
      res := res * 10 + c - '0', all modulo 2^32. Characters stand for the
      bytes of the file and are taken as unsigned. */
  function AtouiValue(s: string): UInt
  {
    if s == [] then 0
    else (AtouiValue(s[..|s| - 1]) * 10 + s[|s| - 1] as int - '0' as int) % UINT_MOD
  }

  /** atoui(str): the accumulator loop over the characters of `str`. */
  method Atoui(str: string) returns (res: UInt)
    ensures res == AtouiValue(str)
  {
    res := 0;
    var i := 0;
    while i < |str|
      invariant 0 <= i <= |str|
      invariant res == AtouiValue(str[..i])
    {
      assert str[..i + 1][..i] == str[..i];
      res := (res * 10 + str[i] as int - '0' as int) % UINT_MOD;
      i := i + 1;
    }
    assert str[..i] == str;
  }

  predicate IsDigit(c: char)
  {
    '0' <= c <= '9'
  }

  /** The ordinary value of a string of decimal digits, without bound. */
  function DecimalValue(s: string): (v: nat)
    requires forall k :: 0 <= k < |s| ==> IsDigit(s[k])
  {
    if s == [] then 0
    else
      assert IsDigit(s[|s| - 1]);
      DecimalValue(s[..|s| - 1]) * 10 + (s[|s| - 1] as int - '0' as int)
  }

  lemma ModShift(x: int, k: int)
    ensures (x + k * UINT_MOD) % UINT_MOD == x % UINT_MOD
  {
    var q, r := x / UINT_MOD, x % UINT_MOD;
    assert x + k * UINT_MOD == (q + k) * UINT_MOD + r;
  }

  /** On a string of digits, atoui yields its decimal value modulo 2^32; in
      particular the empty string yields 0. */
  lemma {:induction false} AtouiIsDecimal(s: string)
    requires forall k :: 0 <= k < |s| ==> IsDigit(s[k])
    ensures AtouiValue(s) == DecimalValue(s) % UINT_MOD
  {
    if s != [] {
      var p := s[..|s| - 1];
      var d := s[|s| - 1] as int - '0' as int;
      AtouiIsDecimal(p);
      var v := DecimalValue(p);
      calc {
        AtouiValue(s);
        ((v % UINT_MOD) * 10 + d) % UINT_MOD;
        { ModShift((v % UINT_MOD) * 10 + d, (v / UINT_MOD) * 10); }
        ((v % UINT_MOD) * 10 + d + (v / UINT_MOD) * 10 * UINT_MOD) % UINT_MOD;
        { assert (v % UINT_MOD) * 10 + (v / UINT_MOD) * 10 * UINT_MOD == v * 10; }
        (v * 10 + d) % UINT_MOD;
        DecimalValue(s) % UINT_MOD;
      }
    }
  }
}
