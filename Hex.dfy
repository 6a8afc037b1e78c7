/** ma.py's wall encoding: each cell becomes one upper-case hexadecimal
    digit whose bits are its walls, N as bit 0, E as bit 1, S as bit 2 and
    W as bit 3. */
module Hex {
  import opened Cells

  datatype Option<T> = None | Some(value: T)

  /** The four walls of a cell, without its visited flag: what the digit
      records. */
  datatype Walls = Walls(n: bool, e: bool, s: bool, w: bool)

  function WallsOf(c: Cell): Walls
  {
    Walls(c.n, c.e, c.s, c.w)
  }

  /** The bit of each wall, in the order of the `bit` dict. */
  function BitOf(d: Direction): nat
  {
    match d
    case N => 0
    case E => 1
    case S => 2
    case W => 3
  }

  function Pow2(k: nat): (r: nat)
    ensures r >= 1
  {
    if k == 0 then 1 else 2 * Pow2(k - 1)
  }

  /** The value of the first `i` walls in `N, E, S, W` order: the sum of the
      bits of those present. */
  function ValueUpTo(c: Cell, i: nat): nat
    requires i <= |DIRECTIONS|
  {
    if i == 0 then 0
    else ValueUpTo(c, i - 1) + if Wall(c, DIRECTIONS[i - 1]) then Pow2(BitOf(DIRECTIONS[i - 1])) else 0
  }

  /** The value of a cell's walls, `N*1 + E*2 + S*4 + W*8`. */
  function WallValue(c: Cell): (v: nat)
    ensures v < 16
  {
    (if c.n then 1 else 0) + (if c.e then 2 else 0) + (if c.s then 4 else 0) + (if c.w then 8 else 0)
  }

  /** Adding the bits wall by wall in `N, E, S, W` order gives the value. */
  lemma ValueSum(c: Cell)
    ensures ValueUpTo(c, |DIRECTIONS|) == WallValue(c)
  {
    assert ValueUpTo(c, 1) == if c.n then 1 else 0;
    assert ValueUpTo(c, 2) == ValueUpTo(c, 1) + if c.e then 2 else 0;
    assert ValueUpTo(c, 3) == ValueUpTo(c, 2) + if c.s then 4 else 0;
  }

  const HEX_DIGITS := "0123456789ABCDEF"

  /** `format(value, "X")` for a value below 16. */
  function HexDigit(v: nat): (ch: char)
    requires v < 16
    ensures ch in HEX_DIGITS
    ensures v < 10 ==> ch as int == '0' as int + v
    ensures v >= 10 ==> ch as int == 'A' as int + v - 10
  {
    HEX_DIGITS[v]
  }

  /** The one-character string `to_hex_grid` gives a cell. */
  function Encode(c: Cell): (s: string)
    ensures |s| == 1 && s[0] in HEX_DIGITS
  {
    [HexDigit(WallValue(c))]
  }

  /** The value of an upper-case hexadecimal digit, if it is one. */
  function DigitValue(ch: char): (v: Option<nat>)
    ensures v.Some? ==> v.value < 16
  {
    if '0' <= ch <= '9' then Some(ch as int - '0' as int)
    else if 'A' <= ch <= 'F' then Some(ch as int - 'A' as int + 10)
    else None
  }

  /** Reading a string back as the walls it encodes: a single upper-case
      hexadecimal digit whose bit 0 is N, bit 1 E, bit 2 S and bit 3 W;
      anything else is not an encoding. */
  function Decode(s: string): Option<Walls>
  {
    if |s| != 1 then None
    else
      match DigitValue(s[0])
      case None => None
      case Some(v) => Some(Walls(v % 2 == 1, v / 2 % 2 == 1, v / 4 % 2 == 1, v / 8 == 1))
  }

  /** The digits `HexDigit` gives are exactly the ones `DigitValue` reads. */
  lemma DigitRoundTrip(v: nat)
    requires v < 16
    ensures DigitValue(HexDigit(v)) == Some(v)
  {
  }

  /** Decoding a cell's digit gives back its four walls. */
  lemma DecodeEncode(c: Cell)
    ensures Decode(Encode(c)) == Some(WallsOf(c))
  {
    var v := WallValue(c);
    DigitRoundTrip(v);
    assert v % 2 == 1 <==> c.n;
    assert v / 2 % 2 == 1 <==> c.e;
    assert v / 4 % 2 == 1 <==> c.s;
    assert v / 8 == 1 <==> c.w;
  }

  /** Two cells get the same digit exactly when they have the same walls: the
      encoding is one-to-one on the 16 wall combinations. */
  lemma EncodeInjective(a: Cell, b: Cell)
    ensures Encode(a) == Encode(b) <==> WallsOf(a) == WallsOf(b)
  {
    if Encode(a) == Encode(b) {
      DecodeEncode(a);
      DecodeEncode(b);
    }
  }

  /** Every digit is one of `0-9A-F`; a fully walled cell gives `F` and a
      cell without walls gives `0`. */
  lemma EncodeDigits(c: Cell)
    ensures |Encode(c)| == 1 && Encode(c)[0] in HEX_DIGITS
    ensures Encode(c) == "F" <==> AllWalls(c)
    ensures Encode(c) == "0" <==> !c.n && !c.e && !c.s && !c.w
  {
    DecodeEncode(c);
    assert Decode("F") == Some(Walls(true, true, true, true));
    assert Decode("0") == Some(Walls(false, false, false, false));
  }

  /** The per-cell loop of `to_hex_grid`: starting from 0, `value |= 1 << b`
      for the bit `b` of each wall present, in `N, E, S, W` order. */
  method CellValue(c: Cell) returns (value: bv8)
    ensures value as int == WallValue(c)
  {
    value := 0;
    for i := 0 to |DIRECTIONS|
      invariant value as int == ValueUpTo(c, i) && ValueUpTo(c, i) < Pow2(i)
    {
      var d := DIRECTIONS[i];
      assert BitOf(d) == i;
      if Wall(c, d) {
        BitOr(value, i);
        value := value | (1 << BitOf(d));
      }
    }
    ValueSum(c);
  }

  /** Setting bit `i` of a value below `2^i` adds `2^i`. */
  lemma BitOr(value: bv8, i: nat)
    requires i < 4 && (value as int) < Pow2(i)
    ensures ((value | (1 << i)) as int) == value as int + Pow2(i)
  {
    if i == 0 {
      assert value == 0;
    } else if i == 1 {
      assert value < 2;
    } else if i == 2 {
      assert value < 4;
    } else {
      assert value < 8;
    }
  }
}
