/** Port names of a hardware stream-switch log: "NORTH3", "SOUTH0", "DMA1", ... */
module HwPorts {
  import opened Basics
  import opened Tiles

  function DirName(d: Dir): string {
    match d
    case North => "NORTH"
    case South => "SOUTH"
    case East => "EAST"
    case West => "WEST"
  }

  /** The direction a port name begins with, if any. */
  function DirOf(name: string): Option<Dir> {
    if DirName(North) <= name then Some(North)
    else if DirName(South) <= name then Some(South)
    else if DirName(East) <= name then Some(East)
    else if DirName(West) <= name then Some(West)
    else None
  }

  predicate IsDigit(c: char) {
    '0' <= c <= '9'
  }

  function DigitValue(c: char): nat
    requires IsDigit(c)
  {
    c as int - '0' as int
  }

  /** The longest suffix of decimal digits. */
  function TrailingDigits(name: string): (r: string)
    ensures forall i :: 0 <= i < |r| ==> IsDigit(r[i])
  {
    if name == [] || !IsDigit(name[|name| - 1]) then ""
    else TrailingDigits(name[..|name| - 1]) + [name[|name| - 1]]
  }

  /** What comes before it is empty or does not end in a digit. */
  lemma {:induction false} TrailingDigitsAreAll(name: string) returns (front: string)
    ensures name == front + TrailingDigits(name) && (front == [] || !IsDigit(front[|front| - 1]))
  {
    front := name;
    if name != [] && IsDigit(name[|name| - 1]) {
      front := TrailingDigitsAreAll(name[..|name| - 1]);
      assert name == name[..|name| - 1] + [name[|name| - 1]];
    }
  }

  function Parse(digits: string): nat
    requires forall i :: 0 <= i < |digits| ==> IsDigit(digits[i])
  {
    if digits == [] then 0 else 10 * Parse(digits[..|digits| - 1]) + DigitValue(digits[|digits| - 1])
  }

  /** The trailing port number, 0 without one. */
  function PortNum(name: string): nat {
    Parse(TrailingDigits(name))
  }

  function Digit(n: nat): (c: char)
    requires n < 10
    ensures IsDigit(c) && DigitValue(c) == n
  {
    ('0' as int + n) as char
  }

  function Decimal(n: nat): (r: string)
    ensures |r| > 0 && forall i :: 0 <= i < |r| ==> IsDigit(r[i])
  {
    if n < 10 then [Digit(n)] else Decimal(n / 10) + [Digit(n % 10)]
  }

  /** The slave port on the neighbouring tile that a master port in direction `d` drives. */
  function SlaveName(d: Dir, num: nat): string {
    DirName(Opposite(d)) + Decimal(num)
  }

  lemma {:induction false} ParseDecimal(n: nat)
    ensures Parse(Decimal(n)) == n
  {
    if n >= 10 {
      ParseDecimal(n / 10);
      assert Decimal(n)[..|Decimal(n)| - 1] == Decimal(n / 10);
    }
  }

  lemma {:induction false} DigitsAfterLetter(front: string, digits: string)
    requires front != [] && !IsDigit(front[|front| - 1])
    requires forall i :: 0 <= i < |digits| ==> IsDigit(digits[i])
    ensures TrailingDigits(front + digits) == digits
  {
    if digits == [] {
      assert front + digits == front;
    } else {
      var n := |digits| - 1;
      DigitsAfterLetter(front, digits[..n]);
      assert (front + digits)[..|front + digits| - 1] == front + digits[..n];
      assert digits == digits[..n] + [digits[n]];
    }
  }

  /** Reading back a slave name gives the opposite direction and the same number. */
  lemma SlaveNameReadsBack(d: Dir, num: nat)
    ensures DirOf(SlaveName(d, num)) == Some(Opposite(d)) && PortNum(SlaveName(d, num)) == num
  {
    var o := DirName(Opposite(d));
    DirOfName(Opposite(d), Decimal(num));
    DigitsAfterLetter(o, Decimal(num));
    ParseDecimal(num);
  }

  lemma DirOfName(d: Dir, rest: string)
    ensures DirOf(DirName(d) + rest) == Some(d)
  {
    var name := DirName(d) + rest;
    assert name[0] == DirName(d)[0];
    assert DirName(d) <= name;
  }

  /** A port has a direction exactly when its name begins with the word for it. */
  lemma DirOfExactly(name: string)
    ensures DirOf(name) == Some(North) <==> "NORTH" <= name
    ensures DirOf(name) == Some(South) <==> "SOUTH" <= name
    ensures DirOf(name) == Some(East) <==> "EAST" <= name
    ensures DirOf(name) == Some(West) <==> "WEST" <= name
  {
    assert "NORTH" <= name ==> name[0] == 'N';
    assert "SOUTH" <= name ==> name[0] == 'S';
    assert "EAST" <= name ==> name[0] == 'E';
    assert "WEST" <= name ==> name[0] == 'W';
  }
}
