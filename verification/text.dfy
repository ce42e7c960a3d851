/** The plain-text layout both network files of tsir_compare.py use: lines of decimal
    numbers separated by single spaces, each ended by a newline (`str(x) + ' ' + ... + '\n'`),
    and the reading of such text back into numbers that the simulators' `scanf` performs. */
module NumberText {

  datatype Option<T> = None | Some(value: T)

  /** One line of the file: the numbers on it, in order. */
  type Line = seq<nat>

  predicate IsDigit(c: char)
  {
    '0' <= c <= '9'
  }

  predicate AllDigits(s: string)
  {
    forall i :: 0 <= i < |s| ==> IsDigit(s[i])
  }

  /** `str(x)` of a non-negative integer: its decimal digits, without leading zeros. */
  function Decimal(x: nat): (s: string)
    ensures |s| >= 1 && AllDigits(s)
    ensures |s| > 1 ==> s[0] != '0'
    decreases x
  {
    if x < 10 then [('0' as int + x) as char]
    else Decimal(x / 10) + [('0' as int + x % 10) as char]
  }

  /** The number a string of decimal digits denotes. */
  function DecimalValue(s: string): nat
    requires AllDigits(s)
  {
    if s == [] then 0
    else DecimalValue(s[..|s| - 1]) * 10 + (s[|s| - 1] as int - '0' as int)
  }

  /** Reading back the digits `str` writes gives the number again. */
  lemma {:induction false} DecimalRoundTrip(x: nat)
    ensures DecimalValue(Decimal(x)) == x
    decreases x
  {
    if x >= 10 {
      var s := Decimal(x);
      assert s[..|s| - 1] == Decimal(x / 10);
      DecimalRoundTrip(x / 10);
    }
  }

  /** The numbers of a line joined by single spaces. */
  function Words(l: Line): string
  {
    if |l| == 0 then ""
    else if |l| == 1 then Decimal(l[0])
    else Decimal(l[0]) + " " + Words(l[1..])
  }

  /** A line as written: the words and a newline. */
  function LineText(l: Line): string
  {
    Words(l) + "\n"
  }

  /** A sequence of lines as written, one after the other. */
  function Text(lines: seq<Line>): string
  {
    if lines == [] then "" else LineText(lines[0]) + Text(lines[1..])
  }

  /** Writing two blocks of lines one after the other writes their concatenation: appending
      to the output string line by line, as tsir_compare.py does, builds `Text`. */
  lemma {:induction false} TextAppend(a: seq<Line>, b: seq<Line>)
    ensures Text(a + b) == Text(a) + Text(b)
  {
    if a != [] {
      assert (a + b)[1..] == a[1..] + b;
      TextAppend(a[1..], b);
    } else {
      assert a + b == b;
    }
  }

  /** The text of one line of three numbers, as `str(x) + ' ' + str(y) + ' ' + str(z) + '\n'`
      writes it. */
  lemma ThreeNumbers(x: nat, y: nat, z: nat)
    ensures Text([[x, y, z]]) == Decimal(x) + " " + Decimal(y) + " " + Decimal(z) + "\n"
  {
    var dx, dy, dz := Decimal(x), Decimal(y), Decimal(z);
    assert [[x, y, z]][1..] == [];
    assert [x, y, z][1..] == [y, z];
    assert [y, z][1..] == [z];
    assert Words([z]) == dz;
    assert Words([y, z]) == dy + " " + dz;
    assert Words([x, y, z]) == dx + " " + (dy + " " + dz);
    Associative(dx + " ", dy + " ", dz);
  }

  /** The text of one line of two numbers. */
  lemma TwoNumbers(x: nat, y: nat)
    ensures Text([[x, y]]) == Decimal(x) + " " + Decimal(y) + "\n"
  {
    var dx, dy := Decimal(x), Decimal(y);
    assert [[x, y]][1..] == [];
    assert [x, y][1..] == [y];
    assert Words([y]) == dy;
    assert Words([x, y]) == dx + " " + dy;
  }

  /** The text of one line of one number. */
  lemma OneNumber(x: nat)
    ensures Text([[x]]) == Decimal(x) + "\n"
  {
    assert [[x]][1..] == [];
  }

  lemma Associative<T>(a: seq<T>, b: seq<T>, c: seq<T>)
    ensures a + (b + c) == a + b + c
  {
  }

  /** The maximal run of digits at the head of `s`, and what follows it. */
  function SplitDigits(s: string): (r: (string, string))
    ensures AllDigits(r.0) && r.0 + r.1 == s
    ensures r.1 == [] || !IsDigit(r.1[0])
  {
    if s == [] || !IsDigit(s[0]) then ([], s)
    else
      var (d, rest) := SplitDigits(s[1..]);
      assert [s[0]] + d + rest == s by {
        Associative([s[0]], d, rest);
        assert [s[0]] + s[1..] == s;
      }
      ([s[0]] + d, rest)
  }

  /** Reads one non-empty line of space-separated numbers, up to and including its
      newline; `None` when the text does not start with one. */
  function ReadLine(s: string): (r: Option<(Line, string)>)
    ensures r.Some? ==> |r.value.1| < |s|
    decreases |s|
  {
    var (d, rest) := SplitDigits(s);
    if d == [] || rest == [] then None
    else if rest[0] == '\n' then Some(([DecimalValue(d)], rest[1..]))
    else if rest[0] == ' ' then
      match ReadLine(rest[1..])
      case None => None
      case Some((l, after)) => Some(([DecimalValue(d)] + l, after))
    else None
  }

  /** Reads a whole text as lines of numbers; `None` when it is not such a text. */
  function ReadText(s: string): Option<seq<Line>>
    decreases |s|
  {
    if s == [] then Some([])
    else
      match ReadLine(s)
      case None => None
      case Some((l, rest)) =>
        match ReadText(rest)
        case None => None
        case Some(ls) => Some([l] + ls)
  }

  lemma {:induction false} SplitDigitsOf(d: string, rest: string)
    requires AllDigits(d)
    requires rest == [] || !IsDigit(rest[0])
    ensures SplitDigits(d + rest) == (d, rest)
    decreases |d|
  {
    if d != [] {
      assert (d + rest)[1..] == d[1..] + rest;
      SplitDigitsOf(d[1..], rest);
      assert [d[0]] + d[1..] == d;
    } else {
      assert d + rest == rest;
    }
  }

  lemma ReadLastNumber(x: nat, rest: string)
    ensures ReadLine(Decimal(x) + ("\n" + rest)) == Some(([x], rest))
  {
    var after := "\n" + rest;
    SplitDigitsOf(Decimal(x), after);
    DecimalRoundTrip(x);
    assert after[1..] == rest;
  }

  lemma ReadNextNumber(x: nat, tail: string)
    requires ReadLine(tail).Some?
    ensures ReadLine(Decimal(x) + (" " + tail))
      == Some(([x] + ReadLine(tail).value.0, ReadLine(tail).value.1))
  {
    var after := " " + tail;
    SplitDigitsOf(Decimal(x), after);
    DecimalRoundTrip(x);
    assert after[1..] == tail;
  }

  /** A written non-empty line reads back as the same numbers, leaving what follows it. */
  lemma {:induction false} ReadLineOf(l: Line, rest: string)
    requires |l| > 0
    ensures ReadLine(Words(l) + "\n" + rest) == Some((l, rest))
    decreases |l|
  {
    if |l| == 1 {
      assert Words(l) + "\n" + rest == Decimal(l[0]) + ("\n" + rest);
      ReadLastNumber(l[0], rest);
      assert [l[0]] == l;
    } else {
      var tail := Words(l[1..]) + "\n" + rest;
      assert Words(l) + "\n" + rest == Decimal(l[0]) + (" " + tail);
      ReadLineOf(l[1..], rest);
      ReadNextNumber(l[0], tail);
      assert [l[0]] + l[1..] == l;
    }
  }

  /** Text written from non-empty lines reads back as the same lines. */
  lemma {:induction false} ReadTextOf(lines: seq<Line>)
    requires forall i :: 0 <= i < |lines| ==> |lines[i]| > 0
    ensures ReadText(Text(lines)) == Some(lines)
  {
    if lines != [] {
      var rest := Text(lines[1..]);
      assert Text(lines) == Words(lines[0]) + "\n" + rest;
      ReadLineOf(lines[0], rest);
      ReadTextOf(lines[1..]);
      assert [lines[0]] + lines[1..] == lines;
    }
  }
}
