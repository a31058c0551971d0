/** The values a policy talks about, and their conversions. */
module PolicyValues {
  import opened Wrappers
  import opened Doubles

  /** LiblcvmValue: a column of the report. */
  datatype Value =
    | IntValue(i: int)
    | UnsignedValue(u: nat)
    | LongValue(l: int)
    | DoubleValue(d: Double)
    | StringValue(s: string)

  type Dictionary = map<string, Value>

  /** The library conversions that stay uninterpreted: `std::stod`, which fails
      on texts that start with no number, and `std::to_string` of a double. */
  datatype Library = Library(stod: string -> Option<Double>, showDouble: Double -> string)

  /** liblcvmvalue_to_double: `unsigned int` and `long int` do not convert. */
  function ToDouble(value: Value): Option<Double> {
    match value
    case IntValue(i) => Some(Finite(i as real))
    case DoubleValue(d) => Some(d)
    case _ => None
  }

  function Digits(n: nat): string {
    if n < 10 then [('0' as int + n) as char] else Digits(n / 10) + [('0' as int + n % 10) as char]
  }

  function ShowInt(i: int): string {
    if i < 0 then "-" + Digits(-i) else Digits(i)
  }

  /** liblcvmvalue_to_string: every value has a text. */
  function ToString(value: Value, lib: Library): string {
    match value
    case StringValue(s) => s
    case IntValue(i) => ShowInt(i)
    case UnsignedValue(u) => ShowInt(u)
    case LongValue(l) => ShowInt(l)
    case DoubleValue(d) => lib.showDouble(d)
  }

  // ----- what the conversions mean -----

  /** An int column converts to its value and a double column to itself; the
      other types do not convert. */
  lemma ConvertingColumns(value: Value)
    ensures forall i :: value == IntValue(i) ==> ToDouble(value) == Some(Finite(i as real))
    ensures forall d :: value == DoubleValue(d) ==> ToDouble(value) == Some(d)
    ensures ToDouble(value).Some? <==> value.IntValue? || value.DoubleValue?
  {
  }

  /** The number that a text of decimal digits stands for, read left to right. */
  function ReadDigits(text: string): int {
    if text == "" then 0
    else 10 * ReadDigits(text[..|text| - 1]) + (text[|text| - 1] as int - '0' as int)
  }

  lemma {:induction false} DigitsReadBack(n: nat)
    ensures Digits(n) != "" && forall i :: 0 <= i < |Digits(n)| ==> '0' <= Digits(n)[i] <= '9'
    ensures ReadDigits(Digits(n)) == n
    ensures Digits(n)[0] == '0' ==> n == 0 && |Digits(n)| == 1
  {
    if n < 10 {
      assert Digits(n)[..0] == "";
    } else {
      DigitsReadBack(n / 10);
      assert Digits(n)[..|Digits(n)| - 1] == Digits(n / 10);
    }
  }

  /** The text of an integer reads back, in base 10, as that integer; it has a
      sign exactly when the integer is negative, and no leading zero. */
  lemma ShowIntReadsBack(i: int)
    ensures var text := ShowInt(i);
      if i < 0 then text != "" && text[0] == '-' && -ReadDigits(text[1..]) == i
      else text != "" && text[0] != '-' && ReadDigits(text) == i
    ensures var digits := if i < 0 then ShowInt(i)[1..] else ShowInt(i);
      && digits != "" && (forall k :: 0 <= k < |digits| ==> '0' <= digits[k] <= '9')
      && (digits[0] == '0' ==> i == 0 && |digits| == 1)
  {
    hide Digits, ReadDigits;
    DigitsReadBack(if i < 0 then -i else i);
    if i < 0 { assert ShowInt(i)[1..] == Digits(-i); }
  }

  /** The text of a column: a string is itself, the integer types are decimal. */
  lemma TextOfColumn(value: Value, lib: Library)
    ensures value.StringValue? ==> ToString(value, lib) == value.s
    ensures value.IntValue? ==> ToString(value, lib) == ShowInt(value.i)
    ensures value.UnsignedValue? ==> ToString(value, lib) == ShowInt(value.u)
    ensures value.LongValue? ==> ToString(value, lib) == ShowInt(value.l)
    ensures value.DoubleValue? ==> ToString(value, lib) == lib.showDouble(value.d)
  {
  }
}
