/** How two container resource limits are compared: both are brought to one text, and the texts are compared. */
module Dimensions {
  import opened Common
  import opened Text

  /** A limit as configured or as the engine reports it. */
  datatype Operand = Missing | Number(n: int) | Word(text: string)

  datatype Error = NoLongerSupported | EmptyText | NotANumber(text: string) | BadUnit(unit: char)

  // ---------------------------------------------------------------- decimal numbers

  predicate IsDigit(c: char) {
    '0' <= c <= '9'
  }

  function DigitValue(c: char): nat
    requires IsDigit(c)
  {
    c as nat - '0' as nat
  }

  function DigitChar(d: nat): (c: char)
    requires d < 10
    ensures IsDigit(c) && DigitValue(c) == d
  {
    ('0' as nat + d) as char
  }

  function DecimalNat(n: nat): string {
    if n < 10 then [DigitChar(n)] else DecimalNat(n / 10) + [DigitChar(n % 10)]
  }

  /** The text of an integer. */
  function Decimal(n: int): string {
    if n < 0 then "-" + DecimalNat(-n) else DecimalNat(n)
  }

  /** Digits, with single underscores between them allowed. */
  function ParseDigits(s: string): Option<nat> {
    if s == "" || !IsDigit(s[|s| - 1]) then None
    else
      var d := DigitValue(s[|s| - 1]);
      if |s| == 1 then Some(d)
      else
        var rest := ParseDigits(if s[|s| - 2] == '_' then s[..|s| - 2] else s[..|s| - 1]);
        if rest.Some? then Some(rest.value * 10 + d) else None
  }

  /** An integer as Python reads one: blanks around it, a sign, digits. */
  function ParseInt(s: string): Option<int> {
    var t := Strip(s);
    if t != "" && (t[0] == '-' || t[0] == '+') then
      var n: Option<int> := ParseDigits(t[1..]);
      if n.None? then None else Some(if t[0] == '-' then -n.value else n.value)
    else
      var n := ParseDigits(t);
      if n.None? then None else Some(n.value)
  }

  lemma {:induction false} DecimalIsDigits(n: nat)
    ensures DecimalNat(n) != "" && forall i :: 0 <= i < |DecimalNat(n)| ==> IsDigit(DecimalNat(n)[i])
  {
    if n >= 10 {
      DecimalIsDigits(n / 10);
    }
  }

  /** Reading what was printed gives the number back. */
  lemma {:induction false} ParseDecimalNat(n: nat)
    ensures ParseDigits(DecimalNat(n)) == Some(n)
  {
    if n >= 10 {
      var s, before := DecimalNat(n), DecimalNat(n / 10);
      ParseDecimalNat(n / 10);
      DecimalIsDigits(n / 10);
      assert s[..|s| - 1] == before && s[|s| - 2] == before[|before| - 1];
      assert s[|s| - 1] == DigitChar(n % 10);
    }
  }

  lemma StripNothing(s: string)
    requires s != "" && !IsSpace(s[0]) && !IsSpace(s[|s| - 1])
    ensures Strip(s) == s
  {
  }

  lemma ParseDecimal(n: int)
    ensures ParseInt(Decimal(n)) == Some(n)
  {
    var m := if n < 0 then -n else n;
    DecimalIsDigits(m);
    ParseDecimalNat(m);
    var s := Decimal(n);
    assert n < 0 ==> s[1..] == DecimalNat(m);
    assert s[|s| - 1] == DecimalNat(m)[|DecimalNat(m)| - 1];
    StripNothing(s);
  }

  /** A number is printed without leading zeros, and with a sign exactly when it is negative. */
  lemma {:induction false} DecimalIsCanonical(n: int)
    ensures Decimal(n) != "" && (Decimal(n)[0] == '-' <==> n < 0)
    ensures n > 0 ==> Decimal(n)[0] != '0'
    ensures n == 0 ==> Decimal(n) == "0"
  {
    DecimalIsDigits(if n < 0 then -n else n);
    if 0 < n {
      NoLeadingZero(n);
    }
  }

  lemma {:induction false} NoLeadingZero(n: nat)
    requires 0 < n
    ensures DecimalNat(n) != "" && DecimalNat(n)[0] != '0'
  {
    if n >= 10 {
      NoLeadingZero(n / 10);
    } else {
      assert DigitChar(0) == '0' && DigitValue(DigitChar(n)) == n;
    }
  }

  /** A plus sign changes nothing. */
  lemma {:induction false} PlusIsRead(n: nat)
    ensures ParseInt("+" + Decimal(n)) == Some(n)
  {
    var s := "+" + Decimal(n);
    DecimalIsDigits(n);
    ParseDecimalNat(n);
    assert s[1..] == DecimalNat(n) && s[|s| - 1] == DecimalNat(n)[|DecimalNat(n)| - 1];
    StripNothing(s);
  }

  /** What stands before the last digit, and before the underscore in front of it, if there is one. */
  function Front(s: string): string
    requires 1 < |s|
  {
    if s[|s| - 2] == '_' then s[..|s| - 2] else s[..|s| - 1]
  }

  lemma LastDigit(s: string)
    requires 1 < |s| && IsDigit(s[|s| - 1])
    ensures ParseDigits(s) == var n := ParseDigits(Front(s));
            if n.Some? then Some(n.value * 10 + DigitValue(s[|s| - 1])) else None
  {
  }

  /** One digit more, with or without an underscore before it. */
  lemma {:induction false} OneMoreDigit(s: string, c: char)
    requires s != "" && IsDigit(c) && IsDigit(s[|s| - 1])
    ensures var n := ParseDigits(s); var n' := if n.Some? then Some(n.value * 10 + DigitValue(c)) else None;
      ParseDigits(s + [c]) == n' && ParseDigits(s + ['_', c]) == n'
  {
    hide ParseDigits;
    var t, u := s + [c], s + ['_', c];
    assert Front(t) == s && Front(u) == s;
    LastDigit(t);
    LastDigit(u);
  }

  /** Nor does an underscore between digits, while one at an end is an error. */
  lemma {:induction false} UnderscoreSeparates(a: string, b: string)
    requires ParseDigits(a).Some? && b != "" && forall i :: 0 <= i < |b| ==> IsDigit(b[i])
    ensures ParseDigits(a + "_" + b).Some? && ParseDigits(a + "_" + b) == ParseDigits(a + b)
    ensures ParseDigits(a + "_").None? && ParseDigits("_" + b).None?
  {
    hide ParseDigits;
    EndsInDigit(a);
    UnderscoreAtAnEnd(a, b);
    var before, c := b[..|b| - 1], b[|b| - 1];
    if |b| == 1 {
      assert a + "_" + b == a + ['_', c] && a + b == a + [c];
      OneMoreDigit(a, c);
    } else {
      UnderscoreSeparates(a, before);
      var s, t := a + "_" + before, a + before;
      assert a + "_" + b == s + [c] && a + b == t + [c];
      OneMoreDigit(s, c);
      OneMoreDigit(t, c);
    }
  }

  lemma EndsInDigit(a: string)
    requires ParseDigits(a).Some?
    ensures a != "" && IsDigit(a[|a| - 1])
  {
  }

  lemma {:induction false} UnderscoreAtAnEnd(a: string, b: string)
    requires b != "" && forall i :: 0 <= i < |b| ==> IsDigit(b[i])
    ensures ParseDigits(a + "_").None? && ParseDigits("_" + b).None?
  {
    var s := "_" + b;
    if |b| == 1 {
      assert s[..|s| - 2] == "";
    } else {
      UnderscoreAtAnEnd(a, b[..|b| - 1]);
      assert s[..|s| - 1] == "_" + b[..|b| - 1] && s[|s| - 2] == b[|b| - 2];
    }
  }

  lemma DecimalInjective(x: int, y: int)
    requires Decimal(x) == Decimal(y)
    ensures x == y
  {
    ParseDecimal(x);
    ParseDecimal(y);
  }

  // ---------------------------------------------------------------- normal forms

  /** The size of a unit. */
  function UnitSize(c: char): Option<nat> {
    if c == 'b' then Some(1)
    else if c == 'k' then Some(1024)
    else if c == 'm' then Some(1024 * 1024)
    else if c == 'g' then Some(1024 * 1024 * 1024)
    else None
  }

  /** A limit with a unit becomes the text of its size in bytes; one without stays the text it is. */
  function Normal(s: string): Result<string, Error> {
    if s == "" then Err(EmptyText)
    else
      var last := LowerChar(s[|s| - 1]);
      if IsDigit(last) then Ok(s)
      else if UnitSize(last).None? then Err(BadUnit(last))
      else
        var n := ParseInt(s[..|s| - 1]);
        if n.None? then Err(NotANumber(s[..|s| - 1])) else Ok(Decimal(n.value * UnitSize(last).value))
  }

  function TextOf(a: Operand): string
    requires !a.Missing?
  {
    if a.Number? then Decimal(a.n) else a.text
  }

  /** The processor sets of a container are compared as texts, with nothing for a falsy value. */
  function OrEmpty(a: Operand): string {
    match a
    case Missing => ""
    case Number(n) => if n == 0 then "" else Decimal(n)
    case Word(text) => text
  }

  function Differ(a: Operand, b: Operand, key: string): Result<bool, Error> {
    if key == "cpuset_cpus" || key == "cpuset_mems" then Ok(OrEmpty(a) != OrEmpty(b))
    else if a.Missing? || b.Missing? then Err(NoLongerSupported)
    else if TextOf(a) == "" || TextOf(b) == "" then Err(EmptyText)
    else match Normal(TextOf(a))
      case Err(e) => Err(e)
      case Ok(x) =>
        match Normal(TextOf(b))
        case Err(e) => Err(e)
        case Ok(y) => Ok(x != y)
  }

  method DimensionsDiffer(a: Operand, b: Operand, key: string) returns (r: Result<bool, Error>)
    ensures r == Differ(a, b, key)
  {
    if key == "cpuset_cpus" || key == "cpuset_mems" {
      return Ok(OrEmpty(a) != OrEmpty(b));
    }
    if a.Missing? || b.Missing? {
      return Err(NoLongerSupported);
    }
    var x, y := TextOf(a), TextOf(b);
    if x == "" || y == "" {
      return Err(EmptyText);
    }
    var xLast, yLast := LowerChar(x[|x| - 1]), LowerChar(y[|y| - 1]);
    if !IsDigit(xLast) {
      if UnitSize(xLast).None? {
        return Err(BadUnit(xLast));
      }
      var n := ParseInt(x[..|x| - 1]);
      if n.None? {
        return Err(NotANumber(x[..|x| - 1]));
      }
      x := Decimal(n.value * UnitSize(xLast).value);
    }
    if !IsDigit(yLast) {
      if UnitSize(yLast).None? {
        return Err(BadUnit(yLast));
      }
      var n := ParseInt(y[..|y| - 1]);
      if n.None? {
        return Err(NotANumber(y[..|y| - 1]));
      }
      y := Decimal(n.value * UnitSize(yLast).value);
    }
    r := Ok(x != y);
  }

  // ---------------------------------------------------------------- what the comparison means

  /** The number of bytes, or other units, that a limit stands for. */
  function Quantity(a: Operand): Option<int> {
    match a
    case Missing => None
    case Number(n) => Some(n)
    case Word(s) =>
      if s == "" then None
      else
        var last := LowerChar(s[|s| - 1]);
        if IsDigit(last) then ParseInt(s)
        else
          var n := ParseInt(s[..|s| - 1]);
          if n.None? || UnitSize(last).None? then None else Some(n.value * UnitSize(last).value)
  }

  /** A limit with a unit, or one written as the decimal number it is. */
  predicate Plain(a: Operand) {
    a.Word? && a.text != "" && IsDigit(LowerChar(a.text[|a.text| - 1])) ==>
      Quantity(a).Some? && a.text == Decimal(Quantity(a).value)
  }

  predicate IsSize(key: string) {
    key != "cpuset_cpus" && key != "cpuset_mems"
  }

  lemma DecimalEndsInDigit(n: int)
    ensures Decimal(n) != "" && IsDigit(LowerChar(Decimal(n)[|Decimal(n)| - 1]))
  {
    DecimalIsDigits(if n < 0 then -n else n);
  }

  /** Any quantity is compared; a plain one by the text of its number. */
  lemma NormalOfQuantity(a: Operand)
    requires Quantity(a).Some?
    ensures !a.Missing? && TextOf(a) != "" && Normal(TextOf(a)).Ok?
    ensures Plain(a) ==> Normal(TextOf(a)) == Ok(Decimal(Quantity(a).value))
    ensures !Plain(a) ==> Normal(TextOf(a)) == Ok(a.text) && a.text != Decimal(Quantity(a).value)
  {
    if a.Number? {
      DecimalEndsInDigit(a.n);
    }
  }

  /** Two plain limits differ exactly when they are different numbers, whatever their units. */
  lemma PlainLimitsCompareAsNumbers(a: Operand, b: Operand, key: string)
    requires IsSize(key) && Quantity(a).Some? && Quantity(b).Some? && Plain(a) && Plain(b)
    ensures Differ(a, b, key) == Ok(Quantity(a) != Quantity(b))
  {
    NormalOfQuantity(a);
    NormalOfQuantity(b);
    if Decimal(Quantity(a).value) == Decimal(Quantity(b).value) {
      DecimalInjective(Quantity(a).value, Quantity(b).value);
    }
  }

  /**
   A limit is compared as a number with everything the engine may report exactly when it is plain: a number without
   a unit has to be written as the engine writes it.
   */
  lemma ComparedAsNumberExactly(a: Operand, key: string)
    requires IsSize(key) && Quantity(a).Some?
    ensures (forall b :: Quantity(b).Some? && Plain(b) ==> Differ(a, b, key) == Ok(Quantity(a) != Quantity(b))) <==>
            Plain(a)
  {
    if Plain(a) {
      forall b | Quantity(b).Some? && Plain(b)
        ensures Differ(a, b, key) == Ok(Quantity(a) != Quantity(b))
      {
        PlainLimitsCompareAsNumbers(a, b, key);
      }
    } else {
      var b := Number(Quantity(a).value);
      NormalOfQuantity(a);
      NormalOfQuantity(b);
      assert Quantity(b).Some? && Plain(b) && Differ(a, b, key) == Ok(true);
    }
  }

  /** A limit that there is nothing to compare of: none at all, no text, an unknown unit or something else than a number
      in front of the unit. */
  predicate Broken(a: Operand) {
    match a
    case Missing => true
    case Number(_) => false
    case Word(s) =>
      s == "" || (!IsDigit(LowerChar(s[|s| - 1])) &&
                  (LowerChar(s[|s| - 1]) !in {'b', 'k', 'm', 'g'} || ParseInt(s[..|s| - 1]).None?))
  }

  lemma NormalFails(a: Operand)
    requires !a.Missing? && TextOf(a) != ""
    ensures Normal(TextOf(a)).Err? <==> Broken(a)
    ensures Normal(TextOf(a)).Err? ==> Normal(TextOf(a)).error.NotANumber? || Normal(TextOf(a)).error.BadUnit?
  {
    hide ParseInt, Decimal;
    if a.Number? {
      DecimalEndsInDigit(a.n);
    }
  }

  lemma NothingToCompare(a: Operand)
    requires !a.Missing?
    ensures TextOf(a) == "" <==> a == Word("")
    ensures TextOf(a) == "" ==> Broken(a)
  {
    hide ParseInt, Decimal;
    if a.Number? {
      DecimalEndsInDigit(a.n);
    }
  }

  /** The comparison fails exactly when one of two sizes is broken; processor sets are always compared. */
  lemma FailsExactly(a: Operand, b: Operand, key: string)
    ensures Differ(a, b, key).Err? <==> key !in {"cpuset_cpus", "cpuset_mems"} && (Broken(a) || Broken(b))
    ensures Differ(a, b, key) == Err(NoLongerSupported) <==>
            key !in {"cpuset_cpus", "cpuset_mems"} && (a.Missing? || b.Missing?)
    ensures Differ(a, b, key) == Err(EmptyText) <==>
            && key !in {"cpuset_cpus", "cpuset_mems"} && !a.Missing? && !b.Missing?
            && (a == Word("") || b == Word(""))
  {
    if a.Missing? || b.Missing? {
      hide Normal, TextOf;
    } else {
      NothingToCompare(a);
      NothingToCompare(b);
      hide Normal, TextOf, Broken;
      if TextOf(a) != "" && TextOf(b) != "" {
        NormalFails(a);
        NormalFails(b);
      }
    }
  }

  /** Units are powers of 1024, in either case. */
  lemma {:induction false} UnitsAreBinary(n: int, unit: char, key: string)
    requires IsSize(key) && unit in {'b', 'B', 'k', 'K', 'm', 'M', 'g', 'G'}
    ensures var size := if unit in {'b', 'B'} then 1 else if unit in {'k', 'K'} then 1024
                        else if unit in {'m', 'M'} then 1048576 else 1073741824;
      Differ(Word(Decimal(n) + [unit]), Number(n * size), key) == Ok(false)
  {
    hide ParseInt, Decimal, Differ;
    var s := Decimal(n) + [unit];
    assert s[..|s| - 1] == Decimal(n) && s[|s| - 1] == unit;
    ParseDecimal(n);
    var size := UnitSize(LowerChar(unit)).value;
    PlainLimitsCompareAsNumbers(Word(s), Number(n * size), key);
  }

  /** For processor sets, nothing, no text and zero are the same, and differ from everything else. */
  lemma NoProcessors(a: Operand, b: Operand)
    requires a in {Missing, Word(""), Number(0)}
    ensures Differ(a, b, "cpuset_cpus") == Ok(b !in {Missing, Word(""), Number(0)})
    ensures Differ(b, a, "cpuset_mems") == Ok(b !in {Missing, Word(""), Number(0)})
  {
    if b.Number? {
      DecimalEndsInDigit(b.n);
    }
  }

  lemma ReadLeadingZero()
    ensures ParseInt("0512") == Some(512)
  {
    StripNothing("0512");
    assert "0512"[..3] == "051" && "051"[..2] == "05" && "05"[..1] == "0";
    assert ParseDigits("0") == Some(0);
    assert ParseDigits("05") == Some(5);
    assert ParseDigits("051") == Some(51);
  }

  /** The same number with a leading zero counts as another one. */
  lemma LeadingZeroDiffers()
    ensures Quantity(Word("0512")) == Quantity(Number(512)) == Some(512)
    ensures Differ(Word("0512"), Number(512), "cpu_shares") == Ok(true)
  {
    hide ParseInt;
    ReadLeadingZero();
    assert |DecimalNat(5)| == 1 && |DecimalNat(51)| == 2 && |DecimalNat(512)| == 3;
    NormalOfQuantity(Number(512));
  }
}
