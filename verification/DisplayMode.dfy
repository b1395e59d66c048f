/** The display mode property: printing `<width>x<height>@<rate>` and parsing it back. */
module DisplayMode {

  type Field = f: int | 0 <= f < 0x1_0000 witness 0

  datatype Mode = Mode(width: Field, height: Field, rate: Field)
  datatype Error = BadWidth | BadHeight | BadRate | BadFormat
  datatype Option<T> = None | Some(value: T)

  /** A number and the text behind it. */
  datatype Scanned = Scanned(value: int, rest: string)

  /** What a write leaves in the property, and the error it reports. */
  datatype Outcome = Outcome(mode: Mode, error: Option<Error>)

  predicate IsDigit(c: char) {
    '0' <= c <= '9'
  }

  predicate IsSpace(c: char) {
    c == ' ' || 9 as char <= c <= 13 as char
  }

  // ---------- Printing ----------

  function DigitOf(d: int): char
    requires 0 <= d < 10
  {
    '0' + d as char
  }

  function Decimal(n: nat): (s: string)
    ensures s != [] && forall c :: c in s ==> IsDigit(c)
  {
    if n < 10 then [DigitOf(n)] else Decimal(n / 10) + [DigitOf(n % 10)]
  }

  function Print(m: Mode): string {
    Decimal(m.width) + "x" + Decimal(m.height) + "@" + Decimal(m.rate)
  }

  // ---------- Parsing ----------

  /** The length of the leading run of digits. */
  function DigitRun(s: string): (n: nat)
    ensures n <= |s| && forall i :: 0 <= i < n ==> IsDigit(s[i])
  {
    if s != [] && IsDigit(s[0]) then 1 + DigitRun(s[1..]) else 0
  }

  function DigitValue(c: char): nat
    requires IsDigit(c)
  {
    c as int - '0' as int
  }

  function ValueOf(s: string): nat
    requires forall i :: 0 <= i < |s| ==> IsDigit(s[i])
  {
    if s == [] then 0 else 10 * ValueOf(s[..|s| - 1]) + DigitValue(s[|s| - 1])
  }

  function SkipSpace(s: string): string {
    if s != [] && IsSpace(s[0]) then SkipSpace(s[1..]) else s
  }

  /** The C library's conversion to int: space, a sign, digits; text may follow. */
  function ToInt(s: string): Option<Scanned> {
    var t := SkipSpace(s);
    var signed := t != [] && (t[0] == '+' || t[0] == '-');
    var u := if signed then t[1..] else t;
    var n := DigitRun(u);
    var value := if signed && t[0] == '-' then -(ValueOf(u[..n]) as int) else ValueOf(u[..n]);
    if n == 0 || !(-0x8000_0000 <= value < 0x8000_0000) then None else Some(Scanned(value, u[n..]))
  }

  /** A field must lie in 1 .. 65535. */
  function ToField(s: string): (r: Option<Scanned>)
    ensures r.Some? ==> 0 < r.value.value < 0x1_0000
  {
    match ToInt(s)
    case None => None
    case Some(scanned) => if 0 < scanned.value < 0x1_0000 then Some(scanned) else None
  }

  function After(s: string, separator: char): Option<string> {
    if s != [] && s[0] == separator then Some(s[1..]) else None
  }

  function SetMode(old_: Mode, s: string): Outcome {
    match ToField(s)
    case None => Outcome(old_, Some(BadWidth))
    case Some(w) =>
      var withWidth := old_.(width := w.value);
      match After(w.rest, 'x')
      case None => Outcome(withWidth, Some(BadFormat))
      case Some(s2) => SetHeight(withWidth, s2)
  }

  function SetHeight(mode: Mode, s: string): Outcome {
    match ToField(s)
    case None => Outcome(mode, Some(BadHeight))
    case Some(h) =>
      var withHeight := mode.(height := h.value);
      match After(h.rest, '@')
      case None => Outcome(withHeight, Some(BadFormat))
      case Some(s2) => SetRate(withHeight, s2)
  }

  function SetRate(mode: Mode, s: string): Outcome {
    match ToField(s)
    case None => Outcome(mode, Some(BadRate))
    case Some(r) => Outcome(mode.(rate := r.value), None)
  }

  // ---------- Printing and parsing ----------

  lemma {:induction false} RunOfDigits(digits: string, rest: string)
    requires forall c :: c in digits ==> IsDigit(c)
    ensures DigitRun(digits + rest) == |digits| + DigitRun(rest)
    decreases |digits|
  {
    if digits == [] {
      assert digits + rest == rest;
    } else {
      assert digits[0] in digits;
      assert (digits + rest)[1..] == digits[1..] + rest;
      RunOfDigits(digits[1..], rest);
    }
  }

  lemma {:induction false} ValueOfDecimal(n: nat)
    ensures ValueOf(Decimal(n)) == n
  {
    var s := Decimal(n);
    if n >= 10 {
      ValueOfDecimal(n / 10);
      assert s[..|s| - 1] == Decimal(n / 10);
    } else {
      assert s[..0] == [];
    }
  }

  /** A run of digits that starts with a printed number is that number exactly if it is no longer. */
  lemma {:induction false} LongerRunsAreLarger(n: nat, more: string)
    requires n > 0 && forall c :: c in more ==> IsDigit(c)
    ensures forall i :: 0 <= i < |Decimal(n) + more| ==> IsDigit((Decimal(n) + more)[i])
    ensures ValueOf(Decimal(n) + more) >= n
    ensures ValueOf(Decimal(n) + more) == n <==> more == []
    decreases |more|
  {
    var s := Decimal(n) + more;
    forall i | 0 <= i < |s|
      ensures IsDigit(s[i])
    {
      assert s[i] in Decimal(n) || s[i] in more;
    }
    if more == [] {
      assert s == Decimal(n);
      ValueOfDecimal(n);
    } else {
      var fewer := more[..|more| - 1];
      assert forall c :: c in fewer ==> c in more;
      LongerRunsAreLarger(n, fewer);
      assert s[..|s| - 1] == Decimal(n) + fewer;
    }
  }

  lemma FieldAsPrinted(n: Field, rest: string)
    ensures ToInt(Decimal(n) + rest) == None
         || ToInt(Decimal(n) + rest).value.rest == rest[DigitRun(rest)..]
    ensures n == 0 && DigitRun(rest) == 0 ==> ToField(Decimal(n) + rest) == None
    ensures n > 0 && DigitRun(rest) == 0 ==> ToField(Decimal(n) + rest) == Some(Scanned(n, rest))
    ensures n > 0 && DigitRun(rest) > 0 ==> ToField(Decimal(n) + rest) == None || ToField(Decimal(n) + rest).value.value != n
  {
    var s := Decimal(n) + rest;
    var digits, more := Decimal(n), rest[..DigitRun(rest)];
    RunOfDigits(digits, rest);
    assert digits[0] in digits && s[0] == digits[0];
    assert SkipSpace(s) == s;
    assert s[..DigitRun(s)] == digits + more;
    assert s[DigitRun(s)..] == rest[DigitRun(rest)..];
    if n > 0 {
      LongerRunsAreLarger(n, more);
    } else if more == [] {
      assert digits + more == digits;
      ValueOfDecimal(0);
    }
  }

  /** A printed number is a field exactly from 1 to 65535. */
  lemma FieldRange(n: nat)
    ensures ToField(Decimal(n)).Some? <==> 1 <= n <= 65535
    ensures 1 <= n <= 65535 ==> ToField(Decimal(n)).value.value == n
  {
    hide Decimal;
    NumberAsPrinted(n);
  }

  lemma NumberAsPrinted(n: nat)
    ensures ToInt(Decimal(n)) == if n < 0x8000_0000 then Some(Scanned(n, "")) else None
  {
    var digits := Decimal(n);
    RunOfDigits(digits, "");
    assert digits + "" == digits;
    assert digits[0] in digits && SkipSpace(digits) == digits;
    assert digits[..|digits|] == digits && digits[|digits|..] == "";
    ValueOfDecimal(n);
  }

  /** In digits: the number is decimal, space and a plus sign may come before it, a minus may not. */
  lemma InDigits()
    ensures Print(Mode(1920, 1080, 60)) == "1920x1080@60"
    ensures forall old_: Mode :: SetMode(old_, "1920x1080@60") == Outcome(Mode(1920, 1080, 60), None)
    ensures ToField(" +7") == Some(Scanned(7, "")) && ToField("-7") == None && ToField("x") == None
  {
    hide Decimal, ToField, SetMode, DigitRun;
    DigitsOfWidth();
    DigitsOfHeight();
    DigitsOfRate();
    DigitsAtAnEnd();
    forall old_: Mode
      ensures SetMode(old_, "1920x1080@60") == Outcome(Mode(1920, 1080, 60), None)
    {
      WritingWhatWasRead(old_, Mode(1920, 1080, 60), "");
      assert Print(Mode(1920, 1080, 60)) + "" == "1920x1080@60";
    }
    SpacePlusSeven();
    MinusSeven();
    NoNumber();
  }

  lemma DigitsAtAnEnd()
    ensures DigitRun("") == 0
  {
  }

  lemma LastDigit(n: nat)
    ensures Decimal(n) == (if n < 10 then "" else Decimal(n / 10)) + [DigitOf(n % 10)]
  {
    if n < 10 {
      assert "" + [DigitOf(n)] == [DigitOf(n)];
    }
  }

  lemma DigitsOfWidth()
    ensures Decimal(1920) == "1920"
  {
    hide Decimal;
    LastDigit(1);
    LastDigit(19);
    LastDigit(192);
    LastDigit(1920);
  }

  lemma DigitsOfHeight()
    ensures Decimal(1080) == "1080"
  {
    hide Decimal;
    LastDigit(1);
    LastDigit(10);
    LastDigit(108);
    LastDigit(1080);
  }

  lemma DigitsOfRate()
    ensures Decimal(60) == "60"
  {
    hide Decimal;
    LastDigit(6);
    LastDigit(60);
  }

  lemma OneDigit()
    ensures DigitRun("7") == 1 && ValueOf("7") == 7
  {
    assert "7"[1..] == "" && "7"[..0] == "";
  }

  lemma SpacePlusSeven()
    ensures ToField(" +7") == Some(Scanned(7, ""))
  {
    OneDigit();
    hide DigitRun, ValueOf;
    assert " +7"[1..] == "+7" && "+7"[1..] == "7" && "7"[1..] == "" && "7"[..1] == "7";
    assert SkipSpace("+7") == "+7";
  }

  lemma MinusSeven()
    ensures ToField("-7") == None
  {
    OneDigit();
    hide DigitRun, ValueOf;
    assert "-7"[1..] == "7" && "7"[..1] == "7";
    assert SkipSpace("-7") == "-7";
  }

  lemma NoNumber()
    ensures ToField("x") == None
  {
    assert SkipSpace("x") == "x" && DigitRun("x") == 0;
  }

  predicate Printable(m: Mode) {
    m.width > 0 && m.height > 0 && m.rate > 0
  }

  /** Writing back what was read restores the mode, whatever the property held, even with text
      appended, if and only if no field is zero and the text does not start with a digit. */
  lemma WritingWhatWasRead(old_: Mode, m: Mode, tail: string)
    ensures SetMode(old_, Print(m) + tail) == Outcome(m, None) <==> Printable(m) && DigitRun(tail) == 0
  {
    hide ToField, Decimal, DigitRun;
    var r := Decimal(m.rate) + tail;
    var h := Decimal(m.height) + ("@" + r);
    assert Print(m) + tail == Decimal(m.width) + ("x" + h);
    NoDigits('x', h);
    NoDigits('@', r);
    FieldAsPrinted(m.width, "x" + h);
    FieldAsPrinted(m.height, "@" + r);
    FieldAsPrinted(m.rate, tail);
    assert ("x" + h)[1..] == h && ("@" + r)[1..] == r;
    RateAsPrinted(m.rate, tail);
  }

  lemma NoDigits(c: char, s: string)
    requires !IsDigit(c)
    ensures DigitRun([c] + s) == 0
  {
  }

  lemma RateAsPrinted(n: Field, tail: string)
    ensures ToField(Decimal(n) + tail).Some? && ToField(Decimal(n) + tail).value.value == n <==> n > 0 && DigitRun(tail) == 0
  {
    hide Decimal, ToInt;
    FieldAsPrinted(n, tail);
  }

  /** An accepted write leaves a mode that can be read and written back. */
  lemma AcceptedModesArePrintable(old_: Mode, s: string)
    ensures SetMode(old_, s).error == None ==> Printable(SetMode(old_, s).mode)
  {
    hide ToInt;
  }

  /** The text behind the width, if the width parses and the separator follows. */
  function BehindWidth(s: string): Option<string> {
    match ToField(s)
    case None => None
    case Some(w) => After(w.rest, 'x')
  }

  /** The height, if the parser gets that far and finds one. */
  function HeightIn(s: string): Option<Field> {
    match BehindWidth(s)
    case None => None
    case Some(s2) => match ToField(s2) case None => None case Some(h) => Some(h.value)
  }

  function WidthIn(s: string): Option<Field> {
    match ToField(s) case None => None case Some(w) => Some(w.value)
  }

  /** A refused write stores the fields it has parsed, and keeps the others: it changes nothing if
      and only if the width does not parse, or is the old one and the height is either not reached,
      not parsed or the old one. */
  lemma RefusedWritesAreNotUndone(old_: Mode, s: string)
    requires SetMode(old_, s).error.Some?
    ensures var now := SetMode(old_, s).mode;
            && now.rate == old_.rate
            && now.width == (if WidthIn(s).Some? then WidthIn(s).value else old_.width)
            && now.height == (if HeightIn(s).Some? then HeightIn(s).value else old_.height)
            && (now == old_ <==>
                  || WidthIn(s) == None
                  || (WidthIn(s) == Some(old_.width) && (HeightIn(s) == None || HeightIn(s) == Some(old_.height))))
  {
    hide ToField;
  }

  /** Which of the fields parsed is told by the error. */
  lemma ErrorsTellWhatWasStored(old_: Mode, s: string)
    ensures match SetMode(old_, s).error
            case Some(BadWidth) => WidthIn(s) == None
            case Some(BadHeight) => WidthIn(s).Some? && BehindWidth(s).Some? && HeightIn(s) == None
            case Some(BadRate) => WidthIn(s).Some? && HeightIn(s).Some?
            case Some(BadFormat) => WidthIn(s).Some? && (BehindWidth(s) == None || HeightIn(s).Some?)
            case None => WidthIn(s).Some? && HeightIn(s).Some?
  {
    hide ToField;
  }

  /** A write that is refused for its height, and has replaced the width. */
  lemma HalfAModeIsStored(old_: Mode, m: Mode)
    requires Printable(m)
    ensures SetMode(old_, Decimal(m.width) + "x") == Outcome(old_.(width := m.width), Some(BadHeight))
  {
    hide Decimal;
    NoDigits('x', "");
    assert "x" + "" == "x";
    FieldAsPrinted(m.width, "x");
    NothingToParse();
  }

  lemma NothingToParse()
    ensures ToField("x"[1..]) == None
  {
    assert "x"[1..] == "";
  }

  /** The property, whose fields are stored one by one as they are parsed. */
  class Property {
    var width: Field
    var height: Field
    var rate: Field

    function Now(): Mode
      reads this
    {
      Mode(width, height, rate)
    }

    method Get() returns (s: string)
      ensures s == Print(Now())
    {
      s := Decimal(width) + "x" + Decimal(height) + "@" + Decimal(rate);
    }

    method Set(s: string) returns (error: Option<Error>)
      modifies this
      ensures Outcome(Now(), error) == SetMode(old(Now()), s)
    {
      hide ToField;
      var scanned := ToField(s);
      if scanned == None {
        return Some(BadWidth);
      }
      width := scanned.value.value;
      var rest := scanned.value.rest;
      if rest == [] || rest[0] != 'x' {
        return Some(BadFormat);
      }
      scanned := ToField(rest[1..]);
      if scanned == None {
        return Some(BadHeight);
      }
      height := scanned.value.value;
      rest := scanned.value.rest;
      if rest == [] || rest[0] != '@' {
        return Some(BadFormat);
      }
      scanned := ToField(rest[1..]);
      if scanned == None {
        return Some(BadRate);
      }
      rate := scanned.value.value;
      return None;
    }
  }
}
