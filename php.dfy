/** Value-level models of the PHP built-ins that the catalogue backends rely on:
    nullable values, `empty()` and truthiness on strings, `strtolower`,
    `basename`, the extension part of `pathinfo`, `end(explode('.', ...))`
    and the `(int)` cast applied to a string. */
module Php {

  /** A nullable value (`null` is `None`). */
  datatype Option<+T> = None | Some(value: T) {
    /** The `??` operator: the value, or `default` when it is null or absent. */
    function GetOr(default: T): T {
      match this
      case Some(v) => v
      case None => default
    }
  }

  /** The set holding an optional value: empty for null. */
  function SetOf<T>(o: Option<T>): set<T> {
    if o.Some? then {o.value} else {}
  }

  /** A request field that PHP later tests with `is_numeric` and converts with
      `(float)`; both verdicts are part of the value (float parsing is not modelled). */
  datatype NumericField = NumericField(isNumeric: bool, asFloat: real)

  /** `empty($s)` for a string: true for "" and for "0". */
  predicate IsEmptyString(s: string) {
    s == "" || s == "0"
  }

  /** The truthiness of a nullable string used in `if ($url && ...)`. */
  predicate Truthy(o: Option<string>) {
    o.Some? && !IsEmptyString(o.value)
  }

  function LowerChar(c: char): char {
    if 'A' <= c <= 'Z' then (c as int + 32) as char else c
  }

  /** `strtolower`: ASCII letters only. */
  function ToLower(s: string): (r: string)
    ensures |r| == |s|
  {
    if s == [] then [] else [LowerChar(s[0])] + ToLower(s[1..])
  }

  /** `strtolower` maps each character on its own. */
  lemma {:induction false} ToLowerPointwise(s: string)
    ensures forall i :: 0 <= i < |s| ==> ToLower(s)[i] == LowerChar(s[i])
    decreases |s|
  {
    if s != [] {
      ToLowerPointwise(s[1..]);
      assert forall i :: 1 <= i < |s| ==> ToLower(s)[i] == ToLower(s[1..])[i - 1];
    }
  }

  /** The part of `s` after the last occurrence of `c`; all of `s` when `c`
      does not occur in it. */
  function AfterLast(s: string, c: char): (r: string)
    ensures c !in r
    ensures |r| <= |s|
  {
    if s == [] then []
    else if s[|s| - 1] == c then []
    else AfterLast(s[..|s| - 1], c) + [s[|s| - 1]]
  }

  /** `AfterLast(s, c)` is a suffix of `s`. */
  lemma {:induction false} AfterLastIsSuffix(s: string, c: char)
    ensures forall i :: 0 <= i < |AfterLast(s, c)| ==> AfterLast(s, c)[i] == s[|s| - |AfterLast(s, c)| + i]
    decreases |s|
  {
    if s != [] && s[|s| - 1] != c {
      var front := s[..|s| - 1];
      AfterLastIsSuffix(front, c);
      var rf := AfterLast(front, c);
      var r := AfterLast(s, c);
      assert r == rf + [s[|s| - 1]];
      forall i | 0 <= i < |r|
        ensures r[i] == s[|s| - |r| + i]
      {
        if i < |rf| {
          assert r[i] == rf[i] == front[|front| - |rf| + i];
        }
      }
    }
  }

  /** Without a `c` in `s`, `AfterLast(s, c)` is all of `s`. */
  lemma {:induction false} AfterLastWithout(s: string, c: char)
    requires c !in s
    ensures AfterLast(s, c) == s
    decreases |s|
  {
    if s != [] {
      var front := s[..|s| - 1];
      assert s[|s| - 1] in s;
      assert forall x :: x in front ==> x in s;
      AfterLastWithout(front, c);
      assert s == front + [s[|s| - 1]];
    }
  }

  /** With a `c` in `s`, `AfterLast(s, c)` is shorter than `s` and preceded
      by a `c`. */
  lemma {:induction false} AfterLastFollowsC(s: string, c: char)
    requires c in s
    ensures |AfterLast(s, c)| < |s| && s[|s| - |AfterLast(s, c)| - 1] == c
    decreases |s|
  {
    if s[|s| - 1] != c {
      var front := s[..|s| - 1];
      assert s == front + [s[|s| - 1]];
      assert c in front;
      AfterLastFollowsC(front, c);
    }
  }

  /** `s` without its trailing slashes. */
  function TrimTrailingSlashes(s: string): (r: string)
    ensures |r| <= |s|
    ensures r == [] || r[|r| - 1] != '/'
  {
    if s != [] && s[|s| - 1] == '/' then TrimTrailingSlashes(s[..|s| - 1]) else s
  }

  /** Trimming keeps a prefix of `s` and removes only slashes. */
  lemma {:induction false} TrimTrailingSlashesIsPrefix(s: string)
    ensures var r := TrimTrailingSlashes(s);
      && (forall i :: 0 <= i < |r| ==> r[i] == s[i])
      && (forall i :: |r| <= i < |s| ==> s[i] == '/')
    decreases |s|
  {
    if s != [] && s[|s| - 1] == '/' {
      TrimTrailingSlashesIsPrefix(s[..|s| - 1]);
    }
  }

  /** `basename($path)` on a POSIX system: trailing slashes are ignored and the
      result is what follows the last remaining slash. */
  function Basename(path: string): (r: string)
    ensures '/' !in r
  {
    AfterLast(TrimTrailingSlashes(path), '/')
  }

  /** `pathinfo($name, PATHINFO_EXTENSION)`: what follows the last dot of the
      basename, or "" when the basename has no dot (when the part after the
      last dot is the whole basename). */
  function PathInfoExtension(name: string): (r: string)
    ensures '.' !in r
  {
    var b := Basename(name);
    var e := AfterLast(b, '.');
    if |e| == |b| then "" else e
  }

  /** The extension is what follows the last dot of the basename, and there
      is none exactly when the basename has no dot. */
  lemma PathInfoExtensionSpec(name: string)
    ensures '.' in Basename(name) ==> PathInfoExtension(name) == AfterLast(Basename(name), '.')
    ensures '.' !in Basename(name) ==> PathInfoExtension(name) == ""
  {
    if '.' in Basename(name) {
      AfterLastFollowsC(Basename(name), '.');
    } else {
      AfterLastWithout(Basename(name), '.');
    }
  }

  /** `end(explode('.', $name))`: what follows the last dot, or the whole
      name when it has no dot. */
  function LastDotSegment(name: string): (r: string)
    ensures '.' !in r
  {
    AfterLast(name, '.')
  }

  /** Joining a directory path that is empty or ends in a slash with a
      slash-free entry `f` leaves exactly `f` after the last slash. */
  lemma {:induction false} AfterLastOfJoin(dir: string, f: string, c: char)
    requires dir == [] || dir[|dir| - 1] == c
    requires c !in f
    ensures AfterLast(dir + f, c) == f
    decreases |f|
  {
    if f == [] {
      assert dir + f == dir;
    } else {
      var g := f[..|f| - 1];
      assert (dir + f)[..|dir + f| - 1] == dir + g;
      assert (dir + f)[|dir + f| - 1] == f[|f| - 1];
      AfterLastOfJoin(dir, g, c);
      assert g + [f[|f| - 1]] == f;
    }
  }

  /** The basename of "<dir>/<f>" is `f` when `f` is a non-empty name without
      slashes: the identity every "file path from stored URL" step relies on. */
  lemma BasenameOfJoin(dir: string, f: string)
    requires dir == [] || dir[|dir| - 1] == '/'
    requires f != [] && '/' !in f
    ensures Basename(dir + f) == f
  {
    var p := dir + f;
    assert p[|p| - 1] == f[|f| - 1];
    assert TrimTrailingSlashes(p) == p;
    AfterLastOfJoin(dir, f, '/');
  }

  /** For a client file name without slashes that contains a dot, `pathinfo`
      and `explode`/`end` agree on the extension. */
  lemma ExtensionRulesAgree(name: string)
    requires '/' !in name && '.' in name
    ensures PathInfoExtension(name) == LastDotSegment(name)
  {
    assert name[|name| - 1] != '/';
    assert TrimTrailingSlashes(name) == name;
    AfterLastWithout(name, '/');
    assert Basename(name) == name;
    PathInfoExtensionSpec(name);
  }

  /** Without a dot they differ: `explode`/`end` yields the whole name. */
  lemma ExtensionRulesDifferWithoutDot()
    ensures LastDotSegment("png") == "png"
    ensures PathInfoExtension("png") == ""
  {
    assert '/' !in "png" && '.' !in "png";
    assert TrimTrailingSlashes("png") == "png";
    AfterLastWithout("png", '/');
    AfterLastWithout("png", '.');
  }

  predicate IsDigit(c: char) {
    '0' <= c <= '9'
  }

  /** Every character is a decimal digit. */
  predicate AllDigits(s: string) {
    s == [] || (IsDigit(s[0]) && AllDigits(s[1..]))
  }

  /** The longest prefix of `s` made of decimal digits. */
  function DigitPrefix(s: string): (r: string)
    ensures |r| <= |s|
  {
    if s != [] && IsDigit(s[0]) then [s[0]] + DigitPrefix(s[1..]) else []
  }

  /** The value of one decimal digit (0 for any other character). */
  function DigitValue(c: char): nat {
    if IsDigit(c) then c as int - '0' as int else 0
  }

  /** The value of a run of decimal digits. */
  function DecimalValue(ds: string): nat {
    ValueAfter(0, ds)
  }

  /** Horner's rule: the value of `ds` read after digits worth `acc`. */
  function ValueAfter(acc: nat, ds: string): nat
    decreases ds
  {
    if ds == [] then acc else ValueAfter(acc * 10 + DigitValue(ds[0]), ds[1..])
  }

  predicate IsSpace(c: char) {
    c == ' ' || c == '\t' || c == '\n' || c == '\r' || c == '\U{000B}' || c == '\U{000C}'
  }

  function SkipSpaces(s: string): string {
    if s != [] && IsSpace(s[0]) then SkipSpaces(s[1..]) else s
  }

  /** `PHP_INT_MAX` and `PHP_INT_MIN` of a 64-bit build. */
  const PhpIntMax: int := 0x7FFF_FFFF_FFFF_FFFF
  const PhpIntMin: int := -0x8000_0000_0000_0000

  /** The least magnitude a decimal number may have and still round to an
      infinite double: halfway between the largest finite double and 2^1024,
      a tie that rounds to the even neighbour 2^1024. */
  const DoubleOverflow: nat := 0xfffffffffffffc00000000000000000000000000000000000000000000000000000000000000000000000000000000000000000000000000000000000000000000000000000000000000000000000000000000000000000000000000000000000000000000000000000000000000000000000000000000000000000000000000

  /** The leading number of a string as PHP's numeric-string scan reads it:
      its sign, its digits with the decimal point left out, and the power of
      ten they are scaled by (the exponent less the count of fraction digits). */
  datatype Numeral = Numeral(negative: bool, digits: nat, scale: int)

  /** The exponent that follows a mantissa: `e` or `E`, then an optionally
      signed run of digits; 0 when there is none. */
  function ExponentOf(s: string): int {
    if s != [] && (s[0] == 'e' || s[0] == 'E') then SignedDigits(s[1..]) else 0
  }

  /** An optional sign and the digits after it. */
  function SignedDigits(x: string): int {
    if x != [] && x[0] == '-' then 0 - DecimalValue(DigitPrefix(x[1..]))
    else if x != [] && x[0] == '+' then DecimalValue(DigitPrefix(x[1..]))
    else DecimalValue(DigitPrefix(x))
  }

  /** The numeric prefix of `s` after leading white space, in the grammar of
      `strtod`: an optional sign, then an unsigned number. None when the
      string does not start with a number. */
  function LeadingNumeral(s: string): Option<Numeral> {
    var t := SkipSpaces(s);
    if t != [] && (t[0] == '-' || t[0] == '+') then
      match UnsignedNumeral(t[1..])
      case None => None
      case Some(n) => Some(n.(negative := t[0] == '-'))
    else UnsignedNumeral(t)
  }

  /** An unsigned number: digits, a decimal point with fraction digits and
      an exponent; a point must be followed by a digit when no digit
      precedes it. */
  function UnsignedNumeral(u: string): (r: Option<Numeral>)
    ensures r.Some? ==> !r.value.negative
  {
    var whole := DigitPrefix(u);
    var rest := u[|whole|..];
    if rest != [] && rest[0] == '.' && (whole != [] || (|rest| > 1 && IsDigit(rest[1]))) then
      Some(WithFraction(whole, rest[1..]))
    else if whole == [] then None
    else Some(Numeral(false, DecimalValue(whole), ExponentOf(rest)))
  }

  /** The number whose integer digits are `whole` and whose text after the
      point is `r`: the fraction digits, then the exponent. */
  function WithFraction(whole: string, r: string): (n: Numeral)
    ensures !n.negative
  {
    var frac := DigitPrefix(r);
    Numeral(false, Mantissa(whole, frac), ExponentOf(r[|frac|..]) - |frac|)
  }

  /** The digits of a mantissa read as one integer, the point left out. */
  function Mantissa(whole: string, frac: string): (r: nat)
    ensures frac == [] ==> r == DecimalValue(whole)
  {
    ValueAfter(DecimalValue(whole), frac)
  }

  /** `digits` times ten to the `k`. */
  function ScaleUp(digits: nat, k: nat): nat
    decreases k
  {
    if k == 0 then digits else ScaleUp(digits * 10, k - 1)
  }

  /** The integer part of `digits` divided by ten to the `k`. */
  function ScaleDown(digits: nat, k: nat): nat
    decreases k
  {
    if k == 0 then digits else ScaleDown(digits / 10, k - 1)
  }

  /** The integer part of `digits` times ten to the `scale`. */
  function Truncated(digits: nat, scale: int): nat {
    if scale >= 0 then ScaleUp(digits, scale) else ScaleDown(digits, -scale)
  }

  /** `digits` times ten to the `scale` rounds to an infinite double. */
  predicate Overflows(digits: nat, scale: int) {
    if scale >= 0 then ScaleUp(digits, scale) >= DoubleOverflow
    else digits >= ScaleUp(DoubleOverflow, -scale)
  }

  /** A conversion that saturates at the 64-bit limits. */
  function Saturate(v: int): (r: int)
    ensures PhpIntMin <= r <= PhpIntMax
    ensures PhpIntMin <= v <= PhpIntMax ==> r == v
    ensures v > PhpIntMax ==> r == PhpIntMax
    ensures v < PhpIntMin ==> r == PhpIntMin
  {
    if v > PhpIntMax then PhpIntMax else if v < PhpIntMin then PhpIntMin else v
  }

  /** The integer a leading number casts to: truncated toward zero and
      saturated at the 64-bit limits; 0 when there is no number, and 0 when
      the number is too large for a double (PHP casts the infinite double
      to 0). */
  function NumeralToInt(n: Option<Numeral>): (r: int)
    ensures PhpIntMin <= r <= PhpIntMax
    ensures n.None? ==> r == 0
  {
    match n
    case None => 0
    case Some(Numeral(negative, digits, scale)) =>
      if Overflows(digits, scale) then 0
      else
        var m := Truncated(digits, scale);
        Saturate(if negative then 0 - m else m)
  }

  /** `(int)$s` for a string: the leading number after white space, cast as
      `NumeralToInt` says. The number is read exactly; PHP first rounds a
      fraction or an exponent form to the nearest double. */
  function StringToInt(s: string): (r: int)
    ensures PhpIntMin <= r <= PhpIntMax
    ensures LeadingNumeral(s).None? ==> r == 0
  {
    NumeralToInt(LeadingNumeral(s))
  }

  /** The run `DigitPrefix` reads is a prefix of its input, holds only
      digits, and is the longest such prefix. */
  lemma {:induction false} DigitPrefixSpec(s: string)
    ensures var r := DigitPrefix(s);
      && r == s[..|r|] && AllDigits(r)
      && (|r| < |s| ==> !IsDigit(s[|r|]))
  {
    if s != [] && IsDigit(s[0]) {
      DigitPrefixSpec(s[1..]);
      var r := DigitPrefix(s);
      assert r[1..] == DigitPrefix(s[1..]);
    }
  }

  /** A digit run followed by a non-digit reads as exactly that run. */
  lemma {:induction false} DigitPrefixStops(ds: string, rest: string)
    requires AllDigits(ds)
    requires rest == [] || !IsDigit(rest[0])
    ensures DigitPrefix(ds + rest) == ds
  {
    if ds != [] {
      assert (ds + rest)[1..] == ds[1..] + rest;
      DigitPrefixStops(ds[1..], rest);
    }
  }

  /** An exponent is `e` or `E` and digits; what follows the digits is
      ignored. */
  lemma ExponentForm(e: char, x: string, rest: string)
    requires e == 'e' || e == 'E'
    requires x != [] && AllDigits(x) && (rest == [] || !IsDigit(rest[0]))
    ensures ExponentOf([e] + x + rest) == DecimalValue(x)
  {
    var s := [e] + x + rest;
    assert s[0] == e && s[1..] == x + rest;
    assert SignedDigits(x + rest) == DecimalValue(x) by {
      DigitPrefixStops(x, rest);
      assert (x + rest)[0] == x[0] && IsDigit(x[0]);
    }
  }

  /** A sign between `e` and the digits applies to the exponent. */
  lemma SignedExponentForm(e: char, sign: char, x: string, rest: string)
    requires e == 'e' || e == 'E'
    requires sign == '-' || sign == '+'
    requires AllDigits(x) && (rest == [] || !IsDigit(rest[0]))
    ensures ExponentOf([e, sign] + x + rest) == if sign == '-' then 0 - DecimalValue(x) else DecimalValue(x)
  {
    DigitPrefixStops(x, rest);
    var s := [e, sign] + x + rest;
    assert s[1..][0] == sign && s[1..][1..] == x + rest;
  }

  /** A number without a point: its digits, then an exponent or anything
      that is neither a digit nor a point. */
  lemma IntegerForm(w: string, tail: string)
    requires w != [] && AllDigits(w)
    requires tail == [] || (!IsDigit(tail[0]) && tail[0] != '.')
    ensures UnsignedNumeral(w + tail) == Some(Numeral(false, DecimalValue(w), ExponentOf(tail)))
  {
    DigitPrefixStops(w, tail);
    assert (w + tail)[|w|..] == tail;
  }

  /** A point after the integer digits starts the fraction when a digit
      is next to it. */
  lemma PointStartsFraction(w: string, r: string)
    requires AllDigits(w) && (w != [] || (r != [] && IsDigit(r[0])))
    ensures UnsignedNumeral(w + "." + r) == Some(WithFraction(w, r))
  {
    var rest := "." + r;
    DigitPrefixStops(w, rest);
    assert w + "." + r == w + rest;
    assert (w + rest)[|w|..] == rest;
    assert rest[0] == '.' && rest[1..] == r;
    if w == [] {
      assert |rest| > 1 && rest[1] == r[0];
    }
  }

  /** The fraction digits join the mantissa and lower the scale; the
      exponent follows them. */
  lemma FractionDigits(w: string, f: string, tail: string)
    requires AllDigits(f) && (tail == [] || !IsDigit(tail[0]))
    ensures WithFraction(w, f + tail) == Numeral(false, Mantissa(w, f), ExponentOf(tail) - |f|)
  {
    DigitPrefixStops(f, tail);
    assert (f + tail)[|f|..] == tail;
  }

  /** A number with a point: the digits on both sides form the mantissa and
      the fraction digits lower the scale; a point needs a digit next to it. */
  lemma FractionForm(w: string, f: string, tail: string)
    requires AllDigits(w) && AllDigits(f) && (w != [] || f != [])
    requires tail == [] || !IsDigit(tail[0])
    ensures UnsignedNumeral(w + "." + f + tail) == Some(Numeral(false, Mantissa(w, f), ExponentOf(tail) - |f|))
  {
    assert w + "." + f + tail == w + "." + (f + tail);
    PointStartsFraction(w, f + tail);
    FractionDigits(w, f, tail);
  }

  /** A string of digits alone casts to its value, saturated at
      `PHP_INT_MAX`, and to 0 once it is too large for a double. */
  lemma StringToIntOfDigits(ds: string)
    requires ds != [] && AllDigits(ds)
    ensures StringToInt(ds) == (if DecimalValue(ds) >= DoubleOverflow then 0 else Saturate(DecimalValue(ds)))
  {
    var v := DecimalValue(ds);
    assert !IsSpace(ds[0]) && ds[0] != '-' && ds[0] != '+';
    assert SkipSpaces(ds) == ds;
    IntegerForm(ds, []);
    assert ds + [] == ds;
    assert Truncated(v, 0) == v;
  }

  /** A leading integer is read whole: "42" is 42. */
  lemma StringToIntReadsDigits()
    ensures StringToInt("42") == 42
  {
    assert DecimalValue("42") == 42 by {
      assert DecimalValue("4") == 4;
    }
    StringToIntOfDigits("42");
  }

  /** A string that does not start with a number casts to 0. */
  lemma StringToIntWithoutNumber()
    ensures StringToInt("abc") == 0
    ensures StringToInt("") == 0
    ensures StringToInt(".e1") == 0
  {
    assert LeadingNumeral("abc") == None by {
      assert !IsSpace('a');
      assert DigitPrefix("abc") == "";
    }
    assert LeadingNumeral(".e1") == None by {
      assert !IsSpace('.');
      assert DigitPrefix(".e1") == "";
    }
  }

  /** The cast skips leading white space, reads a sign and ignores what
      follows the digits: " -7px" is -7. */
  lemma StringToIntSkipsAndStops()
    ensures StringToInt(" -7px") == -7
  {
    assert LeadingNumeral(" -7px") == Some(Numeral(true, 7, 0)) by {
      assert SkipSpaces(" -7px") == "-7px";
      assert "-7px"[1..] == "7" + "px";
      IntegerForm("7", "px");
      assert DecimalValue("7") == 7;
    }
  }

  /** An exponent scales the mantissa: "1e3" is 1000. */
  lemma StringToIntReadsExponent()
    ensures StringToInt("1e3") == 1000
  {
    assert LeadingNumeral("1e3") == Some(Numeral(false, 1, 3)) by {
      assert SkipSpaces("1e3") == "1e3";
      assert "1e3" == "1" + "e3";
      IntegerForm("1", "e3");
      assert "e3" == ['e'] + "3" + "";
      ExponentForm('e', "3", "");
      assert DecimalValue("1") == 1 && DecimalValue("3") == 3;
    }
    assert ScaleUp(1, 3) == 1000;
  }

  /** A fraction joins the mantissa before the exponent scales it:
      "1.5e3" is 1500. */
  lemma StringToIntReadsFraction()
    ensures StringToInt("1.5e3") == 1500
  {
    assert LeadingNumeral("1.5e3") == Some(Numeral(false, 15, 2)) by {
      assert SkipSpaces("1.5e3") == "1.5e3";
      assert "1.5e3" == "1" + "." + "5" + "e3";
      FractionForm("1", "5", "e3");
      assert "e3" == ['e'] + "3" + "";
      ExponentForm('e', "3", "");
      assert DecimalValue("3") == 3;
      assert Mantissa("1", "5") == 15 by {
        assert DecimalValue("1") == 1;
      }
    }
    assert ScaleUp(15, 2) == 1500;
  }

  /** What follows the point is cut off toward zero, not toward minus
      infinity: "-2.5" is -2. */
  lemma StringToIntTruncatesTowardZero()
    ensures StringToInt("-2.5") == -2
  {
    assert LeadingNumeral("-2.5") == Some(Numeral(true, 25, -1)) by {
      assert SkipSpaces("-2.5") == "-2.5";
      assert "-2.5"[1..] == "2" + "." + "5" + "";
      FractionForm("2", "5", "");
      assert Mantissa("2", "5") == 25 by {
        assert DecimalValue("2") == 2;
      }
    }
    assert ScaleDown(25, 1) == 2;
  }

  /** Ten to the nineteenth, one step of `ScaleUp` at a time. */
  lemma TenToTheNineteen()
    ensures ScaleUp(1, 19) == 10000000000000000000
  {
    assert ScaleUp(1, 19) == ScaleUp(10, 18);
    assert ScaleUp(10, 18) == ScaleUp(100, 17);
    assert ScaleUp(100, 17) == ScaleUp(1000, 16);
    assert ScaleUp(1000, 16) == ScaleUp(10000, 15);
    assert ScaleUp(10000, 15) == ScaleUp(100000, 14);
    assert ScaleUp(100000, 14) == ScaleUp(1000000, 13);
    assert ScaleUp(1000000, 13) == ScaleUp(10000000, 12);
    assert ScaleUp(10000000, 12) == ScaleUp(100000000, 11);
    assert ScaleUp(100000000, 11) == ScaleUp(1000000000, 10);
    assert ScaleUp(1000000000, 10) == ScaleUp(10000000000, 9);
    assert ScaleUp(10000000000, 9) == ScaleUp(100000000000, 8);
    assert ScaleUp(100000000000, 8) == ScaleUp(1000000000000, 7);
    assert ScaleUp(1000000000000, 7) == ScaleUp(10000000000000, 6);
    assert ScaleUp(10000000000000, 6) == ScaleUp(100000000000000, 5);
    assert ScaleUp(100000000000000, 5) == ScaleUp(1000000000000000, 4);
    assert ScaleUp(1000000000000000, 4) == ScaleUp(10000000000000000, 3);
    assert ScaleUp(10000000000000000, 3) == ScaleUp(100000000000000000, 2);
    assert ScaleUp(100000000000000000, 2) == ScaleUp(1000000000000000000, 1);
    assert ScaleUp(1000000000000000000, 1) == ScaleUp(10000000000000000000, 0);
  }

  /** A number beyond the 64-bit range saturates: "1e19" is `PHP_INT_MAX`
      and "-1e19" is `PHP_INT_MIN`. */
  lemma StringToIntSaturates()
    ensures StringToInt("1e19") == PhpIntMax
    ensures StringToInt("-1e19") == PhpIntMin
  {
    assert LeadingNumeral("1e19") == Some(Numeral(false, 1, 19)) by {
      assert SkipSpaces("1e19") == "1e19";
      assert "1e19" == "1" + "e19";
      IntegerForm("1", "e19");
      assert "e19" == ['e'] + "19" + "";
      ExponentForm('e', "19", "");
      assert DecimalValue("1") == 1;
      assert DecimalValue("19") == 19;
    }
    assert LeadingNumeral("-1e19") == Some(Numeral(true, 1, 19)) by {
      assert SkipSpaces("-1e19") == "-1e19";
      assert "-1e19"[1..] == "1e19";
    }
    TenToTheNineteen();
  }
}
