/** String handling the host relies on: `str::split` on one character and the
    unsigned `from_str_radix` / `parse::<u8>` of the Rust standard library. */
module Parsing {
  import opened Wrappers
  import opened Ints

  /* ---------------------------------------------------------------------- */
  /* Splitting                                                              */
  /* ---------------------------------------------------------------------- */

  /** Concatenation of `pieces` with `sep` between neighbours. */
  function Join(pieces: seq<string>, sep: char): string
    requires |pieces| >= 1
  {
    if |pieces| == 1 then pieces[0] else pieces[0] + [sep] + Join(pieces[1..], sep)
  }

  /** The pieces of `s` between occurrences of `sep`, as `str::split` yields
      them: empty pieces are kept and nothing is trimmed, so k separators
      always give k + 1 pieces. */
  function Split(s: string, sep: char): (pieces: seq<string>)
    ensures |pieces| >= 1
    ensures forall i :: 0 <= i < |pieces| ==> sep !in pieces[i]
    ensures Join(pieces, sep) == s
  {
    if |s| == 0 then [""]
    else
      var rest := Split(s[1..], sep);
      SplitStep(s, sep, rest);
      if s[0] == sep then [""] + rest else [[s[0]] + rest[0]] + rest[1..]
  }

  /** Join of a leading piece and a non-empty tail. */
  lemma JoinCons(x: string, t: seq<string>, sep: char)
    requires |t| >= 1
    ensures Join([x] + t, sep) == x + [sep] + Join(t, sep)
  {
    assert ([x] + t)[1..] == t;
  }

  /** One step of `Split`: the first character either ends an empty first
      piece or is prepended to the first piece of the rest. */
  lemma SplitStep(s: string, sep: char, rest: seq<string>)
    requires |s| > 0 && |rest| >= 1
    requires forall i :: 0 <= i < |rest| ==> sep !in rest[i]
    requires Join(rest, sep) == s[1..]
    ensures var pieces := if s[0] == sep then [""] + rest else [[s[0]] + rest[0]] + rest[1..];
      && (forall i :: 0 <= i < |pieces| ==> sep !in pieces[i])
      && Join(pieces, sep) == s
  {
    assert s == [s[0]] + s[1..];
    if s[0] == sep {
      JoinCons("", rest, sep);
      assert [""][0] == "" && ([""] + rest)[0] == "";
      forall i | 0 <= i < |[""] + rest| ensures sep !in ([""] + rest)[i] {
        if i > 0 { assert ([""] + rest)[i] == rest[i - 1]; }
      }
    } else {
      GlueFirstPiece(s[0], rest, sep);
    }
  }

  /** Prepending a non-separator character to the first piece prepends it
      to the join and keeps every piece separator-free. */
  lemma GlueFirstPiece(c: char, rest: seq<string>, sep: char)
    requires c != sep && |rest| >= 1
    requires forall i :: 0 <= i < |rest| ==> sep !in rest[i]
    ensures forall i :: 0 <= i < |[[c] + rest[0]] + rest[1..]| ==> sep !in ([[c] + rest[0]] + rest[1..])[i]
    ensures Join([[c] + rest[0]] + rest[1..], sep) == [c] + Join(rest, sep)
  {
    var pieces := [[c] + rest[0]] + rest[1..];
    if |rest| > 1 {
      JoinCons([c] + rest[0], rest[1..], sep);
      JoinCons(rest[0], rest[1..], sep);
      assert [rest[0]] + rest[1..] == rest;
    }
    forall i | 0 <= i < |pieces| ensures sep !in pieces[i] {
      if i > 0 { assert pieces[i] == rest[i]; }
    }
  }

  /** k separators give k + 1 pieces. */
  lemma {:induction false} SplitCount(s: string, sep: char)
    ensures |Split(s, sep)| == multiset(s)[sep] + 1
    decreases |s|
  {
    if |s| > 0 {
      SplitCount(s[1..], sep);
      assert s == [s[0]] + s[1..];
      assert multiset(s) == multiset{s[0]} + multiset(s[1..]);
    }
  }

  /** A string without the separator is a single piece. */
  lemma {:induction false} SplitWithoutSeparator(p: string, sep: char)
    requires sep !in p
    ensures Split(p, sep) == [p]
  {
    if |p| > 0 {
      SplitWithoutSeparator(p[1..], sep);
    }
  }

  /** A leading piece followed by the separator splits off on its own. */
  lemma {:induction false} SplitLeadingPiece(p: string, t: string, sep: char)
    requires sep !in p
    ensures Split(p + [sep] + t, sep) == [p] + Split(t, sep)
  {
    var s := p + [sep] + t;
    if |p| == 0 {
      assert s[0] == sep && s[1..] == t;
    } else {
      assert s[0] == p[0] && s[0] != sep;
      assert s[1..] == p[1..] + [sep] + t;
      SplitLeadingPiece(p[1..], t, sep);
      var rest := Split(s[1..], sep);
      assert rest == [p[1..]] + Split(t, sep);
      assert rest[0] == p[1..] && rest[1..] == Split(t, sep);
      assert Split(s, sep) == [[s[0]] + rest[0]] + rest[1..];
      assert [p[0]] + p[1..] == p;
    }
  }

  /** Split inverts Join: any separator-free pieces are recovered exactly,
      so Split is the only decomposition Join maps back to the string. */
  lemma {:induction false} SplitJoinRoundTrip(pieces: seq<string>, sep: char)
    requires |pieces| >= 1
    requires forall i :: 0 <= i < |pieces| ==> sep !in pieces[i]
    ensures Split(Join(pieces, sep), sep) == pieces
  {
    if |pieces| == 1 {
      SplitWithoutSeparator(pieces[0], sep);
    } else {
      SplitJoinRoundTrip(pieces[1..], sep);
      SplitLeadingPiece(pieces[0], Join(pieces[1..], sep), sep);
      assert [pieces[0]] + pieces[1..] == pieces;
    }
  }

  /* ---------------------------------------------------------------------- */
  /* Unsigned integer parsing                                               */
  /* ---------------------------------------------------------------------- */

  /** Rust's `ParseIntError` kinds that an unsigned parse can produce. */
  datatype IntErrorKind = Empty | InvalidDigit | PosOverflow

  /** The value of `c` as a digit in `radix` (`char::to_digit`): decimal
      digits, then letters of either case for radices above ten. */
  function DigitValue(c: char, radix: nat): (d: Option<nat>)
    requires 2 <= radix <= 36
    ensures d.Some? ==> d.value < radix
  {
    if '0' <= c <= '9' && (c as int) - ('0' as int) < radix then
      Some((c as int) - ('0' as int))
    else if 'a' <= c <= 'z' && (c as int) - ('a' as int) + 10 < radix then
      Some((c as int) - ('a' as int) + 10)
    else if 'A' <= c <= 'Z' && (c as int) - ('A' as int) + 10 < radix then
      Some((c as int) - ('A' as int) + 10)
    else
      None
  }

  predicate AllDigits(ds: string, radix: nat)
    requires 2 <= radix <= 36
  {
    forall i :: 0 <= i < |ds| ==> DigitValue(ds[i], radix).Some?
  }

  /** The mathematical value of the digit string `ds` read most significant
      first, continuing from an already-read prefix worth `acc`; no width
      limit applies here. */
  function ValueFrom(acc: nat, ds: string, radix: nat): (v: nat)
    requires 2 <= radix <= 36
    requires AllDigits(ds, radix)
    ensures v >= acc
    decreases |ds|
  {
    if |ds| == 0 then acc
    else
      var next := acc * radix + DigitValue(ds[0], radix).value;
      assert next >= acc by {
        assert acc * radix == acc + acc * (radix - 1);
      }
      var rest := ds[1..];
      assert AllDigits(rest, radix) by {
        forall i | 0 <= i < |rest|
          ensures DigitValue(rest[i], radix).Some?
        {
          assert rest[i] == ds[i + 1];
        }
      }
      ValueFrom(next, rest, radix)
  }

  /** Digit strings are closed under concatenation and under dropping the
      first character. */
  lemma AllDigitsSlices(a: string, b: string, radix: nat)
    requires 2 <= radix <= 36
    requires AllDigits(a, radix) && AllDigits(b, radix)
    ensures AllDigits(a + b, radix)
    ensures |a| > 0 ==> AllDigits(a[1..], radix)
  {
    forall i | 0 <= i < |a + b|
      ensures DigitValue((a + b)[i], radix).Some?
    {
      if i < |a| { assert (a + b)[i] == a[i]; } else { assert (a + b)[i] == b[i - |a|]; }
    }
    if |a| > 0 {
      var rest := a[1..];
      forall i | 0 <= i < |rest|
        ensures DigitValue(rest[i], radix).Some?
      {
        assert rest[i] == a[i + 1];
      }
    }
  }

  /** Reading `a + b` is reading `a`, then continuing with `b`. */
  lemma {:induction false} ValueFromConcat(acc: nat, a: string, b: string, radix: nat)
    requires 2 <= radix <= 36
    requires AllDigits(a, radix) && AllDigits(b, radix)
    ensures AllDigits(a + b, radix)
    ensures ValueFrom(acc, a + b, radix) == ValueFrom(ValueFrom(acc, a, radix), b, radix)
    decreases |a|
  {
    AllDigitsSlices(a, b, radix);
    if |a| == 0 {
      assert a + b == b;
    } else {
      var rest := a[1..];
      var next := acc * radix + DigitValue(a[0], radix).value;
      assert (a + b)[1..] == rest + b;
      assert (a + b)[0] == a[0];
      ValueFromConcat(next, rest, b, radix);
    }
  }

  /** Appending a digit multiplies the value by the radix and adds the digit. */
  lemma {:induction false} ValueFromAppend(acc: nat, ds: string, c: char, radix: nat)
    requires 2 <= radix <= 36
    requires AllDigits(ds, radix) && DigitValue(c, radix).Some?
    ensures AllDigits(ds + [c], radix)
    ensures ValueFrom(acc, ds + [c], radix)
         == ValueFrom(acc, ds, radix) * radix + DigitValue(c, radix).value
  {
    assert AllDigits([c], radix);
    ValueFromConcat(acc, ds, [c], radix);
    var v := ValueFrom(acc, ds, radix);
    assert [c][1..] == [];
    assert ValueFrom(v, [c], radix) == ValueFrom(v * radix + DigitValue(c, radix).value, [], radix);
  }

  /** The digit loop of `from_str_radix` for an unsigned type whose values
      lie below `bound`: a non-digit stops it with InvalidDigit, a checked
      multiply or add that leaves the type stops it with PosOverflow. */
  function Accumulate(ds: string, radix: nat, bound: nat, acc: nat): (r: Result<nat, IntErrorKind>)
    requires 2 <= radix <= 36
    requires acc < bound
    ensures r.Success? <==> AllDigits(ds, radix) && ValueFrom(acc, ds, radix) < bound
    ensures r.Success? ==> r.value == ValueFrom(acc, ds, radix)
    ensures r.Failure? ==> r.error != Empty
    decreases |ds|
  {
    if |ds| == 0 then Success(acc)
    else
      match DigitValue(ds[0], radix)
      case None => Failure(InvalidDigit)
      case Some(d) =>
        if acc * radix >= bound then Failure(PosOverflow)
        else if acc * radix + d >= bound then Failure(PosOverflow)
        else Accumulate(ds[1..], radix, bound, acc * radix + d)
  }

  /** The digits of a numeral: what follows at most one leading '+'. */
  function Digits(s: string): string {
    if |s| > 0 && s[0] == '+' then s[1..] else s
  }

  /** A numeral is an optional '+' followed by at least one digit. */
  predicate IsNumeral(s: string, radix: nat)
    requires 2 <= radix <= 36
  {
    |Digits(s)| > 0 && AllDigits(Digits(s), radix)
  }

  function NumeralValue(s: string, radix: nat): nat
    requires 2 <= radix <= 36
    requires IsNumeral(s, radix)
  {
    ValueFrom(0, Digits(s), radix)
  }

  /** `from_str_radix` for an unsigned integer type holding the values below
      `bound`. No whitespace is skipped: any character that is not a digit,
      apart from one leading '+', makes the parse fail. */
  function ParseUnsigned(s: string, radix: nat, bound: nat): (r: Result<nat, IntErrorKind>)
    requires 2 <= radix <= 36
    requires bound >= 1
    ensures r.Success? <==> IsNumeral(s, radix) && NumeralValue(s, radix) < bound
    ensures r.Success? ==> r.value == NumeralValue(s, radix) && r.value < bound
    ensures r == Failure(Empty) <==> s == []
  {
    if |s| == 0 then Failure(Empty)
    else if (s[0] == '+' || s[0] == '-') && |s| == 1 then Failure(InvalidDigit)
    else if s[0] == '+' then Accumulate(s[1..], radix, bound, 0)
    else Accumulate(s, radix, bound, 0)
  }

  /** `str::parse::<u8>`. */
  function ParseU8(s: string): (r: Result<U8, IntErrorKind>)
    ensures r.Success? <==> IsNumeral(s, 10) && NumeralValue(s, 10) < U8Limit
    ensures r.Success? ==> r.value == NumeralValue(s, 10)
  {
    var n :- ParseUnsigned(s, 10, U8Limit);
    Success(n)
  }

  /** `parse_hex`: `u16::from_str_radix(input, 16)`, used for the USB vendor
      and product identifiers. */
  function ParseHex(s: string): (r: Result<U16, IntErrorKind>)
    ensures r.Success? <==> IsNumeral(s, 16) && NumeralValue(s, 16) < U16Limit
    ensures r.Success? ==> r.value == NumeralValue(s, 16)
    ensures r == Failure(Empty) <==> s == []
  {
    var n :- ParseUnsigned(s, 16, U16Limit);
    Success(n)
  }

  /* ---------------------------------------------------------------------- */
  /* Formatting, the partner of parsing                                     */
  /* ---------------------------------------------------------------------- */

  /** The lower-case digit character for `d`. */
  function DigitChar(d: nat, radix: nat): (c: char)
    requires 2 <= radix <= 36
    requires d < radix
    ensures DigitValue(c, radix) == Some(d)
  {
    if d < 10 then (('0' as int) + d) as char else (('a' as int) + d - 10) as char
  }

  /** Every character with a digit value is the digit character of that
      value, or its upper-case form for a letter. */
  lemma DigitValueInverse(c: char, radix: nat)
    requires 2 <= radix <= 36
    requires DigitValue(c, radix).Some?
    ensures c == DigitChar(DigitValue(c, radix).value, radix)
         || (DigitValue(c, radix).value >= 10
             && c as int == DigitChar(DigitValue(c, radix).value, radix) as int - ('a' as int - 'A' as int))
  {
  }

  /** Upper-case letters are digits too: the letter `v - 10` places after
      'A' has value `v` in every radix above `v`. */
  lemma UpperDigitValue(v: nat, radix: nat)
    requires 10 <= v < radix <= 36
    ensures DigitValue((('A' as int) + v - 10) as char, radix) == Some(v)
  {
  }

  /** ASCII upper-casing of one character. */
  function UpperChar(c: char): char {
    if 'a' <= c <= 'z' then ((c as int) - ('a' as int - 'A' as int)) as char else c
  }

  /** ASCII upper-casing of a string, character by character. */
  function UpperCase(s: string): (u: string)
    ensures |u| == |s|
    ensures forall i :: 0 <= i < |s| ==> u[i] == UpperChar(s[i])
  {
    seq(|s|, i requires 0 <= i < |s| => UpperChar(s[i]))
  }

  /** A character and its upper-case form have the same digit value, in
      every radix. */
  lemma DigitValueUpper(c: char, radix: nat)
    requires 2 <= radix <= 36
    ensures DigitValue(UpperChar(c), radix) == DigitValue(c, radix)
  {
  }

  /** The digit loop reads an upper-cased string exactly as the original:
      same value, same error. */
  lemma {:induction false} AccumulateUpper(ds: string, radix: nat, bound: nat, acc: nat)
    requires 2 <= radix <= 36
    requires acc < bound
    ensures Accumulate(UpperCase(ds), radix, bound, acc) == Accumulate(ds, radix, bound, acc)
    decreases |ds|
  {
    if |ds| > 0 {
      var u := UpperCase(ds);
      DigitValueUpper(ds[0], radix);
      assert u[1..] == UpperCase(ds[1..]);
      match DigitValue(ds[0], radix)
      case None =>
      case Some(d) =>
        if acc * radix + d < bound {
          AccumulateUpper(ds[1..], radix, bound, acc * radix + d);
        }
    }
  }

  /** `from_str_radix` does not care about the case of letter digits. */
  lemma ParseUnsignedIgnoresCase(s: string, radix: nat, bound: nat)
    requires 2 <= radix <= 36
    requires bound >= 1
    ensures ParseUnsigned(UpperCase(s), radix, bound) == ParseUnsigned(s, radix, bound)
  {
    var u := UpperCase(s);
    if |s| > 0 {
      assert u[0] == UpperChar(s[0]);
      if s[0] == '+' {
        assert u[1..] == UpperCase(s[1..]);
        AccumulateUpper(s[1..], radix, bound, 0);
      } else {
        AccumulateUpper(s, radix, bound, 0);
      }
    }
  }

  /** `parse_hex` reads upper-case identifiers such as "1A86" as it reads
      lower-case ones: the same value or the same error. */
  lemma ParseHexIgnoresCase(s: string)
    ensures ParseHex(UpperCase(s)) == ParseHex(s)
  {
    ParseUnsignedIgnoresCase(s, 16, U16Limit);
  }

  /** `n` written in `radix` without sign or leading zeros. */
  function ToNumeral(n: nat, radix: nat): (s: string)
    requires 2 <= radix <= 36
    ensures |s| >= 1 && AllDigits(s, radix)
    ensures s[0] != '+'
    decreases n
  {
    if n < radix then [DigitChar(n, radix)]
    else
      var q, d := n / radix, n % radix;
      DivDecreases(n, radix);
      var prefix := ToNumeral(q, radix);
      var c := DigitChar(d, radix);
      AllDigitsSlices(prefix, [c], radix);
      assert (prefix + [c])[0] == prefix[0];
      prefix + [c]
  }

  lemma DivDecreases(n: nat, radix: nat)
    requires 2 <= radix <= n
    ensures 0 < n / radix < n
  {
    var q, r := n / radix, n % radix;
    assert n == q * radix + r && 0 <= r < radix;
    assert q * radix >= q * 2;
  }

  /** The numeral of `n` has value `n`. */
  lemma {:induction false} ToNumeralValue(n: nat, radix: nat)
    requires 2 <= radix <= 36
    ensures ValueFrom(0, ToNumeral(n, radix), radix) == n
    decreases n
  {
    if n < radix {
      var c := DigitChar(n, radix);
      assert ToNumeral(n, radix) == [c];
      assert [c][1..] == [];
      assert ValueFrom(0, [c], radix) == ValueFrom(n, [], radix);
    } else {
      var q, d := n / radix, n % radix;
      assert n == q * radix + d;
      var prefix := ToNumeral(q, radix);
      var c := DigitChar(d, radix);
      assert ToNumeral(n, radix) == prefix + [c];
      DivDecreases(n, radix);
      ToNumeralValue(q, radix);
      ValueFromAppend(0, prefix, c, radix);
    }
  }

  /** Parsing the numeral of any in-range value gives that value back. */
  lemma {:induction false} ParseToNumeralRoundTrip(n: nat, radix: nat, bound: nat)
    requires 2 <= radix <= 36
    requires n < bound
    ensures ParseUnsigned(ToNumeral(n, radix), radix, bound) == Success(n)
  {
    ToNumeralValue(n, radix);
  }

  /** `parse_hex` accepts the hexadecimal numeral of every `u16`. */
  lemma ParseHexRoundTrip(n: U16)
    ensures ParseHex(ToNumeral(n, 16)) == Success(n)
  {
    ParseToNumeralRoundTrip(n, 16, U16Limit);
  }

  /** `parse_hex` accepts the upper-case hexadecimal numeral of every `u16`
      and returns it. */
  lemma ParseHexUpperRoundTrip(n: U16)
    ensures ParseHex(UpperCase(ToNumeral(n, 16))) == Success(n)
  {
    ParseHexRoundTrip(n);
    ParseHexIgnoresCase(ToNumeral(n, 16));
  }

  /** A typical USB identifier, in either case. */
  lemma ParseHexExamples()
    ensures ParseHex("1A86") == Success(0x1A86)
    ensures ParseHex("1a86") == Success(0x1A86)
  {
    assert ToNumeral(0x1, 16) == "1";
    assert ToNumeral(0x1A, 16) == "1a";
    assert ToNumeral(0x1A8, 16) == "1a8";
    assert ToNumeral(0x1A86, 16) == "1a86";
    ParseHexRoundTrip(0x1A86);
    assert UpperCase("1a86") == "1A86";
    ParseHexIgnoresCase("1a86");
  }

  /** Whitespace is not skipped, a lone '+' is not a number, a '+' sign is
      accepted, and values past 255 overflow `u8`. */
  lemma ParseU8Examples()
    ensures ParseU8(" 30") == Failure(InvalidDigit)
    ensures ParseU8("30 ") == Failure(InvalidDigit)
    ensures ParseU8("+") == Failure(InvalidDigit)
    ensures ParseU8("") == Failure(Empty)
    ensures ParseU8("+30") == Success(30)
    ensures ParseU8("007") == Success(7)
    ensures ParseU8("255") == Success(255)
    ensures ParseU8("256") == Failure(PosOverflow)
  {
  }
}
