/**
 * The parts of Go's `strings` and `strconv` packages the decoder applies to
 * struct tags: `strings.Split(s, ",")` for `bytes_fn`, `strconv.ParseBool`
 * for `bytes_ignore` and `strconv.ParseInt(s, 10, 32)` for `bytes_length`.
 */
module Tags {
  import opened Options

  /** `strings.Split(s, ",")`: the pieces between commas; one piece when there is no comma. */
  function SplitComma(s: string): (parts: seq<string>)
    ensures |parts| >= 1
    ensures ',' !in s ==> parts == [s]
  {
    if s == [] then [[]]
    else
      var rest := SplitComma(s[1..]);
      assert s == [s[0]] + s[1..];
      if s[0] == ',' then [[]] + rest else [[s[0]] + rest[0]] + rest[1..]
  }

  /** `strings.Join(parts, ",")`: the reference against which SplitComma is checked. */
  function JoinComma(parts: seq<string>): string
    requires |parts| >= 1
  {
    if |parts| == 1 then parts[0] else parts[0] + [','] + JoinComma(parts[1..])
  }

  function CommaCount(s: string): nat
  {
    if s == [] then 0 else (if s[0] == ',' then 1 else 0) + CommaCount(s[1..])
  }

  /** Splitting and joining again gives the tag back; no piece holds a comma. */
  lemma {:induction false} SplitCommaJoin(s: string)
    ensures JoinComma(SplitComma(s)) == s
    ensures forall k :: 0 <= k < |SplitComma(s)| ==> ',' !in SplitComma(s)[k]
  {
    if s != [] {
      SplitCommaJoin(s[1..]);
      var rest := SplitComma(s[1..]);
      if s[0] == ',' {
        assert SplitComma(s)[1..] == rest;
      } else {
        var parts := SplitComma(s);
        assert parts == [[s[0]] + rest[0]] + rest[1..];
        assert parts[1..] == rest[1..];
        if |rest| == 1 {
          assert JoinComma(parts) == [s[0]] + rest[0];
        } else {
          assert JoinComma(rest) == rest[0] + [','] + JoinComma(rest[1..]);
        }
        assert s == [s[0]] + s[1..];
      }
    }
  }

  /** A tag yields one more piece than it has commas. */
  lemma {:induction false} SplitCommaCount(s: string)
    ensures |SplitComma(s)| == CommaCount(s) + 1
  {
    if s != [] {
      SplitCommaCount(s[1..]);
    }
  }

  lemma {:induction false} CommaCountZero(s: string)
    ensures CommaCount(s) == 0 <==> ',' !in s
  {
    if s != [] {
      CommaCountZero(s[1..]);
      assert s == [s[0]] + s[1..];
    }
  }

  /** `bytes_fn` names fewer than two hooks exactly when it holds no comma. */
  lemma TwoNamesIffComma(s: string)
    ensures |SplitComma(s)| >= 2 <==> ',' in s
  {
    SplitCommaCount(s);
    CommaCountZero(s);
  }

  /** The spellings `strconv.ParseBool` accepts for true and for false. */
  const TrueSpellings: set<string> := {"1", "t", "T", "TRUE", "true", "True"}
  const FalseSpellings: set<string> := {"0", "f", "F", "FALSE", "false", "False"}

  /** `strconv.ParseBool`: None stands for its syntax error. */
  function ParseBool(s: string): (r: Option<bool>)
    ensures r == Some(true) <==> s in TrueSpellings
    ensures r == Some(false) <==> s in FalseSpellings
    ensures r.None? <==> s !in TrueSpellings + FalseSpellings
  {
    if s in TrueSpellings then Some(true)
    else if s in FalseSpellings then Some(false)
    else None
  }

  function FormatBool(b: bool): string
  {
    if b then "true" else "false"
  }

  lemma ParseFormatBool(b: bool)
    ensures ParseBool(FormatBool(b)) == Some(b)
  {
  }

  /**
   * Whether a `bytes_ignore` tag value asks for the field to be skipped: a
   * non-empty tag that parses as true. A tag of "false" or one that does not
   * parse leaves the field to the normal decoding.
   */
  predicate IgnoreRequested(tag: string)
  {
    tag != "" && ParseBool(tag) == Some(true)
  }

  lemma IgnoreRequestedSpellings(tag: string)
    ensures IgnoreRequested(tag) <==> tag in TrueSpellings
  {
  }

  const MinInt32: int := -0x8000_0000
  const MaxInt32: int := 0x7FFF_FFFF

  predicate IsDigit(c: char)
  {
    '0' <= c <= '9'
  }

  predicate AllDigits(s: string)
  {
    forall k :: 0 <= k < |s| ==> IsDigit(s[k])
  }

  /** The number a string of decimal digits denotes, most significant first. */
  function DigitsValue(s: string): nat
    requires AllDigits(s)
  {
    if s == [] then 0 else 10 * DigitsValue(s[..|s| - 1]) + (s[|s| - 1] - '0') as int
  }

  /** The text after one leading sign, if there is one. */
  function Unsigned(s: string): string
  {
    if |s| > 0 && (s[0] == '-' || s[0] == '+') then s[1..] else s
  }

  predicate IsNegative(s: string)
  {
    |s| > 0 && s[0] == '-'
  }

  /**
   * `strconv.ParseInt(s, 10, 32)`: an optional sign followed by at least one
   * decimal digit, denoting a number in the 32-bit signed range; None stands
   * for its syntax and range errors.
   */
  function ParseInt32(s: string): (r: Option<int>)
    ensures r.Some? <==>
      && Unsigned(s) != [] && AllDigits(Unsigned(s))
      && DigitsValue(Unsigned(s)) <= (if IsNegative(s) then -MinInt32 else MaxInt32)
    ensures r.Some? ==>
      r.value == (if IsNegative(s) then 0 - DigitsValue(Unsigned(s)) else DigitsValue(Unsigned(s)))
    ensures r.Some? ==> MinInt32 <= r.value <= MaxInt32
    ensures r.Some? ==> s != [] && s != "-" && s != "+"
    ensures s != [] && AllDigits(s) && DigitsValue(s) <= MaxInt32 ==> r == Some(DigitsValue(s))
    ensures s != [] && AllDigits(s) && DigitsValue(s) > MaxInt32 ==> r.None?
    ensures |s| >= 2 && s[0] == '-' && AllDigits(s[1..]) && DigitsValue(s[1..]) <= -MinInt32
            ==> r == Some(0 - DigitsValue(s[1..]))
  {
    var digits := Unsigned(s);
    if digits == [] || !AllDigits(digits) then None
    else
      var n: int := if IsNegative(s) then 0 - DigitsValue(digits) else DigitsValue(digits);
      if MinInt32 <= n <= MaxInt32 then Some(n) else None
  }

  /** A stray character is an error, a plus sign is accepted, and a value below the int32 range is an error. */
  lemma ParseInt32Examples()
    ensures ParseInt32("4x").None?
    ensures ParseInt32("+7") == Some(7)
    ensures ParseInt32("-2147483649").None?
  {
    assert !IsDigit("4x"[1]);
    assert Unsigned("+7") == "7" && DigitsValue("7") == 7;
    var d := "2147483649";
    assert Unsigned("-2147483649") == d;
    assert DigitsValue("2") == 2 by { assert "2"[..0] == ""; }
    assert DigitsValue("21") == 21 by { assert "21"[..1] == "2"; }
    assert DigitsValue("214") == 214 by { assert "214"[..2] == "21"; }
    assert DigitsValue("2147") == 2147 by { assert "2147"[..3] == "214"; }
    assert DigitsValue("21474") == 21474 by { assert "21474"[..4] == "2147"; }
    assert DigitsValue("214748") == 214748 by { assert "214748"[..5] == "21474"; }
    assert DigitsValue("2147483") == 2147483 by { assert "2147483"[..6] == "214748"; }
    assert DigitsValue("21474836") == 21474836 by { assert "21474836"[..7] == "2147483"; }
    assert DigitsValue("214748364") == 214748364 by { assert "214748364"[..8] == "21474836"; }
    assert DigitsValue("2147483649") == 2147483649 by { assert "2147483649"[..9] == "214748364"; }
  }

  /** Decimal digits of a natural number, without leading zeros. */
  function NatDigits(n: nat): (s: string)
    ensures s != [] && AllDigits(s)
  {
    if n < 10 then [('0' as int + n) as char]
    else NatDigits(n / 10) + [('0' as int + n % 10) as char]
  }

  /** `strconv.Itoa`: the reference against which ParseInt32 is checked. */
  function FormatInt(n: int): string
  {
    if n < 0 then "-" + NatDigits(-n) else NatDigits(n)
  }

  lemma {:induction false} DigitsValueOfNatDigits(n: nat)
    ensures DigitsValue(NatDigits(n)) == n
  {
    if n >= 10 {
      var s := NatDigits(n);
      assert s[..|s| - 1] == NatDigits(n / 10);
      DigitsValueOfNatDigits(n / 10);
    }
  }

  /** Every 32-bit integer written in decimal parses back to itself. */
  lemma ParseFormatInt32(n: int)
    requires MinInt32 <= n <= MaxInt32
    ensures ParseInt32(FormatInt(n)) == Some(n)
  {
    var s := FormatInt(n);
    if n < 0 {
      var d := NatDigits(-n);
      assert s == ['-'] + d;
      assert s[0] == '-' && s[1..] == d;
      DigitsValueOfNatDigits(-n);
    } else {
      var d := NatDigits(n);
      assert s == d;
      assert IsDigit(s[0]);
      DigitsValueOfNatDigits(n);
    }
  }
}
