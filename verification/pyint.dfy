/** Python's `int(s)` on a string (base 10) and `str(n)` on an integer.

    `int()` accepts optional surrounding whitespace, one optional sign, and a
    run of decimal digits in which single underscores may separate digits;
    leading zeros are allowed. Anything else raises ValueError, modelled as
    None. So does a literal of more than 4300 digits, CPython's default
    `sys.int_info.default_max_str_digits`. Only ASCII digits are accepted
    here: Python also accepts other Unicode decimal digits, which this model
    excludes. */
module PyInt {
  import opened Wrappers
  import opened PyText

  /** CPython's default limit on the number of digits `int()` converts. */
  const MaxStrDigits: nat := 4300

  /** `t` matches digit ( "_"? digit )*, the body of a literal. */
  predicate Grouped(t: string) {
    |t| > 0 && IsAsciiDigit(t[0]) && GroupTail(t[1..])
  }

  /** `t` matches ( "_"? digit )*. */
  predicate GroupTail(t: string)
    decreases |t|
  {
    if |t| == 0 then true
    else if IsAsciiDigit(t[0]) then GroupTail(t[1..])
    else t[0] == '_' && |t| >= 2 && IsAsciiDigit(t[1]) && GroupTail(t[2..])
  }

  /** The digits of t, underscores dropped. */
  function Digits(t: string): (ds: string)
    ensures |ds| <= |t|
    decreases |t|
  {
    if |t| == 0 then []
    else if t[0] == '_' then Digits(t[1..])
    else [t[0]] + Digits(t[1..])
  }

  predicate AllDigits(ds: string) {
    forall k :: 0 <= k < |ds| ==> IsAsciiDigit(ds[k])
  }

  /** Decimal value of a digit string, most significant digit first. Only
      ever applied to strings of ASCII digits. */
  function Value(ds: string): int
    decreases |ds|
  {
    if |ds| == 0 then 0
    else Value(ds[..|ds| - 1]) * 10 + (ds[|ds| - 1] as int - '0' as int)
  }

  /** A literal with no surrounding whitespace: [+-]? digit ( "_"? digit )*. */
  function ParseLiteral(t: string): Option<int> {
    if |t| == 0 then None
    else
      var body := if t[0] == '-' || t[0] == '+' then t[1..] else t;
      if !Grouped(body) then None
      else
        var ds := Digits(body);
        if |ds| > MaxStrDigits then None
        else if t[0] == '-' then Some(-Value(ds))
        else Some(Value(ds))
  }

  /** `int(s)`: None where Python raises ValueError. */
  function ParseInt(s: string): Option<int> {
    ParseLiteral(Trim(s, IsIntSpace))
  }

  /** `str(n)` for a natural number: its shortest decimal representation. */
  function ShowNat(n: nat): (ds: string)
    ensures |ds| > 0 && AllDigits(ds)
    ensures |ds| > 1 ==> ds[0] != '0'
    decreases n
  {
    if n < 10 then [DigitChar(n)] else ShowNat(n / 10) + [DigitChar(n % 10)]
  }

  /** `str(n)`. */
  function ShowInt(n: int): (s: string)
    ensures |s| > 0
    ensures s[0] == '-' <==> n < 0
  {
    if n < 0 then "-" + ShowNat(-n) else ShowNat(n)
  }

  /** The number of decimal digits of |n|, which `int()` limits. */
  function DigitCount(n: int): nat {
    |ShowNat(if n < 0 then -n else n)|
  }

  lemma {:induction false} ValueShowNat(n: nat)
    ensures Value(ShowNat(n)) == n
    decreases n
  {
    var ds := ShowNat(n);
    if n >= 10 {
      ValueShowNat(n / 10);
      assert ds[..|ds| - 1] == ShowNat(n / 10);
    }
  }

  /** A digit string with no underscore has no group separator to drop. */
  lemma {:induction false} DigitsOfPlain(ds: string)
    requires AllDigits(ds)
    ensures GroupTail(ds) && Digits(ds) == ds
    decreases |ds|
  {
    if |ds| > 0 {
      DigitsOfPlain(ds[1..]);
      assert ds == [ds[0]] + ds[1..];
    }
  }

  /** A literal without separators or surrounding spaces and with at most
      4300 digits parses to its value. */
  lemma ParseUntrimmed(s: string)
    requires |s| > 0 && LiteralChar(s[0]) && LiteralChar(s[|s| - 1])
    ensures ParseInt(s) == ParseLiteral(s)
  {
    NotIntSpace(s[0]);
    NotIntSpace(s[|s| - 1]);
    TrimKeeps(s, IsIntSpace);
  }

  lemma NotIntSpace(c: char)
    requires LiteralChar(c)
    ensures !IsIntSpace(c)
  {
  }

  lemma PlainLiteral(sign: string, ds: string)
    requires sign == "" || sign == "-" || sign == "+"
    requires |ds| > 0 && AllDigits(ds) && |ds| <= MaxStrDigits
    ensures ParseInt(sign + ds) == Some(if sign == "-" then -Value(ds) else Value(ds))
  {
    if sign == "" {
      assert sign + ds == ds;
      UnsignedLiteral(ds);
    } else {
      SignedLiteral(sign[0], ds);
      assert [sign[0]] + ds == sign + ds;
    }
  }

  lemma UnsignedLiteral(ds: string)
    requires |ds| > 0 && AllDigits(ds) && |ds| <= MaxStrDigits
    ensures ParseInt(ds) == Some(Value(ds))
  {
    PlainGrouped(ds);
    ParseUntrimmed(ds);
  }

  lemma {:induction false} SignedLiteral(sign: char, ds: string)
    requires sign == '-' || sign == '+'
    requires |ds| > 0 && AllDigits(ds) && |ds| <= MaxStrDigits
    ensures ParseInt([sign] + ds) == Some(if sign == '-' then -Value(ds) else Value(ds))
  {
    var s := [sign] + ds;
    assert s[|s| - 1] == ds[|ds| - 1];
    ParseUntrimmed(s);
    assert s[1..] == ds;
    SignedBody(s);
  }

  lemma SignedBody(s: string)
    requires |s| > 1 && (s[0] == '-' || s[0] == '+')
    requires AllDigits(s[1..]) && |s| - 1 <= MaxStrDigits
    ensures ParseLiteral(s) == Some(if s[0] == '-' then -Value(s[1..]) else Value(s[1..]))
  {
    PlainGrouped(s[1..]);
  }

  lemma PlainGrouped(ds: string)
    requires |ds| > 0 && AllDigits(ds)
    ensures Grouped(ds) && Digits(ds) == ds
  {
    DigitsOfPlain(ds[1..]);
    assert ds == [ds[0]] + ds[1..];
  }

  /** Round trip: `int(str(n)) == n` for every n within the digit limit. */
  lemma ParseShow(n: int)
    requires DigitCount(n) <= MaxStrDigits
    ensures ParseInt(ShowInt(n)) == Some(n)
  {
    if n < 0 {
      ValueShowNat(-n);
      PlainLiteral("-", ShowNat(-n));
    } else {
      ValueShowNat(n);
      PlainLiteral("", ShowNat(n));
      assert "" + ShowNat(n) == ShowNat(n);
    }
  }

  /** Surrounding whitespace is ignored: `int(" 4 ") == int("4")`. */
  lemma {:induction false} ParseIgnoresSpace(pre: string, s: string, post: string)
    requires All(pre, IsIntSpace) && All(post, IsIntSpace)
    ensures ParseInt(pre + s + post) == ParseInt(s)
  {
    TrimSurrounded(pre, s, post, IsIntSpace);
  }

  /** Every accepted string is made only of ASCII digits, signs, underscores
      and int() whitespace: no other character, in particular no non-ASCII
      digit, is ever accepted. */
  lemma ParseAlphabet(s: string)
    ensures ParseInt(s).Some? ==>
      forall k :: 0 <= k < |s| ==> LiteralChar(s[k]) || IsIntSpace(s[k])
  {
    if ParseInt(s).Some? {
      LiteralAlphabet(Trim(s, IsIntSpace));
      TrimAlphabet(s, IsIntSpace, LiteralChar);
    }
  }

  /** A single character that is neither part of a literal nor int()
      whitespace makes int() fail, wherever it stands. */
  lemma StrayCharRejected(s: string, k: nat)
    requires k < |s| && !LiteralChar(s[k]) && !IsIntSpace(s[k])
    ensures ParseInt(s).None?
  {
    ParseAlphabet(s);
  }

  /** A character that may appear in a literal once whitespace is trimmed. */
  predicate LiteralChar(c: char) {
    IsAsciiDigit(c) || c == '+' || c == '-' || c == '_'
  }

  lemma LiteralAlphabet(t: string)
    requires ParseLiteral(t).Some?
    ensures All(t, LiteralChar)
  {
    if t[0] == '-' || t[0] == '+' {
      GroupedAlphabet(t[1..]);
      assert forall k :: 1 <= k < |t| ==> t[k] == t[1..][k - 1];
    } else {
      GroupedAlphabet(t);
    }
  }

  lemma {:induction false} GroupTailAlphabet(t: string)
    requires GroupTail(t)
    ensures forall k :: 0 <= k < |t| ==> IsAsciiDigit(t[k]) || t[k] == '_'
    decreases |t|
  {
    if |t| > 0 {
      if IsAsciiDigit(t[0]) {
        GroupTailAlphabet(t[1..]);
      } else {
        GroupTailAlphabet(t[2..]);
        assert forall k :: 2 <= k < |t| ==> t[k] == t[2..][k - 2];
      }
    }
  }

  lemma GroupedAlphabet(t: string)
    requires Grouped(t)
    ensures forall k :: 0 <= k < |t| ==> IsAsciiDigit(t[k]) || t[k] == '_'
  {
    GroupTailAlphabet(t[1..]);
    assert forall k :: 1 <= k < |t| ==> t[k] == t[1..][k - 1];
  }

  /** An empty or all-whitespace string is not a number. */
  lemma BlankRejected(s: string)
    requires All(s, IsIntSpace)
    ensures ParseInt(s).None?
  {
    TrimLeftAllP(s, IsIntSpace);
  }

  /** A single underscore between digits is dropped: "1_000" is 1000. */
  lemma UnderscoreSeparates()
    ensures ParseInt("1_000") == Some(1000)
  {
    ParseUntrimmed("1_000");
    assert "1_000"[1..] == "_000" && "_000"[2..] == "00";
    assert "00"[1..] == "0" && "0"[1..] == [];
    assert Grouped("1_000");
    assert Digits("1_000") == "1000";
    assert ParseLiteral("1_000") == Some(Value("1000"));
    assert "1000"[..3] == "100" && "100"[..2] == "10" && "10"[..1] == "1";
    assert Value("1000") == 1000;
  }

  /** An underscore must stand between two digits: doubled, leading or
      trailing, it makes int() fail. */
  lemma UnderscoreMisplaced()
    ensures ParseInt("1__0").None?
    ensures ParseInt("_1").None?
    ensures ParseInt("1_").None?
  {
    ParseUntrimmed("1__0");
    assert "1__0"[1..] == "__0";
    ParseUntrimmed("_1");
    ParseUntrimmed("1_");
    assert "1_"[1..] == "_";
  }
}
