/** Decimal text <-> 32-bit integer, as .NET's `int.TryParse(string)` and
    `int.Parse(string)` read it with the default number style: optional
    white space on both sides, an optional leading `+` or `-`, ASCII digits,
    any number of NUL characters after the trailing white space, and a value
    that fits in 32 bits. */
module Numbers {
  import opened Common

  const Int32Min: int := -0x8000_0000
  const Int32Max: int := 0x7FFF_FFFF

  predicate InInt32(x: int) { Int32Min <= x <= Int32Max }

  /** The values of a C# `int`. */
  type Int32 = x: int | InInt32(x)

  /** The characters .NET's number parser skips around a number. */
  predicate IsWhite(c: char) { c == ' ' || '\t' <= c <= '\r' }

  predicate IsDigit(c: char) { '0' <= c <= '9' }

  predicate AllDigits(s: string) { forall i :: 0 <= i < |s| ==> IsDigit(s[i]) }

  function TrimEnd(s: string): (r: string)
    ensures |r| <= |s|
    ensures r == [] || !IsWhite(r[|r| - 1])
  {
    if s != [] && IsWhite(s[|s| - 1]) then TrimEnd(s[..|s| - 1]) else s
  }

  /** The NUL characters .NET's parser accepts at the very end of the text. */
  function TrimNul(s: string): (r: string)
    ensures |r| <= |s| && r == s[..|r|]
    ensures r == [] || r[|r| - 1] != '\0'
  {
    if s != [] && s[|s| - 1] == '\0' then TrimNul(s[..|s| - 1]) else s
  }

  /** `TrimNul` cuts NUL characters and nothing else. */
  lemma {:induction false} TrimNulCutsOnlyNul(s: string)
    ensures forall i :: |TrimNul(s)| <= i < |s| ==> s[i] == '\0'
  {
    if s != [] && s[|s| - 1] == '\0' {
      TrimNulCutsOnlyNul(s[..|s| - 1]);
    }
  }

  /** The value of a string of decimal digits, most significant first. */
  function DigitsValue(s: string): (v: nat)
    requires AllDigits(s)
  {
    if s == [] then 0
    else DigitsValue(s[..|s| - 1]) * 10 + (s[|s| - 1] as int - '0' as int)
  }

  /** The shortest decimal spelling of a natural number. */
  function Digits(n: nat): (s: string)
    ensures s != [] && AllDigits(s)
  {
    if n < 10 then [('0' as int + n) as char]
    else Digits(n / 10) + [('0' as int + n % 10) as char]
  }

  /** `int.TryParse`: `None` where .NET returns false. Leading white space
      is skipped one character at a time; trailing NUL characters, then the
      white space before them, are trimmed; what remains must be a signed
      decimal that fits in 32 bits. */
  function ParseInt32(s: string): (r: Option<int>)
    ensures r.Some? ==> InInt32(r.value)
  {
    if s != [] && IsWhite(s[0]) then ParseInt32(s[1..])
    else
      var v := SignedValue(TrimEnd(TrimNul(s)));
      if v.Some? && InInt32(v.value) then v else None
  }

  /** The value of an optional sign followed by at least one digit. */
  function SignedValue(t: string): Option<int>
  {
    if t != [] && (t[0] == '-' || t[0] == '+') then
      var body := t[1..];
      if body == [] || !AllDigits(body) then None
      else if t[0] == '-' then Some(-(DigitsValue(body) as int))
      else Some(DigitsValue(body))
    else if t == [] || !AllDigits(t) then None
    else Some(DigitsValue(t))
  }

  /** How .NET writes a 32-bit integer in decimal (invariant culture). */
  function FormatInt32(n: int): (s: string)
    requires InInt32(n)
    ensures s != [] && (s[0] == '-' <==> n < 0)
  {
    if n < 0 then "-" + Digits(-n) else Digits(n)
  }

  lemma {:induction false} DigitsRoundTrip(n: nat)
    ensures DigitsValue(Digits(n)) == n
  {
    if n >= 10 {
      DigitsRoundTrip(n / 10);
      var s := Digits(n);
      assert s[..|s| - 1] == Digits(n / 10);
    }
  }

  /** Text without white space is left alone by `TrimEnd`. */
  lemma TrimNoWhite(s: string)
    requires forall i :: 0 <= i < |s| ==> !IsWhite(s[i])
    ensures TrimEnd(s) == s
  {
    assert s != [] ==> !IsWhite(s[|s| - 1]);
  }

  /** Text ending in neither NUL nor white space is left alone by both trims. */
  lemma TrimsKeepDigitEnd(s: string)
    requires s != [] && IsDigit(s[|s| - 1])
    requires forall i :: 0 <= i < |s| ==> !IsWhite(s[i])
    ensures TrimEnd(TrimNul(s)) == s
  {
    TrimNoWhite(s);
  }

  /** Digits followed by white space and then NUL characters parse as the
      digits alone, as .NET's trailing-zeros rule allows. */
  lemma {:induction false} TrailingWhiteAndNul(d: string, w: string, z: string)
    requires d != [] && AllDigits(d)
    requires forall i :: 0 <= i < |w| ==> IsWhite(w[i])
    requires forall i :: 0 <= i < |z| ==> z[i] == '\0'
    ensures ParseInt32(d + w + z) == ParseInt32(d)
  {
    NulSuffix(d + w, z);
    WhiteSuffix(d, w);
    assert IsDigit(d[0]);
    assert TrimNul(d) == d;
  }

  /** Trimming NULs removes exactly a NUL suffix from text that does not end in NUL. */
  lemma {:induction false} NulSuffix(s: string, z: string)
    requires s == [] || s[|s| - 1] != '\0'
    requires forall i :: 0 <= i < |z| ==> z[i] == '\0'
    ensures TrimNul(s + z) == s
  {
    if z != [] {
      assert (s + z)[..|s + z| - 1] == s + z[..|z| - 1];
      NulSuffix(s, z[..|z| - 1]);
    } else {
      assert s + z == s;
    }
  }

  /** Trimming white space removes exactly a white suffix from text that does not end in white space. */
  lemma {:induction false} WhiteSuffix(s: string, w: string)
    requires s == [] || !IsWhite(s[|s| - 1])
    requires forall i :: 0 <= i < |w| ==> IsWhite(w[i])
    ensures TrimEnd(s + w) == s
  {
    if w != [] {
      assert (s + w)[..|s + w| - 1] == s + w[..|w| - 1];
      WhiteSuffix(s, w[..|w| - 1]);
    } else {
      assert s + w == s;
    }
  }

  /** A NUL anywhere but in the trailing run makes the text unparseable. */
  lemma NulBeforeWhite()
    ensures ParseInt32("12\0 ") == None
    ensures ParseInt32("12 \0") == Some(12)
  {
    assert TrimNul("12\0 ") == "12\0 ";
    assert TrimEnd("12\0 ") == "12\0";
    assert !AllDigits("12\0");
    assert TrimNul("12 \0") == "12 ";
    assert TrimEnd("12 ") == "12";
    assert DigitsValue("12") == 12 by {
      assert "12"[..1] == "1";
      assert DigitsValue("1") == 1 by { assert "1"[..0] == ""; }
    }
  }

  /** Every 32-bit integer survives formatting then parsing. */
  lemma ParseFormatRoundTrip(n: int)
    requires InInt32(n)
    ensures ParseInt32(FormatInt32(n)) == Some(n)
  {
    var m: nat := if n < 0 then -n else n;
    var d := Digits(m);
    DigitsRoundTrip(m);
    assert DigitsValue(d) == m;
    if n < 0 {
      assert FormatInt32(n) == "-" + d;
      ParseNegative(d);
    } else {
      assert FormatInt32(n) == d;
      ParseDigitsOnly(d);
    }
  }

  /** A minus sign followed by digits parses to the negated value when it fits. */
  lemma ParseNegative(d: string)
    requires d != [] && AllDigits(d)
    ensures ParseInt32("-" + d) == if InInt32(-(DigitsValue(d) as int)) then Some(-(DigitsValue(d) as int)) else None
  {
    var s := "-" + d;
    assert s[1..] == d;
    assert forall i :: 0 <= i < |s| ==> !IsWhite(s[i]) by {
      forall i | 0 <= i < |s| ensures !IsWhite(s[i]) {
        if i > 0 { assert s[i] == d[i - 1]; }
      }
    }
    assert s[|s| - 1] == d[|d| - 1];
    TrimsKeepDigitEnd(s);
  }

  /** A plain run of digits whose value fits parses to that value;
      anything holding a character that is neither white space, sign
      nor digit is rejected. */
  lemma ParseDigitsOnly(s: string)
    requires s != [] && AllDigits(s)
    ensures ParseInt32(s) == if DigitsValue(s) <= Int32Max then Some(DigitsValue(s)) else None
  {
    assert forall i :: 0 <= i < |s| ==> !IsWhite(s[i]) by {
      forall i | 0 <= i < |s| ensures !IsWhite(s[i]) {
        assert IsDigit(s[i]);
      }
    }
    TrimsKeepDigitEnd(s);
    assert IsDigit(s[0]);
    assert SignedValue(s) == Some(DigitsValue(s) as int);
  }
}
