/**
  The string utilities the C++ code leans on: field splitting with std::getline, decimal output of
  an int, std::stoi and the implicit int-to-short conversion.
*/
module Text {
  import opened Outcome

  // ---------------------------------------------------------------------------------------------
  // Splitting with std::getline(stream, field, delimiter)
  // ---------------------------------------------------------------------------------------------

  /** The plain split: k delimiters give k + 1 fields, empty ones included. */
  function RawSplit(s: string, d: char): (fields: seq<string>)
    ensures |fields| >= 1
    ensures forall i :: 0 <= i < |fields| ==> d !in fields[i]
  {
    if |s| == 0 then [""]
    else
      var rest := RawSplit(s[1..], d);
      if s[0] == d then [""] + rest
      else [[s[0]] + rest[0]] + rest[1..]
  }

  /**
    The fields a loop `while (getline(ss, field, d))` produces. getline fails only when it can
    extract nothing at all, so no field follows a trailing delimiter and an empty string gives no
    field; an empty field between two delimiters is produced.
  */
  function GetlineSplit(s: string, d: char): (fields: seq<string>)
    ensures NoDelimiter(fields, d)
    ensures fields == [] <==> s == []
    ensures s != [] && s[|s| - 1] != d ==> Join(fields, d) == s
    ensures s != [] && s[|s| - 1] == d ==> Join(fields, d) + [d] == s
  {
    var raw := RawSplit(s, d);
    JoinRawSplit(s, d);
    JoinEndsWithLast(raw, d);
    if raw[|raw| - 1] == "" then
      if |raw| > 1 then
        JoinSnoc(raw[..|raw| - 1], "", d);
        assert raw[..|raw| - 1] + [""] == raw;
        raw[..|raw| - 1]
      else raw[..|raw| - 1]
    else
      LastCharOfField(s, raw[|raw| - 1], d);
      raw
  }

  /** A string that ends with a non-empty, delimiter-free field does not end with the delimiter. */
  lemma LastCharOfField(s: string, last: string, d: char)
    requires |last| <= |s| && s[|s| - |last|..] == last && d !in last && last != ""
    ensures s[|s| - 1] != d
  {
    assert s[|s| - 1] == last[|last| - 1];
  }

  /** Joining one more field appends the delimiter and the field. */
  lemma {:induction false} JoinSnoc(parts: seq<string>, q: string, d: char)
    requires |parts| >= 1
    ensures Join(parts + [q], d) == Join(parts, d) + [d] + q
  {
    if |parts| > 1 {
      JoinSnoc(parts[1..], q, d);
      assert (parts + [q])[1..] == parts[1..] + [q];
    }
  }

  function Join(parts: seq<string>, d: char): string
    requires |parts| >= 1
  {
    if |parts| == 1 then parts[0] else parts[0] + [d] + Join(parts[1..], d)
  }

  /** A join ends with its last field. */
  lemma {:induction false} JoinEndsWithLast(parts: seq<string>, d: char)
    requires |parts| >= 1
    ensures var j, last := Join(parts, d), parts[|parts| - 1];
      |last| <= |j| && j[|j| - |last|..] == last
  {
    if |parts| > 1 {
      JoinEndsWithLast(parts[1..], d);
      var j, rest := Join(parts, d), Join(parts[1..], d);
      var last := parts[|parts| - 1];
      assert j == parts[0] + [d] + rest;
      assert j[|j| - |last|..] == rest[|rest| - |last|..];
    }
  }

  predicate NoDelimiter(parts: seq<string>, d: char) {
    forall i :: 0 <= i < |parts| ==> d !in parts[i]
  }

  /** Joining the fields of a split gives back the original string. */
  lemma {:induction false} JoinRawSplit(s: string, d: char)
    ensures Join(RawSplit(s, d), d) == s
  {
    if |s| > 0 {
      JoinRawSplit(s[1..], d);
      var rest := RawSplit(s[1..], d);
      if s[0] == d {
        assert RawSplit(s, d)[1..] == rest;
      } else {
        var fields := RawSplit(s, d);
        if |rest| == 1 {
          assert fields == [[s[0]] + rest[0]];
        } else {
          assert fields[1..] == rest[1..];
          assert Join(rest, d) == rest[0] + [d] + Join(rest[1..], d);
        }
      }
      assert s == [s[0]] + s[1..];
    }
  }

  lemma {:induction false} RawSplitOfField(p: string, d: char)
    requires d !in p
    ensures RawSplit(p, d) == [p]
  {
    if |p| > 0 {
      RawSplitOfField(p[1..], d);
      assert [p[0]] + p[1..] == p;
    }
  }

  lemma {:induction false} RawSplitCons(p: string, d: char, t: string)
    requires d !in p
    ensures RawSplit(p + [d] + t, d) == [p] + RawSplit(t, d)
  {
    if |p| == 0 {
      assert p + [d] + t == [d] + t;
      assert ([d] + t)[1..] == t;
    } else {
      RawSplitCons(p[1..], d, t);
      assert (p + [d] + t)[1..] == p[1..] + [d] + t;
      assert [p[0]] + p[1..] == p;
    }
  }

  /** Splitting a join of delimiter-free fields gives back the fields. */
  lemma {:induction false} RawSplitJoin(parts: seq<string>, d: char)
    requires |parts| >= 1 && NoDelimiter(parts, d)
    ensures RawSplit(Join(parts, d), d) == parts
  {
    if |parts| == 1 {
      RawSplitOfField(parts[0], d);
    } else {
      RawSplitJoin(parts[1..], d);
      RawSplitCons(parts[0], d, Join(parts[1..], d));
      assert [parts[0]] + parts[1..] == parts;
    }
  }

  /** getline returns every field of a join whose last field is not empty. */
  lemma GetlineSplitJoin(parts: seq<string>, d: char)
    requires |parts| >= 1 && NoDelimiter(parts, d) && parts[|parts| - 1] != ""
    ensures GetlineSplit(Join(parts, d), d) == parts
  {
    RawSplitJoin(parts, d);
  }

  // ---------------------------------------------------------------------------------------------
  // Decimal digits
  // ---------------------------------------------------------------------------------------------

  predicate IsDigit(c: char) {
    '0' <= c <= '9'
  }

  predicate AllDigits(s: string) {
    forall i :: 0 <= i < |s| ==> IsDigit(s[i])
  }

  function DigitChar(v: nat): char
    requires v < 10
  {
    ('0' as int + v) as char
  }

  /** What `out << n` prints for a non-negative int. */
  function Decimal(n: nat): (s: string)
    ensures |s| >= 1 && AllDigits(s)
  {
    if n < 10 then [DigitChar(n)] else Decimal(n / 10) + [DigitChar(n % 10)]
  }

  function DigitsValue(s: string): nat
    requires AllDigits(s)
  {
    if |s| == 0 then 0 else DigitsValue(s[..|s| - 1]) * 10 + (s[|s| - 1] as int - '0' as int)
  }

  lemma {:induction false} DigitsValueDecimal(n: nat)
    ensures DigitsValue(Decimal(n)) == n
  {
    if n >= 10 {
      DigitsValueDecimal(n / 10);
      var s := Decimal(n);
      assert s[..|s| - 1] == Decimal(n / 10);
    }
  }

  // ---------------------------------------------------------------------------------------------
  // std::stoi (base 10, int result)
  // ---------------------------------------------------------------------------------------------

  const IntMin: int := -0x8000_0000
  const IntMax: int := 0x7FFF_FFFF

  /** The two exceptions std::stoi throws: std::invalid_argument and std::out_of_range. */
  datatype StoiError = InvalidArgument | OutOfRange

  /** isspace in the "C" locale. */
  predicate IsSpace(c: char) {
    c == ' ' || 9 <= c as int <= 13
  }

  function SkipSpaces(s: string): (t: string)
    ensures |t| > 0 ==> !IsSpace(t[0])
  {
    if |s| > 0 && IsSpace(s[0]) then SkipSpaces(s[1..]) else s
  }

  /** The longest prefix made of digits only. */
  function LeadingDigits(s: string): (ds: string)
    ensures AllDigits(ds)
  {
    if |s| > 0 && IsDigit(s[0]) then [s[0]] + LeadingDigits(s[1..]) else []
  }

  /**
    std::stoi(s): leading white space is skipped, an optional sign is read, then the longest run
    of decimal digits; whatever follows is ignored. No digit at all throws invalid_argument; a
    value outside int throws out_of_range.
  */
  function Stoi(s: string): (r: Result<int, StoiError>)
    ensures r.Ok? ==> IntMin <= r.value <= IntMax
  {
    var t := SkipSpaces(s);
    if |t| > 0 && (t[0] == '-' || t[0] == '+') then StoiDigits(t[1..], t[0] == '-')
    else StoiDigits(t, false)
  }

  /** The digits after the sign: at least one is needed and the value must fit in an int. */
  function StoiDigits(u: string, negative: bool): (r: Result<int, StoiError>)
    ensures r.Ok? ==> IntMin <= r.value <= IntMax
    ensures r == Err(InvalidArgument) <==> |u| == 0 || !IsDigit(u[0])
  {
    var ds := LeadingDigits(u);
    if |ds| == 0 then Err(InvalidArgument)
    else
      var magnitude: int := DigitsValue(ds);
      var v := if negative then -magnitude else magnitude;
      if v < IntMin || IntMax < v then Err(OutOfRange) else Ok(v)
  }

  lemma LeadingDigitsOfDigits(s: string)
    requires AllDigits(s)
    ensures LeadingDigits(s) == s
  {
    if |s| > 0 {
      LeadingDigitsOfDigits(s[1..]);
      assert [s[0]] + s[1..] == s;
    }
  }

  /** A plain run of digits reads as its value when that fits in an int. */
  lemma StoiOfDigits(s: string)
    requires |s| >= 1 && AllDigits(s) && DigitsValue(s) <= IntMax
    ensures Stoi(s) == Ok(DigitsValue(s))
  {
    assert SkipSpaces(s) == s by {
      assert IsDigit(s[0]);
    }
    assert s[0] != '-' && s[0] != '+' by {
      assert IsDigit(s[0]);
    }
    LeadingDigitsOfDigits(s);
    assert StoiDigits(s, false) == Ok(DigitsValue(s));
  }

  /** std::stoi reads back what `out << n` prints. */
  lemma StoiDecimal(n: nat)
    requires n <= IntMax
    ensures Stoi(Decimal(n)) == Ok(n)
  {
    DigitsValueDecimal(n);
    StoiOfDigits(Decimal(n));
  }

  // ---------------------------------------------------------------------------------------------
  // Conversion of an int to short
  // ---------------------------------------------------------------------------------------------

  newtype int16 = x: int | -0x8000 <= x < 0x8000

  /** The implicit conversion int -> short: the value modulo 2^16, read as two's complement. */
  function ToShort(v: int): (r: int16)
    ensures (r as int - v) % 0x1_0000 == 0
    ensures -0x8000 <= v < 0x8000 ==> r as int == v
  {
    (((v + 0x8000) % 0x1_0000) - 0x8000) as int16
  }
}
