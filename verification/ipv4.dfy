/**
  The IPv4 address value of the IPv4 challenge: four octets, conversion to and from an unsigned
  long, increment and decrement, the comparison operators, dotted-quad input and output, and the
  range listing of its main function.
*/
module IPv4Addr {
  import opened Outcome
  import opened Text

  type Octet = x: int | 0 <= x < 256

  /** The four parts, most significant first. */
  datatype IPv4 = IPv4(a: Octet, b: Octet, c: Octet, d: Octet)

  const Two32: int := 0x1_0000_0000
  const Two64: int := 0x1_0000_0000_0000_0000

  /** What the default constructor and clear() leave behind. */
  const Zero: IPv4 := IPv4(0, 0, 0, 0)
  const Broadcast: IPv4 := IPv4(255, 255, 255, 255)

  /** The 32-bit number the address stands for. */
  function Value(ip: IPv4): nat
  {
    ip.a * 0x100_0000 + ip.b * 0x1_0000 + ip.c * 0x100 + ip.d
  }

  lemma ValueBound(ip: IPv4)
    ensures Value(ip) < Two32
    ensures ip.a < 128 <==> Value(ip) < 0x8000_0000
  {
  }

  function Part(ip: IPv4, i: nat): Octet
    requires i < 4
  {
    if i == 0 then ip.a else if i == 1 then ip.b else if i == 2 then ip.c else ip.d
  }

  function SetPart(ip: IPv4, i: nat, v: Octet): IPv4
    requires i < 4
  {
    if i == 0 then ip.(a := v) else if i == 1 then ip.(b := v) else if i == 2 then ip.(c := v) else ip.(d := v)
  }

  /**
    The constructor from an unsigned long: octet k is (v >> 8k) & 0xFF, a shift by 8 being a
    division by 256.
  */
  function FromULong(v: nat): (ip: IPv4)
    requires v < Two64
    ensures Value(ip) == v % Two32
  {
    var ip := IPv4(v / 256 / 256 / 256 % 256, v / 256 / 256 % 256, v / 256 % 256, v % 256);
    OctetSplit(v);
    ip
  }

  /** Peeling four bytes off v leaves the address number as the remainder modulo 2^32. */
  lemma OctetSplit(v: nat)
    ensures Value(IPv4(v / 256 / 256 / 256 % 256, v / 256 / 256 % 256, v / 256 % 256, v % 256)) == v % Two32
  {
    var v1 := v / 256;
    var v2 := v1 / 256;
    var v3 := v2 / 256;
    var v4 := v3 / 256;
    ByteStep(v);
    ByteStep(v1);
    ByteStep(v2);
    ByteStep(v3);
    var value := Value(IPv4(v3 % 256, v2 % 256, v1 % 256, v % 256));
    assert v == 0x1_0000 * v2 + 256 * (v1 % 256) + v % 256;
    assert v == 0x100_0000 * v3 + 0x1_0000 * (v2 % 256) + 256 * (v1 % 256) + v % 256;
    assert v == Two32 * v4 + value;
    ModOfSplit(v, v4, value);
  }

  lemma ByteStep(x: nat)
    ensures x == 256 * (x / 256) + x % 256
  {
  }

  lemma ModOfSplit(v: int, q: int, r: int)
    requires 0 <= r < Two32 && v == Two32 * q + r
    ensures v % Two32 == r
  {
  }

  /** The octets can be read back from the address number. */
  lemma OctetsOfValue(ip: IPv4)
    ensures FromULong(Value(ip)) == ip
  {
    var v := Value(ip);
    assert v % 256 == ip.d && v / 256 == ip.a * 0x1_0000 + ip.b * 0x100 + ip.c;
    assert v / 256 / 256 == ip.a * 0x100 + ip.b;
    assert v / 256 / 256 / 256 == ip.a;
  }

  lemma ValueInjective(x: IPv4, y: IPv4)
    requires Value(x) == Value(y)
    ensures x == y
  {
    OctetsOfValue(x);
    OctetsOfValue(y);
  }

  /**
    to_ulong as written: the shifts and ors are done in int, so an address whose first octet is
    128 or more gives a negative int, which the conversion to a 64-bit unsigned long sign-extends.
  */
  function ToULong(ip: IPv4): (v: nat)
    ensures v < Two64 && v % Two32 == Value(ip)
    ensures v < Two32 <==> ip.a < 128
  {
    ValueBound(ip);
    if ip.a < 128 then
      ModOfSplit(Value(ip), 0, Value(ip));
      Value(ip)
    else
      ModOfSplit(Value(ip) + (Two64 - Two32), Two32 - 1, Value(ip));
      Value(ip) + (Two64 - Two32)
  }

  /** to_ulong agrees with the address number modulo 2^32 and the constructor undoes it. */
  lemma ULongRoundTrip(ip: IPv4)
    ensures ToULong(ip) < Two64 && ToULong(ip) % Two32 == Value(ip)
    ensures FromULong(ToULong(ip)) == ip
  {
    ValueBound(ip);
    var v := ToULong(ip);
    if ip.a >= 128 {
      assert v == Value(ip) + Two32 * (Two32 - 1);
    }
    assert v % Two32 == Value(ip);
    ValueInjective(FromULong(v), ip);
  }

  // ---------------------------------------------------------------------------------------------
  // ++ and --
  // ---------------------------------------------------------------------------------------------

  /** Prefix ++: the constructor applied to to_ulong() + 1 in unsigned long arithmetic. */
  function Next(ip: IPv4): (r: IPv4)
    ensures Value(r) == (Value(ip) + 1) % Two32
  {
    ULongRoundTrip(ip);
    var w := (ToULong(ip) + 1) % Two64;
    WrapStep(ip, 1);
    FromULong(w)
  }

  /** Prefix --: the constructor applied to to_ulong() - 1 in unsigned long arithmetic. */
  function Prev(ip: IPv4): (r: IPv4)
    ensures Value(r) == (Value(ip) - 1) % Two32
  {
    ULongRoundTrip(ip);
    var w := (ToULong(ip) - 1) % Two64;
    WrapStep(ip, -1);
    FromULong(w)
  }

  /** Adding k to to_ulong in 64-bit arithmetic adds k to the address number modulo 2^32. */
  lemma WrapStep(ip: IPv4, k: int)
    ensures (ToULong(ip) + k) % Two64 % Two32 == (Value(ip) + k) % Two32
  {
    var x := ToULong(ip) + k;
    var q := x / Two32;
    var r := x % Two32;
    assert x == Two32 * q + r;
    var m := x / Two64;
    assert x % Two64 == Two32 * (q - Two32 * m) + r;
    ModOfSplit(x % Two64, q - Two32 * m, r);
    if ip.a < 128 {
      assert x == Value(ip) + k;
    } else {
      assert x == Value(ip) + k + Two32 * (Two32 - 1);
      ModOfSplit(Value(ip) + k, q - (Two32 - 1), r);
    }
  }

  /** Postfix ++ returns the old value; the object itself moves to the next address. */
  function PostIncrement(ip: IPv4): (r: (IPv4, IPv4))
    ensures r.0 == ip
    ensures Value(r.1) == (Value(ip) + 1) % Two32
  {
    (ip, Next(ip))
  }

  /** Postfix -- returns the old value; the object itself moves to the previous address. */
  function PostDecrement(ip: IPv4): (r: (IPv4, IPv4))
    ensures r.0 == ip
    ensures Value(r.1) == (Value(ip) - 1) % Two32
  {
    (ip, Prev(ip))
  }

  /** The address number after ++, spelled out at the wrap-around point. */
  lemma NextValue(ip: IPv4)
    ensures Value(ip) == Two32 - 1 ==> Value(Next(ip)) == 0
    ensures Value(ip) < Two32 - 1 ==> Value(Next(ip)) == Value(ip) + 1
  {
    var v, w := Value(ip), Value(Next(ip));
    assert w == (v + 1) % Two32;
    ValueBound(ip);
    IncrementMod(v);
  }

  lemma IncrementMod(v: int)
    requires 0 <= v < Two32
    ensures v == Two32 - 1 ==> (v + 1) % Two32 == 0
    ensures v < Two32 - 1 ==> (v + 1) % Two32 == v + 1
  {
    if v == Two32 - 1 {
      ModOfSplit(v + 1, 1, 0);
    } else {
      ModOfSplit(v + 1, 0, v + 1);
    }
  }

  /** The address number after --, spelled out at the wrap-around point. */
  lemma PrevValue(ip: IPv4)
    ensures Value(ip) == 0 ==> Value(Prev(ip)) == Two32 - 1
    ensures Value(ip) > 0 ==> Value(Prev(ip)) == Value(ip) - 1
  {
    ValueBound(ip);
    var v := Value(ip);
    var p := Prev(ip);
    assert Value(p) == (v - 1) % Two32;
    if v == 0 {
      DecrementMod(v);
    } else {
      ModOfSplit(v - 1, 0, v - 1);
    }
  }

  lemma DecrementMod(v: int)
    requires v == 0
    ensures (v - 1) % Two32 == Two32 - 1
  {
  }

  /** -- undoes ++ and ++ undoes --, wrapping at both ends of the address space. */
  lemma NextPrevInverse(ip: IPv4)
    ensures Prev(Next(ip)) == ip
    ensures Next(Prev(ip)) == ip
  {
    ValueBound(ip);
    ValueBound(Next(ip));
    ValueBound(Prev(ip));
    NextValue(ip);
    PrevValue(Next(ip));
    PrevValue(ip);
    NextValue(Prev(ip));
    ValueInjective(Prev(Next(ip)), ip);
    ValueInjective(Next(Prev(ip)), ip);
  }

  /** ++ on the highest address gives 0.0.0.0. */
  lemma NextOfLast(ip: IPv4)
    requires Value(ip) == Two32 - 1
    ensures Next(ip) == Zero
  {
    NextValue(ip);
    ValueInjective(Next(ip), Zero);
  }

  /** -- on 0.0.0.0 gives the highest address. */
  lemma PrevOfFirst(ip: IPv4)
    requires Value(ip) == 0
    ensures Value(Prev(ip)) == Two32 - 1
  {
    PrevValue(ip);
  }

  lemma IncrementWraps()
    ensures Next(Broadcast) == Zero
    ensures Prev(Zero) == Broadcast
  {
    NextOfLast(Broadcast);
    PrevOfFirst(Zero);
    assert Value(Broadcast) == Two32 - 1;
    ValueInjective(Prev(Zero), Broadcast);
  }

  // ---------------------------------------------------------------------------------------------
  // Comparisons, all through to_ulong
  // ---------------------------------------------------------------------------------------------

  /*
    Each operator compares the to_ulong values. The sign extension in to_ulong does not disturb
    the order, so each agrees with the same comparison of the 32-bit address numbers, and == is
    equality of addresses.
  */

  predicate Equal(x: IPv4, y: IPv4)
    ensures Equal(x, y) <==> x == y
  {
    ULongRoundTrip(x);
    ULongRoundTrip(y);
    ToULong(x) == ToULong(y)
  }

  predicate NotEqual(x: IPv4, y: IPv4)
    ensures NotEqual(x, y) <==> x != y
  {
    !Equal(x, y)
  }

  predicate Less(x: IPv4, y: IPv4)
    ensures Less(x, y) <==> Value(x) < Value(y)
  {
    ValueBound(x);
    ValueBound(y);
    ToULong(x) < ToULong(y)
  }

  predicate Greater(x: IPv4, y: IPv4)
    ensures Greater(x, y) <==> Value(x) > Value(y)
  {
    Less(y, x)
  }

  predicate LessEq(x: IPv4, y: IPv4)
    ensures LessEq(x, y) <==> Value(x) <= Value(y)
  {
    !Less(y, x)
  }

  predicate GreaterEq(x: IPv4, y: IPv4)
    ensures GreaterEq(x, y) <==> Value(x) >= Value(y)
  {
    !Less(x, y)
  }

  /** The operators form a total order consistent with ==. */
  lemma TotalOrder(x: IPv4, y: IPv4, z: IPv4)
    ensures !Less(x, x)
    ensures Less(x, y) ==> !Less(y, x)
    ensures Less(x, y) && Less(y, z) ==> Less(x, z)
    ensures Less(x, y) || Equal(x, y) || Less(y, x)
    ensures LessEq(x, y) <==> Less(x, y) || Equal(x, y)
    ensures GreaterEq(x, y) <==> Greater(x, y) || Equal(x, y)
  {
    if Value(x) == Value(y) {
      ValueInjective(x, y);
    }
  }

  // ---------------------------------------------------------------------------------------------
  // clear, operator<< and operator>>
  // ---------------------------------------------------------------------------------------------

  function Clear(ip: IPv4): (r: IPv4)
    ensures r.a == 0 && r.b == 0 && r.c == 0 && r.d == 0
    ensures Value(r) == 0
  {
    Zero
  }

  /** operator<<: the four parts in decimal, separated by dots, with no dot after the last. */
  function Format(ip: IPv4): (s: string)
    ensures GetlineSplit(s, '.') == [Decimal(ip.a), Decimal(ip.b), Decimal(ip.c), Decimal(ip.d)]
    ensures s[|s| - 1] != '.'
  {
    var fields := [Decimal(ip.a), Decimal(ip.b), Decimal(ip.c), Decimal(ip.d)];
    assert NoDelimiter(fields, '.') by {
      forall i | 0 <= i < 4 ensures '.' !in fields[i] {
        assert AllDigits(fields[i]);
      }
    }
    GetlineSplitJoin(fields, '.');
    JoinEndsWithLast(fields, '.');
    var s := Join(fields, '.');
    assert AllDigits(fields[3]);
    s
  }

  /**
    The state operator>> leaves the address in: read (no exception), rejected (bad_ipv4_format
    thrown after clear()), or an exception from std::stoi with the parts read so far kept.
  */
  datatype ParseOutcome =
    | Parsed(ip: IPv4)
    | Rejected(ip: IPv4)
    | StoiThrew(error: StoiError, ip: IPv4)

  predicate InOctetRange(r: Result<int, StoiError>) {
    r.Ok? && 0 <= r.value <= 255
  }

  /** What std::stoi makes of each part, in order. */
  function StoiAll(parts: seq<string>): (vals: seq<Result<int, StoiError>>)
    ensures |vals| == |parts|
    ensures forall k :: 0 <= k < |parts| ==> vals[k] == Stoi(parts[k])
  {
    if |parts| == 0 then [] else [Stoi(parts[0])] + StoiAll(parts[1..])
  }

  /**
    The loop of operator>> over the parts, given what std::stoi made of each, from part number i
    on: a value is stored while i < 4 and rejected when it lies outside 0..255; a fifth part is
    rejected; a std::stoi exception leaves the parts stored so far in place.
  */
  function ReadParts(vals: seq<Result<int, StoiError>>, i: nat, ip: IPv4): (r: ParseOutcome)
    requires i <= 4
    ensures r.Rejected? ==> r.ip == Zero
    ensures r.Parsed? <==> i + |vals| <= 4 && forall k :: 0 <= k < |vals| ==> InOctetRange(vals[k])
    decreases |vals|
  {
    if |vals| == 0 then Parsed(ip)
    else if i < 4 then
      match vals[0]
      case Err(e) => StoiThrew(e, ip)
      case Ok(v) =>
        if v > 255 || v < 0 then Rejected(Zero)
        else
          var r := ReadParts(vals[1..], i + 1, SetPart(ip, i, v));
          assert forall k :: 1 <= k < |vals| ==> vals[k] == vals[1..][k - 1];
          r
    else Rejected(Zero)
  }

  lemma PartOfSetPart(ip: IPv4, i: nat, v: Octet, j: nat)
    requires i < 4 && j < 4
    ensures Part(SetPart(ip, i, v), j) == if i == j then v else Part(ip, j)
  {
  }

  /** One step of the loop: a part that reads in range is stored and the loop goes on. */
  lemma ReadStep(vals: seq<Result<int, StoiError>>, i: nat, ip: IPv4, v: Octet)
    requires i < 4 && |vals| > 0 && vals[0] == Ok(v)
    ensures ReadParts(vals, i, ip) == ReadParts(vals[1..], i + 1, SetPart(ip, i, v))
  {
  }

  /** A successful read stores the value of part k in octet i + k. */
  lemma {:induction false} ReadPartsStores(vals: seq<Result<int, StoiError>>, i: nat, ip: IPv4)
    requires i <= 4 && ReadParts(vals, i, ip).Parsed?
    ensures var r := ReadParts(vals, i, ip);
      forall k :: 0 <= k < |vals| ==> vals[k] == Ok(Part(r.ip, i + k))
    decreases |vals|
  {
    if |vals| > 0 {
      var v := vals[0].value;
      var next := SetPart(ip, i, v);
      ReadStep(vals, i, ip, v);
      var rest := ReadParts(vals[1..], i + 1, next);
      ReadPartsStores(vals[1..], i + 1, next);
      assert Part(rest.ip, i) == v by {
        ReadPartsKeeps(vals[1..], i + 1, next);
        PartOfSetPart(ip, i, v, i);
      }
      forall k | 0 < k < |vals|
        ensures vals[k] == Ok(Part(rest.ip, i + k))
      {
        assert vals[k] == vals[1..][k - 1];
      }
    }
  }

  /** A successful read leaves the octets before part number i and after the last part alone. */
  lemma {:induction false} ReadPartsKeeps(vals: seq<Result<int, StoiError>>, i: nat, ip: IPv4)
    requires i <= 4 && ReadParts(vals, i, ip).Parsed?
    ensures var r := ReadParts(vals, i, ip);
      forall j :: 0 <= j < 4 && (j < i || i + |vals| <= j) ==> Part(r.ip, j) == Part(ip, j)
    decreases |vals|
  {
    if |vals| > 0 {
      var v := vals[0].value;
      var next := SetPart(ip, i, v);
      ReadStep(vals, i, ip, v);
      ReadPartsKeeps(vals[1..], i + 1, next);
      forall j | 0 <= j < 4 && (j < i || i + |vals| <= j)
        ensures Part(next, j) == Part(ip, j)
      {
        PartOfSetPart(ip, i, v, j);
      }
    }
  }

  /**
    operator>> on one input line, updating the address `ip`: the line is read exactly when it has
    at most four dot-separated parts and std::stoi reads each as a value in 0..255; a rejected
    line leaves the address cleared.
  */
  function Parse(line: string, ip: IPv4): (r: ParseOutcome)
    ensures var parts := GetlineSplit(line, '.');
      r.Parsed? <==> |parts| <= 4 && forall k :: 0 <= k < |parts| ==> InOctetRange(Stoi(parts[k]))
    ensures r.Rejected? ==> r.ip == Zero
  {
    ReadParts(StoiAll(GetlineSplit(line, '.')), 0, ip)
  }

  /** Four values that all read successfully determine the address completely. */
  lemma FourPartsDetermine(vals: seq<Result<int, StoiError>>, ip: IPv4)
    requires |vals| == 4 && ReadParts(vals, 0, ip).Parsed?
    ensures var r := ReadParts(vals, 0, ip).ip;
      vals == [Ok(r.a), Ok(r.b), Ok(r.c), Ok(r.d)]
  {
    ReadPartsStores(vals, 0, ip);
    var r := ReadParts(vals, 0, ip).ip;
    assert vals[0] == Ok(Part(r, 0));
    assert vals[1] == Ok(Part(r, 1));
    assert vals[2] == Ok(Part(r, 2));
    assert vals[3] == Ok(Part(r, 3));
  }

  /** Reading the four octet values stores them, whatever the address held before. */
  lemma ReadOctets(ip: IPv4, before: IPv4)
    ensures ReadParts([Ok(ip.a), Ok(ip.b), Ok(ip.c), Ok(ip.d)], 0, before) == Parsed(ip)
  {
    var vals: seq<Result<int, StoiError>> := [Ok(ip.a), Ok(ip.b), Ok(ip.c), Ok(ip.d)];
    var x1 := before.(a := ip.a);
    var x2 := x1.(b := ip.b);
    var x3 := x2.(c := ip.c);
    ReadStep(vals, 0, before, ip.a);
    ReadStep(vals[1..], 1, x1, ip.b);
    ReadStep(vals[2..], 2, x2, ip.c);
    assert vals[2..][1..] == vals[3..];
    ReadStep(vals[3..], 3, x3, ip.d);
    assert vals[3..][1..] == [];
    assert x3.(d := ip.d) == ip;
  }

  /** std::stoi reads each printed octet back. */
  lemma DecimalsRead(ip: IPv4)
    ensures StoiAll([Decimal(ip.a), Decimal(ip.b), Decimal(ip.c), Decimal(ip.d)]) == [Ok(ip.a), Ok(ip.b), Ok(ip.c), Ok(ip.d)]
  {
    var vals := StoiAll([Decimal(ip.a), Decimal(ip.b), Decimal(ip.c), Decimal(ip.d)]);
    assert vals[0] == Ok(ip.a) by { StoiDecimal(ip.a); }
    assert vals[1] == Ok(ip.b) by { StoiDecimal(ip.b); }
    assert vals[2] == Ok(ip.c) by { StoiDecimal(ip.c); }
    assert vals[3] == Ok(ip.d) by { StoiDecimal(ip.d); }
  }

  /** Reading back what operator<< printed restores the address, whatever it held before. */
  lemma FormatParseRoundTrip(ip: IPv4, before: IPv4)
    ensures Parse(Format(ip), before) == Parsed(ip)
  {
    assert GetlineSplit(Format(ip), '.') == [Decimal(ip.a), Decimal(ip.b), Decimal(ip.c), Decimal(ip.d)];
    DecimalsRead(ip);
    ReadOctets(ip, before);
  }

  /**
    Input with fewer than four parts is accepted although the code means to demand exactly four:
    the octets that are not read keep their old values.
  */
  lemma ShortInputAccepted()
    ensures Parse("1.2", IPv4(9, 9, 9, 9)) == Parsed(IPv4(1, 2, 9, 9))
    ensures Parse("", IPv4(9, 9, 9, 9)) == Parsed(IPv4(9, 9, 9, 9))
  {
    var fields := ["1", "2"];
    assert GetlineSplit("1.2", '.') == fields by {
      assert NoDelimiter(fields, '.');
      GetlineSplitJoin(fields, '.');
      assert Join(fields, '.') == "1.2";
    }
    var vals := StoiAll(fields);
    assert vals[0] == Ok(1) by {
      StoiDecimal(1);
      assert Decimal(1) == "1";
    }
    assert vals[1] == Ok(2) by {
      StoiDecimal(2);
      assert Decimal(2) == "2";
    }
    var before := IPv4(9, 9, 9, 9);
    ReadStep(vals, 0, before, 1);
    ReadStep(vals[1..], 1, before.(a := 1), 2);
    assert vals[1..][1..] == [];
    assert GetlineSplit("", '.') == [] by {
      assert RawSplit("", '.') == [""];
    }
  }

  /** operator>> as its comment intends it: exactly four parts, each in 0..255. */
  function ParseExact(line: string, ip: IPv4): (r: ParseOutcome)
    ensures var parts := GetlineSplit(line, '.');
      r.Parsed? <==> |parts| == 4 && forall k :: 0 <= k < |parts| ==> InOctetRange(Stoi(parts[k]))
    ensures r.Rejected? ==> r.ip == Zero
  {
    var parts := GetlineSplit(line, '.');
    var r := ReadParts(StoiAll(parts), 0, ip);
    if r.Parsed? && |parts| != 4 then Rejected(Zero) else r
  }

  /** A successful exact parse depends on the line alone, and it reads back operator<<. */
  lemma ParseExactIgnoresOldValue(line: string, x: IPv4, y: IPv4)
    ensures ParseExact(line, x).Parsed? ==> ParseExact(line, y) == ParseExact(line, x)
    ensures ParseExact(Format(x), y) == Parsed(x)
  {
    var vals := StoiAll(GetlineSplit(line, '.'));
    if ParseExact(line, x).Parsed? {
      assert ParseExact(line, y).Parsed?;
      FourPartsDetermine(vals, x);
      FourPartsDetermine(vals, y);
    }
    FormatParseRoundTrip(x, y);
  }

  // ---------------------------------------------------------------------------------------------
  // The range listing of main: for (auto x = hi; x >= lo; --x) print x
  // ---------------------------------------------------------------------------------------------

  /**
    Lists the addresses from `hi` down to `lo`. When `lo` is 0.0.0.0 the source loop never ends
    (see GuardHoldsAtZero), so that bound is excluded.
  */
  method ListRange(lo: IPv4, hi: IPv4) returns (listed: seq<IPv4>)
    requires lo != Zero
    ensures |listed| == if Value(hi) >= Value(lo) then Value(hi) - Value(lo) + 1 else 0
    ensures forall k :: 0 <= k < |listed| ==> Value(listed[k]) == Value(hi) - k
  {
    ValueBound(hi);
    assert Value(lo) > 0 by {
      if Value(lo) == 0 { ValueInjective(lo, Zero); }
    }
    listed := [];
    var x := hi;
    while GreaterEq(x, lo)
      invariant Value(x) + |listed| == Value(hi)
      invariant |listed| > 0 ==> Value(x) + 1 >= Value(lo)
      invariant forall k :: 0 <= k < |listed| ==> Value(listed[k]) == Value(hi) - k
      decreases Value(x)
    {
      listed := listed + [x];
      PrevValue(x);
      x := Prev(x);
    }
  }

  /**
    The listing as intended: from `hi` down to `lo` inclusive, stopping once `lo` is listed
    instead of testing `x >= lo` after the step, so that `lo` = 0.0.0.0 ends too.
  */
  method ListRangeInclusive(lo: IPv4, hi: IPv4) returns (listed: seq<IPv4>)
    ensures |listed| == if Value(hi) >= Value(lo) then Value(hi) - Value(lo) + 1 else 0
    ensures forall k :: 0 <= k < |listed| ==> Value(listed[k]) == Value(hi) - k
  {
    listed := [];
    if !GreaterEq(hi, lo) {
      return;
    }
    var x := hi;
    while !Equal(x, lo)
      invariant Value(x) + |listed| == Value(hi)
      invariant Value(x) >= Value(lo)
      invariant forall k :: 0 <= k < |listed| ==> Value(listed[k]) == Value(hi) - k
      decreases Value(x)
    {
      if Value(x) == Value(lo) {
        ValueInjective(x, lo);
      }
      listed := listed + [x];
      PrevValue(x);
      x := Prev(x);
    }
    listed := listed + [x];
  }

  /** Every address is >= 0.0.0.0, so a listing down to 0.0.0.0 wraps around and never stops. */
  lemma GuardHoldsAtZero(x: IPv4)
    ensures GreaterEq(x, Zero)
  {
  }
}
