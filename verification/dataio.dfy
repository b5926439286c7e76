/**
  The peer directory readers: the factory that maps a data-source type to a reader, the reader
  list built from the configuration's data_sources object, the CSV reader's line and column
  logic, and the JSON reader's loop that skips elements it cannot convert.

  Files are not read here: a CSV reader is given the file's text, a JSON reader and the factory
  the document json::parse produced.
*/
module DataIO {
  import opened Outcome
  import opened Text
  import opened Peers

  // ---------------------------------------------------------------------------------------------
  // Reader factory
  // ---------------------------------------------------------------------------------------------

  datatype ReaderKind = JsonReader | CsvReader | SqliteReader

  /** A reader object: its class and the path it was constructed with. */
  datatype Reader = Reader(kind: ReaderKind, path: string)

  /** The type name that selects each reader class. */
  function KindName(k: ReaderKind): string
  {
    match k
    case JsonReader => "json"
    case CsvReader => "csv"
    case SqliteReader => "sqlite"
  }

  /**
    createDataReader: exact comparison with "json", "csv" and "sqlite", in that order; any other
    type gives nullptr.
  */
  function CreateDataReader(kind: string, path: string): (r: Option<Reader>)
    ensures r.Some? <==> kind == "json" || kind == "csv" || kind == "sqlite"
    ensures r.Some? ==> r.value.path == path && KindName(r.value.kind) == kind
  {
    if kind == "json" then Some(Reader(JsonReader, path))
    else if kind == "csv" then Some(Reader(CsvReader, path))
    else if kind == "sqlite" then Some(Reader(SqliteReader, path))
    else None
  }

  /** Each reader class is created from its own name and from no other string. */
  lemma CreateDataReaderExact(k: ReaderKind, kind: string, path: string)
    ensures CreateDataReader(KindName(k), path) == Some(Reader(k, path))
    ensures CreateDataReader(kind, path) == Some(Reader(k, path)) <==> kind == KindName(k)
  {
  }

  /** Names differing only in case are not recognised. */
  lemma CreateDataReaderCaseSensitive()
    ensures CreateDataReader("JSON", "peers.json") == None && CreateDataReader("Csv", "peers.csv") == None
  {
  }

  // ---------------------------------------------------------------------------------------------
  // JSON documents
  // ---------------------------------------------------------------------------------------------

  /**
    A parsed JSON value. An object's members are listed in iteration order, which for the default
    nlohmann::json object type is ascending key order.
  */
  datatype Json =
    | JNull
    | JBool(b: bool)
    | JNumber(n: int)
    | JString(s: string)
    | JArray(items: seq<Json>)
    | JObject(members: seq<(string, Json)>)

  /** The json::type_error a conversion or an access throws: 302 wrong type, 305 operator[] misuse. */
  datatype JsonError = TypeError(id: int)

  /** operator[] on an object: the member's value, or the null a missing key is inserted with. */
  function Member(members: seq<(string, Json)>, key: string): (v: Json)
    ensures v != JNull ==> exists i :: 0 <= i < |members| && members[i] == (key, v)
  {
    if |members| == 0 then JNull
    else if members[0].0 == key then members[0].1
    else Member(members[1..], key)
  }

  /** What a range-for over a json visits: array items, object values, nothing for null, else the value. */
  function Elements(j: Json): (items: seq<Json>)
    ensures j.JArray? ==> items == j.items
    ensures j.JObject? ==> |items| == |j.members|
    ensures j.JNull? ==> items == []
  {
    match j
    case JArray(items) => items
    case JObject(members) => seq(|members|, i requires 0 <= i < |members| => members[i].1)
    case JNull => []
    case _ => [j]
  }

  /** Conversion to std::string: only a string converts. */
  function AsString(j: Json): (r: Result<string, JsonError>)
    ensures r.Ok? <==> j.JString?
  {
    match j
    case JString(s) => Ok(s)
    case _ => Err(TypeError(302))
  }

  /** Conversion to short: a number is truncated to 16 bits, a boolean gives 0 or 1, nothing else converts. */
  function AsShort(j: Json): (r: Result<int16, JsonError>)
    ensures r.Ok? <==> j.JNumber? || j.JBool?
    ensures j.JNumber? ==> r.Ok? && r.value == ToShort(j.n)
  {
    match j
    case JNumber(n) => Ok(ToShort(n))
    case JBool(b) => Ok(if b then 1 else 0)
    case _ => Err(TypeError(302))
  }

  /**
    One element of the JSON reader's loop: Peer(e["name"], e["ip"], e["port"]). A non-const
    operator[] turns null into an object and fails on the other non-objects; the three conversions
    must all succeed.
  */
  function PeerOf(e: Json): (r: Result<Peer, JsonError>)
    ensures !(e.JObject? || e.JNull?) ==> r == Err(TypeError(305))
    ensures r.Err? ==> r.error == TypeError(302) || r.error == TypeError(305)
  {
    var members :=
      match e
      case JObject(ms) => Some(ms)
      case JNull => Some([])
      case _ => None;
    match members
    case None => Err(TypeError(305))
    case Some(ms) =>
      match (AsString(Member(ms, "name")), AsString(Member(ms, "ip")), AsShort(Member(ms, "port")))
      case (Ok(name), Ok(ip), Ok(port)) => Ok(MakePeer(name, ip, port))
      case (Err(e), _, _) => Err(e)
      case (_, Err(e), _) => Err(e)
      case (_, _, Err(e)) => Err(e)
  }

  /**
    An element converts exactly when it is an object (or null) whose name and ip are strings and
    whose port is a number or a boolean; the peer then carries those fields.
  */
  lemma PeerOfOk(e: Json)
    ensures var members := if e.JObject? then e.members else [];
      var name, ip, port := Member(members, "name"), Member(members, "ip"), Member(members, "port");
      (PeerOf(e).Ok? <==>
        (e.JObject? || e.JNull?) && name.JString? && ip.JString? && (port.JNumber? || port.JBool?)) &&
      (PeerOf(e).Ok? ==> PeerOf(e).value == MakePeer(name.s, ip.s, AsShort(port).value))
  {
  }

  /** f applied to each element, in order. */
  function Map<A, B>(f: A -> B, xs: seq<A>): (ys: seq<B>)
    ensures |ys| == |xs| && forall i :: 0 <= i < |xs| ==> ys[i] == f(xs[i])
  {
    seq(|xs|, i requires 0 <= i < |xs| => f(xs[i]))
  }

  lemma MapAppend<A, B>(f: A -> B, a: seq<A>, b: seq<A>)
    ensures Map(f, a + b) == Map(f, a) + Map(f, b)
  {
    var whole, left, right := Map(f, a + b), Map(f, a), Map(f, b);
    forall i | 0 <= i < |a + b| ensures whole[i] == (left + right)[i] {
      if i < |a| {
        assert (a + b)[i] == a[i];
      } else {
        assert (a + b)[i] == b[i - |a|];
      }
    }
  }

  /** What converting each element gives, in order. */
  function Conversions(items: seq<Json>): seq<Result<Peer, JsonError>>
  {
    Map(PeerOf, items)
  }

  /** The try/catch loop over the conversions: each peer is kept, in order; each exception is skipped. */
  function KeepConverted(results: seq<Result<Peer, JsonError>>): (peers: seq<Peer>)
    ensures |peers| <= |results|
  {
    if |results| == 0 then []
    else
      var rest := KeepConverted(results[1..]);
      match results[0]
      case Ok(p) => [p] + rest
      case Err(_) => rest
  }

  /** The loop of JsonDataReader::readData over the elements it visits: at most one peer each. */
  function CollectPeers(items: seq<Json>): (peers: seq<Peer>)
    ensures |peers| <= |items|
  {
    KeepConverted(Conversions(items))
  }

  /**
    JsonDataReader::readData on the parsed document: every peer read is the conversion of an
    element visited, and when every element converts, there is one peer per element, in order.
  */
  function JsonReadData(doc: Json): (peers: seq<Peer>)
    ensures var items := Elements(doc);
      forall j :: 0 <= j < |peers| ==> exists i :: 0 <= i < |items| && PeerOf(items[i]) == Ok(peers[j])
    ensures var items := Elements(doc);
      (forall i :: 0 <= i < |items| ==> PeerOf(items[i]).Ok?) ==>
        |peers| == |items| && forall i :: 0 <= i < |items| ==> peers[i] == PeerOf(items[i]).value
  {
    var items := Elements(doc);
    CollectPeersSound(items);
    if forall i :: 0 <= i < |items| ==> PeerOf(items[i]).Ok? then
      CollectsAllGood(items);
      CollectPeers(items)
    else
      CollectPeers(items)
  }

  /** A null or scalar document reads no peers. */
  lemma JsonScalarDocuments(n: int, s: string)
    ensures JsonReadData(JNull) == []
    ensures JsonReadData(JNumber(n)) == []
    ensures JsonReadData(JString(s)) == []
  {
    ScalarReadsNothing(JNumber(n));
    ScalarReadsNothing(JString(s));
  }

  lemma ScalarReadsNothing(doc: Json)
    requires doc.JNumber? || doc.JString?
    ensures JsonReadData(doc) == []
  {
    var one := Conversions([doc]);
    assert one[1..] == [] && one[0] == PeerOf(doc);
  }

  /** An object document reads the peers among its member values. */
  lemma JsonDocumentShapes(members: seq<(string, Json)>)
    ensures JsonReadData(JObject(members)) == CollectPeers(seq(|members|, i requires 0 <= i < |members| => members[i].1))
  {
  }

  lemma {:induction false} KeepConvertedAppend(a: seq<Result<Peer, JsonError>>, b: seq<Result<Peer, JsonError>>)
    ensures KeepConverted(a + b) == KeepConverted(a) + KeepConverted(b)
  {
    if |a| == 0 {
      assert a + b == b;
    } else {
      assert (a + b)[1..] == a[1..] + b;
      assert (a + b)[0] == a[0];
      KeepConvertedAppend(a[1..], b);
    }
  }

  lemma CollectPeersAppend(a: seq<Json>, b: seq<Json>)
    ensures CollectPeers(a + b) == CollectPeers(a) + CollectPeers(b)
  {
    MapAppend(PeerOf, a, b);
    KeepConvertedAppend(Conversions(a), Conversions(b));
  }

  /** An element that throws is skipped: the others are kept, in their order. */
  lemma SkipsBadElement(a: seq<Json>, e: Json, b: seq<Json>)
    requires PeerOf(e).Err?
    ensures CollectPeers(a + [e] + b) == CollectPeers(a + b)
  {
    CollectPeersAppend(a + [e], b);
    CollectPeersAppend(a, [e]);
    CollectPeersAppend(a, b);
    var one := Conversions([e]);
    assert one[1..] == [] && one[0].Err?;
  }

  lemma {:induction false} KeepConvertedSound(results: seq<Result<Peer, JsonError>>)
    ensures forall j :: 0 <= j < |KeepConverted(results)| ==>
      exists i :: 0 <= i < |results| && results[i] == Ok(KeepConverted(results)[j])
  {
    if |results| == 0 {
      assert KeepConverted(results) == [];
    } else {
      KeepConvertedSound(results[1..]);
      var kept, rest := KeepConverted(results), KeepConverted(results[1..]);
      forall j | 0 <= j < |kept|
        ensures exists i :: 0 <= i < |results| && results[i] == Ok(kept[j])
      {
        if results[0].Ok? && j == 0 {
          assert results[0] == Ok(kept[0]);
        } else {
          var k := if results[0].Ok? then j - 1 else j;
          assert kept[j] == rest[k];
          var i :| 0 <= i < |results| - 1 && results[1..][i] == Ok(rest[k]);
          assert results[1..][i] == results[i + 1];
        }
      }
    }
  }

  /** Every peer read comes from an element of the document that converts to it. */
  lemma CollectPeersSound(items: seq<Json>)
    ensures forall j :: 0 <= j < |CollectPeers(items)| ==>
      exists i :: 0 <= i < |items| && PeerOf(items[i]) == Ok(CollectPeers(items)[j])
  {
    var results := Conversions(items);
    var peers := KeepConverted(results);
    assert CollectPeers(items) == peers;
    KeepConvertedSound(results);
    forall j | 0 <= j < |peers|
      ensures exists i :: 0 <= i < |items| && PeerOf(items[i]) == Ok(peers[j])
    {
      var i :| 0 <= i < |results| && results[i] == Ok(peers[j]);
      assert PeerOf(items[i]) == results[i];
    }
  }

  lemma {:induction false} KeepConvertedAll(results: seq<Result<Peer, JsonError>>)
    requires forall i :: 0 <= i < |results| ==> results[i].Ok?
    ensures |KeepConverted(results)| == |results|
    ensures forall i :: 0 <= i < |results| ==> KeepConverted(results)[i] == results[i].value
  {
    if |results| > 0 {
      KeepConvertedAll(results[1..]);
      var rest := KeepConverted(results[1..]);
      assert KeepConverted(results) == [results[0].value] + rest;
      forall i | 0 < i < |results|
        ensures KeepConverted(results)[i] == results[i].value
      {
        assert results[1..][i - 1] == results[i];
      }
    }
  }

  /** When every element converts, the result has one peer per element, in order. */
  lemma CollectsAllGood(items: seq<Json>)
    requires forall i :: 0 <= i < |items| ==> PeerOf(items[i]).Ok?
    ensures |CollectPeers(items)| == |items|
    ensures forall i :: 0 <= i < |items| ==> CollectPeers(items)[i] == PeerOf(items[i]).value
  {
    KeepConvertedAll(Conversions(items));
  }

  /** The port is narrowed to a short, so 70000 reads as 4464; a wrongly typed field drops the entry. */
  lemma JsonExamples()
    ensures var good := JObject([("ip", JString("10.0.0.2")), ("name", JString("bob")), ("port", JNumber(70000))]);
      PeerOf(good) == Ok(Peer("10.0.0.2", 4464, "bob"))
    ensures var bad := JObject([("ip", JString("10.0.0.2")), ("name", JString("bob")), ("port", JString("80"))]);
      PeerOf(bad) == Err(TypeError(302))
    ensures PeerOf(JNumber(1)) == Err(TypeError(305)) && PeerOf(JNull) == Err(TypeError(302))
  {
    assert ToShort(70000) == 4464;
  }

  // ---------------------------------------------------------------------------------------------
  // CSV
  // ---------------------------------------------------------------------------------------------

  /** The outcome of one CSV line. */
  datatype RowOutcome = Skipped | Accepted(peer: Peer) | StoiThrew(error: StoiError)

  /**
    One line of CsvDataReader::readData: the columns getline gives with ','; fewer than three
    skip the line; otherwise Peer(row[0], row[1], stoi(row[2])) with the int narrowed to short.
  */
  function CsvRow(line: string): (r: RowOutcome)
    ensures r.Skipped? <==> |GetlineSplit(line, ',')| < 3
  {
    var row := GetlineSplit(line, ',');
    if |row| < 3 then Skipped
    else
      match Stoi(row[2])
      case Ok(v) => Accepted(MakePeer(row[0], row[1], ToShort(v)))
      case Err(e) => StoiThrew(e)
  }

  /**
    A line is skipped exactly when it has fewer than three columns; otherwise it is accepted when
    stoi takes its third column, and the peer is made of the first three columns.
  */
  lemma CsvRowColumns(line: string)
    ensures var row := GetlineSplit(line, ',');
      (CsvRow(line).Skipped? <==> |row| < 3) &&
      (|row| >= 3 ==>
        (CsvRow(line).Accepted? <==> Stoi(row[2]).Ok?) &&
        (CsvRow(line).Accepted? ==> CsvRow(line).peer == MakePeer(row[0], row[1], ToShort(Stoi(row[2]).value))) &&
        (CsvRow(line).StoiThrew? ==> Stoi(row[2]) == Err(CsvRow(line).error)))
  {
  }

  /** The outcome of each line, in file order. */
  function RowsOf(lines: seq<string>): seq<RowOutcome>
  {
    Map(CsvRow, lines)
  }

  /** The line loop over the lines' outcomes: accepted rows in order; the first stoi exception ends it. */
  function CollectRows(rows: seq<RowOutcome>): (r: Result<seq<Peer>, StoiError>)
    ensures r.Ok? ==> |r.value| <= |rows|
  {
    if |rows| == 0 then Ok([])
    else
      match rows[0]
      case StoiThrew(e) => Err(e)
      case Skipped => CollectRows(rows[1..])
      case Accepted(p) =>
        match CollectRows(rows[1..])
        case Ok(rest) => Ok([p] + rest)
        case Err(e) => Err(e)
  }

  /** The loop of CsvDataReader::readData over the file's lines. */
  function CsvLines(lines: seq<string>): Result<seq<Peer>, StoiError>
  {
    CollectRows(RowsOf(lines))
  }

  /**
    CsvDataReader::readData on the file's text: the lines std::getline yields, then the loop. It
    throws exactly when some line has a third column that stoi rejects, and otherwise reads at
    most one peer per line.
  */
  function CsvReadData(content: string): (r: Result<seq<Peer>, StoiError>)
    ensures var lines := GetlineSplit(content, '\n');
      r.Err? <==> exists i :: 0 <= i < |lines| && CsvRow(lines[i]).StoiThrew?
    ensures r.Ok? ==> |r.value| <= |GetlineSplit(content, '\n')|
  {
    var lines := GetlineSplit(content, '\n');
    CsvFailsIff(lines);
    CsvLines(lines)
  }

  lemma {:induction false} CollectRowsErrIff(rows: seq<RowOutcome>)
    ensures CollectRows(rows).Err? <==> exists i :: 0 <= i < |rows| && rows[i].StoiThrew?
  {
    if |rows| > 0 {
      CollectRowsErrIff(rows[1..]);
      if exists i :: 0 <= i < |rows| - 1 && rows[1..][i].StoiThrew? {
        var i :| 0 <= i < |rows| - 1 && rows[1..][i].StoiThrew?;
        assert rows[i + 1].StoiThrew?;
      }
      if exists i :: 0 <= i < |rows| && rows[i].StoiThrew? {
        var i :| 0 <= i < |rows| && rows[i].StoiThrew?;
        if i > 0 {
          assert rows[1..][i - 1].StoiThrew?;
        }
      }
    }
  }

  /** readData fails exactly when some line with three columns has a third column stoi rejects. */
  lemma CsvFailsIff(lines: seq<string>)
    ensures CsvLines(lines).Err? <==> exists i :: 0 <= i < |lines| && CsvRow(lines[i]).StoiThrew?
  {
    var rows := RowsOf(lines);
    CollectRowsErrIff(rows);
    if exists i :: 0 <= i < |lines| && CsvRow(lines[i]).StoiThrew? {
      var i :| 0 <= i < |lines| && CsvRow(lines[i]).StoiThrew?;
      assert rows[i].StoiThrew?;
    }
  }

  lemma {:induction false} CollectRowsAppend(a: seq<RowOutcome>, b: seq<RowOutcome>)
    requires CollectRows(a).Ok? && CollectRows(b).Ok?
    ensures CollectRows(a + b) == Ok(CollectRows(a).value + CollectRows(b).value)
  {
    if |a| == 0 {
      assert a + b == b;
      assert CollectRows(a).value == [];
      assert [] + CollectRows(b).value == CollectRows(b).value;
    } else {
      assert (a + b)[1..] == a[1..] + b;
      assert (a + b)[0] == a[0];
      var tail := CollectRows(a[1..]);
      assert tail.Ok?;
      CollectRowsAppend(a[1..], b);
      var joined := CollectRows(a[1..] + b);
      assert joined == Ok(tail.value + CollectRows(b).value);
      match a[0]
      case Skipped =>
        assert CollectRows(a) == tail;
        assert CollectRows(a + b) == joined;
      case Accepted(p) =>
        assert CollectRows(a) == Ok([p] + tail.value);
        assert CollectRows(a + b) == Ok([p] + joined.value);
        assert [p] + (tail.value + CollectRows(b).value) == [p] + tail.value + CollectRows(b).value;
    }
  }

  /** Lines are processed in order and independently: the peers of a + b are those of a, then of b. */
  lemma CsvLinesAppend(a: seq<string>, b: seq<string>)
    requires CsvLines(a).Ok? && CsvLines(b).Ok?
    ensures CsvLines(a + b) == Ok(CsvLines(a).value + CsvLines(b).value)
  {
    MapAppend(CsvRow, a, b);
    CollectRowsAppend(RowsOf(a), RowsOf(b));
  }

  /** One line: one peer when accepted, none when skipped. */
  lemma CsvSingleLine(line: string)
    requires !CsvRow(line).StoiThrew?
    ensures CsvRow(line).Accepted? ==> CsvLines([line]) == Ok([CsvRow(line).peer])
    ensures CsvRow(line).Skipped? ==> CsvLines([line]) == Ok([])
  {
    var rows := RowsOf([line]);
    assert rows == [CsvRow(line)];
    assert rows[1..] == [];
    assert CollectRows(rows[1..]) == Ok([]);
    if CsvRow(line).Accepted? {
      assert [CsvRow(line).peer] + [] == [CsvRow(line).peer];
    }
  }

  /** The three columns a row is made of, joined with ','. */
  function CsvLine(name: string, ip: string, port: string): string
  {
    name + [','] + ip + [','] + port
  }

  lemma ColumnsOf(name: string, ip: string, port: string)
    requires ',' !in name && ',' !in ip && ',' !in port
    ensures RawSplit(CsvLine(name, ip, port), ',') == [name, ip, port]
  {
    RawSplitOfField(port, ',');
    RawSplitCons(ip, ',', port);
    RawSplitCons(name, ',', ip + [','] + port);
    assert CsvLine(name, ip, port) == name + [','] + (ip + [','] + port);
  }

  lemma ColumnsThenRest(name: string, ip: string, port: string, rest: string)
    requires ',' !in name && ',' !in ip && ',' !in port
    ensures RawSplit(CsvLine(name, ip, port) + [','] + rest, ',') == [name, ip, port] + RawSplit(rest, ',')
  {
    var tail := port + [','] + rest;
    RawSplitCons(port, ',', rest);
    RawSplitCons(ip, ',', tail);
    RawSplitCons(name, ',', ip + [','] + tail);
    assert CsvLine(name, ip, port) + [','] + rest == name + [','] + (ip + [','] + tail);
  }

  /**
    A line written as name,ip,port with a decimal port in the short range reads back as that peer.
  */
  lemma CsvRowRoundTrip(name: string, ip: string, port: nat)
    requires ',' !in name && ',' !in ip && port < 0x8000
    ensures CsvRow(CsvLine(name, ip, Decimal(port))) == Accepted(MakePeer(name, ip, port as int16))
  {
    var digits := Decimal(port);
    assert ',' !in digits by {
      forall k | 0 <= k < |digits| ensures digits[k] != ',' {
        assert IsDigit(digits[k]);
      }
    }
    ColumnsOf(name, ip, digits);
    StoiDecimal(port);
  }

  /** A row is decided by its first three columns alone. */
  lemma SameFirstColumns(line1: string, line2: string)
    requires var r1, r2 := GetlineSplit(line1, ','), GetlineSplit(line2, ',');
      |r1| >= 3 && |r2| >= 3 && r1[..3] == r2[..3]
    ensures CsvRow(line1) == CsvRow(line2)
  {
    var r1, r2 := GetlineSplit(line1, ','), GetlineSplit(line2, ',');
    assert r1[0] == r1[..3][0] && r1[1] == r1[..3][1] && r1[2] == r1[..3][2];
    assert r2[0] == r2[..3][0] && r2[1] == r2[..3][1] && r2[2] == r2[..3][2];
  }

  /** Columns after the third are ignored. */
  lemma CsvRowIgnoresExtraColumns(name: string, ip: string, port: string, rest: string)
    requires ',' !in name && ',' !in ip && ',' !in port && port != ""
    ensures CsvRow(CsvLine(name, ip, port) + [','] + rest) == CsvRow(CsvLine(name, ip, port))
  {
    var short, long := CsvLine(name, ip, port), CsvLine(name, ip, port) + [','] + rest;
    ColumnsOf(name, ip, port);
    assert GetlineSplit(short, ',') == [name, ip, port];
    ColumnsThenRest(name, ip, port, rest);
    var raw := [name, ip, port] + RawSplit(rest, ',');
    assert RawSplit(long, ',') == raw;
    var row := GetlineSplit(long, ',');
    assert |raw| >= 4;
    assert row == raw || row == raw[..|raw| - 1];
    assert row[..3] == raw[..3] == [name, ip, port];
    SameFirstColumns(long, short);
  }

  /** Lines with fewer than three columns, such as a blank line or "bob,10.0.0.2", are skipped. */
  lemma CsvShortLinesSkipped(name: string, ip: string)
    requires ',' !in name && ',' !in ip
    ensures CsvRow("") == Skipped
    ensures CsvRow(name + [','] + ip) == Skipped
  {
    RawSplitOfField(ip, ',');
    RawSplitCons(name, ',', ip);
  }

  /** A file whose lines are written with '\n' between them reads line by line. */
  lemma CsvFileLines(lines: seq<string>)
    requires |lines| >= 1 && NoDelimiter(lines, '\n') && lines[|lines| - 1] != ""
    ensures CsvReadData(Join(lines, '\n')) == CsvLines(lines)
  {
    GetlineSplitJoin(lines, '\n');
  }

  // ---------------------------------------------------------------------------------------------
  // Reading the readers and the peers
  // ---------------------------------------------------------------------------------------------

  /**
    A readData that is a stub returning an empty pointer, whatever the reader's kind and path:
    SqliteDataReader's in P2PChat/dataio/dataio.cpp, and all three readers' in dataio/dataio.cpp.
  */
  function StubReadData(reader: Reader): (r: Option<seq<Peer>>)
    ensures r.None?
  {
    None
  }

  /**
    createDataReadersFromConfig: config["data_sources"] is looked up (a missing key reads as null,
    which has no items); for each member in iteration order its value is converted to a string path
    and createDataReader's non-null results are kept. A config that is not an object (or null), a
    data_sources value that is a non-empty array or a primitive, and a path that is not a string
    all throw.
  */
  function ReadersFromConfig(config: Json): (r: Result<seq<Reader>, JsonError>)
    ensures config.JNull? ==> r == Ok([])
    ensures !config.JObject? && !config.JNull? ==> r.Err?
    ensures config.JObject? && Member(config.members, "data_sources").JObject? ==>
      (r.Err? <==> !StringPaths(Member(config.members, "data_sources").members))
  {
    ReadersFromSourcesErrIffAll();
    match config
    case JObject(members) => ReadersFromValue(Member(members, "data_sources"))
    case JNull => Ok([])
    case _ => Err(TypeError(305))
  }

  /** The loop over data_sources.items(), each path read back through operator[] with the key. */
  function ReadersFromValue(sources: Json): (r: Result<seq<Reader>, JsonError>)
    ensures sources.JNull? ==> r == Ok([])
    ensures sources.JObject? ==> r == ReadersFromSources(sources.members)
  {
    match sources
    case JNull => Ok([])
    case JObject(members) => ReadersFromSources(members)
    case JArray(items) => if |items| == 0 then Ok([]) else Err(TypeError(305))
    case _ => Err(TypeError(305))
  }

  function ReadersFromSources(members: seq<(string, Json)>): (r: Result<seq<Reader>, JsonError>)
    ensures r.Ok? ==> |r.value| <= |members|
  {
    if |members| == 0 then Ok([])
    else
      var name := members[0].0;
      match AsString(members[0].1)
      case Err(e) => Err(e)
      case Ok(path) =>
        match ReadersFromSources(members[1..])
        case Err(e) => Err(e)
        case Ok(rest) =>
          match CreateDataReader(name, path)
          case Some(reader) => Ok([reader] + rest)
          case None => Ok(rest)
  }

  /** Every entry has a string path: the readers are those of the known types, in entry order. */
  predicate StringPaths(members: seq<(string, Json)>) {
    forall i :: 0 <= i < |members| ==> members[i].1.JString?
  }

  lemma {:induction false} ReadersFromSourcesAppend(a: seq<(string, Json)>, b: seq<(string, Json)>)
    requires StringPaths(a) && StringPaths(b)
    ensures ReadersFromSources(a).Ok? && ReadersFromSources(b).Ok? && ReadersFromSources(a + b).Ok?
    ensures ReadersFromSources(a + b) == Ok(ReadersFromSources(a).value + ReadersFromSources(b).value)
  {
    ReadersFromSourcesOk(a);
    ReadersFromSourcesOk(b);
    if |a| == 0 {
      assert a + b == b;
      assert ReadersFromSources(a).value == [];
      assert [] + ReadersFromSources(b).value == ReadersFromSources(b).value;
    } else {
      assert (a + b)[1..] == a[1..] + b;
      assert (a + b)[0] == a[0];
      assert StringPaths(a[1..]) by {
        forall i | 0 <= i < |a| - 1 ensures a[1..][i].1.JString? {
          assert a[1..][i] == a[i + 1];
        }
      }
      ReadersFromSourcesAppend(a[1..], b);
      ReadersFromSourcesOk(a[1..]);
      var tail := ReadersFromSources(a[1..]).value;
      var joined := ReadersFromSources(a[1..] + b).value;
      assert joined == tail + ReadersFromSources(b).value;
      var path := a[0].1.s;
      assert AsString(a[0].1) == Ok(path);
      match CreateDataReader(a[0].0, path)
      case None =>
        assert ReadersFromSources(a) == Ok(tail);
        assert ReadersFromSources(a + b) == Ok(joined);
      case Some(reader) =>
        assert ReadersFromSources(a) == Ok([reader] + tail);
        assert ReadersFromSources(a + b) == Ok([reader] + joined);
        assert [reader] + (tail + ReadersFromSources(b).value) == [reader] + tail + ReadersFromSources(b).value;
    }
  }

  lemma {:induction false} ReadersFromSourcesOk(members: seq<(string, Json)>)
    requires StringPaths(members)
    ensures ReadersFromSources(members).Ok?
  {
    if |members| > 0 {
      assert StringPaths(members[1..]) by {
        forall i | 0 <= i < |members| - 1 ensures members[1..][i].1.JString? {
          assert members[1..][i] == members[i + 1];
        }
      }
      ReadersFromSourcesOk(members[1..]);
    }
  }

  lemma ReadersFromSourcesErrIffAll()
    ensures forall members :: ReadersFromSources(members).Err? <==> !StringPaths(members)
  {
    forall members: seq<(string, Json)> ensures ReadersFromSources(members).Err? <==> !StringPaths(members) {
      ReadersFromSourcesErrIff(members);
    }
  }

  /** The configuration's loop throws exactly when some data source's path is not a string. */
  lemma {:induction false} ReadersFromSourcesErrIff(members: seq<(string, Json)>)
    ensures ReadersFromSources(members).Err? <==> !StringPaths(members)
  {
    if StringPaths(members) {
      ReadersFromSourcesOk(members);
    } else if |members| > 0 {
      if members[0].1.JString? {
        assert !StringPaths(members[1..]) by {
          var i :| 0 <= i < |members| && !members[i].1.JString?;
          assert members[1..][i - 1] == members[i];
        }
        ReadersFromSourcesErrIff(members[1..]);
      }
    }
  }

  /** Every reader comes from a data source whose key is its type name and whose value is its path. */
  lemma {:induction false} ReadersFromSourcesSound(members: seq<(string, Json)>)
    requires ReadersFromSources(members).Ok?
    ensures var readers := ReadersFromSources(members).value;
      forall j :: 0 <= j < |readers| ==>
        exists i :: 0 <= i < |members| && members[i] == (KindName(readers[j].kind), JString(readers[j].path))
  {
    if |members| > 0 {
      var readers := ReadersFromSources(members).value;
      var rest := ReadersFromSources(members[1..]);
      assert rest.Ok?;
      ReadersFromSourcesSound(members[1..]);
      var path := members[0].1.s;
      var made := CreateDataReader(members[0].0, path);
      forall j | 0 <= j < |readers|
        ensures exists i :: 0 <= i < |members| && members[i] == (KindName(readers[j].kind), JString(readers[j].path))
      {
        if made.Some? && j == 0 {
          assert readers[0] == made.value;
          assert members[0] == (KindName(readers[0].kind), JString(readers[0].path));
        } else {
          var k := if made.Some? then j - 1 else j;
          assert readers[j] == rest.value[k];
          var i :| 0 <= i < |members| - 1 &&
            members[1..][i] == (KindName(rest.value[k].kind), JString(rest.value[k].path));
          assert members[1..][i] == members[i + 1];
        }
      }
    }
  }

  /** One entry gives its reader when its type is known and nothing otherwise. */
  lemma ReadersFromOneSource(name: string, path: string)
    ensures ReadersFromSources([(name, JString(path))]) ==
      if CreateDataReader(name, path).Some? then Ok([CreateDataReader(name, path).value]) else Ok([])
  {
    var one := [(name, JString(path))];
    assert one[1..] == [];
    assert ReadersFromSources(one[1..]) == Ok([]);
    assert AsString(one[0].1) == Ok(path);
    if CreateDataReader(name, path).Some? {
      assert [CreateDataReader(name, path).value] + [] == [CreateDataReader(name, path).value];
    }
  }

  /** A configuration listing csv, ldap and json sources yields the csv and json readers, in order. */
  lemma ConfigExample()
    ensures ReadersFromConfig(JObject([("data_sources", JObject([
      ("csv", JString("peers.csv")), ("json", JString("peers.json")), ("ldap", JString("ldap://dir"))]))])) ==
      Ok([Reader(CsvReader, "peers.csv"), Reader(JsonReader, "peers.json")])
    ensures ReadersFromConfig(JNull) == Ok([])
    ensures ReadersFromConfig(JObject([("data_sources", JObject([("csv", JNumber(1))]))])) == Err(TypeError(302))
  {
    var csv, json, ldap := ("csv", JString("peers.csv")), ("json", JString("peers.json")), ("ldap", JString("ldap://dir"));
    ReadersFromOneSource("csv", "peers.csv");
    ReadersFromOneSource("json", "peers.json");
    ReadersFromOneSource("ldap", "ldap://dir");
    ReadersFromSourcesAppend([json], [ldap]);
    ReadersFromSourcesAppend([csv], [json] + [ldap]);
    assert [csv, json, ldap] == [csv] + ([json] + [ldap]);
    assert ReadersFromSources([json] + [ldap]) == Ok([Reader(JsonReader, "peers.json")] + []);
    assert ReadersFromSources([csv, json, ldap]) == Ok([Reader(CsvReader, "peers.csv")] + ([Reader(JsonReader, "peers.json")] + []));
    assert [Reader(CsvReader, "peers.csv")] + ([Reader(JsonReader, "peers.json")] + []) ==
      [Reader(CsvReader, "peers.csv"), Reader(JsonReader, "peers.json")];
    assert Member([("data_sources", JObject([csv, json, ldap]))], "data_sources") == JObject([csv, json, ldap]);
    var bad := [("csv", JNumber(1))];
    assert AsString(bad[0].1) == Err(TypeError(302));
  }
}
