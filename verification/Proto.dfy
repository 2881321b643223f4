/** The wire protocol of logregator-core: client and server messages in length-delimited frames. */
module Proto {
  import opened Bytes
  import opened Framing
  import opened Sequences

  /** Whether bytes are the bytes of a string. */
  type Utf8 = seq<byte> -> bool

  datatype Insert = Insert(source: i64, ts: i64, key: Str, value: Str)

  datatype Record = Record(source: i64, ts: i64, sn: u64, key: Str, value: Str)

  datatype ClientMessage =
    | InsertOne(insert: Insert)
    | Range(source: i64, key: Str, start: i64, end: i64, filter: Str)
    | BatchInsert(inserts: seq<Insert>)
    | GetMetrics
    | Ping

  datatype ServerMessage =
    | InsertOk
    | RangeRecord(rec: Record)
    | RangeEnd
    | Metrics(json: Str)
    | Pong
    | Error(err: Str)

  /** What a decoding step comes to: a value, an error, or a panic. */
  datatype Outcome<+T> = Got(value: T) | Fails | Panics {
    predicate IsFailure() {
      !Got?
    }

    function PropagateFailure<U>(): Outcome<U>
      requires IsFailure()
    {
      if Fails? then Fails else Panics
    }

    function Extract(): T
      requires !IsFailure()
    {
      value
    }
  }

  // ---- Bodies

  function I64(v: i64): (b: seq<byte>)
    ensures |b| == 8
  {
    BE8(Unsigned(v))
  }

  function Text(s: Str): (b: seq<byte>)
    ensures |b| == 4 + |s|
  {
    BE4(|s|) + s
  }

  function InsertBytes(i: Insert): seq<byte> {
    I64(i.source) + (I64(i.ts) + (Text(i.key) + Text(i.value)))
  }

  function RangeBytes(source: i64, key: Str, start: i64, end: i64, filter: Str): seq<byte> {
    I64(source) + (Text(key) + (I64(start) + (I64(end) + Text(filter))))
  }

  function RecordBytes(r: Record): seq<byte> {
    I64(r.source) + (I64(r.ts) + (BE8(r.sn) + (Text(r.key) + Text(r.value))))
  }

  function AllBytes(enc: Insert -> seq<byte>, xs: seq<Insert>): seq<byte> {
    if xs == [] then [] else enc(xs[0]) + AllBytes(enc, xs[1..])
  }

  function AllInserts(xs: seq<Insert>): seq<byte> {
    AllBytes(InsertBytes, xs)
  }

  function ClientBody(m: ClientMessage): (b: seq<byte>)
    ensures b != []
  {
    match m
    case InsertOne(i) => [0x01] + InsertBytes(i)
    case Range(source, key, start, end, filter) => [0x02] + RangeBytes(source, key, start, end, filter)
    case BatchInsert(xs) => [0x03] + (BE4(Low32(|xs|)) + AllInserts(xs))
    case GetMetrics => [0x04]
    case Ping => [0x05]
  }

  function ServerBody(m: ServerMessage): (b: seq<byte>)
    ensures b != []
  {
    match m
    case InsertOk => [0x81]
    case RangeRecord(r) => [0x82] + RecordBytes(r)
    case RangeEnd => [0x83]
    case Metrics(json) => [0x84] + Text(json)
    case Pong => [0x85]
    case Error(err) => [0xFF] + Text(err)
  }

  // ---- Reading fields at a position

  function GetU64(buf: seq<byte>, at: nat): Outcome<u64> {
    if |buf| < at + 8 then Fails else Got(Read8(buf[at..at + 8]))
  }

  function GetI64(buf: seq<byte>, at: nat): Outcome<i64> {
    if |buf| < at + 8 then Fails else Got(Signed(Read8(buf[at..at + 8])))
  }

  /** A missing length and bytes that are no string are errors; a length past the end panics. */
  function GetText(buf: seq<byte>, at: nat, utf8: Utf8): (r: Outcome<Str>)
    ensures r.Got? ==> at + 4 + |r.value| <= |buf|
  {
    if |buf| < at + 4 then Fails
    else
      var n := Read4(buf[at..at + 4]) as nat;
      if |buf| < at + 4 + n then Panics
      else if !utf8(buf[at + 4..at + 4 + n]) then Fails
      else Got(buf[at + 4..at + 4 + n])
  }

  function GetInsert(buf: seq<byte>, at: nat, utf8: Utf8): (r: Outcome<(Insert, nat)>)
    ensures r.Got? ==> at < r.value.1 <= |buf|
  {
    var source :- GetI64(buf, at);
    var ts :- GetI64(buf, at + 8);
    var key :- GetText(buf, at + 16, utf8);
    var value :- GetText(buf, at + 20 + |key|, utf8);
    Got((Insert(source, ts, key, value), at + 24 + |key| + |value|))
  }

  /** Reads the insert at a position, and gives the position behind it. */
  type Reader = nat -> Outcome<(Insert, nat)>

  function GetAll(read: Reader, at: nat, n: nat, xs: seq<Insert>): Outcome<seq<Insert>>
    decreases n
  {
    if n == 0 then Got(xs)
    else
      var i :- read(at);
      GetAll(read, i.1, n - 1, xs + [i.0])
  }

  function Inserts(buf: seq<byte>, utf8: Utf8): Reader {
    at => GetInsert(buf, at, utf8)
  }

  function GetBatch(buf: seq<byte>, at: nat, utf8: Utf8): Outcome<seq<Insert>> {
    if |buf| < at + 4 then Fails else GetAll(Inserts(buf, utf8), at + 4, Read4(buf[at..at + 4]), [])
  }

  function GetRange(buf: seq<byte>, at: nat, utf8: Utf8): Outcome<ClientMessage> {
    var source :- GetI64(buf, at);
    var key :- GetText(buf, at + 8, utf8);
    var start :- GetI64(buf, at + 12 + |key|);
    var end :- GetI64(buf, at + 20 + |key|);
    var filter :- GetText(buf, at + 28 + |key|, utf8);
    Got(Range(source, key, start, end, filter))
  }

  function GetRecord(buf: seq<byte>, at: nat, utf8: Utf8): Outcome<ServerMessage> {
    var source :- GetI64(buf, at);
    var ts :- GetI64(buf, at + 8);
    var sn :- GetU64(buf, at + 16);
    var key :- GetText(buf, at + 24, utf8);
    var value :- GetText(buf, at + 28 + |key|, utf8);
    Got(RangeRecord(Record(source, ts, sn, key, value)))
  }

  function ClientOf(body: seq<byte>, utf8: Utf8): Outcome<ClientMessage> {
    if body == [] then Panics
    else match body[0]
      case 0x01 =>
        var i :- GetInsert(body, 1, utf8);
        Got(InsertOne(i.0))
      case 0x02 => GetRange(body, 1, utf8)
      case 0x03 =>
        var xs :- GetBatch(body, 1, utf8);
        Got(BatchInsert(xs))
      case 0x04 => Got(GetMetrics)
      case 0x05 => Got(Ping)
      case _ => Fails
  }

  function ServerOf(body: seq<byte>, utf8: Utf8): Outcome<ServerMessage> {
    if body == [] then Panics
    else match body[0]
      case 0x81 => Got(InsertOk)
      case 0x82 => GetRecord(body, 1, utf8)
      case 0x83 => Got(RangeEnd)
      case 0x84 =>
        var json :- GetText(body, 1, utf8);
        Got(Metrics(json))
      case 0x85 => Got(Pong)
      case 0xFF =>
        var err :- GetText(body, 1, utf8);
        Got(Error(err))
      case _ => Fails
  }

  // ---- What the readers accept

  /** A piece lies at a position. */
  ghost predicate Has(buf: seq<byte>, at: nat, p: seq<byte>) {
    at + |p| <= |buf| && buf[at..at + |p|] == p
  }

  lemma HasParts(buf: seq<byte>, at: nat, a: seq<byte>, b: seq<byte>)
    ensures Has(buf, at, a + b) <==> Has(buf, at, a) && Has(buf, at + |a|, b)
  {
    if at + |a + b| <= |buf| {
      var s := buf[at..at + |a + b|];
      assert buf[at..at + |a|] == s[..|a|] && buf[at + |a|..at + |a + b|] == s[|a|..];
      assert s == s[..|a|] + s[|a|..];
      assert (a + b)[..|a|] == a && (a + b)[|a|..] == b;
    }
  }

  lemma I64GotIff(buf: seq<byte>, at: nat, v: i64)
    ensures GetI64(buf, at) == Got(v) <==> Has(buf, at, I64(v))
  {
    RoundTrip8(Unsigned(v));
    if at + 8 <= |buf| {
      Canonical8(buf[at..at + 8]);
    }
  }

  lemma U64GotIff(buf: seq<byte>, at: nat, v: u64)
    ensures GetU64(buf, at) == Got(v) <==> Has(buf, at, BE8(v))
  {
    RoundTrip8(v);
    if at + 8 <= |buf| {
      Canonical8(buf[at..at + 8]);
    }
  }

  lemma TextGotIff(buf: seq<byte>, at: nat, s: Str, utf8: Utf8)
    ensures GetText(buf, at, utf8) == Got(s) <==> Has(buf, at, Text(s)) && utf8(s)
  {
    HasParts(buf, at, BE4(|s|), s);
    RoundTrip4(|s|);
    if at + 4 <= |buf| {
      Canonical4(buf[at..at + 4]);
    }
  }

  lemma TextsGotIff(buf: seq<byte>, at: nat, key: Str, value: Str, utf8: Utf8)
    ensures GetText(buf, at, utf8) == Got(key) && GetText(buf, at + 4 + |key|, utf8) == Got(value) <==>
      Has(buf, at, Text(key) + Text(value)) && utf8(key) && utf8(value)
  {
    HasParts(buf, at, Text(key), Text(value));
    TextGotIff(buf, at, key, utf8);
    TextGotIff(buf, at + 4 + |key|, value, utf8);
  }

  /** Two numbers in front of something else. */
  lemma HeadGotIff(buf: seq<byte>, at: nat, source: i64, ts: i64, rest: seq<byte>)
    ensures Has(buf, at, I64(source) + (I64(ts) + rest)) <==>
      GetI64(buf, at) == Got(source) && GetI64(buf, at + 8) == Got(ts) && Has(buf, at + 16, rest)
  {
    HasParts(buf, at, I64(source), I64(ts) + rest);
    HasParts(buf, at + 8, I64(ts), rest);
    I64GotIff(buf, at, source);
    I64GotIff(buf, at + 8, ts);
  }

  predicate InsertTexts(i: Insert, utf8: Utf8) {
    utf8(i.key) && utf8(i.value)
  }

  lemma InsertGotIff(buf: seq<byte>, at: nat, i: Insert, end: nat, utf8: Utf8)
    ensures GetInsert(buf, at, utf8) == Got((i, end)) <==>
      Has(buf, at, InsertBytes(i)) && InsertTexts(i, utf8) && end == at + |InsertBytes(i)|
  {
    HeadGotIff(buf, at, i.source, i.ts, Text(i.key) + Text(i.value));
    TextsGotIff(buf, at + 16, i.key, i.value, utf8);
  }

  ghost predicate AllTexts(xs: seq<Insert>, utf8: Utf8) {
    forall k :: 0 <= k < |xs| ==> InsertTexts(xs[k], utf8)
  }

  /** The reader finds the inserts one behind the other, from one position to another. */
  ghost predicate Finds(read: Reader, at: nat, xs: seq<Insert>, end: nat)
    decreases |xs|
  {
    if xs == [] then at == end
    else read(at).Got? && read(at).value.0 == xs[0] && Finds(read, read(at).value.1, xs[1..], end)
  }

  /** The loop gets through the inserts it finds. */
  lemma {:induction false} GetFound(read: Reader, at: nat, xs: seq<Insert>, end: nat, n: nat, acc: seq<Insert>)
    requires Finds(read, at, xs, end)
    ensures GetAll(read, at, |xs| + n, acc) == GetAll(read, end, n, acc + xs)
    decreases |xs|
  {
    if xs == [] {
      assert acc + xs == acc;
    } else {
      GetFound(read, read(at).value.1, xs[1..], end, n, acc + [xs[0]]);
      assert acc + [xs[0]] + xs[1..] == acc + xs;
    }
  }

  /** The loop either finds all inserts or stops at the first position that gives none. */
  lemma {:induction false} FindAll(read: Reader, at: nat, n: nat, acc: seq<Insert>)
    returns (xs: seq<Insert>, end: nat)
    ensures Finds(read, at, xs, end) && |xs| <= n
    ensures |xs| == n ==> GetAll(read, at, n, acc) == Got(acc + xs)
    ensures |xs| < n ==> read(end).IsFailure() && GetAll(read, at, n, acc) == read(end).PropagateFailure()
    decreases n
  {
    if n == 0 || read(at).IsFailure() {
      xs, end := [], at;
      assert acc + [] == acc;
    } else {
      var i := read(at).value;
      var t;
      t, end := FindAll(read, i.1, n - 1, acc + [i.0]);
      xs := [i.0] + t;
      assert acc + [i.0] + t == acc + xs;
    }
  }

  /** The reader gives an insert exactly where its bytes lie. */
  ghost predicate Exact(read: Reader, buf: seq<byte>, enc: Insert -> seq<byte>, ok: Insert -> bool) {
    forall at: nat, i, end: nat :: read(at) == Got((i, end)) <==> Has(buf, at, enc(i)) && ok(i) && end == at + |enc(i)|
  }

  ghost predicate AllOk(ok: Insert -> bool, xs: seq<Insert>) {
    forall i :: i in xs ==> ok(i)
  }

  lemma {:induction false} FoundIffWritten(read: Reader, buf: seq<byte>, enc: Insert -> seq<byte>, ok: Insert -> bool,
                                           at: nat, xs: seq<Insert>, end: nat)
    requires Exact(read, buf, enc, ok) && at <= |buf|
    ensures Finds(read, at, xs, end) <==>
      Has(buf, at, AllBytes(enc, xs)) && AllOk(ok, xs) && end == at + |AllBytes(enc, xs)|
    decreases |xs|
  {
    if xs != [] {
      var i, t := xs[0], xs[1..];
      var p := at + |enc(i)|;
      HasParts(buf, at, enc(i), AllBytes(enc, t));
      assert AllOk(ok, xs) <==> ok(i) && AllOk(ok, t) by {
        assert xs == [i] + t;
      }
      assert read(at) == Got((i, p)) <==> Has(buf, at, enc(i)) && ok(i);
      if read(at) == Got((i, p)) {
        FoundIffWritten(read, buf, enc, ok, p, t, end);
      }
    }
  }

  function OkTexts(utf8: Utf8): Insert -> bool {
    i => InsertTexts(i, utf8)
  }

  lemma InsertsAreExact(buf: seq<byte>, utf8: Utf8)
    ensures Exact(Inserts(buf, utf8), buf, InsertBytes, OkTexts(utf8))
  {
    forall at: nat, i, end: nat
      ensures GetInsert(buf, at, utf8) == Got((i, end)) <==>
        Has(buf, at, InsertBytes(i)) && InsertTexts(i, utf8) && end == at + |InsertBytes(i)|
    {
      InsertGotIff(buf, at, i, end, utf8);
    }
  }

  lemma InsertsFound(buf: seq<byte>, at: nat, xs: seq<Insert>, end: nat, utf8: Utf8)
    requires at <= |buf|
    ensures Finds(Inserts(buf, utf8), at, xs, end) <==>
      Has(buf, at, AllInserts(xs)) && AllTexts(xs, utf8) && end == at + |AllInserts(xs)|
  {
    InsertsAreExact(buf, utf8);
    FoundIffWritten(Inserts(buf, utf8), buf, InsertBytes, OkTexts(utf8), at, xs, end);
    assert AllOk(OkTexts(utf8), xs) <==> AllTexts(xs, utf8) by {
      assert forall k :: 0 <= k < |xs| ==> xs[k] in xs;
    }
  }

  lemma GotAll(read: Reader, at: nat, xs: seq<Insert>, end: nat)
    requires Finds(read, at, xs, end)
    ensures GetAll(read, at, |xs|, []) == Got(xs)
  {
    GetFound(read, at, xs, end, 0, []);
    assert [] + xs == xs;
  }

  lemma FoundAll(read: Reader, at: nat, n: nat, xs: seq<Insert>) returns (end: nat)
    requires GetAll(read, at, n, []) == Got(xs)
    ensures |xs| == n && Finds(read, at, xs, end)
  {
    var ys;
    ys, end := FindAll(read, at, n, []);
    assert [] + ys == ys;
  }

  lemma AllGotIff(buf: seq<byte>, at: nat, n: nat, xs: seq<Insert>, utf8: Utf8)
    requires at <= |buf|
    ensures GetAll(Inserts(buf, utf8), at, n, []) == Got(xs) <==>
      |xs| == n && Has(buf, at, AllInserts(xs)) && AllTexts(xs, utf8)
  {
    var read, end := Inserts(buf, utf8), at + |AllInserts(xs)|;
    InsertsFound(buf, at, xs, end, utf8);
    if GetAll(read, at, n, []) == Got(xs) {
      var e := FoundAll(read, at, n, xs);
      InsertsFound(buf, at, xs, e, utf8);
    }
    if |xs| == n && Finds(read, at, xs, end) {
      GotAll(read, at, xs, end);
    }
  }

  lemma BatchGotIff(buf: seq<byte>, at: nat, xs: seq<Insert>, utf8: Utf8)
    ensures GetBatch(buf, at, utf8) == Got(xs) <==>
      |xs| < 0x1_0000_0000 && Has(buf, at, BE4(Low32(|xs|)) + AllInserts(xs)) && AllTexts(xs, utf8)
  {
    HasParts(buf, at, BE4(Low32(|xs|)), AllInserts(xs));
    if at + 4 <= |buf| {
      AllGotIff(buf, at + 4, Read4(buf[at..at + 4]), xs, utf8);
      Canonical4(buf[at..at + 4]);
      RoundTrip4(Low32(|xs|));
    }
  }

  lemma RangeGotIff(buf: seq<byte>, at: nat, m: ClientMessage, utf8: Utf8)
    requires m.Range?
    ensures GetRange(buf, at, utf8) == Got(m) <==>
      Has(buf, at, RangeBytes(m.source, m.key, m.start, m.end, m.filter)) && utf8(m.key) && utf8(m.filter)
  {
    var window := I64(m.start) + (I64(m.end) + Text(m.filter));
    HasParts(buf, at, I64(m.source), Text(m.key) + window);
    HasParts(buf, at + 8, Text(m.key), window);
    I64GotIff(buf, at, m.source);
    TextGotIff(buf, at + 8, m.key, utf8);
    WindowGotIff(buf, at + 12 + |m.key|, m.start, m.end, m.filter, utf8);
  }

  lemma WindowGotIff(buf: seq<byte>, at: nat, start: i64, end: i64, filter: Str, utf8: Utf8)
    ensures GetI64(buf, at) == Got(start) && GetI64(buf, at + 8) == Got(end) && GetText(buf, at + 16, utf8) == Got(filter)
      <==> Has(buf, at, I64(start) + (I64(end) + Text(filter))) && utf8(filter)
  {
    HasParts(buf, at, I64(start), I64(end) + Text(filter));
    HasParts(buf, at + 8, I64(end), Text(filter));
    I64GotIff(buf, at, start);
    I64GotIff(buf, at + 8, end);
    TextGotIff(buf, at + 16, filter, utf8);
  }

  lemma RecordGotIff(buf: seq<byte>, at: nat, r: Record, utf8: Utf8)
    ensures GetRecord(buf, at, utf8) == Got(RangeRecord(r)) <==>
      Has(buf, at, RecordBytes(r)) && utf8(r.key) && utf8(r.value)
  {
    var texts := Text(r.key) + Text(r.value);
    HeadGotIff(buf, at, r.source, r.ts, BE8(r.sn) + texts);
    HasParts(buf, at + 16, BE8(r.sn), texts);
    U64GotIff(buf, at + 16, r.sn);
    TextsGotIff(buf, at + 24, r.key, r.value, utf8);
  }

  ghost predicate ClientTexts(m: ClientMessage, utf8: Utf8) {
    match m
    case InsertOne(i) => InsertTexts(i, utf8)
    case Range(_, key, _, _, filter) => utf8(key) && utf8(filter)
    case BatchInsert(xs) => AllTexts(xs, utf8)
    case _ => true
  }

  ghost predicate ServerTexts(m: ServerMessage, utf8: Utf8) {
    match m
    case RangeRecord(r) => utf8(r.key) && utf8(r.value)
    case Metrics(json) => utf8(json)
    case Error(err) => utf8(err)
    case _ => true
  }

  lemma HasTag(body: seq<byte>, t: byte, p: seq<byte>)
    ensures Has(body, 0, [t] + p) <==> body != [] && body[0] == t && Has(body, 1, p)
  {
    HasParts(body, 0, [t], p);
  }

  lemma TagAlone(body: seq<byte>, t: byte)
    ensures Has(body, 0, [t]) <==> body != [] && body[0] == t
  {
  }

  /** The server accepts a body as a message if and only if the body begins with the bytes of
      that message, and its strings are strings. Bytes behind are passed over. */
  lemma ClientAcceptsIff(body: seq<byte>, m: ClientMessage, utf8: Utf8)
    ensures ClientOf(body, utf8) == Got(m) <==>
      Has(body, 0, ClientBody(m)) && ClientTexts(m, utf8) && (m.BatchInsert? ==> |m.inserts| < 0x1_0000_0000)
  {
    match m
    case InsertOne(i) => InsertAcceptsIff(body, i, utf8);
    case Range(_, _, _, _, _) => RangeAcceptsIff(body, m, utf8);
    case BatchInsert(xs) =>
      HasTag(body, 0x03, BE4(Low32(|xs|)) + AllInserts(xs));
      BatchGotIff(body, 1, xs, utf8);
    case GetMetrics => TagAlone(body, 0x04);
    case Ping => TagAlone(body, 0x05);
  }

  lemma InsertAcceptsIff(body: seq<byte>, i: Insert, utf8: Utf8)
    ensures ClientOf(body, utf8) == Got(InsertOne(i)) <==> Has(body, 0, [0x01] + InsertBytes(i)) && InsertTexts(i, utf8)
  {
    HasTag(body, 0x01, InsertBytes(i));
    InsertGotIff(body, 1, i, 1 + |InsertBytes(i)|, utf8);
    InsertEnd(body, i, utf8);
  }

  lemma RangeAcceptsIff(body: seq<byte>, m: ClientMessage, utf8: Utf8)
    requires m.Range?
    ensures ClientOf(body, utf8) == Got(m) <==>
      Has(body, 0, [0x02] + RangeBytes(m.source, m.key, m.start, m.end, m.filter)) && utf8(m.key) && utf8(m.filter)
  {
    HasTag(body, 0x02, RangeBytes(m.source, m.key, m.start, m.end, m.filter));
    RangeGotIff(body, 1, m, utf8);
  }

  lemma InsertEnd(body: seq<byte>, i: Insert, utf8: Utf8)
    ensures GetInsert(body, 1, utf8).Got? && GetInsert(body, 1, utf8).value.0 == i ==>
      GetInsert(body, 1, utf8) == Got((i, 1 + |InsertBytes(i)|))
  {
    if GetInsert(body, 1, utf8).Got? {
      InsertGotIff(body, 1, i, GetInsert(body, 1, utf8).value.1, utf8);
    }
  }

  /** The same for the client. */
  lemma ServerAcceptsIff(body: seq<byte>, m: ServerMessage, utf8: Utf8)
    ensures ServerOf(body, utf8) == Got(m) <==> Has(body, 0, ServerBody(m)) && ServerTexts(m, utf8)
  {
    match m
    case InsertOk => TagAlone(body, 0x81);
    case RangeRecord(r) =>
      HasTag(body, 0x82, RecordBytes(r));
      RecordGotIff(body, 1, r, utf8);
    case RangeEnd => TagAlone(body, 0x83);
    case Metrics(json) =>
      HasTag(body, 0x84, Text(json));
      TextGotIff(body, 1, json, utf8);
    case Pong => TagAlone(body, 0x85);
    case Error(err) =>
      HasTag(body, 0xFF, Text(err));
      TextGotIff(body, 1, err, utf8);
  }

  lemma {:induction false} BatchFits(xs: seq<Insert>)
    ensures |xs| <= |AllInserts(xs)|
  {
    if xs != [] {
      BatchFits(xs[1..]);
    }
  }

  /** The server reads every body that the client writes. */
  lemma ClientBodyReads(m: ClientMessage, utf8: Utf8)
    requires ClientTexts(m, utf8) && |ClientBody(m)| < 0x1_0000_0000
    ensures ClientOf(ClientBody(m), utf8) == Got(m)
  {
    if m.BatchInsert? {
      BatchFits(m.inserts);
    }
    ClientAcceptsIff(ClientBody(m), m, utf8);
  }

  /** The client reads every body that the server writes. */
  lemma ServerBodyReads(m: ServerMessage, utf8: Utf8)
    requires ServerTexts(m, utf8)
    ensures ServerOf(ServerBody(m), utf8) == Got(m)
  {
    ServerAcceptsIff(ServerBody(m), m, utf8);
  }

  // ---- What the readers panic on

  /** A string length runs past the end. */
  ghost predicate CutText(buf: seq<byte>, at: nat) {
    at + 4 <= |buf| && |buf| < at + 4 + Read4(buf[at..at + 4]) as nat
  }

  /** Of two strings with a gap between them, the first is cut, or the second behind it. */
  ghost predicate CutTexts(buf: seq<byte>, at: nat, gap: nat, utf8: Utf8) {
    CutText(buf, at) ||
    exists key: Str :: utf8(key) && Has(buf, at, Text(key)) && CutText(buf, at + |Text(key)| + gap)
  }

  /** The string after a cut-free first one decides. */
  lemma CutTextsIff(buf: seq<byte>, at: nat, gap: nat, utf8: Utf8)
    ensures CutTexts(buf, at, gap, utf8) <==>
      var key := GetText(buf, at, utf8);
      key.Panics? || (key.Got? && CutText(buf, at + 4 + |key.value| + gap))
  {
    var key := GetText(buf, at, utf8);
    if key.Got? {
      TextGotIff(buf, at, key.value, utf8);
    }
    forall k: Str | utf8(k) && Has(buf, at, Text(k))
      ensures key == Got(k)
    {
      TextGotIff(buf, at, k, utf8);
    }
  }

  lemma InsertPanicsIff(buf: seq<byte>, at: nat, utf8: Utf8)
    ensures GetInsert(buf, at, utf8).Panics? <==> CutTexts(buf, at + 16, 0, utf8)
  {
    CutTextsIff(buf, at + 16, 0, utf8);
  }

  lemma RangePanicsIff(buf: seq<byte>, at: nat, utf8: Utf8)
    ensures GetRange(buf, at, utf8).Panics? <==> CutTexts(buf, at + 8, 16, utf8)
  {
    CutTextsIff(buf, at + 8, 16, utf8);
  }

  lemma RecordPanicsIff(buf: seq<byte>, at: nat, utf8: Utf8)
    ensures GetRecord(buf, at, utf8).Panics? <==> CutTexts(buf, at + 24, 0, utf8)
  {
    CutTextsIff(buf, at + 24, 0, utf8);
  }

  /** Behind these inserts lies one with a cut string. */
  ghost predicate CutAfter(buf: seq<byte>, at: nat, xs: seq<Insert>, utf8: Utf8) {
    AllTexts(xs, utf8) && Has(buf, at, AllInserts(xs)) && CutTexts(buf, at + |AllInserts(xs)| + 16, 0, utf8)
  }

  ghost predicate CutBatch(buf: seq<byte>, at: nat, utf8: Utf8) {
    at + 4 <= |buf| && exists xs :: |xs| < Read4(buf[at..at + 4]) as nat && CutAfter(buf, at + 4, xs, utf8)
  }

  lemma {:induction false} CutAfterIff(buf: seq<byte>, at: nat, xs: seq<Insert>, end: nat, utf8: Utf8)
    requires at <= |buf| && end == at + |AllInserts(xs)|
    ensures CutAfter(buf, at, xs, utf8) <==>
      Finds(Inserts(buf, utf8), at, xs, end) && Inserts(buf, utf8)(end).Panics?
  {
    var read := Inserts(buf, utf8);
    assert Finds(read, at, xs, end) <==> AllTexts(xs, utf8) && Has(buf, at, AllInserts(xs)) by {
      InsertsFound(buf, at, xs, end, utf8);
    }
    assert read(end).Panics? <==> CutTexts(buf, end + 16, 0, utf8) by {
      InsertsPanicIff(buf, end, utf8);
    }
  }

  lemma InsertsPanicIff(buf: seq<byte>, at: nat, utf8: Utf8)
    ensures Inserts(buf, utf8)(at).Panics? <==> CutTexts(buf, at + 16, 0, utf8)
  {
    InsertPanicsIff(buf, at, utf8);
  }

  lemma AllPanicIff(buf: seq<byte>, at: nat, n: nat, utf8: Utf8)
    requires at <= |buf|
    ensures GetAll(Inserts(buf, utf8), at, n, []).Panics? <==> exists xs :: |xs| < n && CutAfter(buf, at, xs, utf8)
  {
    if GetAll(Inserts(buf, utf8), at, n, []).Panics? {
      var xs := CutOfPanic(buf, at, n, utf8);
    }
    forall xs | |xs| < n && CutAfter(buf, at, xs, utf8)
      ensures GetAll(Inserts(buf, utf8), at, n, []).Panics?
    {
      PanicOfCut(buf, at, n, xs, utf8);
    }
  }

  lemma CutOfPanic(buf: seq<byte>, at: nat, n: nat, utf8: Utf8) returns (xs: seq<Insert>)
    requires at <= |buf| && GetAll(Inserts(buf, utf8), at, n, []).Panics?
    ensures |xs| < n && CutAfter(buf, at, xs, utf8)
  {
    var end;
    xs, end := FindAll(Inserts(buf, utf8), at, n, []);
    InsertsFound(buf, at, xs, end, utf8);
    CutAfterIff(buf, at, xs, end, utf8);
  }

  lemma PanicOfCut(buf: seq<byte>, at: nat, n: nat, xs: seq<Insert>, utf8: Utf8)
    requires at <= |buf| && |xs| < n && CutAfter(buf, at, xs, utf8)
    ensures GetAll(Inserts(buf, utf8), at, n, []).Panics?
  {
    var end := at + |AllInserts(xs)|;
    CutAfterIff(buf, at, xs, end, utf8);
    PanicBehind(Inserts(buf, utf8), at, n, xs, end);
  }

  lemma PanicBehind(read: Reader, at: nat, n: nat, xs: seq<Insert>, end: nat)
    requires Finds(read, at, xs, end) && read(end).Panics? && |xs| < n
    ensures GetAll(read, at, n, []).Panics?
  {
    GetFound(read, at, xs, end, n - |xs|, []);
  }

  lemma BatchPanicsIff(buf: seq<byte>, at: nat, utf8: Utf8)
    ensures GetBatch(buf, at, utf8).Panics? <==> CutBatch(buf, at, utf8)
  {
    if at + 4 <= |buf| {
      AllPanicIff(buf, at + 4, Read4(buf[at..at + 4]), utf8);
    }
  }

  /** The server panics on a body if and only if it is empty, or it is an insert, a range or a
      batch in which everything before some string is in order and the length of that string
      runs past the end. */
  lemma ClientPanicsIff(body: seq<byte>, utf8: Utf8)
    ensures ClientOf(body, utf8).Panics? <==>
      || body == []
      || (body[0] == 0x01 && CutTexts(body, 17, 0, utf8))
      || (body[0] == 0x02 && CutTexts(body, 9, 16, utf8))
      || (body[0] == 0x03 && CutBatch(body, 1, utf8))
  {
    InsertPanicsIff(body, 1, utf8);
    RangePanicsIff(body, 1, utf8);
    BatchPanicsIff(body, 1, utf8);
  }

  /** The client panics on a body if and only if it is empty, or it is a record, a report or an
      error message with such a string. */
  lemma ServerPanicsIff(body: seq<byte>, utf8: Utf8)
    ensures ServerOf(body, utf8).Panics? <==>
      || body == []
      || (body[0] == 0x82 && CutTexts(body, 25, 0, utf8))
      || ((body[0] == 0x84 || body[0] == 0xFF) && CutText(body, 1))
  {
    RecordPanicsIff(body, 1, utf8);
  }

  // ---- Frames

  function Frame(body: seq<byte>): seq<byte> {
    BE4(Low32(|body|)) + body
  }

  /** A message and the bytes its frame takes, or None while the frame is incomplete. */
  function Unframe<T>(read: seq<byte> -> Outcome<T>, src: seq<byte>): Outcome<Option<(T, nat)>> {
    if |src| < 4 then Got(None)
    else
      var n := Read4(src[..4]) as nat;
      if |src| < 4 + n then Got(None)
      else
        var m :- read(src[4..4 + n]);
        Got(Some((m, 4 + n)))
  }

  lemma FrameWhole<T>(read: seq<byte> -> Outcome<T>, m: T, body: seq<byte>, rest: seq<byte>)
    requires |body| < 0x1_0000_0000 && read(body) == Got(m)
    ensures Unframe(read, Frame(body) + rest) == Got(Some((m, |Frame(body)|)))
  {
    var s := Frame(body) + rest;
    RoundTrip4(|body|);
    assert s[..4] == BE4(|body|) && s[4..4 + |body|] == body;
  }

  lemma FrameCut<T>(read: seq<byte> -> Outcome<T>, body: seq<byte>, c: nat)
    requires |body| < 0x1_0000_0000 && c < |Frame(body)|
    ensures Unframe(read, Frame(body)[..c]) == Got(None)
  {
    RoundTrip4(|body|);
    if c >= 4 {
      assert Frame(body)[..c][..4] == BE4(|body|);
    }
  }

  function FramesOf(bodies: seq<seq<byte>>): (fs: seq<seq<byte>>)
    ensures |fs| == |bodies| && forall i :: 0 <= i < |fs| ==> fs[i] == Frame(bodies[i])
  {
    seq(|bodies|, i requires 0 <= i < |bodies| => Frame(bodies[i]))
  }

  ghost predicate Readable<T>(read: seq<byte> -> Outcome<T>, ms: seq<T>, bodies: seq<seq<byte>>) {
    && |ms| == |bodies|
    && forall i :: 0 <= i < |ms| ==> |bodies[i]| < 0x1_0000_0000 && read(bodies[i]) == Got(ms[i])
  }

  function DecoderOf<T>(read: seq<byte> -> Outcome<T>): Decoder<T> {
    src => match Unframe(read, src)
      case Got(None) => NeedMore
      case Got(Some(m)) => Item(m.0, m.1)
      case _ => Bad
  }

  lemma MessagesAreFrames<T(!new)>(read: seq<byte> -> Outcome<T>, ms: seq<T>, bodies: seq<seq<byte>>)
    requires Readable(read, ms, bodies)
    ensures Frames(DecoderOf(read), ms, FramesOf(bodies))
  {
    var fs := FramesOf(bodies);
    forall i, rest {:trigger fs[i] + rest} | 0 <= i < |ms|
      ensures DecoderOf(read)(fs[i] + rest) == Item(ms[i], |fs[i]|)
    {
      FrameWhole(read, ms[i], bodies[i], rest);
    }
    forall i, c {:trigger fs[i][..c]} | 0 <= i < |ms| && 0 <= c < |fs[i]|
      ensures DecoderOf(read)(fs[i][..c]) == NeedMore
    {
      FrameCut(read, bodies[i], c);
    }
  }

  function Client(utf8: Utf8): seq<byte> -> Outcome<ClientMessage> {
    body => ClientOf(body, utf8)
  }

  function Server(utf8: Utf8): seq<byte> -> Outcome<ServerMessage> {
    body => ServerOf(body, utf8)
  }

  ghost predicate Sendable(ms: seq<ClientMessage>, utf8: Utf8) {
    forall i :: 0 <= i < |ms| ==> ClientTexts(ms[i], utf8) && |ClientBody(ms[i])| < 0x1_0000_0000
  }

  ghost predicate Replies(ms: seq<ServerMessage>, utf8: Utf8) {
    forall i :: 0 <= i < |ms| ==> ServerTexts(ms[i], utf8) && |ServerBody(ms[i])| < 0x1_0000_0000
  }

  function ClientBodies(ms: seq<ClientMessage>): (bs: seq<seq<byte>>) {
    seq(|ms|, i requires 0 <= i < |ms| => ClientBody(ms[i]))
  }

  function ServerBodies(ms: seq<ServerMessage>): (bs: seq<seq<byte>>) {
    seq(|ms|, i requires 0 <= i < |ms| => ServerBody(ms[i]))
  }

  /** Any client messages, sent back to back and delivered in any chunks, arrive as sent. */
  lemma ClientMessagesArrive(ms: seq<ClientMessage>, chunks: seq<Chunk>, utf8: Utf8)
    requires Sendable(ms, utf8) && Concat(chunks) == Concat(FramesOf(ClientBodies(ms)))
    ensures Read(DecoderOf(Client(utf8)), [], chunks) == Parsed(ms, false)
  {
    var bs := ClientBodies(ms);
    forall i | 0 <= i < |ms|
      ensures Client(utf8)(bs[i]) == Got(ms[i])
    {
      ClientBodyReads(ms[i], utf8);
    }
    MessagesAreFrames(Client(utf8), ms, bs);
    assert [] + Concat(chunks) == Concat(chunks);
    ReadInChunks(DecoderOf(Client(utf8)), ms, FramesOf(bs), [], chunks);
  }

  /** The same towards the client. */
  lemma ServerMessagesArrive(ms: seq<ServerMessage>, chunks: seq<Chunk>, utf8: Utf8)
    requires Replies(ms, utf8) && Concat(chunks) == Concat(FramesOf(ServerBodies(ms)))
    ensures Read(DecoderOf(Server(utf8)), [], chunks) == Parsed(ms, false)
  {
    var bs := ServerBodies(ms);
    forall i | 0 <= i < |ms|
      ensures Server(utf8)(bs[i]) == Got(ms[i])
    {
      ServerBodyReads(ms[i], utf8);
    }
    MessagesAreFrames(Server(utf8), ms, bs);
    assert [] + Concat(chunks) == Concat(chunks);
    ReadInChunks(DecoderOf(Server(utf8)), ms, FramesOf(bs), [], chunks);
  }

  // ---- The codecs, on a growing buffer

  class BytesMut {
    var data: seq<byte>

    constructor (data: seq<byte>)
      ensures this.data == data
    {
      this.data := data;
    }

    method Put(b: seq<byte>)
      modifies this
      ensures data == old(data) + b
    {
      data := data + b;
    }
  }

  method PutText(s: Str, dst: BytesMut)
    modifies dst
    ensures dst.data == old(dst.data) + Text(s)
  {
    dst.Put(BE4(|s|));
    dst.Put(s);
  }

  method PutInsert(i: Insert, dst: BytesMut)
    modifies dst
    ensures dst.data == old(dst.data) + InsertBytes(i)
  {
    dst.Put(I64(i.source));
    dst.Put(I64(i.ts));
    PutText(i.key, dst);
    PutText(i.value, dst);
  }

  lemma NextBytes(d: seq<byte>, enc: Insert -> seq<byte>, xs: seq<Insert>, k: nat)
    requires k < |xs|
    ensures d + AllBytes(enc, xs[k..]) == d + enc(xs[k]) + AllBytes(enc, xs[k + 1..])
  {
    assert xs[k..][1..] == xs[k + 1..];
    assert d + (enc(xs[k]) + AllBytes(enc, xs[k + 1..])) == d + enc(xs[k]) + AllBytes(enc, xs[k + 1..]);
  }

  method PutBatch(xs: seq<Insert>, dst: BytesMut)
    modifies dst
    ensures dst.data == old(dst.data) + (BE4(Low32(|xs|)) + AllInserts(xs))
  {
    dst.Put(BE4(Low32(|xs|)));
    for k := 0 to |xs|
      invariant dst.data + AllInserts(xs[k..]) == old(dst.data) + (BE4(Low32(|xs|)) + AllInserts(xs))
    {
      NextBytes(dst.data, InsertBytes, xs, k);
      PutInsert(xs[k], dst);
    }
  }

  method PutRange(m: ClientMessage, dst: BytesMut)
    requires m.Range?
    modifies dst
    ensures dst.data == old(dst.data)
      + RangeBytes(m.source, m.key, m.start, m.end, m.filter)
  {
    dst.Put(I64(m.source));
    PutText(m.key, dst);
    dst.Put(I64(m.start));
    dst.Put(I64(m.end));
    PutText(m.filter, dst);
  }

  lemma Glue(pre: seq<byte>, t: byte, p: seq<byte>)
    ensures pre + [t] + p == pre + ([t] + p)
  {
  }

  method PutClientBody(m: ClientMessage, dst: BytesMut)
    modifies dst
    ensures dst.data == old(dst.data) + ClientBody(m)
  {
    match m {
      case InsertOne(i) =>
        Glue(dst.data, 0x01, InsertBytes(i));
        dst.Put([0x01]);
        PutInsert(i, dst);
      case Range(source, key, start, end, filter) =>
        Glue(dst.data, 0x02, RangeBytes(source, key, start, end, filter));
        dst.Put([0x02]);
        PutRange(m, dst);
      case BatchInsert(xs) =>
        Glue(dst.data, 0x03, BE4(Low32(|xs|)) + AllInserts(xs));
        dst.Put([0x03]);
        PutBatch(xs, dst);
      case GetMetrics =>
        dst.Put([0x04]);
      case Ping =>
        dst.Put([0x05]);
    }
  }

  method PutRecord(r: Record, dst: BytesMut)
    modifies dst
    ensures dst.data == old(dst.data)
      + RecordBytes(r)
  {
    dst.Put(I64(r.source));
    dst.Put(I64(r.ts));
    dst.Put(BE8(r.sn));
    PutText(r.key, dst);
    PutText(r.value, dst);
  }

  method PutServerBody(m: ServerMessage, dst: BytesMut)
    modifies dst
    ensures dst.data == old(dst.data) + ServerBody(m)
  {
    match m {
      case InsertOk =>
        dst.Put([0x81]);
      case RangeRecord(r) =>
        Glue(dst.data, 0x82, RecordBytes(r));
        dst.Put([0x82]);
        PutRecord(r, dst);
      case RangeEnd =>
        dst.Put([0x83]);
      case Metrics(json) =>
        Glue(dst.data, 0x84, Text(json));
        dst.Put([0x84]);
        PutText(json, dst);
      case Pong =>
        dst.Put([0x85]);
      case Error(err) =>
        Glue(dst.data, 0xFF, Text(err));
        dst.Put([0xFF]);
        PutText(err, dst);
    }
  }

  /** Overwrites the four bytes at a position with the length of what follows them. */
  method PatchLength(start: nat, dst: BytesMut, ghost pre: seq<byte>, ghost body: seq<byte>)
    requires start == |pre| && dst.data == pre + BE4(0) + body
    modifies dst
    ensures dst.data == pre + Frame(body)
  {
    var n := Low32(|dst.data| - start - 4);
    assert dst.data[..start] == pre && dst.data[start + 4..] == body;
    dst.data := dst.data[..start] + BE4(n) + dst.data[start + 4..];
  }

  /** A client message goes onto the buffer as one frame, behind what is already there. */
  method EncodeClient(m: ClientMessage, dst: BytesMut)
    modifies dst
    ensures dst.data == old(dst.data) + Frame(ClientBody(m))
  {
    var start := |dst.data|;
    dst.Put(BE4(0));
    PutClientBody(m, dst);
    PatchLength(start, dst, old(dst.data), ClientBody(m));
  }

  method EncodeServer(m: ServerMessage, dst: BytesMut)
    modifies dst
    ensures dst.data == old(dst.data) + Frame(ServerBody(m))
  {
    var start := |dst.data|;
    dst.Put(BE4(0));
    PutServerBody(m, dst);
    PatchLength(start, dst, old(dst.data), ServerBody(m));
  }

  /** The loop over the records of a batch. */
  method DecodeBatch(buf: seq<byte>, at: nat, utf8: Utf8) returns (r: Outcome<seq<Insert>>)
    ensures r == GetBatch(buf, at, utf8)
  {
    if |buf| < at + 4 {
      return Fails;
    }
    var n := Read4(buf[at..at + 4]) as nat;
    var xs, offset: nat := [], at + 4;
    for k := 0 to n
      invariant GetBatch(buf, at, utf8) == GetAll(Inserts(buf, utf8), offset, n - k, xs)
    {
      var i :- GetInsert(buf, offset, utf8);
      xs, offset := xs + [i.0], i.1;
    }
    r := Got(xs);
  }

  method DecodeClientBody(body: seq<byte>, utf8: Utf8) returns (r: Outcome<ClientMessage>)
    ensures r == ClientOf(body, utf8)
  {
    if body != [] && body[0] == 0x03 {
      var xs :- DecodeBatch(body, 1, utf8);
      return Got(BatchInsert(xs));
    }
    r := ClientOf(body, utf8);
  }

  /** Takes one frame off the front of the buffer, or nothing while it is incomplete. A frame
      that fails is taken off as well. */
  method TakeFrame(src: BytesMut) returns (body: Option<seq<byte>>)
    modifies src
    ensures body.None? ==> src.data == old(src.data)
    ensures body.None? <==> |old(src.data)| < 4 || |old(src.data)| < 4 + Read4(old(src.data)[..4]) as nat
    ensures body.Some? ==> |body.value| == Read4(old(src.data)[..4]) && |old(src.data)| >= 4 + |body.value|
    ensures body.Some? ==> body.value == old(src.data)[4..4 + |body.value|] && src.data == old(src.data)[4 + |body.value|..]
  {
    if |src.data| < 4 {
      return None;
    }
    var n := Read4(src.data[..4]) as nat;
    if |src.data| < 4 + n {
      return None;
    }
    body := Some(src.data[4..4 + n]);
    src.data := src.data[4 + n..];
  }

  method DecodeClient(src: BytesMut, utf8: Utf8) returns (d: Outcome<Option<(ClientMessage, nat)>>)
    modifies src
    ensures d == Unframe(Client(utf8), old(src.data))
    ensures d == Got(None) ==> src.data == old(src.data)
    ensures d != Got(None) ==> |old(src.data)| >= 4 && |old(src.data)| >= 4 + Read4(old(src.data)[..4]) as nat
    ensures d != Got(None) ==> src.data == old(src.data)[4 + Read4(old(src.data)[..4]) as nat..]
  {
    var body := TakeFrame(src);
    if body.None? {
      return Got(None);
    }
    var m :- DecodeClientBody(body.value, utf8);
    d := Got(Some((m, 4 + |body.value|)));
  }

  method DecodeServer(src: BytesMut, utf8: Utf8) returns (d: Outcome<Option<(ServerMessage, nat)>>)
    modifies src
    ensures d == Unframe(Server(utf8), old(src.data))
    ensures d == Got(None) ==> src.data == old(src.data)
    ensures d != Got(None) ==> |old(src.data)| >= 4 && |old(src.data)| >= 4 + Read4(old(src.data)[..4]) as nat
    ensures d != Got(None) ==> src.data == old(src.data)[4 + Read4(old(src.data)[..4]) as nat..]
  {
    var body := TakeFrame(src);
    if body.None? {
      return Got(None);
    }
    var m :- ServerOf(body.value, utf8);
    d := Got(Some((m, 4 + |body.value|)));
  }
}
