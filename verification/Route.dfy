/** The default gateway, from the text of /proc/net/route. */
module Route {
  import opened Text
  import opened Numbers

  // ---- little-endian hex addresses -----------------------------------------------------

  type Byte = n: nat | n < 0x100

  function HexByte(s: string, i: nat): Parsed
    requires |s| == 8 && i < 4
  {
    ParseUint(s[6 - 2 * i..8 - 2 * i], 16, 0xFF)
  }

  predicate IsAddress(s: string, ip: seq<Byte>) {
    |s| == 8 && |ip| == 4 && forall i | 0 <= i < 4 :: HexByte(s, i) == Num(ip[i])
  }

  predicate Undecodable(s: string) {
    |s| != 8 || exists i | 0 <= i < 4 :: !HexByte(s, i).Num?
  }

  lemma {:induction false} ParseDigitsBound(s: string, radix: nat, max: nat, acc: nat)
    requires acc <= max && ParseDigits(s, radix, max, acc).Num?
    ensures ParseDigits(s, radix, max, acc).n <= max
    decreases |s|
  {
    if s != "" {
      ParseDigitsBound(s[1..], radix, max, acc * radix + DigitValue(s[0]).value);
    }
  }

  method HexLEIPv4(s: string) returns (r: Option<seq<Byte>>)
    ensures r.Some? ==> IsAddress(s, r.value)
    ensures r.None? ==> Undecodable(s)
  {
    if |s| != 8 {
      return None;
    }
    var ip: seq<Byte> := [0, 0, 0, 0];
    for i := 0 to 4
      invariant |ip| == 4
      invariant forall j | 0 <= j < i :: HexByte(s, j) == Num(ip[j])
    {
      var b := HexByte(s, i);
      if !b.Num? {
        return None;
      }
      ParseDigitsBound(s[6 - 2 * i..8 - 2 * i], 16, 0xFF, 0);
      ip := ip[i := b.n];
    }
    return Some(ip);
  }

  const HEX := "0123456789ABCDEF"

  function Hex2(b: Byte): (r: string)
    ensures |r| == 2
  {
    [HEX[b / 16], HEX[b % 16]]
  }

  /** The kernel prints the address as one 32-bit number, so the last byte comes first. */
  function PrintLE(ip: seq<Byte>): string
    requires |ip| == 4
  {
    Hex2(ip[3]) + Hex2(ip[2]) + Hex2(ip[1]) + Hex2(ip[0])
  }

  lemma HexDigit(d: nat)
    requires d < 16
    ensures DigitValue(HEX[d]) == Some(d)
  {
    if d < 10 {
      assert HEX[..10] == "0123456789";
      assert HEX[d] == HEX[..10][d] == ('0' as int + d) as char;
    } else {
      assert HEX[10..] == "ABCDEF";
      assert HEX[d] == HEX[10..][d - 10] == ('A' as int + d - 10) as char;
    }
  }

  lemma Hex2Parses(b: Byte)
    ensures ParseUint(Hex2(b), 16, 0xFF) == Num(b)
  {
    var h := Hex2(b);
    HexDigit(b / 16);
    HexDigit(b % 16);
    assert h[1..] == [HEX[b % 16]] && h[1..][1..] == "";
    assert ParseDigits(h, 16, 0xFF, 0) == ParseDigits(h[1..], 16, 0xFF, b / 16);
    assert ParseDigits(h[1..], 16, 0xFF, b / 16) == ParseDigits("", 16, 0xFF, b / 16 * 16 + b % 16);
  }

  /** Decoding inverts printing, for every address. */
  lemma DecodeInvertsPrint(ip: seq<Byte>)
    requires |ip| == 4
    ensures IsAddress(PrintLE(ip), ip)
  {
    forall i | 0 <= i < 4 ensures HexByte(PrintLE(ip), i) == Num(ip[i]) {
      DecodeByte(ip, i);
    }
  }

  lemma DecodeByte(ip: seq<Byte>, i: nat)
    requires |ip| == 4 && i < 4
    ensures HexByte(PrintLE(ip), i) == Num(ip[i])
  {
    hide Hex2, ParseUint;
    Pairs(Hex2(ip[3]), Hex2(ip[2]), Hex2(ip[1]), Hex2(ip[0]));
    assert PrintLE(ip)[6 - 2 * i..8 - 2 * i] == Hex2(ip[i]);
    Hex2Parses(ip[i]);
  }

  lemma Pairs(a: string, b: string, c: string, d: string)
    requires |a| == |b| == |c| == |d| == 2
    ensures var s := a + b + c + d;
            s[0..2] == a && s[2..4] == b && s[4..6] == c && s[6..8] == d
  {
  }

  lemma AddressIsUnique(s: string, a: seq<Byte>, b: seq<Byte>)
    requires IsAddress(s, a) && IsAddress(s, b)
    ensures a == b && !Undecodable(s)
  {
    assert forall i | 0 <= i < 4 :: HexByte(s, i) == Num(a[i]) && HexByte(s, i) == Num(b[i]);
  }

  // ---- the least metric ----------------------------------------------------------------

  /** strings.Fields, cur being the field read so far. */
  function FieldsFrom(s: string, cur: string): seq<string>
    decreases |s|
  {
    var word := if cur == "" then [] else [cur];
    if s == "" then word
    else if IsSpace(s[0]) then word + FieldsFrom(s[1..], "")
    else FieldsFrom(s[1..], cur + [s[0]])
  }

  function Fields(s: string): seq<string> {
    FieldsFrom(s, "")
  }

  /** ParseUint's value with its error dropped. */
  function Metric(s: string): (m: nat)
    ensures m <= MAX_UINT64
  {
    match ParseUint(s, 10, MAX_UINT64)
    case Num(n) => if n <= MAX_UINT64 then n else MAX_UINT64
    case BadSyntax => 0
    case OutOfRange => MAX_UINT64
  }

  /** The row is a default route with a gateway that decodes. */
  predicate IsDefault(line: string) {
    var f := Fields(line);
    |f| >= 8 && f[1] == "00000000" && !Undecodable(f[2])
  }

  function RowMetric(line: string): nat
    requires IsDefault(line)
  {
    Metric(Fields(line)[6])
  }

  /** Row i is the first to attain the least metric, and that metric can be chosen. */
  predicate IsBest(rows: seq<string>, i: nat) {
    i < |rows| && IsDefault(rows[i]) && RowMetric(rows[i]) < MAX_UINT64 &&
    forall j | 0 <= j < |rows| && IsDefault(rows[j]) ::
      RowMetric(rows[i]) <= RowMetric(rows[j]) && (j < i ==> RowMetric(rows[i]) < RowMetric(rows[j]))
  }

  predicate NoRoute(rows: seq<string>) {
    forall j | 0 <= j < |rows| && IsDefault(rows[j]) :: RowMetric(rows[j]) >= MAX_UINT64
  }

  function Rows(data: string): seq<string> {
    var l := ScanLines(data);
    if l == [] then [] else l[1..]
  }

  /** What linuxDefaultGateway returns for a file. */
  ghost predicate GatewayIs(data: string, r: Option<seq<Byte>>) {
    && (r.None? <==> NoRoute(Rows(data)))
    && (r.Some? ==> exists i: nat :: IsBest(Rows(data), i) && IsAddress(Fields(Rows(data)[i])[2], r.value))
  }

  method LinuxDefaultGateway(data: string) returns (r: Option<seq<Byte>>)
    ensures GatewayIs(data, r)
  {
    hide FieldsFrom, Metric, Undecodable, IsAddress, ScanLines;
    var rows := Rows(data);  // the header is skipped
    var gw: Option<seq<Byte>>, metric := None, MAX_UINT64;
    ghost var at := 0;
    for i := 0 to |rows|
      invariant gw.None? ==> metric == MAX_UINT64 && NoRoute(rows[..i])
      invariant gw.Some? ==>
                  at < i && IsBest(rows[..i], at) && metric == RowMetric(rows[at])
                  && IsAddress(Fields(rows[at])[2], gw.value)
    {
      var fields := Fields(rows[i]);
      assert rows[..i + 1] == rows[..i] + [rows[i]];
      if |fields| < 8 {
        continue;
      }
      if fields[1] != "00000000" {
        continue;
      }
      var ip := HexLEIPv4(fields[2]);
      if ip.None? {
        continue;
      }
      AddressIsUnique(fields[2], ip.value, ip.value);
      var m := Metric(fields[6]);
      if m < metric {
        gw, metric, at := ip, m, i;
      }
    }
    assert rows[..|rows|] == rows;
    r := gw;
    if r.Some? {
      assert IsBest(rows, at);
      assert RowMetric(rows[at]) < MAX_UINT64;
    }
  }

  /** Which makes the answer a function of the table. */
  lemma BestIsUnique(rows: seq<string>, i: nat, j: nat)
    requires IsBest(rows, i) && IsBest(rows, j)
    ensures i == j && !NoRoute(rows)
  {
    assert IsDefault(rows[i]) && IsDefault(rows[j]);
  }

  // ---- the table as the kernel prints it -----------------------------------------------

  /** A printed metric is worth its number, up to the maximum. */
  lemma MetricReads(n: nat)
    ensures Metric(Decimal(n)) == if n <= MAX_UINT64 then n else MAX_UINT64
  {
    PrintedReadsBack(n, 10, MAX_UINT64);
  }

  /** A metric with a character that is no decimal digit, after a number that fits or none, is worth
      nothing. */
  lemma BadMetricIsZero(n: nat, c: char, rest: string)
    requires n <= MAX_UINT64 && !('0' <= c <= '9')
    ensures Metric(Decimal(n) + ([c] + rest)) == 0 && Metric([c] + rest) == 0
  {
    BadDigitStops(n, 10, MAX_UINT64, c, rest);
  }

  /** The text of one column. */
  predicate Column(s: string) {
    s != "" && forall c | c in s :: !IsSpace(c)
  }

  lemma {:induction false} FieldsFromWord(word: string, rest: string, cur: string)
    requires forall c | c in word :: !IsSpace(c)
    ensures FieldsFrom(word + rest, cur) == FieldsFrom(rest, cur + word)
    decreases |word|
  {
    if word == "" {
      assert word + rest == rest && cur + word == cur;
    } else {
      assert word[0] in word && (word + rest)[0] == word[0] && (word + rest)[1..] == word[1..] + rest;
      FieldsFromWord(word[1..], rest, cur + [word[0]]);
      assert cur + [word[0]] + word[1..] == cur + word;
    }
  }

  lemma {:induction false} FieldsCons(col: string, rest: string)
    requires Column(col)
    ensures Fields(col) == [col] && Fields(col + ("\t" + rest)) == [col] + Fields(rest)
  {
    var tail := "\t" + rest;
    assert "" + col == col && col + "" == col;
    FieldsFromWord(col, "", "");
    FieldsFromWord(col, tail, "");
    assert tail[0] == '\t' && tail[1..] == rest;
  }

  /** Columns joined by tabs are the fields of the line. */
  lemma {:induction false} FieldsInvertJoin(cols: seq<string>)
    requires forall s | s in cols :: Column(s)
    ensures Fields(Join(cols, "\t")) == cols
    decreases cols
  {
    if cols != [] {
      hide Fields, Column;
      var rest := Join(cols[1..], "\t");
      assert cols[0] in cols;
      FieldsCons(cols[0], rest);
      if |cols| > 1 {
        FieldsInvertJoin(cols[1..]);
        assert cols[0] + "\t" + rest == cols[0] + ("\t" + rest);
      }
    }
  }

  /** Of the columns, the second must be all zeros and the third an address; there must be eight. */
  lemma ColumnsDecide(cols: seq<string>)
    requires forall s | s in cols :: Column(s)
    ensures var l := Join(cols, "\t");
            && (IsDefault(l) <==> |cols| >= 8 && cols[1] == "00000000" && !Undecodable(cols[2]))
            && (IsDefault(l) ==> RowMetric(l) == Metric(cols[6]))
  {
    FieldsInvertJoin(cols);
  }

  type Address = ip: seq<Byte> | |ip| == 4 witness [0, 0, 0, 0]

  /** A route: where to, through what, at what cost; what else the kernel prints about it. */
  datatype Entry = Entry(iface: string, dest: string, gateway: Address, flags: seq<string>, metric: nat,
                         others: seq<string>)

  predicate WellFormed(e: Entry) {
    && |e.flags| == 3 && |e.others| >= 1
    && Column(e.iface) && Column(e.dest)
    && (forall s | s in e.flags :: Column(s)) && forall s | s in e.others :: Column(s)
  }

  function Columns(e: Entry): seq<string> {
    [e.iface, e.dest, PrintLE(e.gateway)] + e.flags + [Decimal(e.metric)] + e.others
  }

  function Line(e: Entry): string {
    Join(Columns(e), "\t")
  }

  lemma HexIsNoSpace(b: Byte)
    ensures forall c | c in Hex2(b) :: !IsSpace(c)
  {
    HexDigit(b / 16);
    HexDigit(b % 16);
  }

  lemma ColumnsAreColumns(e: Entry)
    requires WellFormed(e)
    ensures forall s | s in Columns(e) :: Column(s)
  {
    var ip := e.gateway;
    HexIsNoSpace(ip[0]);
    HexIsNoSpace(ip[1]);
    HexIsNoSpace(ip[2]);
    HexIsNoSpace(ip[3]);
    assert Column(PrintLE(ip));
    DecimalDigits(e.metric);
    assert Column(Decimal(e.metric));
  }

  lemma PrintedRow(e: Entry)
    requires WellFormed(e)
    ensures IsDefault(Line(e)) <==> e.dest == "00000000"
    ensures IsDefault(Line(e)) ==> RowMetric(Line(e)) == if e.metric <= MAX_UINT64 then e.metric else MAX_UINT64
    ensures |Fields(Line(e))| >= 8 && IsAddress(Fields(Line(e))[2], e.gateway)
  {
    ColumnsAreColumns(e);
    FieldsInvertJoin(Columns(e));
    DecodeInvertsPrint(e.gateway);
    AddressIsUnique(PrintLE(e.gateway), e.gateway, e.gateway);
    MetricReads(e.metric);
    assert Columns(e)[6] == Decimal(e.metric);
  }

  function Table(header: string, es: seq<Entry>): string {
    Unlines([header] + seq(|es|, i requires 0 <= i < |es| => Line(es[i])))
  }

  lemma TableRows(header: string, es: seq<Entry>)
    requires '\n' !in header && forall e | e in es :: WellFormed(e)
    ensures |Rows(Table(header, es))| == |es| && forall i | 0 <= i < |es| :: Rows(Table(header, es))[i] == Line(es[i])
  {
    hide Line;
    var ls := [header] + seq(|es|, i requires 0 <= i < |es| => Line(es[i]));
    forall i | 0 <= i < |ls| ensures '\n' !in ls[i] && (i > 0 ==> DropCR(ls[i]) == ls[i]) {
      if i > 0 {
        assert es[i - 1] in es;
        LineIsClean(es[i - 1]);
      }
    }
    LinesOfUnlines(ls);
    var sc := ScanLines(Table(header, es));
    assert |sc| == |ls| && forall i | 0 < i < |ls| :: sc[i] == ls[i];
  }

  lemma LineIsClean(e: Entry)
    requires WellFormed(e)
    ensures '\n' !in Line(e) && DropCR(Line(e)) == Line(e)
  {
    ColumnsAreColumns(e);
    forall s | s in Columns(e) ensures '\n' !in s && '\r' !in s {
      assert Column(s);
    }
    JoinKeepsOut(Columns(e), '\t', '\n');
    JoinKeepsOut(Columns(e), '\t', '\r');
  }

  predicate IsDefaultEntry(e: Entry) {
    e.dest == "00000000"
  }

  /** The row says what the entry does. */
  predicate RowIs(row: string, e: Entry) {
    && (IsDefault(row) <==> IsDefaultEntry(e))
    && (IsDefault(row) ==> RowMetric(row) == if e.metric <= MAX_UINT64 then e.metric else MAX_UINT64)
    && |Fields(row)| >= 8 && IsAddress(Fields(row)[2], e.gateway)
  }

  /** Entry i is the first default route to attain the least metric, and that can be chosen. */
  predicate IsBestEntry(es: seq<Entry>, i: nat) {
    i < |es| && IsDefaultEntry(es[i]) && es[i].metric < MAX_UINT64 &&
    forall j | 0 <= j < |es| && IsDefaultEntry(es[j]) ::
      es[i].metric <= es[j].metric && (j < i ==> es[i].metric < es[j].metric)
  }

  lemma BestEntry(rows: seq<string>, es: seq<Entry>, i: nat)
    requires |rows| == |es| && (forall j | 0 <= j < |es| :: RowIs(rows[j], es[j])) && IsBest(rows, i)
    ensures IsBestEntry(es, i) && es[i] in es
  {
    hide Fields, IsAddress, IsDefault, RowMetric;
    assert RowIs(rows[i], es[i]);
    forall j | 0 <= j < |es| && IsDefaultEntry(es[j])
      ensures es[i].metric <= es[j].metric && (j < i ==> es[i].metric < es[j].metric)
    {
      assert RowIs(rows[j], es[j]);
    }
  }

  /** For every table the kernel prints: the gateway of the first default route of least metric; none
      exactly when every default route is at the maximum or beyond. */
  lemma GatewayOfTable(header: string, es: seq<Entry>, r: Option<seq<Byte>>)
    requires '\n' !in header && (forall e | e in es :: WellFormed(e)) && GatewayIs(Table(header, es), r)
    ensures r.None? <==> forall e | e in es && IsDefaultEntry(e) :: e.metric >= MAX_UINT64
    ensures r.Some? ==> exists i: nat :: IsBestEntry(es, i) && r.value == es[i].gateway
  {
    hide Fields, Metric, IsAddress, Table, Rows, Line, IsDefault, RowMetric, WellFormed;
    var rows := Rows(Table(header, es));
    TableRows(header, es);
    forall i | 0 <= i < |es| ensures RowIs(rows[i], es[i]) {
      assert es[i] in es;
      PrintedRow(es[i]);
    }
    if r.Some? {
      var i: nat :| IsBest(rows, i) && IsAddress(Fields(rows[i])[2], r.value);
      assert RowIs(rows[i], es[i]);
      AddressIsUnique(Fields(rows[i])[2], r.value, es[i].gateway);
      BestEntry(rows, es, i);
    } else {
      forall e | e in es && IsDefaultEntry(e) ensures e.metric >= MAX_UINT64 {
        var i :| 0 <= i < |es| && es[i] == e;
        assert RowIs(rows[i], es[i]);
      }
    }
  }
}
