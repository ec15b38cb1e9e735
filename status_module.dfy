/** `StatusModule`: `clusters status` prints one table row per MongoDB process of the group,
    with its replica set, a short host name, the open connections, the data size, the disk
    space used and in total over all partitions, and the disk utilisation; a blank row
    separates replica sets. With `--refresh` it repeats after a pause. The four kinds of
    server response the report reads are inputs here. */
module StatusModule {
  import opened Wrappers
  import opened JavaLang
  import opened CommandLines
  import opened Identities
  import opened CliModule
  import opened StatusMetrics
  import opened TextTables

  // ---------------------------------------------------------------- decimal sizes

  const KILO: int := 1000
  const MEGA: int := 1000 * 1000
  const GIGA: int := 1000 * 1000 * 1000
  const TERA: int := 1000 * 1000 * 1000 * 1000

  /** The divisor each suffix of `formatSize` stands for. */
  function Unit(suffix: char): nat {
    match suffix
    case 'T' => TERA
    case 'G' => GIGA
    case 'M' => MEGA
    case 'K' => KILO
    case _ => 1
  }

  /** `formatSize`: the largest of T, G, M, K whose floored quotient is at least 1, printed
      as that whole quotient and the letter; below 1000 the count itself and "B". */
  function FormatSize(sizeBytes: Long): (r: string)
    ensures |r| >= 2
    ensures r[|r| - 1] == 'T' <==> sizeBytes >= TERA
    ensures r[|r| - 1] == 'G' <==> GIGA <= sizeBytes < TERA
    ensures r[|r| - 1] == 'M' <==> MEGA <= sizeBytes < GIGA
    ensures r[|r| - 1] == 'K' <==> KILO <= sizeBytes < MEGA
    ensures r[|r| - 1] == 'B' <==> sizeBytes < KILO
    ensures r[..|r| - 1] == IntToString(sizeBytes / Unit(r[|r| - 1]))
  {
    var k := sizeBytes / KILO;
    var m := sizeBytes / MEGA;
    var g := sizeBytes / GIGA;
    var t := sizeBytes / TERA;
    DivAtLeastOne(sizeBytes, KILO);
    DivAtLeastOne(sizeBytes, MEGA);
    DivAtLeastOne(sizeBytes, GIGA);
    DivAtLeastOne(sizeBytes, TERA);
    if t >= 1 then Suffixed(t, 'T')
    else if g >= 1 then Suffixed(g, 'G')
    else if m >= 1 then Suffixed(m, 'M')
    else if k >= 1 then Suffixed(k, 'K')
    else Suffixed(sizeBytes, 'B')
  }

  /** A number followed by a one-letter suffix. */
  function Suffixed(n: int, suffix: char): (r: string)
    ensures |r| >= 2 && r[|r| - 1] == suffix && r[..|r| - 1] == IntToString(n)
  {
    IntToString(n) + [suffix]
  }

  /** A floored quotient by a positive divisor is at least 1 exactly when the dividend is at
      least the divisor. */
  lemma DivAtLeastOne(a: int, b: int)
    requires b > 0
    ensures a / b >= 1 <==> a >= b
  {
    DivBounds(a, b);
    if a / b < 1 && a >= b {
      MulMono(a / b + 1, 1, b);
    }
    if a / b >= 1 {
      MulMono(1, a / b, b);
    }
  }

  /** `a / b` is the `q` with `q * b <= a < (q + 1) * b`. */
  lemma DivUnique(a: int, b: int, q: int)
    requires b > 0 && q * b <= a < (q + 1) * b
    ensures a / b == q
  {
    var d := a / b;
    assert a == d * b + a % b && 0 <= a % b < b;
    if d < q {
      MulMono(d + 1, q, b);
    }
    if d > q {
      MulMono(q + 1, d, b);
    }
  }

  lemma MulMono(x: int, y: int, c: int)
    requires x <= y && c >= 0
    ensures x * c <= y * c
  {
  }

  /** `a / b` rounds down: `(a / b) * b <= a < (a / b + 1) * b`. */
  lemma DivBounds(a: int, b: int)
    requires b > 0
    ensures (a / b) * b <= a < (a / b + 1) * b
  {
    assert a == (a / b) * b + a % b && 0 <= a % b < b;
  }

  /** The number before the suffix reads back as the size divided by the suffix's unit and
      rounded down (not to nearest): it is the largest multiple of the unit not above the size. */
  lemma FormatSizeReadBack(sizeBytes: Long)
    ensures var r := FormatSize(sizeBytes);
      var q := sizeBytes / Unit(r[|r| - 1]);
      && ParseLong(r[..|r| - 1]) == Some(q)
      && q * Unit(r[|r| - 1]) <= sizeBytes < (q + 1) * Unit(r[|r| - 1])
  {
    var r := FormatSize(sizeBytes);
    var u := Unit(r[|r| - 1]);
    QuotientInLong(sizeBytes, u);
    ParseLongRoundTrip(sizeBytes / u);
  }

  /** A `long` divided by a positive number, rounded down, is a `long` again. */
  lemma QuotientInLong(a: Long, u: int)
    requires u > 0
    ensures LONG_MIN <= a / u <= LONG_MAX
    ensures (a / u) * u <= a < (a / u + 1) * u
  {
    var q := a / u;
    DivBounds(a, u);
    if a >= 0 {
      MulMono(1, u, q);
    } else {
      MulMono(q + 1, 0, u);
    }
  }

  /** 999 bytes, 1000, 999999, 1500000 and 10^12 print as "999B", "1K", "999K", "1M" (the
      quotient 1.5 is floored) and "1T". */
  lemma FormatSizeExamples()
    ensures FormatSize(999) == "999B"
    ensures FormatSize(1000) == "1K"
    ensures FormatSize(999999) == "999K"
    ensures FormatSize(1500000) == "1M"
    ensures FormatSize(TERA) == "1T"
  {
    FormatSizeBelowKilo();
    FormatSizeKilo();
    FormatSizeBelowMega();
    FormatSizeMega();
    FormatSizeTera();
  }

  lemma FormatSizeBelowKilo()
    ensures FormatSize(999) == "999B"
  {
    Digits999();
  }

  lemma FormatSizeKilo()
    ensures FormatSize(1000) == "1K"
  {
    Digits999();
  }

  lemma FormatSizeBelowMega()
    ensures FormatSize(999999) == "999K"
  {
    Digits999();
  }

  lemma FormatSizeMega()
    ensures FormatSize(1500000) == "1M"
  {
    Digits999();
  }

  lemma FormatSizeTera()
    ensures FormatSize(TERA) == "1T"
  {
    Digits999();
  }

  lemma Digits999()
    ensures IntToString(999) == "999" && IntToString(1) == "1"
  {
    assert NatToString(9) == "9";
    assert NatToString(99) == "99";
    assert NatToString(999) == "999";
  }

  // ---------------------------------------------------------------- row cells

  /** The host label: the id up to its first '.', when that '.' is not the first character;
      otherwise the whole id. */
  function HostLabel(id: string): (r: string)
    ensures |r| <= |id| && id[..|r|] == r
    ensures r == id <==> '.' !in id || id[0] == '.'
    ensures r != id ==> |r| > 0 && id[|r|] == '.' && '.' !in r
  {
    var p := IndexOf(id, '.');
    if p > 0 then id[..p] else id
  }

  /** A non-empty host name without '.' followed by a domain is labelled with the host name:
      "h1" + ".x.com:27017" gives "h1". */
  lemma HostLabelDomain(host: string, domain: string)
    requires host != "" && '.' !in host
    ensures HostLabel(host + "." + domain) == host
  {
    var id := host + "." + domain;
    assert id[..|host|] == host && id[|host|] == '.';
    IndexOfAt(id, '.', |host|);
  }

  /** A leading '.' keeps the whole id: "." + "x" is labelled ".x". */
  lemma HostLabelLeadingDot(domain: string)
    ensures HostLabel("." + domain) == "." + domain
  {
    IndexOfAt("." + domain, '.', 0);
  }

  /** An id without '.' is its own label: "h1:27017". */
  lemma HostLabelNoDot(id: string)
    requires id == "h1:27017"
    ensures HostLabel(id) == "h1:27017"
  {
    assert '.' !in id by {
      forall k | 0 <= k < |id| ensures id[k] != '.' { }
    }
  }

  /** The utilisation percentage: 0 for an empty disk, else 100 * used / total rounded half
      up (`Math.round`). */
  function Percent(used: int, total: int): (r: int)
    ensures total <= 0 ==> r == 0
    ensures total > 0 ==> 2 * r * total <= 200 * used + total < 2 * (r + 1) * total
  {
    if total > 0 then (200 * used + total) / (2 * total) else 0
  }

  /** A share of a non-empty disk lies between 0% and 100%, and a full disk is 100%. */
  lemma PercentBounds(used: int, total: int)
    requires 0 <= used <= total && total > 0
    ensures 0 <= Percent(used, total) <= 100
    ensures used == total ==> Percent(used, total) == 100
  {
    var a := 200 * used + total;
    var b := 2 * total;
    var q := a / b;
    DivBounds(a, b);
    assert 0 <= a < 101 * b;
    if q > 100 {
      MulMono(101, q, b);
    }
    if q < 0 {
      MulMono(q + 1, 0, b);
    }
    if used == total {
      DivUnique(a, b, 100);
    }
  }

  lemma PercentExamples()
    ensures Percent(50, 200) == 25
    ensures Percent(1, 8) == 13
    ensures Percent(0, 0) == 0
  {
  }

  /** The utilisation cell: the percentage and '%'; for a share of a non-empty disk, the
      number reads back as the percentage. */
  function Utilisation(used: int, total: int): (r: string)
    ensures |r| >= 2 && r[|r| - 1] == '%'
    ensures 0 <= used <= total && total > 0 ==> ParseLong(r[..|r| - 1]) == Some(Percent(used, total))
  {
    var p := Percent(used, total);
    var r := IntToString(p) + "%";
    assert r[..|r| - 1] == IntToString(p);
    if 0 <= used <= total && total > 0 then
      PercentBounds(used, total);
      ParseLongRoundTrip(p);
      r
    else r
  }

  /** The connections cell: the value, or blank when the metric is missing. */
  function ConnectionsCell(connections: Option<Long>): (r: string)
    ensures connections.None? <==> r == ""
    ensures connections.Some? ==> ParseLong(r) == connections
  {
    match connections
    case None => ""
    case Some(c) => ParseLongRoundTrip(c); IntToString(c)
  }

  // ---------------------------------------------------------------- responses

  const CONNECTIONS_METRIC: string := "CONNECTIONS"
  const DATA_SIZE_METRIC: string := "DB_DATA_SIZE_TOTAL"
  const SPACE_USED_METRIC: string := "DISK_PARTITION_SPACE_USED"
  const SPACE_FREE_METRIC: string := "DISK_PARTITION_SPACE_FREE"

  /** One disk partition of a process and the outcome of fetching its measurements (an
      exception for a failed request, or `JSON` for a response without a `measurements`
      array). */
  datatype Disk = Disk(partitionName: string, measurements: Result<seq<Measurement>, JavaException>)

  /** One process of the group with the outcomes of fetching its measurements and its list
      of partitions (an exception for a failed request, or `JSON` for a response without
      the `measurements` or `results` array). */
  datatype Process = Process(
    id: string,
    replicaSetName: string,
    measurements: Result<seq<Measurement>, JavaException>,
    disks: Result<seq<Disk>, JavaException>)

  /** The response to the processes request: an exception, no `results` key, or the processes
      in the order the server lists them. */
  type ProcessesResponse = Result<Option<seq<Process>>, JavaException>

  /** Disk space summed over the partitions of a process. */
  datatype DiskSpace = DiskSpace(used: Long, free: Long)

  /** What the report shows of one process. */
  datatype Node = Node(connections: Option<Long>, dataSize: Long, space: DiskSpace)

  function DiskMeasurements(disks: seq<Disk>): (r: seq<Result<seq<Measurement>, JavaException>>)
    ensures |r| == |disks| && forall j :: 0 <= j < |disks| ==> r[j] == disks[j].measurements
  {
    seq(|disks|, j requires 0 <= j < |disks| => disks[j].measurements)
  }

  /** The exact sum of one metric over the partitions, 0 where it is missing. */
  function MetricSum(partitions: seq<seq<Measurement>>, name: string): int {
    if |partitions| == 0 then 0
    else MetricSum(partitions[..|partitions| - 1], name) + GetOrZero(Metrics(partitions[|partitions| - 1]), name)
  }

  /** The partitions' used and free space, added up in `long` (wrapping on overflow); the
      first partition whose measurements cannot be fetched ends the report. */
  function DiskTotals(disks: seq<Disk>): Result<DiskSpace, JavaException> {
    match AllOk(DiskMeasurements(disks))
    case Err(e) => Err(e)
    case Ok(partitions) =>
      Ok(DiskSpace(WrapLong(MetricSum(partitions, SPACE_USED_METRIC)), WrapLong(MetricSum(partitions, SPACE_FREE_METRIC))))
  }

  /** One process: its measurements, then its partitions, then each partition, in the order
      the requests are made; the first failure is the outcome. */
  function NodeStatus(p: Process): Result<Node, JavaException> {
    match p.measurements
    case Err(e) => Err(e)
    case Ok(ms) =>
      var metrics := Metrics(ms);
      match p.disks
      case Err(e) => Err(e)
      case Ok(disks) =>
        match DiskTotals(disks)
        case Err(e) => Err(e)
        case Ok(space) =>
          var connections := if CONNECTIONS_METRIC in metrics then Some(metrics[CONNECTIONS_METRIC]) else None;
          Ok(Node(connections, GetOrZero(metrics, DATA_SIZE_METRIC), space))
  }

  // ---------------------------------------------------------------- rows

  const HEADER: Row := ["ReplicaSet", "Host", "Conn", "Data", "Disk Used", "Disk Total", "Disk Utl"]
  const SEPARATOR: Row := ["", "", "", "", "", "", ""]

  /** The total disk space, `used + free` in `long`: the exact sum unless it overflows. */
  function DiskTotal(space: DiskSpace): (r: Long)
    ensures LONG_MIN <= space.used + space.free <= LONG_MAX ==> r == space.used + space.free
  {
    WrapLong(space.used + space.free)
  }

  /** The row of one process. */
  function DataRow(p: Process, n: Node): (r: Row)
    ensures |r| == 7 && |r[3]| >= 2
    ensures r[0] == p.replicaSetName && r[1] == HostLabel(p.id) && r[2] == ConnectionsCell(n.connections)
    ensures r[3] == FormatSize(n.dataSize) && r[4] == FormatSize(n.space.used)
    ensures var total := DiskTotal(n.space);
      r[5] == FormatSize(total) && r[6] == Utilisation(n.space.used, total)
  {
    var total := DiskTotal(n.space);
    CellsAt(
      p.replicaSetName,
      HostLabel(p.id),
      ConnectionsCell(n.connections),
      FormatSize(n.dataSize),
      FormatSize(n.space.used),
      FormatSize(total),
      Utilisation(n.space.used, total));
    Cells(
      p.replicaSetName,
      HostLabel(p.id),
      ConnectionsCell(n.connections),
      FormatSize(n.dataSize),
      FormatSize(n.space.used),
      FormatSize(total),
      Utilisation(n.space.used, total))
  }

  /** Seven cells, in order. */
  function Cells(c0: string, c1: string, c2: string, c3: string, c4: string, c5: string, c6: string): (r: Row)
    ensures |r| == 7 && r[3] == c3
  {
    [c0, c1, c2, c3, c4, c5, c6]
  }

  /** The seven cells, one by one. */
  lemma CellsAt(c0: string, c1: string, c2: string, c3: string, c4: string, c5: string, c6: string)
    ensures var r := Cells(c0, c1, c2, c3, c4, c5, c6);
      r[0] == c0 && r[1] == c1 && r[2] == c2 && r[4] == c4 && r[5] == c5 && r[6] == c6
  {
  }

  /** A missing data size shows as zero bytes. */
  lemma FormatSizeZero()
    ensures FormatSize(0) == "0B"
  {
    var r := FormatSize(0);
    assert Unit('B') == 1;
    assert IntToString(0) == "0";
    assert r == r[..|r| - 1] + [r[|r| - 1]];
  }

  /** Some series of that name has a non-null data point. */
  predicate Reported(ms: seq<Measurement>, name: string) {
    exists k :: 0 <= k < |ms| && ms[k].name == name && Contribution(ms[k]).Some?
  }

  /** `v` is the latest value of the last series of that name that has one. */
  predicate LastReported(ms: seq<Measurement>, name: string, v: Long) {
    exists k :: 0 <= k < |ms| && ms[k].name == name && Contribution(ms[k]) == Some(v) &&
      forall j :: k < j < |ms| && ms[j].name == name ==> Contribution(ms[j]).None?
  }

  /** What a fetched process shows, in terms of the series the server sent: a connection
      count exactly when some `CONNECTIONS` series has a point, and then the latest point of
      the last such series; the same for `DB_DATA_SIZE_TOTAL`, or 0 when no series of it has
      a point; and the partitions' space. */
  lemma NodeStatusValue(p: Process)
    requires NodeStatus(p).Ok?
    ensures p.measurements.Ok? && p.disks.Ok? && DiskTotals(p.disks.value).Ok?
    ensures var ms := p.measurements.value;
      var n := NodeStatus(p).value;
      && (n.connections.Some? <==> Reported(ms, CONNECTIONS_METRIC))
      && (n.connections.Some? ==> LastReported(ms, CONNECTIONS_METRIC, n.connections.value))
      && (!Reported(ms, DATA_SIZE_METRIC) ==> n.dataSize == 0)
      && (Reported(ms, DATA_SIZE_METRIC) ==> LastReported(ms, DATA_SIZE_METRIC, n.dataSize))
      && n.space == DiskTotals(p.disks.value).value
  {
    var ms := p.measurements.value;
    NodeStatusOk(p);
    MetricsKeys(ms, CONNECTIONS_METRIC);
    MetricsKeys(ms, DATA_SIZE_METRIC);
    if CONNECTIONS_METRIC in Metrics(ms) {
      MetricsValue(ms, CONNECTIONS_METRIC);
    }
    if DATA_SIZE_METRIC in Metrics(ms) {
      MetricsValue(ms, DATA_SIZE_METRIC);
    }
  }

  /** The node of a fetched process, from its metrics map and its partitions' space. */
  lemma NodeStatusOk(p: Process)
    requires NodeStatus(p).Ok?
    ensures p.measurements.Ok? && p.disks.Ok? && DiskTotals(p.disks.value).Ok?
    ensures var metrics := Metrics(p.measurements.value);
      NodeStatus(p).value == Node(
        if CONNECTIONS_METRIC in metrics then Some(metrics[CONNECTIONS_METRIC]) else None,
        GetOrZero(metrics, DATA_SIZE_METRIC),
        DiskTotals(p.disks.value).value)
  {
  }

  /** The row of a node built from a metrics map and a disk total, cell by cell. */
  lemma RowFromMetrics(p: Process, n: Node, metrics: map<string, Long>, space: DiskSpace)
    requires n == Node(if CONNECTIONS_METRIC in metrics then Some(metrics[CONNECTIONS_METRIC]) else None,
                       GetOrZero(metrics, DATA_SIZE_METRIC), space)
    ensures var row := DataRow(p, n);
      var total := DiskTotal(space);
      && row[0] == p.replicaSetName
      && row[1] == HostLabel(p.id)
      && (row[2] == "" <==> CONNECTIONS_METRIC !in metrics)
      && (CONNECTIONS_METRIC in metrics ==> ParseLong(row[2]) == Some(metrics[CONNECTIONS_METRIC]))
      && row[3] == FormatSize(GetOrZero(metrics, DATA_SIZE_METRIC))
      && (DATA_SIZE_METRIC !in metrics ==> row[3] == "0B")
      && row[4] == FormatSize(space.used)
      && row[5] == FormatSize(total)
      && row[6] == Utilisation(space.used, total)
  {
    FormatSizeZero();
  }

  /** The cells of a fetched process's row, from its responses: the replica set, the host
      label, the connection count (blank exactly when the metric is missing), the data size
      (zero bytes when missing), the used space, the wrapped total and the utilisation. */
  lemma NodeRowCells(p: Process)
    requires NodeStatus(p).Ok?
    ensures p.measurements.Ok? && p.disks.Ok? && DiskTotals(p.disks.value).Ok?
    ensures var row := DataRow(p, NodeStatus(p).value);
      var metrics := Metrics(p.measurements.value);
      var space := DiskTotals(p.disks.value).value;
      var total := DiskTotal(space);
      && row[0] == p.replicaSetName
      && row[1] == HostLabel(p.id)
      && (row[2] == "" <==> CONNECTIONS_METRIC !in metrics)
      && (CONNECTIONS_METRIC in metrics ==> ParseLong(row[2]) == Some(metrics[CONNECTIONS_METRIC]))
      && row[3] == FormatSize(GetOrZero(metrics, DATA_SIZE_METRIC))
      && (DATA_SIZE_METRIC !in metrics ==> row[3] == "0B")
      && row[4] == FormatSize(space.used)
      && row[5] == FormatSize(total)
      && row[6] == Utilisation(space.used, total)
  {
    NodeStatusOk(p);
    RowFromMetrics(p, NodeStatus(p).value, Metrics(p.measurements.value), DiskTotals(p.disks.value).value);
  }

  /** A row whose data cell is filled is not the blank separator. */
  lemma NotBlank(row: Row)
    requires |row| == 7 && |row[3]| > 0
    ensures row != SEPARATOR
  {
    assert row[3] != SEPARATOR[3];
  }

  /** What one process contributes: its row, or the exception of its first failed request. */
  function RowOutcome(p: Process): Result<Row, JavaException> {
    match NodeStatus(p)
    case Err(e) => Err(e)
    case Ok(n) => Ok(DataRow(p, n))
  }

  function RowOutcomes(ps: seq<Process>): (r: seq<Result<Row, JavaException>>)
    ensures |r| == |ps| && forall i :: 0 <= i < |ps| ==> r[i] == RowOutcome(ps[i])
  {
    seq(|ps|, i requires 0 <= i < |ps| => RowOutcome(ps[i]))
  }

  /** The replica set changes between process `i - 1` and process `i`. */
  predicate ReplicaSetChanges(ps: seq<Process>, i: int)
    requires 0 <= i < |ps|
  {
    i > 0 && ps[i - 1].replicaSetName != ps[i].replicaSetName
  }

  /** The blank row that goes before process `i` when the replica set changes there. */
  function Gap(ps: seq<Process>, i: int): seq<Row>
    requires 0 <= i < |ps|
  {
    if ReplicaSetChanges(ps, i) then [SEPARATOR] else []
  }

  /** The rows below the header for the first `n` processes: each process's row, preceded
      by a blank row when its replica set differs from the previous process's. */
  function Layout(ps: seq<Process>, rows: seq<Row>, n: nat): seq<Row>
    requires n <= |ps| && n <= |rows|
  {
    if n == 0 then []
    else Layout(ps, rows, n - 1) + Gap(ps, n - 1) + [rows[n - 1]]
  }

  /** The header and the layout of the processes' rows, or the first failure among them. */
  function Assemble(ps: seq<Process>, outcomes: seq<Result<Row, JavaException>>): Result<seq<Row>, JavaException>
    requires |outcomes| == |ps|
  {
    match AllOk(outcomes)
    case Err(e) => Err(e)
    case Ok(rows) => Ok([HEADER] + Layout(ps, rows, |ps|))
  }

  /** The rows of `getStatus`: the header, and for a response with `results` the layout of
      its processes, unless a request fails. */
  function StatusRows(response: ProcessesResponse): Result<seq<Row>, JavaException> {
    match response
    case Err(e) => Err(e)
    case Ok(None) => Ok([HEADER])
    case Ok(Some(ps)) => Assemble(ps, RowOutcomes(ps))
  }

  /** `getStatus`: the rows rendered as a table. */
  function StatusReport(response: ProcessesResponse): Result<string, JavaException> {
    match StatusRows(response)
    case Err(e) => Err(e)
    case Ok(rows) => TextTable(rows)
  }

  // ---------------------------------------------------------------- properties of the rows

  /** The number of replica-set changes among the first `n` processes. */
  function Transitions(ps: seq<Process>, n: nat): nat
    requires n <= |ps|
  {
    if n == 0 then 0
    else Transitions(ps, n - 1) + (if ReplicaSetChanges(ps, n - 1) then 1 else 0)
  }

  /** The rows that are not blank separators. */
  function WithoutSeparators(rows: seq<Row>): seq<Row> {
    if |rows| == 0 then []
    else WithoutSeparators(rows[..|rows| - 1]) + (if rows[|rows| - 1] == SEPARATOR then [] else [rows[|rows| - 1]])
  }

  lemma {:induction false} WithoutSeparatorsAppend(a: seq<Row>, b: seq<Row>)
    ensures WithoutSeparators(a + b) == WithoutSeparators(a) + WithoutSeparators(b)
  {
    if |b| > 0 {
      assert (a + b)[..|a + b| - 1] == a + b[..|b| - 1];
      WithoutSeparatorsAppend(a, b[..|b| - 1]);
    } else {
      assert a + b == a;
    }
  }

  /** Appending blank rows and then a row that is not blank keeps just that row. */
  lemma WithoutSeparatorsKeep(before: seq<Row>, gap: seq<Row>, row: Row)
    requires WithoutSeparators(gap) == [] && row != SEPARATOR
    ensures WithoutSeparators(before + gap + [row]) == WithoutSeparators(before) + [row]
  {
    WithoutSeparatorsAppend(before + gap, [row]);
    WithoutSeparatorsAppend(before, gap);
    WithoutSeparatorsSingle(row);
  }

  /** A row that is not blank is kept. */
  lemma WithoutSeparatorsSingle(row: Row)
    requires row != SEPARATOR
    ensures WithoutSeparators([row]) == [row]
  {
    assert [row][..0] == [];
  }

  /** A blank row is dropped. */
  lemma WithoutSeparatorsGap(ps: seq<Process>, i: int)
    requires 0 <= i < |ps|
    ensures WithoutSeparators(Gap(ps, i)) == []
  {
    if ReplicaSetChanges(ps, i) {
      assert [SEPARATOR][..0] == [];
    }
  }

  /** One row per process plus one blank row per replica-set change. */
  lemma {:induction false} LayoutLength(ps: seq<Process>, rows: seq<Row>, n: nat)
    requires n <= |ps| && n <= |rows|
    ensures |Layout(ps, rows, n)| == n + Transitions(ps, n)
  {
    if n > 0 {
      LayoutLength(ps, rows, n - 1);
    }
  }

  /** Without the blank rows the layout is the processes' rows in order. */
  lemma {:induction false} LayoutWithoutSeparators(ps: seq<Process>, rows: seq<Row>, n: nat)
    requires n <= |ps| && n <= |rows| && forall k :: 0 <= k < n ==> rows[k] != SEPARATOR
    ensures var w := WithoutSeparators(Layout(ps, rows, n));
      |w| == n && forall k :: 0 <= k < n ==> w[k] == rows[k]
  {
    if n > 0 {
      var before := Layout(ps, rows, n - 1);
      var gap := Gap(ps, n - 1);
      assert Layout(ps, rows, n) == before + gap + [rows[n - 1]];
      LayoutWithoutSeparators(ps, rows, n - 1);
      WithoutSeparatorsGap(ps, n - 1);
      WithoutSeparatorsKeep(before, gap, rows[n - 1]);
      PrefixExtended(WithoutSeparators(before), rows, n);
    }
  }

  /** The first `n - 1` rows followed by row `n - 1` are the first `n` rows. */
  lemma PrefixExtended(w0: seq<Row>, rows: seq<Row>, n: nat)
    requires 0 < n <= |rows| && |w0| == n - 1 && forall k :: 0 <= k < n - 1 ==> w0[k] == rows[k]
    ensures var w := w0 + [rows[n - 1]];
      |w| == n && forall k :: 0 <= k < n ==> w[k] == rows[k]
  {
  }

  /** The layout starts with the first process's row, so no blank row comes first, and
      ends with the last process's row. */
  lemma {:induction false} LayoutEnds(ps: seq<Process>, rows: seq<Row>, n: nat)
    requires 0 < n <= |ps| && n <= |rows|
    ensures Layout(ps, rows, n)[0] == rows[0]
    ensures Layout(ps, rows, n)[|Layout(ps, rows, n)| - 1] == rows[n - 1]
  {
    if n > 1 {
      LayoutEnds(ps, rows, n - 1);
    } else {
      assert !ReplicaSetChanges(ps, 0);
    }
  }

  /** Replica-set changes only accumulate. */
  lemma {:induction false} TransitionsMonotone(ps: seq<Process>, a: nat, b: nat)
    requires a <= b <= |ps|
    ensures Transitions(ps, a) <= Transitions(ps, b)
  {
    if a < b {
      TransitionsMonotone(ps, a, b - 1);
    }
  }

  /** Where each row lands: process `k`'s row comes after the `k` earlier rows and the
      separators of the changes up to and including its own; the row just before it is the
      blank separator exactly when its replica set differs from the previous process's, and
      otherwise the previous process's row. */
  lemma {:induction false} LayoutPlaces(ps: seq<Process>, rows: seq<Row>, n: nat, k: nat)
    requires k < n <= |ps| && n <= |rows|
    ensures k + Transitions(ps, k + 1) < |Layout(ps, rows, n)|
    ensures Layout(ps, rows, n)[k + Transitions(ps, k + 1)] == rows[k]
    ensures k > 0 ==>
      Layout(ps, rows, n)[k + Transitions(ps, k + 1) - 1] == if ReplicaSetChanges(ps, k) then SEPARATOR else rows[k - 1]
  {
    var before := Layout(ps, rows, n - 1);
    LayoutLength(ps, rows, n - 1);
    LayoutLength(ps, rows, n);
    if k < n - 1 {
      TransitionsMonotone(ps, k + 1, n - 1);
      LayoutPlaces(ps, rows, n - 1, k);
      assert Layout(ps, rows, n) == before + (Gap(ps, n - 1) + [rows[n - 1]]);
    } else if k > 0 {
      if !ReplicaSetChanges(ps, k) {
        LayoutEnds(ps, rows, n - 1);
      }
    }
  }

  /** Every row of the layout has the width of the rows laid out. */
  lemma {:induction false} LayoutWidths(ps: seq<Process>, rows: seq<Row>, n: nat)
    requires n <= |ps| && n <= |rows| && forall k :: 0 <= k < n ==> |rows[k]| == 7
    ensures forall k :: 0 <= k < |Layout(ps, rows, n)| ==> |Layout(ps, rows, n)[k]| == 7
  {
    if n > 0 {
      LayoutWidths(ps, rows, n - 1);
    }
  }

  /** Processes of a single replica set get no blank rows. */
  lemma {:induction false} NoTransitionsInOneReplicaSet(ps: seq<Process>, n: nat)
    requires n <= |ps|
    requires forall i :: 0 <= i < n ==> ps[i].replicaSetName == ps[0].replicaSetName
    ensures Transitions(ps, n) == 0
  {
    if n > 0 {
      NoTransitionsInOneReplicaSet(ps, n - 1);
    }
  }

  /** When every request succeeds, the outcomes are the processes' rows. */
  lemma AllRowsOk(ps: seq<Process>)
    requires AllOk(RowOutcomes(ps)).Ok?
    ensures var rows := AllOk(RowOutcomes(ps)).value;
      |rows| == |ps| && forall k :: 0 <= k < |ps| ==>
        NodeStatus(ps[k]).Ok? && rows[k] == DataRow(ps[k], NodeStatus(ps[k]).value)
  {
    var outcomes := RowOutcomes(ps);
    var rows := AllOk(outcomes).value;
    forall k | 0 <= k < |ps|
      ensures NodeStatus(ps[k]).Ok? && rows[k] == DataRow(ps[k], NodeStatus(ps[k]).value)
    {
      assert outcomes[k] == Ok(rows[k]);
    }
  }

  /** A response without `results` gives the header alone; one whose requests all succeed
      gives the header, one row per process and one blank row per replica-set change. */
  lemma StatusRowCount(response: ProcessesResponse)
    ensures response == Ok(None) ==> StatusRows(response) == Ok([HEADER])
    ensures response.Ok? && response.value.Some? && StatusRows(response).Ok? ==>
      var ps := response.value.value;
      |StatusRows(response).value| == 1 + |ps| + Transitions(ps, |ps|)
    ensures response.Err? ==> StatusRows(response) == Err(response.error)
  {
    if response.Ok? && response.value.Some? && StatusRows(response).Ok? {
      var ps := response.value.value;
      LayoutLength(ps, AllOk(RowOutcomes(ps)).value, |ps|);
    }
  }

  /** Below the header, the report rows are every process's row in order once the blank
      rows are taken out, and the first of them is the first process's row. */
  lemma StatusRowsOrder(ps: seq<Process>)
    requires StatusRows(Ok(Some(ps))).Ok?
    ensures var rows := StatusRows(Ok(Some(ps))).value;
      var data := WithoutSeparators(rows[1..]);
      && rows[0] == HEADER
      && |data| == |ps|
      && (forall k :: 0 <= k < |ps| ==> NodeStatus(ps[k]).Ok? && data[k] == DataRow(ps[k], NodeStatus(ps[k]).value))
      && (|ps| > 0 ==> rows[1] == data[0])
  {
    var data := AllOk(RowOutcomes(ps)).value;
    var rows := StatusRows(Ok(Some(ps))).value;
    var layout := Layout(ps, data, |ps|);
    AllRowsOk(ps);
    assert rows == [HEADER] + layout;
    assert rows[1..] == layout;
    forall k | 0 <= k < |ps|
      ensures data[k] != SEPARATOR
    {
      NotBlank(data[k]);
    }
    LayoutWithoutSeparators(ps, data, |ps|);
    if |ps| > 0 {
      LayoutEnds(ps, data, |ps|);
    }
  }

  /** Every column of the header has a name. */
  lemma HeaderNamesAll()
    ensures |HEADER| == 7 && forall i :: 0 <= i < 7 ==> |HEADER[i]| > 0
  {
  }

  /** A table under the header whose rows are all seven cells wide renders. */
  lemma {:induction false} HeaderedTableRenders(rows: seq<Row>)
    requires |rows| > 0 && rows[0] == HEADER
    requires forall k :: 0 <= k < |rows| ==> |rows[k]| == 7
    ensures TextTable(rows).Ok?
  {
    HeaderNamesAll();
    forall i | 0 <= i < 7
      ensures NonBlankColumn(rows, i)
    {
      assert |rows[0][i]| > 0;
    }
    TextTableSucceeds(rows);
  }

  /** The rows of a report start with the header and are all seven cells wide. */
  lemma StatusRowsShape(response: ProcessesResponse)
    requires StatusRows(response).Ok?
    ensures var rows := StatusRows(response).value;
      |rows| > 0 && rows[0] == HEADER && forall k :: 0 <= k < |rows| ==> |rows[k]| == 7
  {
    if response.value.Some? {
      var ps := response.value.value;
      var data := AllOk(RowOutcomes(ps)).value;
      AllRowsOk(ps);
      var layout := Layout(ps, data, |ps|);
      LayoutWidths(ps, data, |ps|);
      HeaderedWidths(layout);
      assert StatusRows(response).value == [HEADER] + layout;
    }
  }

  /** The header above rows seven cells wide gives rows seven cells wide. */
  lemma HeaderedWidths(layout: seq<Row>)
    requires forall k :: 0 <= k < |layout| ==> |layout[k]| == 7
    ensures forall k :: 0 <= k < |[HEADER] + layout| ==> |([HEADER] + layout)[k]| == 7
  {
    var rows := [HEADER] + layout;
    forall k | 0 <= k < |rows|
      ensures |rows[k]| == 7
    {
      if k > 0 {
        assert rows[k] == layout[k - 1];
      }
    }
  }

  /** The status table always renders: its header fills all seven columns, so no width is
      missing; the only failures of `getStatus` are those of its requests. */
  lemma StatusReportRenders(response: ProcessesResponse)
    ensures StatusRows(response).Ok? ==> StatusReport(response).Ok?
    ensures StatusReport(response).Err? ==> StatusRows(response).Err?
  {
    if StatusRows(response).Ok? {
      StatusRowsShape(response);
      HeaderedTableRenders(StatusRows(response).value);
    }
  }

  /** A failed request for any process ends the whole report with that request's exception,
      provided the processes before it succeeded. */
  lemma StatusFailsAtFirstFailure(ps: seq<Process>, i: nat)
    requires i < |ps| && NodeStatus(ps[i]).Err?
    requires forall j :: 0 <= j < i ==> NodeStatus(ps[j]).Ok?
    ensures StatusReport(Ok(Some(ps))) == Err(NodeStatus(ps[i]).error)
  {
    var rs := RowOutcomes(ps);
    var r := AllOk(rs);
    assert rs[i].Err?;
    assert r.Err?;
    var k :| 0 <= k < |rs| && rs[k] == Err(r.error) && forall j :: 0 <= j < k ==> rs[j].Ok?;
    assert k == i;
  }

  /** The partitions' space is their exact sum whenever that fits in a `long`. */
  lemma DiskTotalsExact(disks: seq<Disk>)
    ensures var r := DiskTotals(disks);
      r.Ok? ==>
        var partitions := AllOk(DiskMeasurements(disks)).value;
        && (LONG_MIN <= MetricSum(partitions, SPACE_USED_METRIC) <= LONG_MAX ==>
              r.value.used == MetricSum(partitions, SPACE_USED_METRIC))
        && (LONG_MIN <= MetricSum(partitions, SPACE_FREE_METRIC) <= LONG_MAX ==>
              r.value.free == MetricSum(partitions, SPACE_FREE_METRIC))
  {
  }

  /** A `long` accumulator of one metric stays the wrapped exact sum when one more
      partition is added. */
  lemma MetricSumStep(partitions: seq<seq<Measurement>>, ms: seq<Measurement>, acc: Long, name: string)
    requires acc == WrapLong(MetricSum(partitions, name))
    ensures WrapLong(acc + GetOrZero(Metrics(ms), name)) == WrapLong(MetricSum(partitions + [ms], name))
  {
    assert (partitions + [ms])[..|partitions|] == partitions;
    WrapLongAdd(MetricSum(partitions, name), GetOrZero(Metrics(ms), name));
  }

  // ---------------------------------------------------------------- the loop, one process at a time

  /** The rows `getStatus` has built after the first `n` processes, one at a time: the
      first failed outcome ends it, otherwise each process adds its blank row, if any, and
      its row. */
  function ProcessRows(ps: seq<Process>, outcomes: seq<Result<Row, JavaException>>, n: nat): Result<seq<Row>, JavaException>
    requires n <= |ps| && n <= |outcomes|
  {
    if n == 0 then Ok([HEADER])
    else
      match ProcessRows(ps, outcomes, n - 1)
      case Err(e) => Err(e)
      case Ok(rows) =>
        match outcomes[n - 1]
        case Err(e) => Err(e)
        case Ok(row) => Ok(rows + Gap(ps, n - 1) + [row])
  }

  /** The blank row before process `i` is there exactly when the previous replica set is
      known and differs. */
  lemma GapAfter(ps: seq<Process>, i: nat, previousReplicaSet: Option<string>)
    requires i < |ps|
    requires previousReplicaSet == if i == 0 then None else Some(ps[i - 1].replicaSetName)
    ensures Gap(ps, i) == if previousReplicaSet.Some? && previousReplicaSet.value != ps[i].replicaSetName then [SEPARATOR] else []
  {
  }

  /** The rows after process `i`, from its node status. */
  lemma ProcessRowsAfter(ps: seq<Process>, outcomes: seq<Result<Row, JavaException>>, i: nat, rows: seq<Row>,
                         node: Result<Node, JavaException>)
    requires i < |ps| && i < |outcomes| && outcomes[i] == RowOutcome(ps[i])
    requires ProcessRows(ps, outcomes, i) == Ok(rows) && node == NodeStatus(ps[i])
    ensures node.Err? ==> ProcessRows(ps, outcomes, i + 1) == Err(node.error)
    ensures node.Ok? ==> ProcessRows(ps, outcomes, i + 1) == Ok(rows + Gap(ps, i) + [DataRow(ps[i], node.value)])
  {
    ProcessRowsNext(ps, outcomes, i, rows);
  }

  /** One more process: its failure, or the rows so far, its blank row if any, and its row. */
  lemma ProcessRowsNext(ps: seq<Process>, outcomes: seq<Result<Row, JavaException>>, i: nat, rows: seq<Row>)
    requires i < |ps| && i < |outcomes| && ProcessRows(ps, outcomes, i) == Ok(rows)
    ensures outcomes[i].Err? ==> ProcessRows(ps, outcomes, i + 1) == Err(outcomes[i].error)
    ensures outcomes[i].Ok? ==> ProcessRows(ps, outcomes, i + 1) == Ok(rows + Gap(ps, i) + [outcomes[i].value])
  {
  }

  /** While every outcome so far is a row, building the rows one process at a time gives
      the header and the layout of those rows. */
  lemma {:induction false} ProcessRowsOk(ps: seq<Process>, outcomes: seq<Result<Row, JavaException>>, rows: seq<Row>, n: nat)
    requires n <= |ps| && n <= |outcomes| && n <= |rows|
    requires forall k :: 0 <= k < n ==> outcomes[k] == Ok(rows[k])
    ensures ProcessRows(ps, outcomes, n) == Ok([HEADER] + Layout(ps, rows, n))
  {
    if n > 0 {
      ProcessRowsOk(ps, outcomes, rows, n - 1);
      var before := Layout(ps, rows, n - 1);
      assert outcomes[n - 1] == Ok(rows[n - 1]);
      assert [HEADER] + before + Gap(ps, n - 1) + [rows[n - 1]] == [HEADER] + (before + Gap(ps, n - 1) + [rows[n - 1]]);
    } else {
      assert [HEADER] + Layout(ps, rows, 0) == [HEADER];
    }
  }

  /** The first failed outcome is the outcome of building the rows, whatever follows it. */
  lemma ProcessRowsFirstError(ps: seq<Process>, outcomes: seq<Result<Row, JavaException>>, i: nat, n: nat)
    requires i < n <= |ps| && n <= |outcomes|
    requires outcomes[i].Err? && forall j :: 0 <= j < i ==> outcomes[j].Ok?
    ensures ProcessRows(ps, outcomes, n) == Err(outcomes[i].error)
  {
    var rows := seq(i, k requires 0 <= k < i => outcomes[k].value);
    ProcessRowsOk(ps, outcomes, rows, i);
    assert ProcessRows(ps, outcomes, i + 1) == Err(outcomes[i].error);
    ProcessRowsFailure(ps, outcomes, i + 1, n);
  }

  /** The loop over all processes gives the assembled rows. */
  lemma ProcessRowsAgree(ps: seq<Process>, outcomes: seq<Result<Row, JavaException>>)
    requires |outcomes| == |ps|
    ensures ProcessRows(ps, outcomes, |ps|) == Assemble(ps, outcomes)
  {
    var r := AllOk(outcomes);
    if r.Ok? {
      ProcessRowsOk(ps, outcomes, r.value, |ps|);
    } else {
      var k :| 0 <= k < |outcomes| && outcomes[k] == Err(r.error) && forall j :: 0 <= j < k ==> outcomes[j].Ok?;
      ProcessRowsFirstError(ps, outcomes, k, |ps|);
    }
  }

  /** Once a process fails, later processes change nothing. */
  lemma {:induction false} ProcessRowsFailure(ps: seq<Process>, outcomes: seq<Result<Row, JavaException>>, i: nat, n: nat)
    requires i <= n <= |ps| && n <= |outcomes| && ProcessRows(ps, outcomes, i).Err?
    ensures ProcessRows(ps, outcomes, n) == ProcessRows(ps, outcomes, i)
  {
    if i < n {
      ProcessRowsFailure(ps, outcomes, i, n - 1);
    }
  }

  // ---------------------------------------------------------------- the methods

  /** The partition loop of `getStatus`: each partition's measurements are fetched and
      reduced, and the used and free space added to `long` accumulators. */
  method SumDiskSpace(disks: seq<Disk>) returns (r: Result<DiskSpace, JavaException>)
    ensures r == DiskTotals(disks)
  {
    var diskSpaceUsed: Long := 0;
    var diskSpaceFree: Long := 0;
    ghost var partitions: seq<seq<Measurement>> := [];
    ghost var fetched := DiskMeasurements(disks);
    for j := 0 to |disks|
      invariant |partitions| == j && forall k :: 0 <= k < j ==> fetched[k] == Ok(partitions[k])
      invariant diskSpaceUsed == WrapLong(MetricSum(partitions, SPACE_USED_METRIC))
      invariant diskSpaceFree == WrapLong(MetricSum(partitions, SPACE_FREE_METRIC))
    {
      var diskDetails := disks[j].measurements;
      if diskDetails.Err? {
        AllOkFirstError(fetched, j);
        return Err(diskDetails.error);
      }
      var diskMeasurementsMap := MapMetrics(diskDetails.value);
      MetricSumStep(partitions, diskDetails.value, diskSpaceUsed, SPACE_USED_METRIC);
      MetricSumStep(partitions, diskDetails.value, diskSpaceFree, SPACE_FREE_METRIC);
      diskSpaceUsed := WrapLong(diskSpaceUsed + GetOrZero(diskMeasurementsMap, SPACE_USED_METRIC));
      diskSpaceFree := WrapLong(diskSpaceFree + GetOrZero(diskMeasurementsMap, SPACE_FREE_METRIC));
      partitions := partitions + [diskDetails.value];
    }
    AllOkAll(fetched, partitions);
    return Ok(DiskSpace(diskSpaceUsed, diskSpaceFree));
  }

  /** The requests for one process and the values read from them. */
  method FetchNode(process: Process) returns (r: Result<Node, JavaException>)
    ensures r == NodeStatus(process)
  {
    var processDetails := process.measurements;
    if processDetails.Err? {
      return Err(processDetails.error);
    }
    var measurementsMap := MapMetrics(processDetails.value);
    var connections := if CONNECTIONS_METRIC in measurementsMap then Some(measurementsMap[CONNECTIONS_METRIC]) else None;
    var dbDataStorage := GetOrZero(measurementsMap, DATA_SIZE_METRIC);
    var availableDisks := process.disks;
    if availableDisks.Err? {
      return Err(availableDisks.error);
    }
    var space := SumDiskSpace(availableDisks.value);
    if space.Err? {
      return Err(space.error);
    }
    return Ok(Node(connections, dbDataStorage, space.value));
  }

  /** One pass of the loop of `getStatus`: the requests of process `i`, then, unless one
      fails, a blank row when its replica set differs from the previous process's, and its
      row. */
  method AddProcess(processes: seq<Process>, ghost outcomes: seq<Result<Row, JavaException>>, i: nat, rows: seq<Row>,
                    previousReplicaSet: Option<string>)
    returns (r: Result<seq<Row>, JavaException>)
    requires i < |processes| && i < |outcomes| && outcomes[i] == RowOutcome(processes[i])
    requires ProcessRows(processes, outcomes, i) == Ok(rows)
    requires previousReplicaSet == if i == 0 then None else Some(processes[i - 1].replicaSetName)
    ensures r == ProcessRows(processes, outcomes, i + 1)
  {
    var process := processes[i];
    var node := FetchNode(process);
    ProcessRowsAfter(processes, outcomes, i, rows, node);
    if node.Err? {
      return Err(node.error);
    }
    var row := DataRow(process, node.value);
    GapAfter(processes, i, previousReplicaSet);
    var next := rows;
    if previousReplicaSet.Some? && previousReplicaSet.value != process.replicaSetName {
      next := next + [SEPARATOR];
    }
    assert next == rows + Gap(processes, i);
    return Ok(next + [row]);
  }

  /** The loop of `getStatus` over the processes, in order; the first failed request ends it. */
  method BuildRows(processes: seq<Process>) returns (r: Result<seq<Row>, JavaException>)
    ensures r == StatusRows(Ok(Some(processes)))
  {
    ghost var outcomes := RowOutcomes(processes);
    ProcessRowsAgree(processes, outcomes);
    var rows: seq<Row> := [HEADER];
    var previousReplicaSet: Option<string> := None;
    for i := 0 to |processes|
      invariant ProcessRows(processes, outcomes, i) == Ok(rows)
      invariant previousReplicaSet == if i == 0 then None else Some(processes[i - 1].replicaSetName)
    {
      var next := AddProcess(processes, outcomes, i, rows, previousReplicaSet);
      if next.Err? {
        ProcessRowsFailure(processes, outcomes, i + 1, |processes|);
        return next;
      }
      rows := next.value;
      previousReplicaSet := Some(processes[i].replicaSetName);
    }
    return Ok(rows);
  }

  /** `getStatus`: the header, the processes' rows when the response has `results`, and
      finally the table. */
  method GetStatus(response: ProcessesResponse) returns (r: Result<string, JavaException>)
    ensures r == StatusReport(response)
  {
    if response.Err? {
      return Err(response.error);
    }
    var rows: Result<seq<Row>, JavaException> := Ok([HEADER]);
    if response.value.Some? {
      rows := BuildRows(response.value.value);
    }
    if rows.Err? {
      return Err(rows.error);
    }
    r := ToTextTable(rows.value);
  }

  // ---------------------------------------------------------------- refresh

  const DEFAULT_REFRESH_MS: Long := 5000
  const INVALID_REFRESH_MESSAGE: string := "Invalid refresh uration specified: "

  /** How often the report is produced: once, or repeatedly with a pause in milliseconds. */
  datatype Refresh = Once | Every(sleepMs: Long)

  /** The pause for a `--refresh` value: 5 seconds without a value, else the value read as
      a whole number of seconds and multiplied by 1000 in `long` arithmetic; a value that is
      not a `long` is an IllegalArgumentException naming it. */
  function RefreshInterval(value: Option<string>): (r: Result<Long, JavaException>)
    ensures value.None? ==> r == Ok(DEFAULT_REFRESH_MS)
    ensures value.Some? && ParseLong(value.value).None? ==>
      r == Err(IllegalArgument(INVALID_REFRESH_MESSAGE + value.value))
    ensures value.Some? && ParseLong(value.value).Some? ==>
      r.Ok? && (r.value - ParseLong(value.value).value * 1000) % LONG_MODULUS == 0
  {
    match value
    case None => Ok(DEFAULT_REFRESH_MS)
    case Some(v) =>
      match ParseLong(v)
      case None => Err(IllegalArgument(INVALID_REFRESH_MESSAGE + v))
      case Some(seconds) => Ok(WrapLong(seconds * 1000))
  }

  /** A number of seconds that the interval can hold in milliseconds is taken exactly, and
      what `Long.toString` prints for it is read back. */
  lemma RefreshIntervalSeconds(seconds: Long)
    requires LONG_MIN <= seconds * 1000 <= LONG_MAX
    ensures RefreshInterval(Some(IntToString(seconds))) == Ok(seconds * 1000)
  {
    ParseLongRoundTrip(seconds);
  }

  /** `-r` decides between one report and a repeated one. */
  function RefreshPlan(cmd: CommandLine): (r: Result<Refresh, JavaException>)
    ensures !HasOption(cmd, "r") ==> r == Ok(Once)
    ensures HasOption(cmd, "r") ==>
      match RefreshInterval(GetOptionValue(cmd, "r"))
      case Err(e) => r == Err(e)
      case Ok(ms) => r == Ok(Every(ms))
  {
    if !HasOption(cmd, "r") then Ok(Once)
    else
      match RefreshInterval(GetOptionValue(cmd, "r"))
      case Err(e) => Err(e)
      case Ok(ms) => Ok(Every(ms))
  }

  /** What one pass of `_execute` shows the terminal. */
  datatype Effect = ClearScreen | Show(text: string) | Pause(ms: Long)

  const CLEAR_SCREEN: string := "\U{1B}[H\U{1B}[2J"

  /** The first pass of `_execute`: the identity, then with `-r` the interval, the screen
      clear, the report and the pause, and without it the report and a line break. The
      report is computed from `response`, the server's answers for that identity. */
  function StatusFirstPass(cmd: CommandLine, config: ConfigFile, response: ProcessesResponse): (r: Result<seq<Effect>, JavaException>)
    ensures GetIdentity(cmd, config).Err? ==> r == Err(GetIdentity(cmd, config).error)
    ensures GetIdentity(cmd, config).Ok? && RefreshPlan(cmd).Err? ==> r == Err(RefreshPlan(cmd).error)
    ensures r.Ok? <==> GetIdentity(cmd, config).Ok? && RefreshPlan(cmd).Ok? && StatusReport(response).Ok?
    ensures r.Ok? ==>
      var report := StatusReport(response).value;
      r.value == match RefreshPlan(cmd).value
                 case Once => [Show(report + "\n")]
                 case Every(ms) => [ClearScreen, Show(report), Pause(ms)]
  {
    match GetIdentity(cmd, config)
    case Err(e) => Err(e)
    case Ok(_) =>
      match RefreshPlan(cmd)
      case Err(e) => Err(e)
      case Ok(Once) =>
        (match StatusReport(response)
         case Err(e) => Err(e)
         case Ok(report) => Ok([Show(report + "\n")]))
      case Ok(Every(ms)) =>
        match StatusReport(response)
        case Err(e) => Err(e)
        case Ok(report) => Ok([ClearScreen, Show(report), Pause(ms)])
  }

  /** An unreadable `--refresh` value fails before anything is shown or requested, whatever
      the server would answer. */
  lemma InvalidRefreshFailsFirst(cmd: CommandLine, config: ConfigFile, response: ProcessesResponse, other: ProcessesResponse)
    requires GetIdentity(cmd, config).Ok? && HasOption(cmd, "r")
    requires GetOptionValue(cmd, "r").Some? && ParseLong(GetOptionValue(cmd, "r").value).None?
    ensures StatusFirstPass(cmd, config, response)
      == StatusFirstPass(cmd, config, other)
      == Err(IllegalArgument(INVALID_REFRESH_MESSAGE + GetOptionValue(cmd, "r").value))
  {
  }

  /** `-r` without a value pauses five seconds between reports. */
  lemma RefreshDefault(cmd: CommandLine)
    requires HasOption(cmd, "r") && GetOptionValue(cmd, "r").None?
    ensures RefreshPlan(cmd) == Ok(Every(5000))
  {
  }
}
