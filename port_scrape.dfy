/**
 * The row loop and the final sort of `scrape_all`: each feed row's port spec
 * is a range "<min>-<max>" (folded for every port from min to max, in
 * ascending order), a single port number, or empty (skipped); any other spec
 * makes `int()` raise and stops the run. The map is finally listed in
 * ascending port order.
 */
module PortScrape {
  import opened Results
  import opened PortText
  import opened PortInt
  import opened PortRegistry

  /** The fields a feed row contributes: `row[0]`, `row[1]` and `row[3]`. */
  datatype FeedRow = FeedRow(service: string, portSpec: string, description: string)

  /** How the row loop reads a port spec. */
  datatype PortSpec = Span(lo: nat, hi: nat) | Single(port: int) | Blank | Malformed

  /**
   * The branch the row loop takes: the range pattern first, then an empty
   * spec, then `int(port_spec)`, which raises on anything but a (signed,
   * space-padded) integer.
   */
  function ParsePortSpec(spec: string): (r: PortSpec)
    ensures r.Blank? <==> spec == []
    ensures r.Span? <==> MatchRange(spec).Some?
    ensures r.Single? <==> spec != [] && MatchRange(spec).None? && ParseInt(spec).Some?
    ensures r.Single? ==> r.port == ParseInt(spec).value
    ensures r.Malformed? <==> spec != [] && MatchRange(spec).None? && ParseInt(spec).None?
  {
    match MatchRange(spec)
    case Some((lo, hi)) => Span(lo, hi)
    case None =>
      if spec == [] then Blank
      else match ParseInt(spec)
        case Some(n) => Single(n)
        case None => Malformed
  }

  /** A string of digits is read as that single port. */
  lemma ParseSingle(spec: string)
    requires IsDigits(spec)
    ensures ParsePortSpec(spec) == Single(DigitsValue(spec))
  {
    assert StripFinalNewline(spec) == spec;
    assert FindDash(spec) == |spec|;
    ParseIntDigits(spec);
  }

  /** A string of digits followed by one newline is still that single port: `int()` strips the newline. */
  lemma ParseSingleNewline(d: string)
    requires IsDigits(d)
    ensures ParsePortSpec(d + "\n") == Single(DigitsValue(d))
  {
    var spec := d + "\n";
    assert StripFinalNewline(spec) == d;
    assert FindDash(d) == |d|;
    assert AllSpace("") && AllSpace("\n");
    assert "" + d + "\n" == spec;
    ParseIntPadded("", d, "\n");
    ParseIntDigits(d);
  }

  /** Rendering a port in decimal and reading it back gives the port. */
  lemma ParseDecimal(port: nat)
    ensures ParsePortSpec(Decimal(port)) == Single(port)
  {
    ParseSingle(Decimal(port));
  }

  lemma FindDashAfterDigits(a: string, b: string)
    requires IsDigits(a)
    ensures FindDash(a + "-" + b) == |a|
  {
    var t := a + "-" + b;
    assert forall i :: 0 <= i < |a| ==> t[i] == a[i] && t[i] != '-';
    assert t[|a|] == '-';
  }

  /** "<digits>-<digits>", optionally followed by one newline, is read as that range. */
  lemma ParseRange(a: string, b: string, newline: bool)
    requires IsDigits(a) && IsDigits(b)
    ensures ParsePortSpec(a + "-" + b + (if newline then "\n" else "")) == Span(DigitsValue(a), DigitsValue(b))
  {
    var t := a + "-" + b;
    var spec := t + (if newline then "\n" else "");
    assert StripFinalNewline(spec) == t;
    FindDashAfterDigits(a, b);
    assert t[..|a|] == a && t[|a| + 1..] == b;
  }

  /** The number of ports in `range(lo, hi + 1)`. */
  function SpanLength(lo: nat, hi: nat): (n: nat)
    ensures lo + n == if lo <= hi then hi + 1 else lo
  {
    if lo <= hi then hi - lo + 1 else 0
  }

  /** Folding the ports `lo, lo + 1, ..., lo + n - 1`, in that order. */
  function FoldSpan(st: State, lo: nat, n: nat, service: string, description: string): State
    decreases n
  {
    if n == 0 then st
    else FoldPort(FoldSpan(st, lo, n - 1, service, description), lo + n - 1, service, description)
  }

  /** An "unassigned" range changes nothing. */
  lemma {:induction false} SpanUnassigned(st: State, lo: nat, n: nat, service: string, description: string)
    requires IsUnassigned(FirstLine(description))
    ensures FoldSpan(st, lo, n, service, description) == st
  {
    if n > 0 {
      SpanUnassigned(st, lo, n - 1, service, description);
    }
  }

  /**
   * Any other range stores the row at every port of the range and leaves
   * every port outside it as it was.
   */
  lemma SpanCoverage(st: State, lo: nat, n: nat, service: string, description: string)
    requires !IsUnassigned(FirstLine(description))
    ensures var after := FoldSpan(st, lo, n, service, description).ports;
      && (forall p :: p in after <==> p in st.ports || lo <= p < lo + n)
      && (forall p :: lo <= p < lo + n ==> after[p] == PortRow(p, service, FirstLine(description)))
      && (forall p :: p in st.ports && !(lo <= p < lo + n) ==> after[p] == st.ports[p])
  {
    forall p: int {
      SpanAt(st, lo, n, p, service, description);
    }
  }

  /** What a range leaves at one port `p`. */
  lemma {:induction false} SpanAt(st: State, lo: nat, n: nat, p: int, service: string, description: string)
    requires !IsUnassigned(FirstLine(description))
    ensures var after := FoldSpan(st, lo, n, service, description).ports;
      && (p in after <==> p in st.ports || lo <= p < lo + n)
      && (lo <= p < lo + n ==> after[p] == PortRow(p, service, FirstLine(description)))
      && (p in st.ports && !(lo <= p < lo + n) ==> after[p] == st.ports[p])
    decreases n
  {
    if n > 0 {
      var prev := FoldSpan(st, lo, n - 1, service, description);
      SpanAt(st, lo, n - 1, p, service, description);
      FoldPortWrites(prev, lo + n - 1, service, description);
      assert FoldSpan(st, lo, n, service, description) == FoldPort(prev, lo + n - 1, service, description);
    }
  }

  /** The diagnostic folding `port` would emit against `ports`, if any. */
  function PortMismatch(ports: map<int, PortRow>, port: int, line: string): seq<Mismatch> {
    if port in ports && ports[port].description != line then [Mismatch(port, ports[port].description, line)] else []
  }

  /**
   * The diagnostics a range would produce if each port were compared
   * with the map as it was before the row: one per port of the range,
   * ascending, that already has an entry with a different description.
   */
  function SpanMismatches(ports: map<int, PortRow>, lo: nat, n: nat, line: string): seq<Mismatch>
    decreases n
  {
    if n == 0 then [] else SpanMismatches(ports, lo, n - 1, line) + PortMismatch(ports, lo + n - 1, line)
  }

  /** Folding a port whose entry is the same in `prev` and in `ports` emits what `ports` would give. */
  lemma PortMismatchStep(prev: State, ports: map<int, PortRow>, port: int, service: string, description: string)
    requires !IsUnassigned(FirstLine(description))
    requires port in prev.ports <==> port in ports
    requires port in ports ==> prev.ports[port] == ports[port]
    ensures FoldPort(prev, port, service, description).log == prev.log + PortMismatch(ports, port, FirstLine(description))
  {
  }

  /**
   * Ports of one range are distinct, so folding the range compares every
   * port with the map as it was before the row.
   */
  lemma {:induction false} SpanDiagnostics(st: State, lo: nat, n: nat, service: string, description: string)
    requires !IsUnassigned(FirstLine(description))
    ensures FoldSpan(st, lo, n, service, description).log ==
      st.log + SpanMismatches(st.ports, lo, n, FirstLine(description))
  {
    if n > 0 {
      var line := FirstLine(description);
      var prev := FoldSpan(st, lo, n - 1, service, description);
      var p := lo + n - 1;
      SpanDiagnostics(st, lo, n - 1, service, description);
      SpanAt(st, lo, n - 1, p, service, description);
      PortMismatchStep(prev, st.ports, p, service, description);
      assert FoldSpan(st, lo, n, service, description) == FoldPort(prev, p, service, description);
      AppendAssociates(st.log, SpanMismatches(st.ports, lo, n - 1, line), PortMismatch(st.ports, p, line));
    }
  }

  lemma AppendAssociates(a: seq<Mismatch>, b: seq<Mismatch>, c: seq<Mismatch>)
    ensures a + (b + c) == (a + b) + c
  {
  }

  lemma {:induction false} SpanKeepsInvariant(st: State, lo: nat, n: nat, service: string, description: string)
    requires WellKeyed(st.ports) && SingleLines(st.ports)
    ensures WellKeyed(FoldSpan(st, lo, n, service, description).ports)
    ensures SingleLines(FoldSpan(st, lo, n, service, description).ports)
    ensures Grows(st, FoldSpan(st, lo, n, service, description))
  {
    if n > 0 {
      SpanKeepsInvariant(st, lo, n - 1, service, description);
      FoldPortKeepsInvariant(FoldSpan(st, lo, n - 1, service, description), lo + n - 1, service, description);
    }
  }

  /** One iteration of the row loop; `None` when `int(port_spec)` raises. */
  function FoldRow(st: State, row: FeedRow): (r: Option<State>)
    ensures r.None? <==> ParsePortSpec(row.portSpec).Malformed?
    ensures row.portSpec == [] ==> r == Some(st)
  {
    match ParsePortSpec(row.portSpec)
    case Span(lo, hi) => Some(FoldSpan(st, lo, SpanLength(lo, hi), row.service, row.description))
    case Single(port) => Some(FoldPort(st, port, row.service, row.description))
    case Blank => Some(st)
    case Malformed => None
  }

  /** A range whose minimum exceeds its maximum touches no port. */
  lemma EmptyRange(st: State, row: FeedRow)
    requires ParsePortSpec(row.portSpec).Span?
    requires ParsePortSpec(row.portSpec).lo > ParsePortSpec(row.portSpec).hi
    ensures FoldRow(st, row) == Some(st)
  {
  }

  /** The row whose port spec `int()` rejected, by its position after the header. */
  datatype Halt = Halt(row: nat, spec: string)

  /** The reducer's state after some rows, and whether the loop stopped on an exception. */
  datatype Run = Run(state: State, halted: Option<Halt>)

  /** The row loop of `scrape_all` over the rows that follow the header. */
  function FoldRows(feed: seq<FeedRow>): Run
    decreases |feed|
  {
    if feed == [] then Run(Empty, None)
    else Continue(FoldRows(feed[..|feed| - 1]), feed[|feed| - 1], |feed| - 1)
  }

  /** The loop after row number `index`: nothing more once stopped, else that row's fold or its failure. */
  function Continue(run: Run, row: FeedRow, index: nat): Run {
    if run.halted.Some? then run
    else match FoldRow(run.state, row)
      case Some(st) => Run(st, None)
      case None => Run(run.state, Some(Halt(index, row.portSpec)))
  }

  /** The run over a feed with one more row. */
  lemma FoldRowsSnoc(feed: seq<FeedRow>, row: FeedRow)
    ensures FoldRows(feed + [row]) == Continue(FoldRows(feed), row, |feed|)
  {
    assert (feed + [row])[..|feed|] == feed;
  }

  /** One more row on a run that has not stopped. */
  lemma FoldRowsStep(feed: seq<FeedRow>, i: nat, st: State)
    requires i < |feed|
    requires FoldRows(feed[..i]).halted.None?
    requires FoldRow(FoldRows(feed[..i]).state, feed[i]) == Some(st)
    ensures FoldRows(feed[..i + 1]) == Run(st, None)
  {
    var next := feed[..i + 1];
    assert next[..|next| - 1] == feed[..i] && next[|next| - 1] == feed[i];
  }

  /** Once a row has stopped the loop, later rows change nothing. */
  lemma {:induction false} HaltSticks(feed: seq<FeedRow>, i: nat)
    requires i <= |feed|
    requires FoldRows(feed[..i]).halted.Some?
    ensures FoldRows(feed) == FoldRows(feed[..i])
    decreases |feed|
  {
    if i < |feed| {
      var front := feed[..|feed| - 1];
      assert front[..i] == feed[..i];
      HaltSticks(front, i);
    } else {
      assert feed[..i] == feed;
    }
  }

  /** Strictly ascending port numbers. */
  predicate Ascending(ports: seq<int>) {
    forall i, j :: 0 <= i < j < |ports| ==> ports[i] < ports[j]
  }

  lemma SmallestOf(s: set<int>) returns (k: int)
    requires s != {}
    ensures k in s && forall j :: j in s ==> k <= j
  {
    assert (forall y :: y !in s) ==> s == {};
    var x :| x in s;
    var rest := s - {x};
    if rest == {} {
      assert s == {x};
      k := x;
    } else {
      var m := SmallestOf(rest);
      k := if x < m then x else m;
      assert forall j :: j in s ==> j == x || j in rest;
    }
  }

  lemma MinExists(s: set<int>)
    requires s != {}
    ensures exists k :: k in s && forall j :: j in s ==> k <= j
  {
    var k := SmallestOf(s);
  }

  /** The smallest port of a non-empty set. */
  function MinPort(s: set<int>): (k: int)
    requires s != {}
    ensures k in s && forall j :: j in s ==> k <= j
  {
    MinExists(s);
    var k :| k in s && forall j :: j in s ==> k <= j;
    k
  }

  /** The keys of the map in ascending order, each once. */
  function SortedPorts(s: set<int>): (r: seq<int>)
    ensures |r| == |s|
    ensures forall i :: 0 <= i < |r| ==> r[i] in s
    ensures forall p :: p in s ==> p in r
    decreases |s|
  {
    if s == {} then []
    else
      var k := MinPort(s);
      [k] + SortedPorts(s - {k})
  }

  /** The listed keys are strictly ascending. */
  lemma {:induction false} SortedPortsAscending(s: set<int>)
    ensures Ascending(SortedPorts(s))
    decreases |s|
  {
    if s != {} {
      var k := MinPort(s);
      var rest := SortedPorts(s - {k});
      SortedPortsAscending(s - {k});
      forall i | 0 <= i < |rest| ensures k < rest[i] {
        assert rest[i] in s - {k};
      }
      assert SortedPorts(s) == [k] + rest;
    }
  }

  /** An ascending sequence holding exactly the ports of `s` is `SortedPorts(s)`. */
  lemma {:induction false} SortedPortsUnique(s: set<int>, r: seq<int>)
    requires Ascending(r)
    requires forall i :: 0 <= i < |r| ==> r[i] in s
    requires forall p :: p in s ==> p in r
    ensures r == SortedPorts(s)
    decreases |s|
  {
    if s != {} {
      var k := MinPort(s);
      AscendingHead(s, r);
      AscendingTail(s, r);
      var rest := r[1..];
      SortedPortsUnique(s - {k}, rest);
      assert SortedPorts(s) == [k] + rest;
      assert r == [r[0]] + rest;
    }
  }

  /** Such a sequence starts with the smallest port of `s`. */
  lemma AscendingHead(s: set<int>, r: seq<int>)
    requires s != {}
    requires Ascending(r)
    requires forall i :: 0 <= i < |r| ==> r[i] in s
    requires forall p :: p in s ==> p in r
    ensures r != [] && r[0] == MinPort(s)
  {
    var k := MinPort(s);
    assert k in r;
    assert r[0] in s;
  }

  /** Its tail holds exactly the other ports of `s`, ascending. */
  lemma AscendingTail(s: set<int>, r: seq<int>)
    requires r != []
    requires Ascending(r)
    requires forall i :: 0 <= i < |r| ==> r[i] in s
    requires forall p :: p in s ==> p in r
    ensures var rest := r[1..];
      && Ascending(rest)
      && (forall i :: 0 <= i < |rest| ==> rest[i] in s - {r[0]})
      && (forall p :: p in s - {r[0]} ==> p in rest)
  {
    var rest := r[1..];
    forall i | 0 <= i < |rest| ensures rest[i] in s - {r[0]} {
      assert rest[i] == r[i + 1] && r[0] < r[i + 1];
    }
    forall p | p in s - {r[0]} ensures p in rest {
      var m :| 0 <= m < |r| && r[m] == p;
      assert rest[m - 1] == p;
    }
  }

  /** `[row for _, row in sorted(ports.items())]`. */
  function Finalise(ports: map<int, PortRow>): seq<PortRow> {
    var keys := SortedPorts(ports.Keys);
    seq(|keys|, i requires 0 <= i < |keys| => ports[keys[i]])
  }

  /** The port column of a list of rows. */
  function PortsOf(rows: seq<PortRow>): seq<int> {
    seq(|rows|, i requires 0 <= i < |rows| => rows[i].port)
  }

  /**
   * The final list holds exactly one row per key of a well-keyed map, each
   * the row stored at its port, in strictly ascending port order.
   */
  lemma FinaliseTable(ports: map<int, PortRow>)
    requires WellKeyed(ports)
    ensures var rows := Finalise(ports);
      && |rows| == |ports|
      && Ascending(PortsOf(rows))
      && (forall i :: 0 <= i < |rows| ==> rows[i].port in ports && ports[rows[i].port] == rows[i])
      && (forall p :: p in ports ==> p in PortsOf(rows))
  {
    var keys := SortedPorts(ports.Keys);
    var rows := Finalise(ports);
    SortedPortsAscending(ports.Keys);
    forall i | 0 <= i < |rows| ensures PortsOf(rows)[i] == keys[i] {
      assert rows[i] == ports[keys[i]];
    }
    assert PortsOf(rows) == keys;
  }

  /** Any list with those properties is the final list: the result is determined by the map. */
  lemma FinaliseUnique(ports: map<int, PortRow>, rows: seq<PortRow>)
    requires Ascending(PortsOf(rows))
    requires forall i :: 0 <= i < |rows| ==> rows[i].port in ports && ports[rows[i].port] == rows[i]
    requires forall p :: p in ports ==> p in PortsOf(rows)
    ensures rows == Finalise(ports)
  {
    var ps := PortsOf(rows);
    assert |ps| == |rows|;
    forall i | 0 <= i < |ps| ensures ps[i] in ports.Keys {
      assert ps[i] == rows[i].port;
    }
    SortedPortsUnique(ports.Keys, ps);
    var table := Finalise(ports);
    forall i | 0 <= i < |rows| ensures table[i] == rows[i] {
      assert ps[i] == rows[i].port;
    }
  }

  /** What `scrape_all` produces: the diagnostics printed and either the table or the failing row. */
  datatype Reduction = Reduction(diagnostics: seq<Mismatch>, table: Result<seq<PortRow>, Halt>)

  function Reduce(feed: seq<FeedRow>): Reduction {
    var run := FoldRows(feed);
    match run.halted
    case Some(h) => Reduction(run.state.log, Err(h))
    case None => Reduction(run.state.log, Ok(Finalise(run.state.ports)))
  }

  /** One row keeps the invariant of the map and never removes a port or a diagnostic. */
  lemma FoldRowKeepsInvariant(st: State, row: FeedRow)
    requires WellKeyed(st.ports) && SingleLines(st.ports)
    requires FoldRow(st, row).Some?
    ensures WellKeyed(FoldRow(st, row).value.ports) && SingleLines(FoldRow(st, row).value.ports)
    ensures Grows(st, FoldRow(st, row).value)
  {
    match ParsePortSpec(row.portSpec)
    case Span(lo, hi) => SpanKeepsInvariant(st, lo, SpanLength(lo, hi), row.service, row.description);
    case Single(port) => FoldPortKeepsInvariant(st, port, row.service, row.description);
    case Blank =>
  }

  /**
   * After any number of rows every row of the map sits under its own port
   * and every stored description is a single line.
   */
  lemma {:induction false} RowsKeepInvariant(feed: seq<FeedRow>)
    ensures WellKeyed(FoldRows(feed).state.ports) && SingleLines(FoldRows(feed).state.ports)
    decreases |feed|
  {
    if feed != [] {
      var front := feed[..|feed| - 1];
      RowsKeepInvariant(front);
      var run := FoldRows(front);
      if run.halted.None? && FoldRow(run.state, feed[|feed| - 1]).Some? {
        FoldRowKeepsInvariant(run.state, feed[|feed| - 1]);
      }
    }
  }

  /**
   * Later rows never take away a port or a diagnostic: an "unassigned" row
   * does not remove an entry an earlier row made.
   */
  lemma {:induction false} RowsGrow(feed: seq<FeedRow>, i: nat)
    requires i <= |feed|
    ensures Grows(FoldRows(feed[..i]).state, FoldRows(feed).state)
    decreases |feed|
  {
    if i == |feed| {
      assert feed[..i] == feed;
    } else {
      var front := feed[..|feed| - 1];
      assert front[..i] == feed[..i];
      RowsGrow(front, i);
      var run := FoldRows(front);
      if run.halted.None? && FoldRow(run.state, feed[|feed| - 1]).Some? {
        RowsKeepInvariant(front);
        FoldRowKeepsInvariant(run.state, feed[|feed| - 1]);
      }
    }
  }

  /** `int(port_spec)` raises on this row. */
  predicate Fails(row: FeedRow) {
    ParsePortSpec(row.portSpec).Malformed?
  }

  /** A run has stopped after its last row exactly when it had stopped before it or that row fails. */
  lemma FoldRowsHalted(feed: seq<FeedRow>)
    requires feed != []
    ensures FoldRows(feed).halted.None? <==>
      FoldRows(feed[..|feed| - 1]).halted.None? && !Fails(feed[|feed| - 1])
  {
  }

  /** How the last row of a feed ends a run that stops. */
  lemma FoldRowsLast(feed: seq<FeedRow>)
    requires FoldRows(feed).halted.Some?
    ensures var front := FoldRows(feed[..|feed| - 1]);
      if front.halted.Some? then FoldRows(feed) == front
      else Fails(feed[|feed| - 1]) && FoldRows(feed) == Run(front.state, Some(Halt(|feed| - 1, feed[|feed| - 1].portSpec)))
  {
  }

  /** The run completes exactly when no row's spec is malformed. */
  lemma {:induction false} CompletesIffWellFormed(feed: seq<FeedRow>)
    ensures FoldRows(feed).halted.None? <==> forall j :: 0 <= j < |feed| ==> !Fails(feed[j])
    decreases |feed|
  {
    if feed != [] {
      var front := feed[..|feed| - 1];
      CompletesIffWellFormed(front);
      FoldRowsHalted(feed);
      WellFormedFront(feed);
    }
  }

  /** No row of a feed fails exactly when no row before the last fails and the last does not. */
  lemma WellFormedFront(feed: seq<FeedRow>)
    requires feed != []
    ensures var front := feed[..|feed| - 1];
      (forall j :: 0 <= j < |feed| ==> !Fails(feed[j])) <==>
      (forall j :: 0 <= j < |front| ==> !Fails(front[j])) && !Fails(feed[|feed| - 1])
  {
    var front := feed[..|feed| - 1];
    assert forall j :: 0 <= j < |front| ==> front[j] == feed[j];
  }

  /**
   * A run that stops, stops at the first malformed row, and its state is
   * the one the rows before that row produced.
   */
  lemma HaltAtFirstMalformed(feed: seq<FeedRow>)
    requires FoldRows(feed).halted.Some?
    ensures var run := FoldRows(feed);
      var h := run.halted.value;
      && h.row < |feed| && h.spec == feed[h.row].portSpec
      && Fails(feed[h.row])
      && (forall j :: 0 <= j < h.row ==> !Fails(feed[j]))
      && run.state == FoldRows(feed[..h.row]).state
  {
    HaltPosition(feed);
    var i := FoldRows(feed).halted.value.row;
    CompletesIffWellFormed(feed[..i]);
    PrefixAgrees(feed, i);
  }

  /** Where a run stops: at a failing row, which the rows before it reach without stopping. */
  lemma {:induction false} HaltPosition(feed: seq<FeedRow>)
    requires FoldRows(feed).halted.Some?
    ensures var run := FoldRows(feed);
      var h := run.halted.value;
      && h.row < |feed| && h.spec == feed[h.row].portSpec
      && Fails(feed[h.row])
      && FoldRows(feed[..h.row]) == Run(run.state, None)
    decreases |feed|
  {
    var front := feed[..|feed| - 1];
    var run := FoldRows(front);
    FoldRowsLast(feed);
    if run.halted.Some? {
      HaltPosition(front);
      var i := run.halted.value.row;
      assert front[..i] == feed[..i] && front[i] == feed[i];
    }
  }

  /** The first `i` rows of a feed, indexed. */
  lemma PrefixAgrees(feed: seq<FeedRow>, i: nat)
    requires i <= |feed|
    ensures forall j :: 0 <= j < i ==> feed[..i][j] == feed[j]
  {
  }

  /** The ports a row's spec names: the single port, or every port of the range. */
  predicate Names(spec: PortSpec, p: int) {
    spec == Single(p) || (spec.Span? && spec.lo <= p <= spec.hi)
  }

  /**
   * A row whose description is not the placeholder leaves its own service
   * and first line at every port its spec names.
   */
  lemma FoldRowWrites(st: State, row: FeedRow, p: int)
    requires !IsUnassigned(FirstLine(row.description))
    requires Names(ParsePortSpec(row.portSpec), p)
    ensures FoldRow(st, row).Some?
    ensures p in FoldRow(st, row).value.ports
    ensures FoldRow(st, row).value.ports[p] == PortRow(p, row.service, FirstLine(row.description))
  {
    match ParsePortSpec(row.portSpec)
    case Span(lo, hi) => SpanCoverage(st, lo, SpanLength(lo, hi), row.service, row.description);
    case Single(port) => FoldPortWrites(st, port, row.service, row.description);
  }

  /**
   * Last write wins: when the final row names port `p` (by itself or
   * inside its range) with a description that is not the placeholder, the
   * map ends with that row's service and first line at `p`.
   */
  lemma LastRowWins(feed: seq<FeedRow>, p: int)
    requires |feed| > 0
    requires FoldRows(feed).halted.None?
    requires !IsUnassigned(FirstLine(feed[|feed| - 1].description))
    requires Names(ParsePortSpec(feed[|feed| - 1].portSpec), p)
    ensures var last := feed[|feed| - 1];
      p in FoldRows(feed).state.ports &&
      FoldRows(feed).state.ports[p] == PortRow(p, last.service, FirstLine(last.description))
  {
    var front := feed[..|feed| - 1];
    var last := feed[|feed| - 1];
    var st := FoldRows(front).state;
    assert FoldRows(front).halted.None? && FoldRow(st, last) == Some(FoldRows(feed).state);
    FoldRowWrites(st, last, p);
  }

  /** The row carries the placeholder or does not name `p`, so it cannot write `p`. */
  predicate Leaves(row: FeedRow, p: int) {
    IsUnassigned(FirstLine(row.description)) || !Names(ParsePortSpec(row.portSpec), p)
  }

  /**
   * A row that does not fail and leaves `p` keeps port `p` as it was:
   * present exactly when it was, with the same entry.
   */
  lemma FoldRowFrame(st: State, row: FeedRow, p: int)
    requires FoldRow(st, row).Some?
    requires Leaves(row, p)
    ensures var after := FoldRow(st, row).value.ports;
      && (p in after <==> p in st.ports)
      && (p in st.ports ==> after[p] == st.ports[p])
  {
    match ParsePortSpec(row.portSpec)
    case Span(lo, hi) =>
      if IsUnassigned(FirstLine(row.description)) {
        SpanUnassigned(st, lo, SpanLength(lo, hi), row.service, row.description);
      } else {
        SpanAt(st, lo, SpanLength(lo, hi), p, row.service, row.description);
      }
    case Single(port) =>
      if IsUnassigned(FirstLine(row.description)) {
        FoldPortUnassigned(st, port, row.service, row.description);
      } else {
        FoldPortWrites(st, port, row.service, row.description);
      }
    case Blank =>
  }

  /**
   * Last write wins in feed order: when row `i` names port `p` with a
   * description that is not the placeholder, and every later row leaves
   * `p`, a completed run ends with row `i`'s service and first line at `p`.
   */
  lemma {:induction false} LastWriteWins(feed: seq<FeedRow>, i: nat, p: int)
    requires i < |feed|
    requires FoldRows(feed).halted.None?
    requires !IsUnassigned(FirstLine(feed[i].description))
    requires Names(ParsePortSpec(feed[i].portSpec), p)
    requires forall j :: i < j < |feed| ==> Leaves(feed[j], p)
    ensures p in FoldRows(feed).state.ports
    ensures FoldRows(feed).state.ports[p] == PortRow(p, feed[i].service, FirstLine(feed[i].description))
    decreases |feed|
  {
    if i == |feed| - 1 {
      LastRowWins(feed, p);
    } else {
      var front := feed[..|feed| - 1];
      FoldRowsHalted(feed);
      assert front[i] == feed[i];
      assert forall j :: i < j < |front| ==> front[j] == feed[j];
      LastWriteWins(front, i, p);
      LastRowKeeps(feed, p);
    }
  }

  /** A last row that leaves `p`, in a completed run, keeps the entry the earlier rows left at `p`. */
  lemma LastRowKeeps(feed: seq<FeedRow>, p: int)
    requires |feed| > 0
    requires FoldRows(feed).halted.None?
    requires Leaves(feed[|feed| - 1], p)
    ensures var before := FoldRows(feed[..|feed| - 1]).state.ports;
      var after := FoldRows(feed).state.ports;
      && (p in after <==> p in before)
      && (p in before ==> after[p] == before[p])
  {
    var st := FoldRows(feed[..|feed| - 1]).state;
    var last := feed[|feed| - 1];
    assert FoldRow(st, last) == Some(FoldRows(feed).state);
    FoldRowFrame(st, last, p);
  }

  /**
   * When no row fails, the table holds one row per port of the final map,
   * exactly that port's row, in strictly ascending port order, each
   * description a single line; the diagnostics are the ones the fold emitted.
   */
  lemma ReduceTable(feed: seq<FeedRow>)
    ensures Reduce(feed).diagnostics == FoldRows(feed).state.log
    ensures Reduce(feed).table.Ok? <==> FoldRows(feed).halted.None?
    ensures Reduce(feed).table.Ok? ==>
      var ports := FoldRows(feed).state.ports;
      var rows := Reduce(feed).table.value;
      && |rows| == |ports|
      && Ascending(PortsOf(rows))
      && (forall i :: 0 <= i < |rows| ==> rows[i].port in ports && ports[rows[i].port] == rows[i])
      && (forall i :: 0 <= i < |rows| ==> NoLineBreak(rows[i].description))
      && (forall p :: p in ports ==> p in PortsOf(rows))
  {
    var ports := FoldRows(feed).state.ports;
    RowsKeepInvariant(feed);
    FinaliseTable(ports);
  }

  /** The inner loop `for port_number in range(lo, hi + 1)` of one range row. */
  method ScrapeSpan(registry: Registry, lo: nat, hi: nat, service: string, description: string)
    modifies registry
    ensures registry.Snapshot() == FoldSpan(old(registry.Snapshot()), lo, SpanLength(lo, hi), service, description)
  {
    ghost var start := registry.Snapshot();
    var port := lo;
    while port <= hi
      invariant lo <= port <= lo + SpanLength(lo, hi)
      invariant registry.Snapshot() == FoldSpan(start, lo, port - lo, service, description)
    {
      assert FoldSpan(start, lo, port + 1 - lo, service, description)
          == FoldPort(FoldSpan(start, lo, port - lo, service, description), port, service, description);
      registry.ScrapePort(port, service, description);
      port := port + 1;
    }
  }

  /** One iteration of the row loop; `ok` is false where `int(port_spec)` raises, and then nothing has changed. */
  method ScrapeRow(registry: Registry, row: FeedRow) returns (ok: bool)
    modifies registry
    ensures ok <==> FoldRow(old(registry.Snapshot()), row).Some?
    ensures ok ==> registry.Snapshot() == FoldRow(old(registry.Snapshot()), row).value
    ensures !ok ==> registry.Snapshot() == old(registry.Snapshot())
  {
    match ParsePortSpec(row.portSpec) {
      case Span(lo, hi) =>
        ScrapeSpan(registry, lo, hi, row.service, row.description);
        ok := true;
      case Single(port) =>
        registry.ScrapePort(port, row.service, row.description);
        ok := true;
      case Blank =>
        ok := true;
      case Malformed =>
        ok := false;
    }
  }

  /** The row loop and final sort of `scrape_all`, on an explicitly owned registry. */
  method ScrapeAll(feed: seq<FeedRow>) returns (r: Reduction)
    ensures r == Reduce(feed)
  {
    var registry := new Registry();
    var i := 0;
    while i < |feed|
      invariant 0 <= i <= |feed|
      invariant FoldRows(feed[..i]) == Run(registry.Snapshot(), None)
    {
      var ok := ScrapeRow(registry, feed[i]);
      if !ok {
        assert feed[..i + 1][..i] == feed[..i];
        HaltSticks(feed, i + 1);
        r := Reduction(registry.log, Err(Halt(i, feed[i].portSpec)));
        return;
      }
      FoldRowsStep(feed, i, registry.Snapshot());
      i := i + 1;
    }
    assert feed[..i] == feed;
    r := Reduction(registry.log, Ok(Finalise(registry.ports)));
  }
}
