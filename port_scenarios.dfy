/**
 * A worked feed: a single port, a two-port range, and a placeholder row
 * for a port the range already filled.
 */
module PortScenarios {
  import opened Results
  import opened PortText
  import opened PortInt
  import opened PortRegistry
  import opened PortScrape

  /**
   * Rows "80", "1812-1813" and then "1813" with an "unassigned"
   * description: the placeholder row is dropped before the map is
   * consulted, so port 1813 keeps the row the range gave it, and no
   * diagnostic is emitted.
   */
  lemma OverlapScenario(http: string, radius: string, placeholder: string)
    requires !IsUnassigned(FirstLine(http)) && !IsUnassigned(FirstLine(radius))
    requires IsUnassigned(FirstLine(placeholder))
    ensures Reduce([FeedRow("http", "80", http), FeedRow("old-radius", "1812-1813", radius), FeedRow("foo", "1813", placeholder)])
         == Reduction([], Ok([
              PortRow(80, "http", FirstLine(http)),
              PortRow(1812, "old-radius", FirstLine(radius)),
              PortRow(1813, "old-radius", FirstLine(radius))]))
  {
    var rowHttp := PortRow(80, "http", FirstLine(http));
    var row1812 := PortRow(1812, "old-radius", FirstLine(radius));
    var row1813 := PortRow(1813, "old-radius", FirstLine(radius));
    RunOfScenario(http, radius, placeholder);
    TableOfScenario(rowHttp, row1812, row1813);
  }

  /** The row loop over the scenario's feed completes with ports 80, 1812 and 1813 filled. */
  lemma RunOfScenario(http: string, radius: string, placeholder: string)
    requires !IsUnassigned(FirstLine(http)) && !IsUnassigned(FirstLine(radius))
    requires IsUnassigned(FirstLine(placeholder))
    ensures FoldRows([FeedRow("http", "80", http), FeedRow("old-radius", "1812-1813", radius), FeedRow("foo", "1813", placeholder)])
         == Run(State(map[80 := PortRow(80, "http", FirstLine(http)),
                          1812 := PortRow(1812, "old-radius", FirstLine(radius)),
                          1813 := PortRow(1813, "old-radius", FirstLine(radius))], []), None)
  {
    RowsOfScenario(http, radius, placeholder);
    var rowHttp := PortRow(80, "http", FirstLine(http));
    ThreeRows(FeedRow("http", "80", http), FeedRow("old-radius", "1812-1813", radius), FeedRow("foo", "1813", placeholder),
      State(map[80 := rowHttp], []),
      State(map[80 := rowHttp,
                1812 := PortRow(1812, "old-radius", FirstLine(radius)),
                1813 := PortRow(1813, "old-radius", FirstLine(radius))], []),
      State(map[80 := rowHttp,
                1812 := PortRow(1812, "old-radius", FirstLine(radius)),
                1813 := PortRow(1813, "old-radius", FirstLine(radius))], []));
  }

  /** A run over three rows none of which fails. */
  lemma ThreeRows(a: FeedRow, b: FeedRow, c: FeedRow, s1: State, s2: State, s3: State)
    requires FoldRow(Empty, a) == Some(s1) && FoldRow(s1, b) == Some(s2) && FoldRow(s2, c) == Some(s3)
    ensures FoldRows([a, b, c]) == Run(s3, None)
  {
    OneRow(a, s1);
    SecondRow(a, b, s1, s2);
    ThirdRow(a, b, c, s2, s3);
  }

  lemma OneRow(a: FeedRow, s1: State)
    requires FoldRow(Empty, a) == Some(s1)
    ensures FoldRows([a]) == Run(s1, None)
  {
    assert [a][..0] == [];
  }

  lemma SecondRow(a: FeedRow, b: FeedRow, s1: State, s2: State)
    requires FoldRows([a]) == Run(s1, None) && FoldRow(s1, b) == Some(s2)
    ensures FoldRows([a, b]) == Run(s2, None)
  {
    assert [a, b][..1] == [a];
  }

  lemma ThirdRow(a: FeedRow, b: FeedRow, c: FeedRow, s2: State, s3: State)
    requires FoldRows([a, b]) == Run(s2, None) && FoldRow(s2, c) == Some(s3)
    ensures FoldRows([a, b, c]) == Run(s3, None)
  {
    assert [a, b, c][..2] == [a, b];
  }

  /** Each row of the scenario, folded into the state the rows before it left. */
  lemma RowsOfScenario(http: string, radius: string, placeholder: string)
    requires !IsUnassigned(FirstLine(http)) && !IsUnassigned(FirstLine(radius))
    requires IsUnassigned(FirstLine(placeholder))
    ensures var rowHttp := PortRow(80, "http", FirstLine(http));
      var s1 := State(map[80 := rowHttp], []);
      var s2 := State(map[80 := rowHttp,
                          1812 := PortRow(1812, "old-radius", FirstLine(radius)),
                          1813 := PortRow(1813, "old-radius", FirstLine(radius))], []);
      && FoldRow(Empty, FeedRow("http", "80", http)) == Some(s1)
      && FoldRow(s1, FeedRow("old-radius", "1812-1813", radius)) == Some(s2)
      && FoldRow(s2, FeedRow("foo", "1813", placeholder)) == Some(s2)
  {
    var rowHttp := PortRow(80, "http", FirstLine(http));
    var s1 := State(map[80 := rowHttp], []);
    HttpRow(http);
    RadiusFold(s1, radius);
    PlaceholderRow(State(s1.ports[1812 := PortRow(1812, "old-radius", FirstLine(radius))]
                                 [1813 := PortRow(1813, "old-radius", FirstLine(radius))], []), placeholder);
    assert s1.ports[1812 := PortRow(1812, "old-radius", FirstLine(radius))]
                   [1813 := PortRow(1813, "old-radius", FirstLine(radius))]
        == map[80 := rowHttp,
               1812 := PortRow(1812, "old-radius", FirstLine(radius)),
               1813 := PortRow(1813, "old-radius", FirstLine(radius))];
  }

  /** The first row fills port 80. */
  lemma HttpRow(http: string)
    requires !IsUnassigned(FirstLine(http))
    ensures FoldRow(Empty, FeedRow("http", "80", http))
         == Some(State(map[80 := PortRow(80, "http", FirstLine(http))], []))
  {
    SpecOfHttp();
  }

  /** The range row, folded over a state without 1812 or 1813. */
  lemma RadiusFold(s1: State, radius: string)
    requires !IsUnassigned(FirstLine(radius))
    requires 1812 !in s1.ports && 1813 !in s1.ports
    ensures FoldRow(s1, FeedRow("old-radius", "1812-1813", radius))
         == Some(State(s1.ports[1812 := PortRow(1812, "old-radius", FirstLine(radius))]
                               [1813 := PortRow(1813, "old-radius", FirstLine(radius))], s1.log))
  {
    SpecOfRadius();
    RadiusRow(s1, radius);
  }

  /** The placeholder row changes nothing. */
  lemma PlaceholderRow(s2: State, placeholder: string)
    requires IsUnassigned(FirstLine(placeholder))
    ensures FoldRow(s2, FeedRow("foo", "1813", placeholder)) == Some(s2)
  {
    SpecOfPlaceholder();
    FoldPortUnassigned(s2, 1813, "foo", placeholder);
  }

  /** The range row fills 1812 and then 1813, each compared with an empty slot. */
  lemma RadiusRow(s1: State, radius: string)
    requires !IsUnassigned(FirstLine(radius))
    requires 1812 !in s1.ports && 1813 !in s1.ports
    ensures FoldSpan(s1, 1812, SpanLength(1812, 1813), "old-radius", radius)
         == State(s1.ports[1812 := PortRow(1812, "old-radius", FirstLine(radius))]
                          [1813 := PortRow(1813, "old-radius", FirstLine(radius))], s1.log)
  {
    var half := State(s1.ports[1812 := PortRow(1812, "old-radius", FirstLine(radius))], s1.log);
    assert FoldSpan(s1, 1812, 1, "old-radius", radius) == half;
  }

  /** Three rows at ports 80, 1812 and 1813 are listed in that order. */
  lemma TableOfScenario(a: PortRow, b: PortRow, c: PortRow)
    requires a.port == 80 && b.port == 1812 && c.port == 1813
    ensures Finalise(map[80 := a, 1812 := b, 1813 := c]) == [a, b, c]
  {
    var m := map[80 := a, 1812 := b, 1813 := c];
    var rows := [a, b, c];
    var ports := PortsOf(rows);
    assert ports == [80, 1812, 1813];
    forall i | 0 <= i < |rows| ensures rows[i].port in m && m[rows[i].port] == rows[i] {
      if i == 0 { assert rows[i] == a; } else if i == 1 { assert rows[i] == b; } else { assert rows[i] == c; }
    }
    forall p | p in m ensures p in ports {
      assert p == 80 || p == 1812 || p == 1813;
    }
    FinaliseUnique(m, rows);
  }

  lemma SpecOfHttp()
    ensures ParsePortSpec("80") == Single(80)
  {
    assert Decimal(8) == "8";
    assert Decimal(80) == "80";
    ParseDecimal(80);
  }

  lemma DecimalsOfRadius()
    ensures Decimal(1812) == "1812" && Decimal(1813) == "1813"
  {
    assert Decimal(1) == "1";
    assert Decimal(18) == "18";
    assert Decimal(181) == "181";
  }

  lemma SpecOfRadius()
    ensures ParsePortSpec("1812-1813") == Span(1812, 1813)
  {
    DecimalsOfRadius();
    assert Decimal(1812) + "-" + Decimal(1813) + "" == "1812-1813";
    ParseRange(Decimal(1812), Decimal(1813), false);
  }

  lemma SpecOfPlaceholder()
    ensures ParsePortSpec("1813") == Single(1813)
  {
    DecimalsOfRadius();
    ParseDecimal(1813);
  }

  /** `int()` skips the newline the range pattern would also allow, so "80\n" names port 80. */
  lemma SpecWithNewline()
    ensures ParsePortSpec("80\n") == Single(80)
  {
    assert Decimal(8) == "8";
    assert Decimal(80) + "\n" == "80\n";
    ParseSingleNewline(Decimal(80));
  }

  /** A leading minus sign is read by `int()`, giving a negative port. */
  lemma NegativeSpec()
    ensures ParsePortSpec("-5") == Single(-5)
  {
    assert Decimal(5) == "5";
    assert Render(-5) == "-5";
    ParseIntRender(-5);
    assert FindDash("-5") == 0;
  }

  /** Spaces inside a range defeat both the pattern and `int()`: the run stops there. */
  lemma SpacedRangeSpec()
    ensures ParsePortSpec("1812 - 1813") == Malformed
  {
    SpacedRangeNoMatch();
    SpacedRangeNoInt();
  }

  lemma SpacedRangeNoMatch()
    ensures MatchRange("1812 - 1813") == None
  {
    var t := "1812 - 1813";
    assert StripFinalNewline(t) == t;
    assert FindDash(t) == 5 by {
      assert t[0] == '1' && t[1] == '8' && t[2] == '1' && t[3] == '2' && t[4] == ' ' && t[5] == '-';
    }
    assert t[..5][4] == ' ';
  }

  lemma SpacedRangeNoInt()
    ensures ParseInt("1812 - 1813") == None
  {
    var t := "1812 - 1813";
    assert t[0] == '1' && t[4] == ' ' && t[|t| - 1] == '3';
    assert TrimStart(t) == t;
    assert TrimEnd(t) == t;
    ReadSignedRejects(t, 4);
  }

  /** An ASCII file separator before the digits is not skipped by `int()`: the run stops there. */
  lemma SeparatorSpec()
    ensures ParsePortSpec("\U{001C}80") == Malformed
  {
    var t := "\U{001C}80";
    assert StripFinalNewline(t) == t;
    assert FindDash(t) == |t| by {
      assert t[0] != '-' && t[1] != '-' && t[2] != '-';
    }
    ParseIntRejects(t, 0);
  }
}
