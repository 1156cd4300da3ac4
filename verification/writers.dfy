/** The files tsp.cc writes after the searches (tsp.cc:156-211): the
    next-hop table `shortest_path.csv`, the node list `node.csv` and the
    weight section of `railway.tsp`. The round-trip lemmas read the first
    two back with the loaders of `Readers`, as tour.cc does. */
module Writers {
  import opened Wrappers
  import opened Records
  import opened Text
  import opened Repositories
  import opened Costs
  import opened Readers

  /* ---------------------------------------------------------------------
     shortest_path.csv (tsp.cc:156-174)
     --------------------------------------------------------------------- */

  /** One cell: `-1` stays `-1`; any other hop is written as the id of the
      node `getNodeById(...).value()` returns, which throws when absent. */
  function NextWord(nodes: NodeRepository, x: int): Option<string> {
    if x == NoNode then Some("-1")
    else
      match GetNodeById(nodes, x)
      case None => None
      case Some(node) => Some(ToDecimal(node.id))
  }

  /** Row `i` of the file: every cell followed by a comma. */
  function NextRow(nodes: NodeRepository, row: seq<int>): Option<string> {
    match MapAll(x => NextWord(nodes, x), row)
    case Fatal => None
    case Ok(words) => Some(Terminated(words, ','))
  }

  /** The whole file: the rows of `next`, each ended by `endl`. */
  function ShortestPathFile(nodes: NodeRepository, next: seq<seq<int>>): Result<string> {
    match MapAll(row => NextRow(nodes, row), next)
    case Fatal => Fatal
    case Ok(lines) => Ok(Terminated(lines, '\n'))
  }

  /** The hops a finished search leaves: `-1` or a node id. */
  ghost predicate HopTable(next: seq<seq<int>>, n: nat) {
    Square(next, n) && forall i, j :: 0 <= i < n && 0 <= j < n ==> next[i][j] == NoNode || 0 <= next[i][j] < n
  }

  /** Over dense ids a cell is written as the hop itself. */
  lemma NextWordIs(nodes: NodeRepository, x: int)
    requires Dense(nodes) && (x == NoNode || 0 <= x < Size(nodes))
    ensures NextWord(nodes, x) == Some(ToDecimal(x))
  {
    if x != NoNode {
      assert x in nodes.byId;
    } else {
      MinusOne();
    }
  }

  lemma MinusOne()
    ensures ToDecimal(-1) == "-1"
  {
    assert NatDigits(1) == [DigitChar(1)];
    assert DigitChar(1) == '1';
  }

  /** The words of row `row`, as written. */
  function RowWords(row: seq<int>): (ws: seq<string>)
    ensures |ws| == |row|
  {
    seq(|row|, j requires 0 <= j < |row| => ToDecimal(row[j]))
  }

  lemma NextRowIs(nodes: NodeRepository, row: seq<int>)
    requires Dense(nodes)
    requires forall j :: 0 <= j < |row| ==> row[j] == NoNode || 0 <= row[j] < Size(nodes)
    ensures NextRow(nodes, row) == Some(Terminated(RowWords(row), ','))
  {
    var f := x => NextWord(nodes, x);
    forall j | 0 <= j < |row|
      ensures f(row[j]) == Some(ToDecimal(row[j]))
    {
      NextWordIs(nodes, row[j]);
    }
    MapAllSpec(f, row);
    assert MapAll(f, row).value == RowWords(row);
  }

  /** The lines of the file for a hop table over dense ids. */
  lemma ShortestPathLines(nodes: NodeRepository, next: seq<seq<int>>, n: nat)
    requires Dense(nodes) && Size(nodes) == n && HopTable(next, n)
    ensures var lines := seq(n, i requires 0 <= i < n => Terminated(RowWords(next[i]), ','));
            ShortestPathFile(nodes, next) == Ok(Terminated(lines, '\n'))
  {
    var lines := seq(n, i requires 0 <= i < n => Terminated(RowWords(next[i]), ','));
    var f := row => NextRow(nodes, row);
    forall i | 0 <= i < n
      ensures f(next[i]) == Some(lines[i])
    {
      NextRowIs(nodes, next[i]);
    }
    MapAllSpec(f, next);
    assert MapAll(f, next).value == lines;
  }

  /** A written row is one nonempty word when it has a cell. */
  lemma RowLinePlain(row: seq<int>)
    requires row != []
    ensures Terminated(RowWords(row), ',') != [] && Plain(Terminated(RowWords(row), ','))
  {
    var ws := RowWords(row);
    forall j | 0 <= j < |ws|
      ensures Plain(ws[j]) && ',' !in ws[j]
    {
      ToDecimalPlain(row[j]);
    }
    TerminatedPlain(ws, ',');
  }

  lemma {:induction false} TerminatedPlain(ws: seq<string>, sep: char)
    requires !IsSpace(sep) && forall j :: 0 <= j < |ws| ==> Plain(ws[j])
    ensures Plain(Terminated(ws, sep))
    ensures ws != [] ==> Terminated(ws, sep) != []
    decreases |ws|
  {
    if ws != [] {
      TerminatedPlain(ws[1..], sep);
    }
  }

  /** Cell `j` of a written row reads back as the hop. */
  lemma CellReadsBack(row: seq<int>, j: int)
    requires 0 <= j < |row| && InInt32(row[j])
    ensures Stoi(Field(Terminated(RowWords(row), ','), j)) == Some(row[j])
  {
    var ws := RowWords(row);
    forall k | 0 <= k < |ws|
      ensures ',' !in ws[k]
    {
      ToDecimalPlain(row[k]);
    }
    SplitTerminated(ws, ',');
    StoiToDecimal(row[j]);
  }

  /** tsp.cc writes the table and tour.cc reads it back: the file parses,
      and `getNext(a, b)` answers `next[a][b]` for every pair of node ids
      and throws for every other pair. The ids must fit an `int`, as `N`
      does in the source. */
  lemma ShortestPathRoundTrip(nodes: NodeRepository, next: seq<seq<int>>, n: nat)
    requires Dense(nodes) && Size(nodes) == n && n <= IntMax && HopTable(next, n)
    ensures ShortestPathFile(nodes, next).Ok?
    ensures ReadShortestPath(ShortestPathFile(nodes, next).value).Ok?
    ensures forall a, b :: GetNext(PathRepositoryOf(ReadShortestPath(ShortestPathFile(nodes, next).value).value), a, b)
                           == if 0 <= a < n && 0 <= b < n then Some(next[a][b]) else None
  {
    var lines := seq(n, i requires 0 <= i < n => Terminated(RowWords(next[i]), ','));
    ShortestPathLines(nodes, next, n);
    var content := Terminated(lines, '\n');
    assert Words(content) == lines by {
      forall i | 0 <= i < n
        ensures lines[i] != [] && Plain(lines[i])
      {
        RowLinePlain(next[i]);
      }
      WordsOfTerminated(lines, '\n');
    }
    var entry := EntryOf(lines);
    forall a, b | 0 <= a < n && 0 <= b < n
      ensures entry(a, b) == Some(next[a][b])
    {
      CellReadsBack(next[a], b);
    }
    PathTableSpec(entry, n);
  }

  /* ---------------------------------------------------------------------
     node.csv (tsp.cc:176-183)
     --------------------------------------------------------------------- */

  const NodeHeader: string := "node_id,station_cd"

  /** The row of id `i`: `getNodeById(i).value()`, which throws when absent,
      as `node_id,station_cd`. */
  function NodeRow(nodes: NodeRepository, i: int): Option<string> {
    match GetNodeById(nodes, i)
    case None => None
    case Some(node) => Some(ToDecimal(node.id) + [','] + ToDecimal(node.stationCode))
  }

  /** The ids `0..n-1`. */
  function Ids(n: nat): (ids: seq<int>)
    ensures |ids| == n && forall i :: 0 <= i < n ==> ids[i] == i
  {
    seq(n, i => i)
  }

  /** The header, then one row per id below `n`. */
  function NodeFile(nodes: NodeRepository, n: nat): Result<string> {
    match MapAll(i => NodeRow(nodes, i), Ids(n))
    case Fatal => Fatal
    case Ok(rows) => Ok(Terminated([NodeHeader] + rows, '\n'))
  }

  /** Every id and station code fits an `int`. */
  ghost predicate Int32Nodes(nodes: NodeRepository) {
    forall id :: id in nodes.byId ==> InInt32(id) && InInt32(nodes.byId[id].stationCode)
  }

  /** A node's row as written. */
  function RowOf(node: Node): string {
    ToDecimal(node.id) + [','] + ToDecimal(node.stationCode)
  }

  lemma RowReadsBack(node: Node)
    requires InInt32(node.id) && InInt32(node.stationCode)
    ensures '\n' !in RowOf(node)
    ensures NodeOfRow(RowOf(node)) == Some(node)
  {
    var a := ToDecimal(node.id);
    var b := ToDecimal(node.stationCode);
    ToDecimalPlain(node.id);
    ToDecimalPlain(node.stationCode);
    assert Field(RowOf(node), 0) == a && SecondSep(RowOf(node)) == b by {
      assert RowOf(node)[|a|] == ',';
      SplitPair(a, b);
    }
    assert Stoi(a) == Some(node.id) && Stoi(b) == Some(node.stationCode) by {
      StoiToDecimal(node.id);
      StoiToDecimal(node.stationCode);
    }
    NodeOfFields(RowOf(node), node);
  }

  lemma NodeOfFields(row: string, node: Node)
    requires Stoi(Field(row, 0)) == Some(node.id) && Stoi(SecondSep(row)) == Some(node.stationCode)
    ensures NodeOfRow(row) == Some(node)
  {
  }

  /** The rows of a dense repository. */
  lemma NodeRowsAre(nodes: NodeRepository, n: nat)
    requires Dense(nodes) && Size(nodes) == n
    ensures var rows := seq(n, i requires 0 <= i < n => RowOf(nodes.byId[i]));
            NodeFile(nodes, n) == Ok(Terminated([NodeHeader] + rows, '\n'))
  {
    var rows := seq(n, i requires 0 <= i < n => RowOf(nodes.byId[i]));
    var f := i => NodeRow(nodes, i);
    forall i | 0 <= i < n
      ensures f(Ids(n)[i]) == Some(rows[i])
    {
      assert i in nodes.byId;
    }
    MapAllSpec(f, Ids(n));
    assert MapAll(f, Ids(n)).value == rows;
  }

  /** tsp.cc writes the node list and tour.cc reads it back: the file
      parses, and the repository tour.cc fills answers every lookup by id
      and by station code exactly as the one tsp.cc wrote from. */
  lemma NodeFileRoundTrip(nodes: NodeRepository, n: nat)
    requires Dense(nodes) && Size(nodes) == n && Int32Nodes(nodes)
    ensures NodeFile(nodes, n).Ok?
    ensures ReadNode(NodeFile(nodes, n).value).Ok?
    ensures var r := NodeRepositoryOf(ReadNode(NodeFile(nodes, n).value).value);
            (forall id :: GetNodeById(r, id) == GetNodeById(nodes, id))
            && (forall c :: GetNodeByStationCode(r, c) == GetNodeByStationCode(nodes, c))
  {
    var ns := seq(n, i requires 0 <= i < n => nodes.byId[i]);
    var rows := seq(n, i requires 0 <= i < n => RowOf(nodes.byId[i]));
    assert NodeFile(nodes, n) == Ok(Terminated([NodeHeader] + rows, '\n')) by {
      NodeRowsAre(nodes, n);
    }
    assert ReadNode(Terminated([NodeHeader] + rows, '\n')) == Ok(ns) by {
      NodeLinesRead(nodes, n);
    }
    RepositoryOfListed(nodes, ns, n);
  }

  /** The lines of the node file read back as the nodes in id order. */
  lemma NodeLinesRead(nodes: NodeRepository, n: nat)
    requires Dense(nodes) && Size(nodes) == n && Int32Nodes(nodes)
    ensures ReadNode(Terminated([NodeHeader] + seq(n, i requires 0 <= i < n => RowOf(nodes.byId[i])), '\n'))
            == Ok(seq(n, i requires 0 <= i < n => nodes.byId[i]))
  {
    var ns := seq(n, i requires 0 <= i < n => nodes.byId[i]);
    var rows := seq(n, i requires 0 <= i < n => RowOf(nodes.byId[i]));
    forall i | 0 <= i < n
      ensures '\n' !in rows[i] && NodeOfRow(rows[i]) == Some(ns[i])
    {
      assert i in nodes.byId;
      RowReadsBack(nodes.byId[i]);
    }
    var lines := [NodeHeader] + rows;
    assert Split(Terminated(lines, '\n'), '\n') == lines by {
      assert '\n' !in NodeHeader;
      assert forall i :: 0 <= i < |lines| ==> '\n' !in lines[i];
      SplitTerminated(lines, '\n');
    }
    ReadNodeOfLines(Terminated(lines, '\n'), NodeHeader, rows);
    MapAllOf(NodeOfRow, rows, ns);
  }

  /** Adding the dense nodes in id order rebuilds the repository's lookups. */
  lemma RepositoryOfListed(nodes: NodeRepository, ns: seq<Node>, n: nat)
    requires Dense(nodes) && Size(nodes) == n && |ns| == n
    requires forall i :: 0 <= i < n ==> i in nodes.byId && ns[i] == nodes.byId[i]
    ensures var r := NodeRepositoryOf(ns);
            (forall id :: GetNodeById(r, id) == GetNodeById(nodes, id))
            && (forall c :: GetNodeByStationCode(r, c) == GetNodeByStationCode(nodes, c))
  {
    ListedPrefix(nodes, ns, n);
    assert ns[..n] == ns;
  }

  lemma ListedPrefix(nodes: NodeRepository, ns: seq<Node>, k: nat)
    requires Dense(nodes) && k <= |ns| <= Size(nodes)
    requires forall i :: 0 <= i < |ns| ==> i in nodes.byId && ns[i] == nodes.byId[i]
    ensures var r := NodeRepositoryOf(ns[..k]);
            (forall id :: GetNodeById(r, id) == if 0 <= id < k then GetNodeById(nodes, id) else None)
            && (forall c :: GetNodeByStationCode(r, c)
                            == if c in nodes.byCode && nodes.byCode[c].id < k then Some(nodes.byCode[c]) else None)
  {
    ListedPrefixById(nodes, ns, k);
    ListedPrefixByCode(nodes, ns, k);
  }

  lemma {:induction false} ListedPrefixById(nodes: NodeRepository, ns: seq<Node>, k: nat)
    requires Dense(nodes) && k <= |ns| <= Size(nodes)
    requires forall i :: 0 <= i < |ns| ==> i in nodes.byId && ns[i] == nodes.byId[i]
    ensures forall id :: GetNodeById(NodeRepositoryOf(ns[..k]), id) == if 0 <= id < k then GetNodeById(nodes, id) else None
    decreases k
  {
    if k > 0 {
      ListedPrefixById(nodes, ns, k - 1);
      assert ns[..k][..k - 1] == ns[..k - 1];
      assert ns[k - 1].id == k - 1;
    }
  }

  lemma {:induction false} ListedPrefixByCode(nodes: NodeRepository, ns: seq<Node>, k: nat)
    requires Dense(nodes) && k <= |ns| <= Size(nodes)
    requires forall i :: 0 <= i < |ns| ==> i in nodes.byId && ns[i] == nodes.byId[i]
    ensures forall c :: GetNodeByStationCode(NodeRepositoryOf(ns[..k]), c)
                        == if c in nodes.byCode && nodes.byCode[c].id < k then Some(nodes.byCode[c]) else None
    decreases k
  {
    if k > 0 {
      ListedPrefixByCode(nodes, ns, k - 1);
      assert ns[..k][..k - 1] == ns[..k - 1];
      var node := ns[k - 1];
      assert node.id == k - 1 && node.stationCode in nodes.byCode;
    }
  }

  /* ---------------------------------------------------------------------
     The weight section of railway.tsp (tsp.cc:195-211)
     --------------------------------------------------------------------- */

  /** The value written for a cost: -1 for `DBL_MAX`, else the distance
      (`lround` of it in the source). */
  function CostValue(c: Cost): (v: int)
    ensures v >= -1
  {
    if c.Inf? then -1 else c.value
  }

  /** One cell of the section, without its trailing blank. */
  function CostWord(c: Cost): string {
    if c.Inf? then "-1" else ToDecimal(c.value)
  }

  /** A row: every cell followed by a blank; no line break. */
  function WeightRow(row: seq<Cost>): string {
    Terminated(seq(|row|, j requires 0 <= j < |row| => CostWord(row[j])), ' ')
  }

  function Concat(ss: seq<string>): string
    decreases |ss|
  {
    if ss == [] then "" else ss[0] + Concat(ss[1..])
  }

  /** The rows one after another, as `tsp_file << line` writes them. */
  function WeightSection(d: seq<seq<Cost>>): string {
    Concat(seq(|d|, i requires 0 <= i < |d| => WeightRow(d[i])))
  }

  /** The cells of all rows in row-major order. */
  function CostCells(d: seq<seq<Cost>>): seq<Cost>
    decreases |d|
  {
    if d == [] then [] else d[0] + CostCells(d[1..])
  }

  /** A cell is written as the decimal of its value; -1 marks exactly the
      pairs with no finite distance, and a value that fits an `int` reads
      back. */
  lemma CostWordSpec(c: Cost)
    ensures CostWord(c) == ToDecimal(CostValue(c))
    ensures CostValue(c) == -1 <==> c.Inf?
    ensures CostWord(c) != [] && Plain(CostWord(c))
    ensures CostValue(c) <= IntMax ==> Stoi(CostWord(c)) == Some(CostValue(c))
  {
    ToDecimalPlain(CostValue(c));
    if CostValue(c) <= IntMax {
      StoiToDecimal(CostValue(c));
    }
  }

  /** Read word by word, the section is every cell in row-major order. */
  lemma WeightSectionWords(d: seq<seq<Cost>>)
    ensures var cells := CostCells(d);
            Words(WeightSection(d)) == seq(|cells|, k requires 0 <= k < |cells| => CostWord(cells[k]))
  {
    var cells := CostCells(d);
    var words := seq(|cells|, k requires 0 <= k < |cells| => CostWord(cells[k]));
    SectionTerminated(d);
    forall k | 0 <= k < |words|
      ensures words[k] != [] && Plain(words[k])
    {
      CostWordSpec(cells[k]);
    }
    WordsOfTerminated(words, ' ');
  }

  /** The cell words of `cs`. */
  function CellWords(cs: seq<Cost>): (ws: seq<string>)
    ensures |ws| == |cs|
  {
    seq(|cs|, k requires 0 <= k < |cs| => CostWord(cs[k]))
  }

  lemma {:induction false} SectionTerminated(d: seq<seq<Cost>>)
    ensures WeightSection(d) == Terminated(CellWords(CostCells(d)), ' ')
    decreases |d|
  {
    if d != [] {
      var rows := seq(|d|, i requires 0 <= i < |d| => WeightRow(d[i]));
      assert rows[1..] == seq(|d| - 1, i requires 0 <= i < |d| - 1 => WeightRow(d[1..][i]));
      SectionTerminated(d[1..]);
      assert CellWords(CostCells(d)) == CellWords(d[0]) + CellWords(CostCells(d[1..]));
      TerminatedAppend(CellWords(d[0]), CellWords(CostCells(d[1..])), ' ');
      assert WeightRow(d[0]) == Terminated(CellWords(d[0]), ' ');
    }
  }
}
