/** The loaders of railway.h that tour.cc runs on the files tsp.cc and the
    solver wrote: `readShortestPath` (railway.h:451-482), `readNode`
    (railway.h:426-449) and `readTour` (railway.h:398-424). Each takes the
    whole content of its file; a file that cannot be opened is left to the
    caller. */
module Readers {
  import opened Wrappers
  import opened Records
  import opened Text
  import opened Repositories

  /* ---------------------------------------------------------------------
     readShortestPath
     --------------------------------------------------------------------- */

  /** The first `k` entries of row `i`, entry `j` read by `entry(i, j)`,
      as `Path{i, j, next}`. */
  function RowPaths(entry: (int, int) -> Option<int>, i: int, k: nat): (r: Result<seq<Path>>)
    decreases k
  {
    if k == 0 then Ok([])
    else
      match RowPaths(entry, i, k - 1)
      case Fatal => Fatal
      case Ok(ps) =>
        match entry(i, k - 1)
        case None => Fatal
        case Some(v) => Ok(ps + [Path(i, k - 1, v)])
  }

  /** The rows `0..k-1`, each with `n` entries. */
  function PathRows(entry: (int, int) -> Option<int>, k: nat, n: nat): (r: Result<seq<Path>>)
    decreases k
  {
    if k == 0 then Ok([])
    else
      match PathRows(entry, k - 1, n)
      case Fatal => Fatal
      case Ok(ps) =>
        match RowPaths(entry, k - 1, n)
        case Fatal => Fatal
        case Ok(row) => Ok(ps + row)
  }

  /** Entry `(i, j)` of the file: `stoi` of the `j`-th comma field of the
      `i`-th word. */
  function EntryOf(lines: seq<string>): (int, int) -> Option<int> {
    (i, j) => if 0 <= i < |lines| && 0 <= j then Stoi(Field(lines[i], j)) else None
  }

  /** `readShortestPath`. The loop `while (fs) { fs >> line; ... }` stores
      every white-space separated word and then the empty string of the
      failed read, so `N` is the number of words; every row is read with
      `N` fields. */
  function ReadShortestPath(content: string): Result<seq<Path>> {
    var lines := Words(content);
    PathRows(EntryOf(lines), |lines|, |lines|)
  }

  lemma {:induction false} RowPathsSpec(entry: (int, int) -> Option<int>, i: int, k: nat)
    ensures RowPaths(entry, i, k).Ok? <==> forall j :: 0 <= j < k ==> entry(i, j).Some?
    ensures RowPaths(entry, i, k).Ok? ==>
      forall p :: p in RowPaths(entry, i, k).value ==>
        p.from == i && 0 <= p.to < k && entry(i, p.to) == Some(p.next)
    ensures RowPaths(entry, i, k).Ok? ==>
      forall j :: 0 <= j < k ==> Path(i, j, entry(i, j).value) in RowPaths(entry, i, k).value
    decreases k
  {
    if k > 0 {
      RowPathsSpec(entry, i, k - 1);
    }
  }

  /** The rows `0..k-1` are read exactly when every entry of them is
      there; they hold exactly the entries, each as `Path{i, j, next}`. */
  lemma PathRowsSpec(entry: (int, int) -> Option<int>, k: nat, n: nat)
    ensures PathRows(entry, k, n).Ok? <==> forall i, j :: 0 <= i < k && 0 <= j < n ==> entry(i, j).Some?
    ensures PathRows(entry, k, n).Ok? ==>
      forall p :: p in PathRows(entry, k, n).value ==>
        0 <= p.from < k && 0 <= p.to < n && entry(p.from, p.to) == Some(p.next)
    ensures PathRows(entry, k, n).Ok? ==>
      forall i, j :: 0 <= i < k && 0 <= j < n ==> Path(i, j, entry(i, j).value) in PathRows(entry, k, n).value
  {
    PathRowsRead(entry, k, n);
    PathRowsSound(entry, k, n);
    PathRowsComplete(entry, k, n);
  }

  lemma {:induction false} PathRowsRead(entry: (int, int) -> Option<int>, k: nat, n: nat)
    ensures PathRows(entry, k, n).Ok? <==> forall i, j :: 0 <= i < k && 0 <= j < n ==> entry(i, j).Some?
    decreases k
  {
    if k > 0 {
      PathRowsRead(entry, k - 1, n);
      RowPathsSpec(entry, k - 1, n);
    }
  }

  lemma {:induction false} PathRowsSound(entry: (int, int) -> Option<int>, k: nat, n: nat)
    ensures PathRows(entry, k, n).Ok? ==>
      forall p :: p in PathRows(entry, k, n).value ==>
        0 <= p.from < k && 0 <= p.to < n && entry(p.from, p.to) == Some(p.next)
    decreases k
  {
    if k > 0 {
      PathRowsSound(entry, k - 1, n);
      RowPathsSpec(entry, k - 1, n);
    }
  }

  lemma {:induction false} PathRowsComplete(entry: (int, int) -> Option<int>, k: nat, n: nat)
    ensures PathRows(entry, k, n).Ok? ==>
      forall i, j :: 0 <= i < k && 0 <= j < n ==>
        entry(i, j).Some? && Path(i, j, entry(i, j).value) in PathRows(entry, k, n).value
    decreases k
  {
    if k > 0 {
      PathRowsRead(entry, k, n);
      PathRowsComplete(entry, k - 1, n);
      RowPathsSpec(entry, k - 1, n);
    }
  }

  /** The paths hold every pair of `0..n-1` and only those, each with the
      value `value` gives it; `getNext` then answers that value in range
      and throws outside it. */
  lemma LookupOfPaths(paths: seq<Path>, n: nat, value: (int, int) -> int)
    requires forall p :: p in paths ==> 0 <= p.from < n && 0 <= p.to < n && p.next == value(p.from, p.to)
    requires forall i, j :: 0 <= i < n && 0 <= j < n ==> Path(i, j, value(i, j)) in paths
    ensures forall a, b :: GetNext(PathRepositoryOf(paths), a, b)
                           == if 0 <= a < n && 0 <= b < n then Some(value(a, b)) else None
  {
    forall a, b
      ensures GetNext(PathRepositoryOf(paths), a, b)
              == if 0 <= a < n && 0 <= b < n then Some(value(a, b)) else None
    {
      NextOfPaths(paths, a, b);
      if 0 <= a < n && 0 <= b < n {
        assert Path(a, b, value(a, b)) in paths;
      } else {
        assert forall i :: 0 <= i < |paths| ==> paths[i] in paths;
      }
    }
  }

  /** The `n` by `n` table read by `entry`: read iff every entry is
      there, and then `getNext(a, b)` answers entry `(a, b)` for `a` and `b`
      below `n` and throws for any other pair. */
  lemma PathTableSpec(entry: (int, int) -> Option<int>, n: nat)
    ensures PathRows(entry, n, n).Ok? <==> forall i, j :: 0 <= i < n && 0 <= j < n ==> entry(i, j).Some?
    ensures PathRows(entry, n, n).Ok? ==>
              forall a, b :: GetNext(PathRepositoryOf(PathRows(entry, n, n).value), a, b)
                             == if 0 <= a < n && 0 <= b < n then entry(a, b) else None
  {
    PathRowsSpec(entry, n, n);
    if PathRows(entry, n, n).Ok? {
      var paths := PathRows(entry, n, n).value;
      var value := (a: int, b: int) => if entry(a, b).Some? then entry(a, b).value else 0;
      LookupOfPaths(paths, n, value);
    }
  }

  /* ---------------------------------------------------------------------
     readNode
     --------------------------------------------------------------------- */

  /** What the second `getline(ss, sep, ',')` of a row leaves in `sep`.
      Both calls write the same `sep`, and a call on an exhausted stream
      fails without touching it: a row with no comma is used up by the
      first call, so `sep` still holds that first field. */
  function SecondSep(row: string): string {
    if ',' in row then Field(row, 1) else Field(row, 0)
  }

  /** One `node_id,station_cd` row: `stoi` of the first field and of what
      the second `getline` leaves in `sep`. */
  function NodeOfRow(row: string): Option<Node> {
    var id := Stoi(Field(row, 0));
    var code := Stoi(SecondSep(row));
    if id.None? || code.None? then None else Some(Node(id.value, code.value))
  }

  /** A row without a comma reads as one number used for both fields. */
  lemma NodeOfRowWithoutComma(row: string)
    requires ',' !in row
    ensures NodeOfRow(row) == match Stoi(row)
                              case None => None
                              case Some(v) => Some(Node(v, v))
  {
    if row != [] {
      assert SepIndex(row, ',') == |row|;
    }
    assert Field(row, 0) == row;
  }

  /** `f` applied to every element in order; `Fatal` at the first
      `None`. */
  function MapAll<A, B>(f: A -> Option<B>, xs: seq<A>): (r: Result<seq<B>>)
    ensures r.Ok? ==> |r.value| == |xs|
    decreases |xs|
  {
    if xs == [] then Ok([])
    else
      match MapAll(f, xs[..|xs| - 1])
      case Fatal => Fatal
      case Ok(ys) =>
        match f(xs[|xs| - 1])
        case None => Fatal
        case Some(y) => Ok(ys + [y])
  }

  lemma {:induction false} MapAllSpec<A, B>(f: A -> Option<B>, xs: seq<A>)
    ensures MapAll(f, xs).Ok? <==> forall i :: 0 <= i < |xs| ==> f(xs[i]).Some?
    ensures MapAll(f, xs).Ok? ==> forall i :: 0 <= i < |xs| ==> MapAll(f, xs).value[i] == f(xs[i]).value
    decreases |xs|
  {
    if xs != [] {
      var init := xs[..|xs| - 1];
      MapAllSpec(f, init);
      assert forall i :: 0 <= i < |init| ==> init[i] == xs[i];
    }
  }

  /** Every element maps to the element at the same place of `ys`. */
  lemma MapAllOf<A, B>(f: A -> Option<B>, xs: seq<A>, ys: seq<B>)
    requires |xs| == |ys| && forall i :: 0 <= i < |xs| ==> f(xs[i]) == Some(ys[i])
    ensures MapAll(f, xs) == Ok(ys)
  {
    MapAllSpec(f, xs);
    assert MapAll(f, xs).value == ys;
  }

  /** `readNode`: the first line is the header; every later line a node. */
  function ReadNode(content: string): Result<seq<Node>> {
    var lines := Split(content, '\n');
    MapAll(NodeOfRow, if lines == [] then [] else lines[1..])
  }

  /** Content that splits into a header line and rows reads as the rows. */
  lemma ReadNodeOfLines(content: string, header: string, rows: seq<string>)
    requires Split(content, '\n') == [header] + rows
    ensures ReadNode(content) == MapAll(NodeOfRow, rows)
  {
    assert ([header] + rows)[1..] == rows;
  }

  /* ---------------------------------------------------------------------
     readTour
     --------------------------------------------------------------------- */

  /** The lines after the header, up to the line `-1`: each holds a
      1-based node number, read by `number` (`stoi` in the source), and the
      tour keeps it 0-based. */
  function TourLines(number: string -> Option<int>, lines: seq<string>): (r: Result<seq<int>>)
    ensures r.Ok? ==> |r.value| <= |lines|
    decreases |lines|
  {
    if lines == [] || lines[0] == "-1" then Ok([])
    else
      match number(lines[0])
      case None => Fatal
      case Some(v) =>
        match TourLines(number, lines[1..])
        case Fatal => Fatal
        case Ok(rest) => Ok([v - 1] + rest)
  }

  /** `readTour`: six header lines are skipped (fewer when the file is
      shorter), then `TourLines`. */
  function ReadTour(content: string): Result<seq<int>> {
    var lines := Split(content, '\n');
    TourLines(Stoi, lines[if |lines| < 6 then |lines| else 6..])
  }

  /** The lines of a tour file as the solver writes one: a header of six
      lines, each node's 1-based number on its own line, then `-1` and
      `EOF`. */
  function TourFileLines(header: seq<string>, tour: seq<int>): seq<string> {
    header + seq(|tour|, i requires 0 <= i < |tour| => ToDecimal(tour[i] + 1)) + ["-1", "EOF"]
  }

  /** Lines that each read as one more than the tour entry, then the
      terminator: the tour comes back. */
  lemma {:induction false} TourLinesOfNumbers(number: string -> Option<int>, tour: seq<int>,
                                              numbers: seq<string>, tail: seq<string>)
    requires |numbers| == |tour|
    requires forall i :: 0 <= i < |tour| ==> numbers[i] != "-1" && number(numbers[i]) == Some(tour[i] + 1)
    requires tail != [] && tail[0] == "-1"
    ensures TourLines(number, numbers + tail) == Ok(tour)
    decreases |tour|
  {
    if tour == [] {
      assert numbers + tail == tail;
    } else {
      var lines := numbers + tail;
      assert lines[1..] == numbers[1..] + tail;
      TourLinesOfNumbers(number, tour[1..], numbers[1..], tail);
      assert [tour[0] + 1 - 1] + tour[1..] == tour;
    }
  }

  /** A written positive number is not the terminator and reads back. */
  lemma NumberLine(v: int)
    requires 0 < v <= IntMax
    ensures ToDecimal(v) != "-1" && Stoi(ToDecimal(v)) == Some(v)
  {
    StoiToDecimal(v);
    assert ToDecimal(v)[0] != '-';
  }

  /** Reading a solver's tour file gives back the tour, 0-based. */
  lemma ReadTourOfFile(header: seq<string>, tour: seq<int>)
    requires |header| == 6 && forall i :: 0 <= i < 6 ==> '\n' !in header[i]
    requires forall i :: 0 <= i < |tour| ==> 0 <= tour[i] < IntMax
    ensures ReadTour(Terminated(TourFileLines(header, tour), '\n')) == Ok(tour)
  {
    var lines := TourFileLines(header, tour);
    var numbers := seq(|tour|, i requires 0 <= i < |tour| => ToDecimal(tour[i] + 1));
    forall i | 0 <= i < |numbers|
      ensures '\n' !in numbers[i] && numbers[i] != "-1" && Stoi(numbers[i]) == Some(tour[i] + 1)
    {
      ToDecimalPlain(tour[i] + 1);
      NumberLine(tour[i] + 1);
    }
    assert forall i :: 0 <= i < |lines| ==> '\n' !in lines[i];
    SplitTerminated(lines, '\n');
    assert lines[6..] == numbers + ["-1", "EOF"];
    TourLinesOfNumbers(Stoi, tour, numbers, ["-1", "EOF"]);
  }
}
