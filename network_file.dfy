/** The text file `Network.csv` that `SaveNetwork` writes and `LoadNetworkProcess` reads:
 *  a `#Load Network Info` block of `key,value` lines, then `#Links of Each Node` and one
 *  comma-separated row per node (`-1` for a node without links). Integers are written and
 *  read as C# `int` text; lines are separated by `\n`. */
module NetworkFile {
  import opened Topology
  import Lattices

  datatype NetworkType =
    | SimpleSquareLattice | ErdosRenyi | RegularRingGraph | SmallWorld
    | BarabasiAlbert | TriangularLattice | Honeycomb

  /** The enum member's name, as `ToString` writes it. */
  function TypeName(t: NetworkType): string
  {
    match t
    case SimpleSquareLattice => "SimpleSquareLattice"
    case ErdosRenyi => "ErdosRenyi"
    case RegularRingGraph => "RegularRingGraph"
    case SmallWorld => "SmallWorld"
    case BarabasiAlbert => "BarabasiAlbert"
    case TriangularLattice => "TriangularLattice"
    case Honeycomb => "Honeycomb"
  }

  /** `Enum.Parse`, restricted to the member names `SaveNetwork` writes; every other text
   *  is `None`, the failure of the load. */
  function ParseTypeName(s: string): (t: Option<NetworkType>)
    ensures t.Some? ==> TypeName(t.value) == s
  {
    if s == "SimpleSquareLattice" then Some(SimpleSquareLattice)
    else if s == "ErdosRenyi" then Some(ErdosRenyi)
    else if s == "RegularRingGraph" then Some(RegularRingGraph)
    else if s == "SmallWorld" then Some(SmallWorld)
    else if s == "BarabasiAlbert" then Some(BarabasiAlbert)
    else if s == "TriangularLattice" then Some(TriangularLattice)
    else if s == "Honeycomb" then Some(Honeycomb)
    else None
  }

  lemma TypeNameRoundTrip(t: NetworkType)
    ensures ParseTypeName(TypeName(t)) == Some(t)
    ensures ',' !in TypeName(t) && '\n' !in TypeName(t)
  {
    TypeNameParses(t);
    TypeNameLetters(t);
  }

  lemma TypeNameParses(t: NetworkType)
    ensures ParseTypeName(TypeName(t)) == Some(t)
  {
  }

  lemma TypeNameLetters(t: NetworkType)
    ensures ',' !in TypeName(t) && '\n' !in TypeName(t)
  {
  }

  // ------------------------------------------------------------------ integers

  const IntMin: int := -0x8000_0000
  const IntMax: int := 0x7FFF_FFFF

  predicate IsInt32(x: int)
  {
    IntMin <= x <= IntMax
  }

  predicate IsDigit(c: char)
  {
    '0' <= c <= '9'
  }

  function DigitChar(d: int): (c: char)
    requires 0 <= d < 10
    ensures IsDigit(c) && c as int - '0' as int == d
  {
    ('0' as int + d) as char
  }

  /** Decimal digits of `n` without leading zeros. */
  function NatText(n: nat): (s: string)
    ensures |s| >= 1 && forall k :: 0 <= k < |s| ==> IsDigit(s[k])
  {
    if n < 10 then [DigitChar(n)] else NatText(n / 10) + [DigitChar(n % 10)]
  }

  /** `int.ToString()`: a minus sign, then the digits of the magnitude. */
  function IntText(x: int): (s: string)
    ensures |s| >= 1 && ',' !in s && '\n' !in s
    ensures s[0] == '-' <==> x < 0
    ensures s[0] == '-' || IsDigit(s[0])
  {
    var s := if x < 0 then "-" + NatText(-x) else NatText(x);
    assert IsDigit(NatText(if x < 0 then -x else x)[0]);
    assert forall k :: 0 <= k < |s| ==> IsDigit(s[k]) || (k == 0 && s[k] == '-');
    s
  }

  predicate AllDigits(s: string)
  {
    forall k :: 0 <= k < |s| ==> IsDigit(s[k])
  }

  /** The value of a string of digits. */
  function DigitsValue(s: string): nat
    requires AllDigits(s)
  {
    if s == [] then 0
    else
      assert IsDigit(s[|s| - 1]);
      10 * DigitsValue(s[..|s| - 1]) + (s[|s| - 1] as int - '0' as int)
  }

  /** `int.Parse`: an optional sign and at least one digit; anything else, or a value outside
   *  the 32-bit range, throws, here `None`. */
  function ParseInt(s: string): (r: Option<int>)
    ensures r.Some? ==> IsInt32(r.value)
  {
    var negative := |s| > 0 && s[0] == '-';
    var digits := if |s| > 0 && (s[0] == '-' || s[0] == '+') then s[1..] else s;
    if |digits| == 0 || !AllDigits(digits) then None
    else
      var v: int := if negative then 0 - DigitsValue(digits) as int else DigitsValue(digits);
      if IsInt32(v) then Some(v) else None
  }

  lemma {:induction false} NatTextValue(n: nat)
    ensures DigitsValue(NatText(n)) == n
  {
    if n >= 10 {
      var s := NatText(n);
      assert s[..|s| - 1] == NatText(n / 10);
      NatTextValue(n / 10);
    }
  }

  /** Every 32-bit integer reads back as itself. */
  lemma IntTextRoundTrip(x: int)
    requires IsInt32(x)
    ensures ParseInt(IntText(x)) == Some(x)
  {
    var s := IntText(x);
    if x < 0 {
      assert s[1..] == NatText(-x);
      NatTextValue(-x);
    } else {
      NatTextValue(x);
      assert IsDigit(s[0]);
    }
  }

  // -------------------------------------------------------------- split and join

  /** Where `c` first occurs in `s`. */
  function FirstIndex(s: string, c: char): (i: nat)
    requires c in s
    ensures i < |s| && s[i] == c && c !in s[..i]
  {
    if s[0] == c then 0
    else
      assert s == [s[0]] + s[1..];
      var i := 1 + FirstIndex(s[1..], c);
      assert s[..i] == [s[0]] + s[1..][..i - 1];
      i
  }

  /** `string.Split(sep)`: the pieces between separators, at least one. */
  function Split(s: string, sep: char): (parts: seq<string>)
    ensures |parts| >= 1
    decreases |s|
  {
    if sep !in s then [s]
    else
      var i := FirstIndex(s, sep);
      [s[..i]] + Split(s[i + 1..], sep)
  }

  /** `string.Join(sep, parts)`. */
  function Join(parts: seq<string>, sep: char): string
  {
    if parts == [] then ""
    else if |parts| == 1 then parts[0]
    else parts[0] + [sep] + Join(parts[1..], sep)
  }

  lemma SplitCons(p: string, t: string, sep: char)
    requires sep !in p
    ensures Split(p + [sep] + t, sep) == [p] + Split(t, sep)
  {
    var s := p + [sep] + t;
    assert s[|p|] == sep;
    assert s[..|p|] == p;
    assert s[|p| + 1..] == t;
  }

  /** Splitting a join gives the pieces back when no piece contains the separator. */
  lemma {:induction false} SplitJoin(parts: seq<string>, sep: char)
    requires |parts| >= 1
    requires forall k :: 0 <= k < |parts| ==> sep !in parts[k]
    ensures Split(Join(parts, sep), sep) == parts
  {
    if |parts| > 1 {
      SplitCons(parts[0], Join(parts[1..], sep), sep);
      SplitJoin(parts[1..], sep);
    }
  }

  lemma {:induction false} JoinAppend(a: seq<string>, b: seq<string>, sep: char)
    requires |a| >= 1 && |b| >= 1
    ensures Join(a + b, sep) == Join(a, sep) + [sep] + Join(b, sep)
  {
    if |a| > 1 {
      assert (a + b)[1..] == a[1..] + b;
      JoinAppend(a[1..], b, sep);
    } else {
      assert (a + b)[1..] == b;
    }
  }

  /** `File.ReadLines`: the text cut at each `\n`, without the empty piece after a final one. */
  function ReadLines(text: string): seq<string>
  {
    var parts := Split(text, '\n');
    if parts[|parts| - 1] == "" then parts[..|parts| - 1] else parts
  }

  predicate NoNewline(lines: seq<string>)
  {
    forall k :: 0 <= k < |lines| ==> '\n' !in lines[k]
  }

  /** Lines joined by `\n` read back as themselves, with or without a final `\n`. */
  lemma ReadJoinedLines(lines: seq<string>)
    requires |lines| >= 1 && NoNewline(lines) && lines[|lines| - 1] != ""
    ensures ReadLines(Join(lines, '\n')) == lines
    ensures ReadLines(Join(lines, '\n') + "\n") == lines
  {
    ReadJoinedLinesPlain(lines);
    ReadJoinedLinesBreak(lines);
  }

  lemma ReadJoinedLinesPlain(lines: seq<string>)
    requires |lines| >= 1 && NoNewline(lines) && lines[|lines| - 1] != ""
    ensures ReadLines(Join(lines, '\n')) == lines
  {
    SplitJoin(lines, '\n');
  }

  lemma ReadJoinedLinesBreak(lines: seq<string>)
    requires |lines| >= 1 && NoNewline(lines)
    ensures ReadLines(Join(lines, '\n') + "\n") == lines
  {
    var padded := lines + [""];
    assert NoNewline(padded) by {
      assert forall k :: 0 <= k < |lines| ==> padded[k] == lines[k];
    }
    var text := Join(lines, '\n');
    JoinAppend(lines, [""], '\n');
    assert Join([""], '\n') == "";
    assert Join(padded, '\n') == text + "\n" by {
      assert text + ['\n'] + "" == text + "\n";
    }
    SplitJoin(padded, '\n');
    assert padded[..|lines|] == lines;
  }

  // -------------------------------------------------------------------- rows

  function IntTexts(row: seq<int>): (texts: seq<string>)
    ensures |texts| == |row| && forall k :: 0 <= k < |row| ==> texts[k] == IntText(row[k])
  {
    if row == [] then [] else [IntText(row[0])] + IntTexts(row[1..])
  }

  /** `Array.ConvertAll(parts, int.Parse)`: every piece must parse. */
  function ParseAll(parts: seq<string>): (r: Option<seq<int>>)
    ensures r.Some? ==> |r.value| == |parts| && forall k :: 0 <= k < |parts| ==> ParseInt(parts[k]) == Some(r.value[k])
    ensures r.None? ==> exists k :: 0 <= k < |parts| && ParseInt(parts[k]).None?
  {
    if parts == [] then Some([])
    else
      match ParseInt(parts[0])
      case None => None
      case Some(x) =>
        match ParseAll(parts[1..])
        case None => None
        case Some(xs) => Some([x] + xs)
  }

  /** One row line read back: a row whose first value is `-1` is a node without links. */
  function ParseRow(line: string): (r: Option<seq<int>>)
    ensures r.Some? && r.value != [] ==> r.value[0] != -1
  {
    match ParseAll(Split(line, ','))
    case None => None
    case Some(values) => if values[0] == -1 then Some([]) else Some(values)
  }

  /** A row as the loader expects it: `-1` when empty, else the values joined by commas. */
  function RowText(row: seq<int>): (s: string)
    ensures s != "" && '\n' !in s
  {
    if row == [] then "-1"
    else
      var s := Join(IntTexts(row), ',');
      JoinNoNewline(IntTexts(row), ',');
      s
  }

  lemma {:induction false} JoinNoNewline(parts: seq<string>, sep: char)
    requires |parts| >= 1 && sep != '\n'
    requires forall k :: 0 <= k < |parts| ==> parts[k] != "" && '\n' !in parts[k]
    ensures Join(parts, sep) != "" && '\n' !in Join(parts, sep)
  {
    if |parts| > 1 {
      JoinNoNewline(parts[1..], sep);
    }
  }

  predicate IsRow(row: seq<int>)
  {
    (forall k :: 0 <= k < |row| ==> IsInt32(row[k])) && (row == [] || row[0] != -1)
  }

  lemma {:induction false} ParseAllTexts(row: seq<int>)
    requires forall k :: 0 <= k < |row| ==> IsInt32(row[k])
    ensures ParseAll(IntTexts(row)) == Some(row)
  {
    if row != [] {
      ParseAllTexts(row[1..]);
      IntTextRoundTrip(row[0]);
      ParseAllCons(IntText(row[0]), IntTexts(row[1..]), row[0], row[1..]);
      assert row == [row[0]] + row[1..];
    }
  }

  lemma ParseAllCons(text: string, texts: seq<string>, x: int, xs: seq<int>)
    requires ParseInt(text) == Some(x) && ParseAll(texts) == Some(xs)
    ensures ParseAll([text] + texts) == Some([x] + xs)
  {
    assert ([text] + texts)[1..] == texts;
  }

  /** Any row of 32-bit values not starting with `-1` reads back as itself. */
  lemma RowRoundTrip(row: seq<int>)
    requires IsRow(row)
    ensures ParseRow(RowText(row)) == Some(row)
  {
    if row == [] {
      assert "-1" == IntText(-1);
      IntTextRoundTrip(-1);
      assert Split("-1", ',') == ["-1"];
    } else {
      SplitJoin(IntTexts(row), ',');
      ParseAllTexts(row);
    }
  }

  /** One value of a row as `SaveNetwork` writes it: followed by a comma unless it equals
   *  the row's last value. */
  function WrittenItem(item: int, last: int): string
  {
    if item != last then IntText(item) + "," else IntText(item)
  }

  /** The row loop of `SaveNetwork` as written, over the values `items`. */
  function WrittenItems(items: seq<int>, last: int): (s: string)
    ensures '\n' !in s && (items != [] ==> s != "")
  {
    if items == [] then "" else WrittenItem(items[0], last) + WrittenItems(items[1..], last)
  }

  lemma WrittenItemsStep(row: seq<int>, k: int, last: int)
    requires 0 <= k < |row|
    ensures WrittenItems(row[k..], last) == WrittenItem(row[k], last) + WrittenItems(row[k + 1..], last)
  {
    assert row[k..][1..] == row[k + 1..];
  }

  function RowTextAsWritten(row: seq<int>): (s: string)
    ensures s != "" && '\n' !in s
  {
    if row == [] then "-1" else WrittenItems(row, row[|row| - 1])
  }

  /** No value before the last position equals the last value. */
  predicate LastUnique(row: seq<int>)
  {
    forall k :: 0 <= k < |row| - 1 ==> row[k] != row[|row| - 1]
  }

  lemma {:induction false} WrittenItemsJoin(items: seq<int>, last: int)
    requires |items| >= 1 && items[|items| - 1] == last
    requires forall k :: 0 <= k < |items| - 1 ==> items[k] != last
    ensures WrittenItems(items, last) == Join(IntTexts(items), ',')
  {
    if |items| == 1 {
      assert WrittenItems(items[1..], last) == "";
    } else {
      WrittenItemsJoin(items[1..], last);
      assert IntTexts(items)[1..] == IntTexts(items[1..]);
    }
  }

  /** When the last value occurs only at the end, the row as written is the loader's row. */
  lemma RowTextAsWrittenAgrees(row: seq<int>)
    requires LastUnique(row)
    ensures RowTextAsWritten(row) == RowText(row)
  {
    if row != [] {
      WrittenItemsJoin(row, row[|row| - 1]);
    }
  }

  /** Node 0 of a 2 by 2 square lattice lists `1, 2, 1, 2`; its row is written `1,21,2`
   *  and reads back as `1, 21, 2`. */
  lemma RowTextAsWrittenLosesCommas()
    ensures Lattices.SquareLattice(2)[0] == [1, 2, 1, 2]
    ensures RowTextAsWritten([1, 2, 1, 2]) == "1,21,2"
    ensures ParseRow(RowTextAsWritten([1, 2, 1, 2])) == Some([1, 21, 2])
  {
    SquareCorner();
    CornerRowWritten();
    MergedRowRead();
  }

  lemma SquareCorner()
    ensures Lattices.SquareLattice(2)[0] == [1, 2, 1, 2]
  {
  }

  lemma CornerRowWritten()
    ensures RowTextAsWritten([1, 2, 1, 2]) == "1,21,2"
  {
    assert IntText(1) == "1" && IntText(2) == "2";
    assert WrittenItems([2], 2) == "2";
    assert WrittenItems([1, 2], 2) == "1," + "2" by {
      assert [1, 2][1..] == [2];
    }
    assert WrittenItems([2, 1, 2], 2) == "2" + "1,2" by {
      assert [2, 1, 2][1..] == [1, 2];
    }
    assert WrittenItems([1, 2, 1, 2], 2) == "1," + "21,2" by {
      assert [1, 2, 1, 2][1..] == [2, 1, 2];
    }
  }

  lemma MergedRowRead()
    ensures ParseRow("1,21,2") == Some([1, 21, 2])
  {
    MergedRowText();
    RowRoundTrip([1, 21, 2]);
  }

  lemma MergedRowText()
    ensures RowText([1, 21, 2]) == "1,21,2"
  {
    MergedRowTexts();
    MergedRowJoin();
  }

  lemma MergedRowTexts()
    ensures IntTexts([1, 21, 2]) == ["1", "21", "2"]
  {
    assert NatText(21) == NatText(2) + [DigitChar(1)];
    assert IntText(21) == "21";
    assert [1, 21, 2][1..] == [21, 2];
    assert [21, 2][1..] == [2];
  }

  lemma MergedRowJoin()
    ensures Join(["1", "21", "2"], ',') == "1,21,2"
  {
    assert ["1", "21", "2"][1..] == ["21", "2"];
    assert ["21", "2"][1..] == ["2"];
  }

  // --------------------------------------------------------------- whole file

  /** The metadata pairs `SaveNetwork` hands to `FileManager.WriteMetrics`; the two
   *  probabilities appear as the text their `double` value is written as. */
  function Metrics(t: NetworkType, n: int, erdosRenyiText: string, ringDegree: int, rewiringText: string): (ms: seq<(string, string)>)
    ensures |ms| >= 2
  {
    [("NetworkType", TypeName(t)), ("NodesCount", IntText(n))] +
    match t
    case ErdosRenyi => [("ErdosRenyiProbability", erdosRenyiText)]
    case RegularRingGraph => [("RingGraphDegree", IntText(ringDegree))]
    case SmallWorld => [("RewiringProbability", rewiringText)]
    case _ => []
  }

  function MetricLine(m: (string, string)): string
  {
    m.0 + "," + m.1
  }

  /** `WriteMetrics`: one `title,value` line per pair. */
  function MetricsText(ms: seq<(string, string)>): string
  {
    if ms == [] then "" else MetricLine(ms[0]) + "\n" + MetricsText(ms[1..])
  }

  /** `FileManager.WriteMetrics`: appends one `title,value` line per pair to the text
   *  written so far. */
  method WriteMetrics(sw: string, metrics: seq<(string, string)>) returns (written: string)
    ensures written == sw + MetricsText(metrics)
  {
    written := sw;
    for k := 0 to |metrics|
      invariant written + MetricsText(metrics[k..]) == sw + MetricsText(metrics)
    {
      assert MetricsText(metrics[k..]) == MetricLine(metrics[k]) + "\n" + MetricsText(metrics[k + 1..]) by {
        assert metrics[k..][1..] == metrics[k + 1..];
      }
      written := written + (metrics[k].0 + "," + metrics[k].1) + "\n";
    }
    assert metrics[|metrics|..] == [];
  }

  function MetricLines(ms: seq<(string, string)>): (lines: seq<string>)
    ensures |lines| == |ms| && forall k :: 0 <= k < |ms| ==> lines[k] == MetricLine(ms[k])
  {
    if ms == [] then [] else [MetricLine(ms[0])] + MetricLines(ms[1..])
  }

  /** Rows `i ..` of the links section: each row as written, a line break after every row
   *  but the last. */
  function WrittenRowsFrom(links: Links, i: nat): string
    requires i <= |links|
    decreases |links| - i
  {
    if i == |links| then ""
    else RowTextAsWritten(links[i]) + (if i != |links| - 1 then "\n" else "") + WrittenRowsFrom(links, i + 1)
  }

  const LoadHeader: string := "#Load Network Info"
  const LinksHeader: string := "#Links of Each Node"

  /** The whole text `SaveNetwork` writes. */
  function NetworkText(t: NetworkType, links: Links, erdosRenyiText: string, ringDegree: int, rewiringText: string): string
  {
    HeadSection(t, |links|, erdosRenyiText, ringDegree, rewiringText) + WrittenRowsFrom(links, 0)
  }

  /** Everything `SaveNetwork` writes before the first row. */
  function HeadSection(t: NetworkType, n: int, erdosRenyiText: string, ringDegree: int, rewiringText: string): string
  {
    LoadHeader + "\n" + "\n" + MetricsText(Metrics(t, n, erdosRenyiText, ringDegree, rewiringText)) +
    "\n" + LinksHeader + "\n"
  }

  // ------------------------------------------------------------------- loader

  predicate StartsWith(s: string, prefix: string)
  {
    |prefix| <= |s| && s[..|prefix|] == prefix
  }

  /** The settings the loader may overwrite; a probability is kept as its text. */
  datatype Settings = Settings(networkType: NetworkType, nodesCount: int, ringGraphDegree: int, rewiringText: string)

  /** The loader's loop state: its two flags, the settings read so far and the rows read. */
  datatype LoadState = LoadState(skipLines: bool, readingRows: bool, settings: Settings, rows: seq<seq<int>>)

  /** One pass of the loader's `foreach` body; `None` when `int.Parse` or `Enum.Parse` throws. */
  function LoadLine(st: LoadState, line: string): (r: Option<LoadState>)
    ensures r.Some? ==> |r.value.rows| <= |st.rows| + 1
  {
    if StartsWith(line, LoadHeader) then Some(st.(skipLines := false))
    else if StartsWith(line, LinksHeader) then Some(st.(readingRows := true))
    else if st.skipLines then Some(st)
    else if st.readingRows then
      match ParseRow(line)
      case None => None
      case Some(row) => Some(st.(rows := st.rows + [row]))
    else
      match ReadSetting(st.settings, Split(line, ','))
      case None => None
      case Some(settings) => Some(st.(settings := settings))
  }

  /** A metadata line cut at its commas: a known key with exactly one value sets that
   *  setting; anything else is skipped. */
  function ReadSetting(s: Settings, parts: seq<string>): Option<Settings>
  {
    if |parts| != 2 then Some(s)
    else if StartsWith(parts[0], "NodesCount") then
      match ParseInt(parts[1])
      case None => None
      case Some(n) => Some(s.(nodesCount := n))
    else if StartsWith(parts[0], "NetworkType") then
      match ParseTypeName(parts[1])
      case None => None
      case Some(t) => Some(s.(networkType := t))
    else if StartsWith(parts[0], "RingGraphDegree") then
      match ParseInt(parts[1])
      case None => None
      case Some(d) => Some(s.(ringGraphDegree := d))
    else if StartsWith(parts[0], "RewiringProbability") then Some(s.(rewiringText := parts[1]))
    else Some(s)
  }

  function LoadLines(st: LoadState, lines: seq<string>): Option<LoadState>
    decreases |lines|
  {
    if lines == [] then Some(st)
    else
      match LoadLine(st, lines[0])
      case None => None
      case Some(next) => LoadLines(next, lines[1..])
  }

  /** The fold over the lines from position `i` on takes one `LoadLine` step first. */
  lemma LoadLinesStep(st: LoadState, lines: seq<string>, i: int)
    requires 0 <= i < |lines|
    ensures LoadLines(st, lines[i..]) ==
              match LoadLine(st, lines[i])
              case None => None
              case Some(next) => LoadLines(next, lines[i + 1..])
  {
    assert lines[i..][0] == lines[i] && lines[i..][1..] == lines[i + 1..];
  }

  datatype Loaded = Loaded(settings: Settings, links: Links) | LoadFailed

  function StartState(s: Settings): LoadState
  {
    LoadState(true, false, s, [])
  }

  /** `LoadNetworkProcess`: fold the lines, then keep the first `NodesCount` rows; a negative
   *  count (`new int[n][]` throws) or too few rows (the list indexer throws) fail. */
  function Load(lines: seq<string>, s: Settings): (r: Loaded)
    ensures r.Loaded? ==> |r.links| == r.settings.nodesCount
  {
    match LoadLines(StartState(s), lines)
    case None => LoadFailed
    case Some(st) =>
      var n := st.settings.nodesCount;
      if n < 0 || |st.rows| < n then LoadFailed else Loaded(st.settings, st.rows[..n])
  }

  // -------------------------------------------------------------- round trip

  /** The lines of the saved text. */
  function RowLines(links: Links): (lines: seq<string>)
    ensures |lines| == |links| && forall k :: 0 <= k < |links| ==> lines[k] == RowTextAsWritten(links[k])
  {
    if links == [] then [] else [RowTextAsWritten(links[0])] + RowLines(links[1..])
  }

  /** A list whose rows are all written as the loader expects. */
  predicate Persistable(links: Links)
  {
    IsInt32(|links|) && WellWritten(links)
  }

  lemma {:induction false} WrittenRowsJoin(links: Links, i: nat)
    requires i < |links|
    ensures WrittenRowsFrom(links, i) == Join(RowLines(links)[i..], '\n')
    decreases |links| - i
  {
    var tail := RowLines(links)[i..];
    assert tail[0] == RowTextAsWritten(links[i]);
    if i < |links| - 1 {
      WrittenRowsJoin(links, i + 1);
      assert tail[1..] == RowLines(links)[i + 1..];
      assert Join(tail, '\n') == tail[0] + "\n" + Join(tail[1..], '\n');
      assert WrittenRowsFrom(links, i) == RowTextAsWritten(links[i]) + "\n" + WrittenRowsFrom(links, i + 1);
    } else {
      assert tail == [tail[0]];
      assert WrittenRowsFrom(links, i) == RowTextAsWritten(links[i]) + "" + "";
    }
  }

  lemma {:induction false} MetricsJoin(ms: seq<(string, string)>)
    requires |ms| >= 1
    ensures MetricsText(ms) == Join(MetricLines(ms), '\n') + "\n"
  {
    if |ms| > 1 {
      MetricsJoin(ms[1..]);
      assert MetricLines(ms)[1..] == MetricLines(ms[1..]);
    } else {
      assert MetricsText(ms[1..]) == "";
    }
  }

  /** The saved text, cut into lines. */
  function SavedLines(t: NetworkType, links: Links, erdosRenyiText: string, ringDegree: int, rewiringText: string): seq<string>
  {
    HeadLines(Metrics(t, |links|, erdosRenyiText, ringDegree, rewiringText)) + RowLines(links)
  }

  function HeadLines(ms: seq<(string, string)>): seq<string>
  {
    [LoadHeader, ""] + MetricLines(ms) + ["", LinksHeader]
  }

  /** The two headers and the metadata are the lines before the rows. */
  lemma HeadText(ms: seq<(string, string)>)
    requires |ms| >= 1
    ensures Join(HeadLines(ms), '\n') == LoadHeader + "\n" + "\n" + MetricsText(ms) + "\n" + LinksHeader
  {
    MetricsJoin(ms);
    FramedJoin(LoadHeader, MetricLines(ms), LinksHeader);
  }

  lemma FramedJoin(first: string, mid: seq<string>, last: string)
    requires |mid| >= 1
    ensures Join([first, ""] + mid + ["", last], '\n') == first + "\n" + "\n" + (Join(mid, '\n') + "\n") + "\n" + last
  {
    var a, c := [first, ""], ["", last];
    var m := Join(mid, '\n');
    JoinAppend(a, mid, '\n');
    JoinAppend(a + mid, c, '\n');
    assert Join(a, '\n') == first + "\n" by {
      assert a[1..] == [""];
    }
    assert Join(c, '\n') == "\n" + last by {
      assert c[1..] == [last];
    }
    var nl := "\n";
    calc {
      Join(a + mid + c, '\n');
      Join(a + mid, '\n') + nl + Join(c, '\n');
      (Join(a, '\n') + nl + m) + nl + (nl + last);
      (first + nl + nl + m) + nl + (nl + last);
      { Regroup4(first, nl, m, last); }
      first + nl + nl + (m + nl) + nl + last;
    }
  }

  /** Concatenation regrouped. */
  lemma Regroup(a: string, b: string, c: string)
    ensures (a + b) + c == a + (b + c)
  {
  }

  /** One pass of the row loop of `SaveNetwork`: writing row `i` and its separator moves
   *  the text still to write on to row `i + 1`. */
  lemma WrittenRowStep(sw: string, links: Links, i: nat, separator: string)
    requires i < |links| && separator == if i != |links| - 1 then "\n" else ""
    ensures (sw + RowTextAsWritten(links[i])) + separator + WrittenRowsFrom(links, i + 1) ==
            sw + WrittenRowsFrom(links, i)
  {
    RegroupRow(sw, RowTextAsWritten(links[i]), separator, WrittenRowsFrom(links, i + 1));
  }

  lemma RegroupRow(sw: string, row: string, separator: string, rest: string)
    ensures ((sw + row) + separator) + rest == sw + (row + separator + rest)
  {
  }

  lemma Regroup4(f: string, nl: string, m: string, l: string)
    ensures (f + nl + nl + m) + nl + (nl + l) == f + nl + nl + (m + nl) + nl + l
  {
  }

  lemma NoNewlineAppend(a: seq<string>, b: seq<string>)
    requires NoNewline(a) && NoNewline(b)
    ensures NoNewline(a + b)
  {
    assert forall k :: 0 <= k < |a + b| ==> (a + b)[k] == if k < |a| then a[k] else b[k - |a|];
  }

  lemma MetricLinesNoNewline(t: NetworkType, n: int, erdosRenyiText: string, ringDegree: int, rewiringText: string)
    requires '\n' !in erdosRenyiText && '\n' !in rewiringText
    ensures NoNewline(MetricLines(Metrics(t, n, erdosRenyiText, ringDegree, rewiringText)))
  {
    var ms := Metrics(t, n, erdosRenyiText, ringDegree, rewiringText);
    TypeNameRoundTrip(t);
    assert '\n' !in "NetworkType" && '\n' !in "NodesCount" && '\n' !in "ErdosRenyiProbability" &&
           '\n' !in "RingGraphDegree" && '\n' !in "RewiringProbability";
    forall k | 0 <= k < |ms|
      ensures '\n' !in MetricLine(ms[k])
    {
      MetricLineNoNewline(ms[k]);
    }
  }

  lemma MetricLineNoNewline(m: (string, string))
    requires '\n' !in m.0 && '\n' !in m.1
    ensures '\n' !in MetricLine(m)
  {
  }

  lemma HeadNoNewline(t: NetworkType, n: int, erdosRenyiText: string, ringDegree: int, rewiringText: string)
    requires '\n' !in erdosRenyiText && '\n' !in rewiringText
    ensures NoNewline(HeadLines(Metrics(t, n, erdosRenyiText, ringDegree, rewiringText)))
  {
    var ms := Metrics(t, n, erdosRenyiText, ringDegree, rewiringText);
    MetricLinesNoNewline(t, n, erdosRenyiText, ringDegree, rewiringText);
    assert '\n' !in LoadHeader && '\n' !in LinksHeader;
    NoNewlineAppend([LoadHeader, ""], MetricLines(ms));
    NoNewlineAppend([LoadHeader, ""] + MetricLines(ms), ["", LinksHeader]);
  }

  lemma RowLinesShape(links: Links)
    requires links != []
    ensures NoNewline(RowLines(links)) && RowLines(links)[|links| - 1] != ""
    ensures WrittenRowsFrom(links, 0) == Join(RowLines(links), '\n')
  {
    WrittenRowsJoin(links, 0);
    assert RowLines(links)[0..] == RowLines(links);
  }

  /** `File.ReadLines` on the saved text gives the header lines, the metadata lines and one
   *  line per row. */
  lemma SavedTextLines(t: NetworkType, links: Links, erdosRenyiText: string, ringDegree: int, rewiringText: string)
    requires '\n' !in erdosRenyiText && '\n' !in rewiringText
    ensures ReadLines(NetworkText(t, links, erdosRenyiText, ringDegree, rewiringText)) ==
              SavedLines(t, links, erdosRenyiText, ringDegree, rewiringText)
  {
    var ms := Metrics(t, |links|, erdosRenyiText, ringDegree, rewiringText);
    var head := HeadLines(ms);
    HeadText(ms);
    HeadNoNewline(t, |links|, erdosRenyiText, ringDegree, rewiringText);
    var text := NetworkText(t, links, erdosRenyiText, ringDegree, rewiringText);
    assert text == Join(head, '\n') + "\n" + WrittenRowsFrom(links, 0);
    if links == [] {
      assert WrittenRowsFrom(links, 0) == "";
      assert text == Join(head, '\n') + "\n";
      assert SavedLines(t, links, erdosRenyiText, ringDegree, rewiringText) == head;
      ReadJoinedLines(head);
    } else {
      var rows := RowLines(links);
      RowLinesShape(links);
      JoinAppend(head, rows, '\n');
      assert (head + rows)[|head + rows| - 1] == rows[|rows| - 1];
      assert NoNewline(head + rows);
      ReadJoinedLines(head + rows);
    }
  }

  // ---------------------------------------------------------- reading it back

  function Then(o: Option<LoadState>, lines: seq<string>): Option<LoadState>
  {
    match o
    case None => None
    case Some(st) => LoadLines(st, lines)
  }

  lemma {:induction false} LoadLinesAppend(st: LoadState, a: seq<string>, b: seq<string>)
    ensures LoadLines(st, a + b) == Then(LoadLines(st, a), b)
    decreases |a|
  {
    if a != [] {
      assert (a + b)[0] == a[0];
      assert (a + b)[1..] == a[1..] + b;
      match LoadLine(st, a[0])
      case None =>
      case Some(next) =>
        LoadLinesAppend(next, a[1..], b);
    } else {
      assert a + b == b;
    }
  }

  lemma NotPrefix(s: string, p: string, k: nat)
    requires k < |p| && (k < |s| ==> s[k] != p[k])
    ensures !StartsWith(s, p)
  {
  }

  /** A line that does not start with `#` is neither header. */
  lemma NotHeader(line: string)
    requires |line| > 0 && line[0] != '#'
    ensures !StartsWith(line, LoadHeader) && !StartsWith(line, LinksHeader)
  {
    NotPrefix(line, LoadHeader, 0);
    NotPrefix(line, LinksHeader, 0);
  }

  lemma MetricParts(title: string, value: string)
    requires ',' !in title
    ensures Split(MetricLine((title, value)), ',') == [title] + Split(value, ',')
    ensures ',' !in value ==> Split(MetricLine((title, value)), ',') == [title, value]
    ensures ',' in value ==> |Split(MetricLine((title, value)), ',')| > 2
  {
    assert MetricLine((title, value)) == title + [','] + value;
    SplitCons(title, value, ',');
  }

  /** A line other than the headers, the data rows and the four keys leaves the state as it is. */
  lemma BlankLineLoad(st: LoadState)
    requires !st.skipLines && !st.readingRows
    ensures LoadLine(st, "") == Some(st)
  {
    NotPrefix("", LoadHeader, 0);
    NotPrefix("", LinksHeader, 0);
    assert Split("", ',') == [""];
  }

  lemma TypeLineLoad(st: LoadState, t: NetworkType)
    requires !st.skipLines && !st.readingRows
    ensures LoadLine(st, MetricLine(("NetworkType", TypeName(t)))) == Some(st.(settings := st.settings.(networkType := t)))
  {
    var line := MetricLine(("NetworkType", TypeName(t)));
    TypeNameRoundTrip(t);
    NotHeader(line);
    MetricParts("NetworkType", TypeName(t));
    NotPrefix("NetworkType", "NodesCount", 1);
  }

  lemma CountLineLoad(st: LoadState, n: int)
    requires !st.skipLines && !st.readingRows && IsInt32(n)
    ensures LoadLine(st, MetricLine(("NodesCount", IntText(n)))) == Some(st.(settings := st.settings.(nodesCount := n)))
  {
    var line := MetricLine(("NodesCount", IntText(n)));
    NotHeader(line);
    MetricParts("NodesCount", IntText(n));
    IntTextRoundTrip(n);
  }

  lemma ProbabilityLineLoad(st: LoadState, text: string)
    requires !st.skipLines && !st.readingRows
    ensures LoadLine(st, MetricLine(("ErdosRenyiProbability", text))) == Some(st)
  {
    var line := MetricLine(("ErdosRenyiProbability", text));
    NotHeader(line);
    MetricParts("ErdosRenyiProbability", text);
    NotPrefix("ErdosRenyiProbability", "NodesCount", 0);
    NotPrefix("ErdosRenyiProbability", "NetworkType", 0);
    NotPrefix("ErdosRenyiProbability", "RingGraphDegree", 0);
    NotPrefix("ErdosRenyiProbability", "RewiringProbability", 0);
  }

  lemma DegreeLineLoad(st: LoadState, d: int)
    requires !st.skipLines && !st.readingRows && IsInt32(d)
    ensures LoadLine(st, MetricLine(("RingGraphDegree", IntText(d)))) == Some(st.(settings := st.settings.(ringGraphDegree := d)))
  {
    var line := MetricLine(("RingGraphDegree", IntText(d)));
    NotHeader(line);
    MetricParts("RingGraphDegree", IntText(d));
    NotPrefix("RingGraphDegree", "NodesCount", 0);
    NotPrefix("RingGraphDegree", "NetworkType", 0);
    IntTextRoundTrip(d);
  }

  lemma RewiringLineLoad(st: LoadState, text: string)
    requires !st.skipLines && !st.readingRows
    ensures LoadLine(st, MetricLine(("RewiringProbability", text))) ==
              Some(if ',' in text then st else st.(settings := st.settings.(rewiringText := text)))
  {
    var line := MetricLine(("RewiringProbability", text));
    NotHeader(line);
    MetricParts("RewiringProbability", text);
    NotPrefix("RewiringProbability", "NodesCount", 0);
    NotPrefix("RewiringProbability", "NetworkType", 0);
    NotPrefix("RewiringProbability", "RingGraphDegree", 1);
  }

  /** The settings a saved file restores over `s`: the type and the node count always, the
   *  ring degree for a regular ring, and the rewiring text for a small world when it holds no
   *  comma (with a comma the line has three parts and is skipped). */
  function Restored(s: Settings, t: NetworkType, n: int, ringDegree: int, rewiringText: string): Settings
  {
    Settings(t, n,
             if t == RegularRingGraph then ringDegree else s.ringGraphDegree,
             if t == SmallWorld && ',' !in rewiringText then rewiringText else s.rewiringText)
  }

  lemma LoadCons(st: LoadState, line: string, rest: seq<string>, next: LoadState)
    requires LoadLine(st, line) == Some(next)
    ensures LoadLines(st, [line] + rest) == LoadLines(next, rest)
  {
    assert ([line] + rest)[0] == line;
    assert ([line] + rest)[1..] == rest;
  }

  lemma MetricLinesLoad(st: LoadState, t: NetworkType, n: int, erdosRenyiText: string, ringDegree: int, rewiringText: string)
    requires !st.skipLines && !st.readingRows && IsInt32(n) && IsInt32(ringDegree)
    ensures LoadLines(st, MetricLines(Metrics(t, n, erdosRenyiText, ringDegree, rewiringText))) ==
              Some(st.(settings := Restored(st.settings, t, n, ringDegree, rewiringText)))
  {
    var ms := Metrics(t, n, erdosRenyiText, ringDegree, rewiringText);
    var l0 := MetricLine(("NetworkType", TypeName(t)));
    var l1 := MetricLine(("NodesCount", IntText(n)));
    var extra := MetricLines(ms[2..]);
    assert MetricLines(ms) == [l0] + ([l1] + extra) by {
      assert ms[1..][1..] == ms[2..];
    }
    var st1 := st.(settings := st.settings.(networkType := t));
    var st2 := st1.(settings := st1.settings.(nodesCount := n));
    TypeLineLoad(st, t);
    LoadCons(st, l0, [l1] + extra, st1);
    CountLineLoad(st1, n);
    LoadCons(st1, l1, extra, st2);
    match t
    case ErdosRenyi =>
      ProbabilityLineLoad(st2, erdosRenyiText);
      LoadCons(st2, MetricLine(("ErdosRenyiProbability", erdosRenyiText)), [], st2);
      assert extra == [MetricLine(("ErdosRenyiProbability", erdosRenyiText))] + [];
    case RegularRingGraph =>
      DegreeLineLoad(st2, ringDegree);
      var st3 := st2.(settings := st2.settings.(ringGraphDegree := ringDegree));
      LoadCons(st2, MetricLine(("RingGraphDegree", IntText(ringDegree))), [], st3);
      assert extra == [MetricLine(("RingGraphDegree", IntText(ringDegree)))] + [];
    case SmallWorld =>
      RewiringLineLoad(st2, rewiringText);
      var st3 := if ',' in rewiringText then st2 else st2.(settings := st2.settings.(rewiringText := rewiringText));
      LoadCons(st2, MetricLine(("RewiringProbability", rewiringText)), [], st3);
      assert extra == [MetricLine(("RewiringProbability", rewiringText))] + [];
    case _ =>
      assert extra == [];
  }

  lemma JoinFirst(parts: seq<string>, sep: char)
    requires |parts| >= 1 && parts[0] != ""
    ensures Join(parts, sep) != "" && Join(parts, sep)[0] == parts[0][0]
  {
  }

  lemma RowLineLoad(st: LoadState, row: seq<int>)
    requires !st.skipLines && st.readingRows && IsRow(row) && LastUnique(row)
    ensures LoadLine(st, RowTextAsWritten(row)) == Some(st.(rows := st.rows + [row]))
  {
    RowTextAsWrittenAgrees(row);
    RowRoundTrip(row);
    if row != [] {
      JoinFirst(IntTexts(row), ',');
    }
    NotHeader(RowText(row));
  }

  lemma RowStepLoad(st: LoadState, row: seq<int>, rest: seq<string>)
    requires !st.skipLines && st.readingRows && IsRow(row) && LastUnique(row)
    ensures LoadLines(st, [RowTextAsWritten(row)] + rest) == LoadLines(st.(rows := st.rows + [row]), rest)
  {
    RowLineLoad(st, row);
    LoadCons(st, RowTextAsWritten(row), rest, st.(rows := st.rows + [row]));
  }

  predicate WellWritten(links: Links)
  {
    forall v :: 0 <= v < |links| ==> IsRow(links[v]) && LastUnique(links[v])
  }

  lemma {:induction false} RowLinesLoad(st: LoadState, links: Links)
    requires !st.skipLines && st.readingRows && WellWritten(links)
    ensures LoadLines(st, RowLines(links)) == Some(st.(rows := st.rows + links))
  {
    RowsLoad(st, RowLines(links), links);
  }

  lemma {:induction false} RowsLoad(st: LoadState, lines: seq<string>, links: Links)
    requires !st.skipLines && st.readingRows && WellWritten(links)
    requires |lines| == |links| && forall k :: 0 <= k < |links| ==> lines[k] == RowTextAsWritten(links[k])
    ensures LoadLines(st, lines) == Some(st.(rows := st.rows + links))
    decreases |links|
  {
    if links == [] {
      assert st.rows + links == st.rows;
    } else {
      var next := st.(rows := st.rows + [links[0]]);
      var rest := lines[1..];
      assert lines == [RowTextAsWritten(links[0])] + rest;
      RowStepLoad(st, links[0], rest);
      assert WellWritten(links[1..]) by {
        assert forall v :: 0 <= v < |links| - 1 ==> links[1..][v] == links[v + 1];
      }
      assert forall k :: 0 <= k < |links| - 1 ==> rest[k] == RowTextAsWritten(links[1..][k]) by {
        assert forall k :: 0 <= k < |links| - 1 ==> rest[k] == lines[k + 1] && links[1..][k] == links[k + 1];
      }
      RowsLoad(next, rest, links[1..]);
      AppendFirst(st.rows, links);
    }
  }

  lemma AppendFirst<T>(a: seq<T>, b: seq<T>)
    requires b != []
    ensures (a + [b[0]]) + b[1..] == a + b
  {
    assert b == [b[0]] + b[1..];
  }

  lemma HeadLinesLoad(s: Settings, t: NetworkType, n: int, erdosRenyiText: string, ringDegree: int, rewiringText: string)
    requires IsInt32(n) && IsInt32(ringDegree)
    ensures LoadLines(StartState(s), HeadLines(Metrics(t, n, erdosRenyiText, ringDegree, rewiringText))) ==
              Some(LoadState(false, true, Restored(s, t, n, ringDegree, rewiringText), []))
  {
    var ms := Metrics(t, n, erdosRenyiText, ringDegree, rewiringText);
    var metrics := MetricLines(ms);
    var st1 := LoadState(false, false, s, []);
    var st2 := st1.(settings := Restored(s, t, n, ringDegree, rewiringText));
    var st3 := st2.(readingRows := true);
    assert HeadLines(ms) == [LoadHeader] + ([""] + (metrics + ([""] + ([LinksHeader] + []))));
    assert StartsWith(LoadHeader, LoadHeader);
    LoadCons(StartState(s), LoadHeader, [""] + (metrics + ([""] + ([LinksHeader] + []))), st1);
    BlankLineLoad(st1);
    LoadCons(st1, "", metrics + ([""] + ([LinksHeader] + [])), st1);
    MetricLinesLoad(st1, t, n, erdosRenyiText, ringDegree, rewiringText);
    LoadLinesAppend(st1, metrics, [""] + ([LinksHeader] + []));
    BlankLineLoad(st2);
    LoadCons(st2, "", [LinksHeader] + [], st2);
    NotPrefix(LinksHeader, LoadHeader, 2);
    assert StartsWith(LinksHeader, LinksHeader);
    LoadCons(st2, LinksHeader, [], st3);
  }

  /** Saving a network and loading the file back restores its lists, its type and its node
   *  count, for lists of 32-bit values in which no row repeats its last value earlier. */
  lemma SaveLoadRoundTrip(s: Settings, t: NetworkType, links: Links, erdosRenyiText: string, ringDegree: int, rewiringText: string)
    requires Persistable(links) && IsInt32(ringDegree)
    requires '\n' !in erdosRenyiText && '\n' !in rewiringText
    ensures Load(ReadLines(NetworkText(t, links, erdosRenyiText, ringDegree, rewiringText)), s) ==
              Loaded(Restored(s, t, |links|, ringDegree, rewiringText), links)
  {
    SavedTextLines(t, links, erdosRenyiText, ringDegree, rewiringText);
    SavedLinesLoad(s, t, links, erdosRenyiText, ringDegree, rewiringText);
    assert links[..|links|] == links;
  }

  /** The saved lines load into reading-rows state holding exactly the saved lists. */
  lemma SavedLinesLoad(s: Settings, t: NetworkType, links: Links, erdosRenyiText: string, ringDegree: int, rewiringText: string)
    requires Persistable(links) && IsInt32(ringDegree)
    ensures LoadLines(StartState(s), SavedLines(t, links, erdosRenyiText, ringDegree, rewiringText)) ==
              Some(LoadState(false, true, Restored(s, t, |links|, ringDegree, rewiringText), links))
  {
    var n := |links|;
    var head := HeadLines(Metrics(t, n, erdosRenyiText, ringDegree, rewiringText));
    HeadLinesLoad(s, t, n, erdosRenyiText, ringDegree, rewiringText);
    var st := LoadState(false, true, Restored(s, t, n, ringDegree, rewiringText), []);
    RowLinesLoad(st, links);
    LoadLinesAppend(StartState(s), head, RowLines(links));
    assert [] + links == links;
  }

  /** Every simple network with a 32-bit node count is saved in a form that loads back:
   *  ids fit `int`, none is `-1`, and no row repeats a value. */
  lemma SimplePersistable(links: Links)
    requires Simple(links) && IsInt32(|links|)
    ensures Persistable(links)
  {
    forall v | 0 <= v < |links|
      ensures IsRow(links[v]) && LastUnique(links[v])
    {
      assert forall k :: 0 <= k < |links[v]| ==> 0 <= links[v][k] < |links|;
      assert forall k :: 0 <= k < |links[v]| - 1 ==> links[v][k] != links[v][|links[v]| - 1];
    }
  }
}
