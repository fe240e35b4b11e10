/** The fixed-width text reports: save_to_file (exe.py) and export_txt (exe_gui.py).
    Each column is as wide as its header or its longest cell, whichever is longer;
    cells are left-justified to that width and joined by " | ". */
module Report {
  import opened Text
  import opened Wrappers
  import opened Calculator

  /** The columns save_to_file writes, in order (no 'Broadcast' column). */
  const TableHeaders: seq<string> := [
    "Nome Host", "IP", "Máscara", "IP Rede", "Gateway", "IP Binario",
    "Mascara Binaria", "Binario de Rede", "Numero de Sub-Redes", "Intervalo de Subredes",
    "Total de IPs", "Hosts Utilizaveis"]

  /** The keys of the dict process_network_entry builds, in insertion order. */
  const EntryKeys: seq<string> := [
    "Nome Host", "IP", "Máscara", "IP Rede", "Gateway", "Broadcast", "IP Binario",
    "Mascara Binaria", "Binario de Rede", "Numero de Sub-Redes", "Intervalo de Subredes",
    "Total de IPs", "Hosts Utilizaveis"]

  /** list(record.keys()): the calculator's keys, then 'Roteador' once the GUI has set it. */
  function Keys(e: Entry): (keys: seq<string>)
    ensures |keys| == if e.router.Some? then 14 else 13
    ensures keys[..13] == EntryKeys
  {
    EntryKeys + (if e.router.Some? then ["Roteador"] else [])
  }

  /** str(record.get(key, '')). */
  function Cell(e: Entry, key: string): string
  {
    if key == "Nome Host" then e.hostName
    else if key == "IP" then e.ip
    else if key == "Máscara" then e.mask
    else if key == "IP Rede" then e.networkIp
    else if key == "Gateway" then e.gateway
    else if key == "Broadcast" then e.broadcast
    else if key == "IP Binario" then e.ipBinary
    else if key == "Mascara Binaria" then e.maskBinary
    else if key == "Binario de Rede" then e.networkBinary
    else if key == "Numero de Sub-Redes" then Dec(e.subnetCount)
    else if key == "Intervalo de Subredes" then e.subnetRange
    else if key == "Total de IPs" then Dec(e.totalIps)
    else if key == "Hosts Utilizaveis" then Dec(e.usableHosts)
    else if key == "Roteador" && e.router.Some? then e.router.value
    else ""
  }

  /** The cells of one record under the given headers. */
  function Cells(e: Entry, headers: seq<string>): (cells: seq<string>)
    ensures |cells| == |headers|
  {
    seq(|headers|, i requires 0 <= i < |headers| => Cell(e, headers[i]))
  }

  function Rows(networks: seq<Entry>, headers: seq<string>): (rows: seq<seq<string>>)
    ensures |rows| == |networks|
    ensures forall r :: 0 <= r < |rows| ==> |rows[r]| == |headers|
  {
    seq(|networks|, r requires 0 <= r < |networks| => Cells(networks[r], headers))
  }

  // ---------------------------------------------------------------- column widths

  predicate Rectangular(rows: seq<seq<string>>, n: nat)
  {
    forall r :: 0 <= r < |rows| ==> |rows[r]| == n
  }

  /** The j-th cell of every row. */
  function Column(rows: seq<seq<string>>, j: nat): (column: seq<string>)
    requires forall r :: 0 <= r < |rows| ==> j < |rows[r]|
    ensures |column| == |rows|
  {
    seq(|rows|, r requires 0 <= r < |rows| => rows[r][j])
  }

  function Max(a: nat, b: nat): nat { if a >= b then a else b }

  /** The length of the longest cell: at least every cell's length, and that of one of them. */
  function Longest(cells: seq<string>): (n: nat)
    ensures forall i :: 0 <= i < |cells| ==> |cells[i]| <= n
    ensures cells == [] ==> n == 0
    ensures cells != [] ==> exists i :: 0 <= i < |cells| && n == |cells[i]|
  {
    if cells == [] then 0
    else
      var init := cells[..|cells| - 1];
      var m := Longest(init);
      assert forall i :: 0 <= i < |init| ==> init[i] == cells[i];
      Max(m, |cells[|cells| - 1]|)
  }

  /** max(len(header), longest cell of the column). */
  function Width(header: string, cells: seq<string>): nat
  {
    Max(|header|, Longest(cells))
  }

  /** The width of every column. */
  function Widths(headers: seq<string>, rows: seq<seq<string>>): (widths: seq<nat>)
    requires Rectangular(rows, |headers|)
    ensures |widths| == |headers|
  {
    seq(|headers|, j requires 0 <= j < |headers| => Width(headers[j], Column(rows, j)))
  }

  /** col_widths: computed header by header, each over every record. */
  method ColumnWidths(headers: seq<string>, rows: seq<seq<string>>) returns (widths: seq<nat>)
    requires |rows| > 0
    requires Rectangular(rows, |headers|)
    ensures widths == Widths(headers, rows)
  {
    widths := [];
    for j := 0 to |headers|
      invariant widths == Widths(headers, rows)[..j]
    {
      var longest := LongestCell(Column(rows, j));
      widths := widths + [Max(|headers[j]|, longest)];
    }
  }

  /** max(len(cell) for cell in column), scanning from the first cell. */
  method LongestCell(column: seq<string>) returns (longest: nat)
    requires |column| > 0
    ensures longest == Longest(column)
  {
    longest := |column[0]|;
    assert column[..1] == [column[0]];
    for r := 1 to |column|
      invariant longest == Longest(column[..r])
    {
      assert column[..r + 1][..r] == column[..r];
      if |column[r]| > longest {
        longest := |column[r]|;
      }
    }
    assert column[..|column|] == column;
  }

  /** Every column is at least as wide as its header and each of its cells, and exactly
      as wide as the longer of the header and some cell. */
  lemma WidthFits(headers: seq<string>, rows: seq<seq<string>>, j: nat)
    requires |rows| > 0 && Rectangular(rows, |headers|) && j < |headers|
    ensures var w := Widths(headers, rows)[j];
      && |headers[j]| <= w
      && (forall r :: 0 <= r < |rows| ==> |rows[r][j]| <= w)
      && (w == |headers[j]| || exists r :: 0 <= r < |rows| && w == |rows[r][j]|)
  {
    var column := Column(rows, j);
    assert forall r :: 0 <= r < |rows| ==> column[r] == rows[r][j];
  }

  // ---------------------------------------------------------------- lines

  /** " | ".join(cell.ljust(width) for each column). */
  function Line(cells: seq<string>, widths: seq<nat>): string
    requires |cells| == |widths|
  {
    Join(Padded(cells, widths), " | ")
  }

  function Padded(cells: seq<string>, widths: seq<nat>): (padded: seq<string>)
    requires |cells| == |widths|
    ensures |padded| == |cells|
  {
    seq(|cells|, i requires 0 <= i < |cells| => LJust(cells[i], widths[i]))
  }

  /** A line whose cells all fit their columns is as long as the widths and separators. */
  lemma LineLength(cells: seq<string>, widths: seq<nat>)
    requires |cells| == |widths| > 0
    requires forall i :: 0 <= i < |cells| ==> |cells[i]| <= widths[i]
    ensures |Line(cells, widths)| == Sum(widths) + 3 * (|widths| - 1)
  {
    JoinLength(Padded(cells, widths), " | ", widths);
  }

  /** The header line, the dashes under it, and one line per record. */
  function TableLines(headers: seq<string>, rows: seq<seq<string>>): (lines: seq<string>)
    requires Rectangular(rows, |headers|)
    ensures |lines| == |rows| + 2
  {
    var widths := Widths(headers, rows);
    var headerLine := Line(headers, widths);
    [headerLine, Repeat('-', |headerLine|)]
      + seq(|rows|, r requires 0 <= r < |rows| => Line(rows[r], widths))
  }

  /** Every line of the table, the dashes included, is as long as the header line. */
  lemma TableAligned(headers: seq<string>, rows: seq<seq<string>>)
    requires |headers| > 0 && |rows| > 0 && Rectangular(rows, |headers|)
    ensures var lines := TableLines(headers, rows);
      forall k :: 0 <= k < |lines| ==> |lines[k]| == |lines[0]|
  {
    var widths := Widths(headers, rows);
    var lines := TableLines(headers, rows);
    forall j | 0 <= j < |headers|
      ensures |headers[j]| <= widths[j] && forall r :: 0 <= r < |rows| ==> |rows[r][j]| <= widths[j]
    {
      WidthFits(headers, rows, j);
    }
    LineLength(headers, widths);
    forall k | 2 <= k < |lines|
      ensures |lines[k]| == |lines[0]|
    {
      LineLength(rows[k - 2], widths);
    }
  }

  /** A cell sits at the start of its padded field and only spaces follow it. */
  lemma CellLeftJustified(cells: seq<string>, widths: seq<nat>, i: nat)
    requires |cells| == |widths| && i < |cells| && |cells[i]| <= widths[i]
    ensures var field := Padded(cells, widths)[i];
      |field| == widths[i] && field[..|cells[i]|] == cells[i]
      && forall k :: |cells[i]| <= k < |field| ==> field[k] == ' '
  {
  }

  /** The header line, the dashes and the record lines, written one after another. */
  method WriteTable(headers: seq<string>, rows: seq<seq<string>>) returns (lines: seq<string>)
    requires |rows| > 0
    requires Rectangular(rows, |headers|)
    ensures lines == TableLines(headers, rows)
  {
    var widths := ColumnWidths(headers, rows);
    var headerLine := Line(headers, widths);
    lines := [headerLine, Repeat('-', |headerLine|)];
    for r := 0 to |rows|
      invariant lines == TableLines(headers, rows)[..r + 2]
    {
      lines := lines + [Line(rows[r], widths)];
    }
  }

  // ---------------------------------------------------------------- the two files

  /** The text of save_to_file's file, line by line (joined by newlines, no final newline). */
  method SaveToFile(networks: seq<Entry>) returns (lines: seq<string>)
    requires |networks| > 0
    ensures lines == ["TABELA DE REDES CALCULADAS", Repeat('=', 150), ""]
      + TableLines(TableHeaders, Rows(networks, TableHeaders)) + ["", Repeat('=', 150)]
  {
    var table := WriteTable(TableHeaders, Rows(networks, TableHeaders));
    lines := ["TABELA DE REDES CALCULADAS", Repeat('=', 150), ""] + table + ["", Repeat('=', 150)];
  }

  /** The text of export_txt's file, or None when there are no records (a warning is shown
      and no file written); the columns are the keys of the first record and the
      generation time is given as already formatted text. */
  method ExportTxt(networks: seq<Entry>, generatedAt: string) returns (text: Option<seq<string>>)
    ensures networks == [] <==> text.None?
    ensures networks != [] ==>
              text.value == ["CALCULADORA DE REDES - RELATÓRIO", Repeat('=', 80),
                             "Gerado em: " + generatedAt, "Total de redes: " + Dec(|networks|), ""]
                            + TableLines(Keys(networks[0]), Rows(networks, Keys(networks[0]))) + ["", Repeat('=', 80)]
  {
    if networks == [] {
      return None;
    }
    var headers := Keys(networks[0]);
    var table := WriteTable(headers, Rows(networks, headers));
    text := Some(["CALCULADORA DE REDES - RELATÓRIO", Repeat('=', 80),
                  "Gerado em: " + generatedAt, "Total de redes: " + Dec(|networks|), ""]
                 + table + ["", Repeat('=', 80)]);
  }

  /** A record without the 'Roteador' key gets an empty cell in that column. */
  lemma MissingKeyIsEmpty(e: Entry)
    requires e.router.None?
    ensures Cell(e, "Roteador") == ""
  {
  }
}
