/**
 The hex dump of the debug module (_px_dbg_trace_hexdump in utils/px_dbg.c).

 The data is cut into rows of 16 bytes. A row holds 16 hex fields of three
 characters ("%02hX " for a byte, three spaces past the end of the data), with
 one extra space before fields 4, 8 and 12, then a 16-character ASCII column,
 then a newline. Before every row whose byte offset is a non-zero multiple of
 64 an empty line is emitted.

 The functions below build the output the way the C loops do, left to right;
 the lemmas then state where every character lands.
 */
module DbgHexdump {
  import opened Types
  import opened DbgText
  import opened Dbg

  /* Rows hold PX_DBG_TRACE_DATA_BYTES_PER_ROW = 16 bytes. When every hex
     field fits the scratch buffer a row is 68 characters, newline included:
     16 * 3 hex, 3 group gaps, 16 ASCII, 1 newline. The numbers are written
     as literals so that the arithmetic about them stays linear. */

  /** Hex field for the byte at offset k: "%02hX " when the byte exists,
      three spaces past the end of the data. */
  function HexCell(size: BufSize, data: seq<byte>, k: nat): seq<char>
  {
    if k < |data| then HexField(size, data[k]) else "   "
  }

  /** ASCII column entry for offset k: the byte itself when it lies in
      32..127, '.' for any other byte, a space past the end of the data. */
  function AsciiCell(data: seq<byte>, k: nat): char
  {
    if k < |data| then (if 32 <= data[k] <= 127 then data[k] as char else '.')
    else ' '
  }

  /** The extra space emitted before hex field j of a row. */
  function GroupGap(j: nat): seq<char>
  {
    if j != 0 && j % 4 == 0 then " " else ""
  }

  /** The 16 hex fields of the row at byte offset i. */
  function HexCells(size: BufSize, data: seq<byte>, i: nat): (cells: seq<seq<char>>)
    ensures |cells| == 16
  {
    seq(16, j requires 0 <= j < 16 => HexCell(size, data, i + j))
  }

  /** The first j of a row's hex fields, each preceded by its group gap. */
  function HexColumn(cells: seq<seq<char>>, j: nat): seq<char>
    requires j <= |cells|
  {
    if j == 0 then []
    else HexColumn(cells, j - 1) + GroupGap(j - 1) + cells[j - 1]
  }

  /** The first j characters of the ASCII column of the row at offset i. */
  function AsciiColumn(data: seq<byte>, i: nat, j: nat): seq<char>
    requires j <= 16
  {
    if j == 0 then []
    else AsciiColumn(data, i, j - 1) + [AsciiCell(data, i + j - 1)]
  }

  /** A row made of the given hex fields and ASCII column. */
  function RowText(cells: seq<seq<char>>, ascii: seq<char>): seq<char>
    requires |cells| == 16
  {
    HexColumn(cells, 16) + ascii + "\n"
  }

  /** The row at byte offset i. */
  function Row(size: BufSize, data: seq<byte>, i: nat): seq<char>
  {
    RowText(HexCells(size, data, i), AsciiColumn(data, i, 16))
  }

  /** The empty line emitted before the row at byte offset i. */
  function BlankBefore(i: nat): seq<char>
  {
    if i != 0 && i % 64 == 0 then "\n" else ""
  }

  /** Number of rows for n bytes: ceil(n / 16). */
  function RowCount(n: nat): (r: nat)
    ensures 16 * r >= n
    ensures r > 0 ==> 16 * (r - 1) < n
  {
    (n + 16 - 1) / 16
  }

  /** The rows of the dump of `data`, one per 16-byte offset. */
  function RowsOf(size: BufSize, data: seq<byte>): (rows: seq<seq<char>>)
    ensures |rows| == RowCount(|data|)
  {
    FirstRows(size, data, RowCount(|data|))
  }

  /** The first k rows of the dump of `data`. */
  function FirstRows(size: BufSize, data: seq<byte>, k: nat): (rows: seq<seq<char>>)
    ensures |rows| == k
  {
    if k == 0 then [] else FirstRows(size, data, k - 1) + [Row(size, data, 16 * (k - 1))]
  }

  /** Row r of the list is the row at byte offset 16r. */
  lemma {:induction false} FirstRowsAt(size: BufSize, data: seq<byte>, k: nat, r: nat)
    requires r < k
    ensures FirstRows(size, data, k)[r] == Row(size, data, 16 * r)
  {
    if r < k - 1 {
      FirstRowsAt(size, data, k - 1, r);
    }
  }

  /** The output of the first r of the given rows, each preceded by the empty
      line its offset calls for. */
  function Join(rows: seq<seq<char>>, r: nat): seq<char>
    requires r <= |rows|
  {
    if r == 0 then []
    else Join(rows, r - 1) + BlankBefore(16 * (r - 1)) + rows[r - 1]
  }

  /** The whole hex dump of `data`. */
  function HexDump(size: BufSize, data: seq<byte>): (r: seq<char>)
    ensures |data| == 0 ==> r == []
  {
    var rows := RowsOf(size, data);
    Join(rows, |rows|)
  }

  /* ---- The loops ---- */

  /** _px_dbg_trace_hexdump: one pass of the outer loop per 16-byte row,
      with the empty line before offsets that are non-zero multiples of 64. */
  method TraceHexdump(size: BufSize, data: seq<byte>) returns (out: seq<char>)
    ensures out == HexDump(size, data)
  {
    ghost var rows := RowsOf(size, data);
    ghost var r: nat := 0;
    out := [];
    var i: nat := 0;
    while i < |data|
      invariant i == 16 * r && r <= |rows|
      invariant out == Join(rows, r)
    {
      RowInRange(|data|, r);
      var text := TraceBlankAndRow(size, data, i, rows, r);
      JoinNext(rows, r);
      out := out + text;
      i := i + 16;
      r := r + 1;
    }
    RowsDone(|data|, r);
  }

  /** One pass of the outer loop of _px_dbg_trace_hexdump: the empty line
      when the offset is a non-zero multiple of 64, then the row. */
  method TraceBlankAndRow(size: BufSize, data: seq<byte>, i: nat, ghost rows: seq<seq<char>>, ghost r: nat)
    returns (text: seq<char>)
    requires rows == RowsOf(size, data) && r < |rows| && i == 16 * r
    ensures text == BlankBefore(i) + rows[r]
  {
    text := [];
    if i != 0 && i % 64 == 0 {
      text := text + "\n";
    }
    var row := TraceRow(size, data, i);
    FirstRowsAt(size, data, |rows|, r);
    text := text + row;
  }

  /** A row offset below the data length names one of the RowCount rows. */
  lemma RowInRange(n: nat, r: nat)
    requires 16 * r < n
    ensures r < RowCount(n)
  {
  }

  /** The loop stops after exactly RowCount rows. */
  lemma RowsDone(n: nat, r: nat)
    requires n <= 16 * r && r <= RowCount(n)
    ensures r == RowCount(n)
  {
  }

  /** One pass of the outer loop extends the output by the next row. */
  lemma JoinNext(rows: seq<seq<char>>, r: nat)
    requires r < |rows|
    ensures Join(rows, r + 1) == Join(rows, r) + BlankBefore(16 * r) + rows[r]
  {
  }

  /** The inner loops of _px_dbg_trace_hexdump for the row at byte offset
      i: the hex fields with their group gaps, then the ASCII column, then
      the newline. */
  method TraceRow(size: BufSize, data: seq<byte>, i: nat) returns (row: seq<char>)
    ensures row == Row(size, data, i)
  {
    var hex := TraceHexColumn(size, data, i);
    var ascii := TraceAsciiColumn(data, i);
    row := hex + ascii + "\n";
  }

  /** The first inner loop: the 16 hex fields of the row at offset i. */
  method TraceHexColumn(size: BufSize, data: seq<byte>, i: nat) returns (hex: seq<char>)
    ensures hex == HexColumn(HexCells(size, data, i), 16)
  {
    ghost var cells := HexCells(size, data, i);
    hex := [];
    var j := 0;
    while j < 16
      invariant j <= 16
      invariant hex == HexColumn(cells, j)
    {
      assert cells[j] == HexCell(size, data, i + j);
      if j != 0 && j % 4 == 0 {
        hex := hex + " ";
      }
      if i + j < |data| {
        hex := hex + HexField(size, data[i + j]);
      } else {
        hex := hex + "   ";
      }
      j := j + 1;
    }
  }

  /** The second inner loop: the 16 entries of the ASCII column. */
  method TraceAsciiColumn(data: seq<byte>, i: nat) returns (ascii: seq<char>)
    ensures ascii == AsciiColumn(data, i, 16)
  {
    ascii := [];
    var j := 0;
    while j < 16
      invariant j <= 16
      invariant ascii == AsciiColumn(data, i, j)
    {
      if i + j < |data| {
        if 32 <= data[i + j] <= 127 {
          ascii := ascii + [data[i + j] as char];
        } else {
          ascii := ascii + ['.'];
        }
      } else {
        ascii := ascii + [' '];
      }
      j := j + 1;
    }
  }

  /* ---- Row layout ---- */

  /** Position of hex field j within a row. */
  function SlotPos(j: nat): nat
  {
    3 * j + j / 4
  }

  /** Position of ASCII column entry j within a row. */
  function AsciiPos(j: nat): nat
  {
    51 + j
  }

  /** The three characters of the hex field for offset k, assuming the
      scratch buffer holds a whole "%02hX " field. */
  function CellText(data: seq<byte>, k: nat): seq<char>
  {
    if k < |data| then Hex2(data[k]) + " " else "   "
  }

  /** Length of the first n hex fields with their group gaps. */
  lemma {:induction false} HexColumnLength(cells: seq<seq<char>>, n: nat)
    requires n <= |cells|
    requires forall k :: 0 <= k < |cells| ==> |cells[k]| == 3
    ensures |HexColumn(cells, n)| == (if n == 0 then 0 else SlotPos(n - 1) + 3)
  {
    if n > 1 {
      HexColumnLength(cells, n - 1);
      SlotStep(n - 2);
    }
  }

  /** Consecutive hex fields are three characters apart, plus the group gap. */
  lemma SlotStep(j: nat)
    ensures SlotPos(j + 1) == SlotPos(j) + 3 + |GroupGap(j + 1)|
  {
    QuarterStep(j);
  }

  /** Appending hex fields leaves the earlier ones where they were. */
  lemma {:induction false} HexColumnPrefix(cells: seq<seq<char>>, m: nat, n: nat)
    requires m <= n <= |cells|
    ensures HexColumn(cells, m) <= HexColumn(cells, n)
    decreases n - m
  {
    if m < n {
      HexColumnPrefix(cells, m, n - 1);
    }
  }

  /** Where each three-character hex field and each group gap lands. */
  lemma {:induction false} HexColumnLayout(cells: seq<seq<char>>, n: nat)
    requires n <= |cells|
    requires forall k :: 0 <= k < |cells| ==> |cells[k]| == 3
    ensures |HexColumn(cells, n)| == (if n == 0 then 0 else SlotPos(n - 1) + 3)
    ensures forall j :: 0 <= j < n ==> HexColumn(cells, n)[SlotPos(j)..SlotPos(j) + 3] == cells[j]
    ensures forall j :: 0 < j < n && j % 4 == 0 ==> HexColumn(cells, n)[SlotPos(j) - 1] == ' '
  {
    HexColumnLength(cells, n);
    forall j | 0 <= j < n
      ensures HexColumn(cells, n)[SlotPos(j)..SlotPos(j) + 3] == cells[j]
    {
      HexSlot(cells, j, n);
    }
    forall j | 0 < j < n && j % 4 == 0
      ensures HexColumn(cells, n)[SlotPos(j) - 1] == ' '
    {
      HexGap(cells, j, n);
    }
  }

  /** Hex field j sits at SlotPos(j). */
  lemma HexSlot(cells: seq<seq<char>>, j: nat, n: nat)
    requires j < n <= |cells|
    requires forall k :: 0 <= k < |cells| ==> |cells[k]| == 3
    ensures |HexColumn(cells, n)| == SlotPos(n - 1) + 3
    ensures HexColumn(cells, n)[SlotPos(j)..SlotPos(j) + 3] == cells[j]
  {
    var head := HexColumn(cells, j) + GroupGap(j);
    var cur := HexColumn(cells, j + 1);
    assert |head| == SlotPos(j) by {
      HexColumnLength(cells, j);
      if j > 0 {
        SlotStep(j - 1);
      }
    }
    assert cur == head + cells[j];
    HexColumnPrefix(cells, j + 1, n);
    PrefixSlice(cur, HexColumn(cells, n), |head|, |head| + 3);
    HexColumnLength(cells, n);
  }

  /** A slice within a prefix is the same slice of the whole. */
  lemma PrefixSlice(p: seq<char>, s: seq<char>, a: nat, b: nat)
    requires p <= s && a <= b <= |p|
    ensures s[a..b] == p[a..b]
  {
  }

  /** The group gap before hex field j (j a non-zero multiple of four) is a
      space. */
  lemma HexGap(cells: seq<seq<char>>, j: nat, n: nat)
    requires 0 < j < n <= |cells| && j % 4 == 0
    requires forall k :: 0 <= k < |cells| ==> |cells[k]| == 3
    ensures |HexColumn(cells, n)| == SlotPos(n - 1) + 3
    ensures HexColumn(cells, n)[SlotPos(j) - 1] == ' '
  {
    var prev := HexColumn(cells, j);
    var cur := HexColumn(cells, j + 1);
    assert |prev| + 1 == SlotPos(j) by {
      HexColumnLength(cells, j);
      SlotStep(j - 1);
    }
    assert cur == prev + " " + cells[j];
    HexColumnPrefix(cells, j + 1, n);
    assert HexColumn(cells, n)[|prev|] == cur[|prev|];
    HexColumnLength(cells, n);
  }

  /** With a scratch buffer of four slots or more, every hex field of a row
      is its full three-character text. */
  lemma HexCellsFit(size: BufSize, data: seq<byte>, i: nat)
    requires size >= 4
    ensures forall j :: 0 <= j < 16 ==> HexCells(size, data, i)[j] == CellText(data, i + j)
  {
    forall j | 0 <= j < 16 ensures HexCells(size, data, i)[j] == CellText(data, i + j) {
      assert HexCells(size, data, i)[j] == HexCell(size, data, i + j);
      if i + j < |data| {
        HexFieldFits(size, data[i + j]);
      }
    }
  }

  lemma {:induction false} AsciiColumnLayout(data: seq<byte>, i: nat, n: nat)
    requires n <= 16
    ensures |AsciiColumn(data, i, n)| == n
    ensures forall j :: 0 <= j < n ==> AsciiColumn(data, i, n)[j] == AsciiCell(data, i + j)
  {
    if n > 0 {
      AsciiColumnLayout(data, i, n - 1);
    }
  }

  /** Layout of a row built from 16 three-character hex fields and a
      16-character ASCII column. */
  lemma RowTextLayout(cells: seq<seq<char>>, ascii: seq<char>)
    requires |cells| == 16 && |ascii| == 16
    requires forall k :: 0 <= k < 16 ==> |cells[k]| == 3
    ensures |RowText(cells, ascii)| == 68
    ensures forall j :: 0 <= j < 16 ==> RowText(cells, ascii)[SlotPos(j)..SlotPos(j) + 3] == cells[j]
    ensures forall j :: 0 < j < 16 && j % 4 == 0 ==> RowText(cells, ascii)[SlotPos(j) - 1] == ' '
    ensures forall j :: 0 <= j < 16 ==> RowText(cells, ascii)[AsciiPos(j)] == ascii[j]
    ensures RowText(cells, ascii)[67] == '\n'
  {
    var hex := HexColumn(cells, 16);
    var row := RowText(cells, ascii);
    HexColumnLayout(cells, 16);
    forall j | 0 <= j < 16
      ensures row[SlotPos(j)..SlotPos(j) + 3] == cells[j]
    {
      assert row[SlotPos(j)..SlotPos(j) + 3] == hex[SlotPos(j)..SlotPos(j) + 3];
    }
    forall j | 0 < j < 16 && j % 4 == 0
      ensures row[SlotPos(j) - 1] == ' '
    {
      assert row[SlotPos(j) - 1] == hex[SlotPos(j) - 1];
    }
  }

  /** Each row is 68 characters: hex field j at 3j + j/4 (the byte's two
      hex digits and a space, or three spaces past the end of the data; the
      group gaps before fields 4, 8 and 12 are spaces), ASCII entry j at
      51 + j (a byte in 32..127 as itself, 127 included, any other byte as
      '.', a space past the end), and the newline last. */
  lemma RowLayout(size: BufSize, data: seq<byte>, i: nat)
    requires size >= 4
    ensures |Row(size, data, i)| == 68
    ensures forall j :: 0 <= j < 16 && i + j < |data| ==>
      Row(size, data, i)[SlotPos(j)..SlotPos(j) + 3] == Hex2(data[i + j]) + " "
    ensures forall j :: 0 <= j < 16 && |data| <= i + j ==>
      Row(size, data, i)[SlotPos(j)..SlotPos(j) + 3] == "   "
    ensures forall j :: 0 < j < 16 && j % 4 == 0 ==> Row(size, data, i)[SlotPos(j) - 1] == ' '
    ensures forall j :: 0 <= j < 16 && i + j < |data| && 32 <= data[i + j] <= 127 ==>
      Row(size, data, i)[AsciiPos(j)] as int == data[i + j]
    ensures forall j :: 0 <= j < 16 && i + j < |data| && !(32 <= data[i + j] <= 127) ==>
      Row(size, data, i)[AsciiPos(j)] == '.'
    ensures forall j :: 0 <= j < 16 && |data| <= i + j ==> Row(size, data, i)[AsciiPos(j)] == ' '
    ensures Row(size, data, i)[67] == '\n'
  {
    HexCellsFit(size, data, i);
    AsciiColumnLayout(data, i, 16);
    RowTextLayout(HexCells(size, data, i), AsciiColumn(data, i, 16));
  }

  /* ---- Row placement ---- */

  /** Position of row r (byte offset 16r) in the dump: 68 characters per row
      before it, plus one empty line for each multiple of four up to r. */
  function RowStart(r: nat): nat
  {
    68 * r + r / 4
  }

  /** Output length of the first r rows of 68 characters each: the empty
      lines come before rows 4, 8, 12, ... so r rows carry (r - 1) / 4 of them. */
  lemma {:induction false} JoinLength(rows: seq<seq<char>>, r: nat)
    requires r <= |rows|
    requires forall k :: 0 <= k < |rows| ==> |rows[k]| == 68
    ensures |Join(rows, r)| == 68 * r + (if r > 0 then (r - 1) / 4 else 0)
  {
    if r > 0 {
      JoinLength(rows, r - 1);
      BlankBeforeRow(r - 1);
      if r > 1 {
        QuarterStep(r - 2);
      }
    }
  }

  /** Counting multiples of four: stepping from j to j + 1 adds one exactly
      when j + 1 is a multiple of four. */
  lemma QuarterStep(j: nat)
    ensures (j + 1) / 4 == j / 4 + (if (j + 1) % 4 == 0 then 1 else 0)
  {
  }

  /** Earlier rows are never rewritten: the output of the first r rows is a
      prefix of the output of the first r' rows. */
  lemma {:induction false} JoinPrefix(rows: seq<seq<char>>, r: nat, r': nat)
    requires r <= r' <= |rows|
    ensures Join(rows, r) <= Join(rows, r')
    decreases r' - r
  {
    if r < r' {
      JoinPrefix(rows, r, r' - 1);
      var a := Join(rows, r);
      var b := Join(rows, r' - 1);
      var c := Join(rows, r');
      assert c == b + BlankBefore(16 * (r' - 1)) + rows[r' - 1];
      assert c[..|a|] == b[..|a|];
    }
  }

  /** Every row of a dump is 68 characters long. */
  lemma RowsOfLength(size: BufSize, data: seq<byte>)
    requires size >= 4
    ensures forall k :: 0 <= k < |RowsOf(size, data)| ==> |RowsOf(size, data)[k]| == 68
  {
    forall k | 0 <= k < |RowsOf(size, data)| ensures |RowsOf(size, data)[k]| == 68 {
      FirstRowsAt(size, data, RowCount(|data|), k);
      RowLayout(size, data, 16 * k);
    }
  }

  /** The total length of a dump of n bytes: 68 per row plus one empty line
      for every 64 bytes after the first row: 68 ceil(n/16) + (n-1)/64. */
  lemma HexDumpLength(size: BufSize, data: seq<byte>)
    requires size >= 4
    ensures |HexDump(size, data)| == 68 * RowCount(|data|) + (if |data| > 0 then (|data| - 1) / 64 else 0)
  {
    var n := |data|;
    var rc := RowCount(n);
    RowsOfLength(size, data);
    JoinLength(RowsOf(size, data), rc);
    if n > 0 {
      assert rc - 1 == (n - 1) / 16;
      assert (rc - 1) / 4 == (n - 1) / 64;
    }
  }

  /** Row r of the dump (the bytes at offsets 16r .. 16r + 15) sits at
      RowStart(r); an empty line separates it from row r-1 exactly when r is a
      non-zero multiple of four, i.e. when its offset is a non-zero multiple
      of 64; otherwise the two rows are adjacent. The first row starts the
      output. */
  lemma RowPlacement(size: BufSize, data: seq<byte>, r: nat)
    requires size >= 4
    requires r < RowCount(|data|)
    ensures RowStart(r) + 68 <= |HexDump(size, data)|
    ensures HexDump(size, data)[RowStart(r)..RowStart(r) + 68] == Row(size, data, 16 * r)
    ensures r == 0 ==> RowStart(r) == 0
    ensures r > 0 && r % 4 == 0 ==>
      RowStart(r) == RowStart(r - 1) + 68 + 1 && HexDump(size, data)[RowStart(r) - 1] == '\n'
    ensures r > 0 && r % 4 != 0 ==> RowStart(r) == RowStart(r - 1) + 68
  {
    var rows := RowsOf(size, data);
    RowsOfLength(size, data);
    FirstRowsAt(size, data, |rows|, r);
    JoinPlacement(rows, r);
  }

  /** Placement of row r within the joined output of rows of 68 characters. */
  lemma JoinPlacement(rows: seq<seq<char>>, r: nat)
    requires r < |rows|
    requires forall k :: 0 <= k < |rows| ==> |rows[k]| == 68
    ensures RowStart(r) + 68 <= |Join(rows, |rows|)|
    ensures Join(rows, |rows|)[RowStart(r)..RowStart(r) + 68] == rows[r]
    ensures r > 0 && r % 4 == 0 ==> Join(rows, |rows|)[RowStart(r) - 1] == '\n'
  {
    JoinHead(rows, r);
    JoinPrefix(rows, r + 1, |rows|);
    var head := Join(rows, r) + BlankBefore(16 * r);
    var upto := Join(rows, r + 1);
    assert upto == head + rows[r];
    PrefixSlice(upto, Join(rows, |rows|), |head|, |head| + 68);
    if r > 0 && r % 4 == 0 {
      JoinBlank(rows, r);
    }
  }

  /** The rows before row r and the empty line before it take RowStart(r)
      characters. */
  lemma JoinHead(rows: seq<seq<char>>, r: nat)
    requires r <= |rows|
    requires forall k :: 0 <= k < |rows| ==> |rows[k]| == 68
    ensures |Join(rows, r) + BlankBefore(16 * r)| == RowStart(r)
  {
    JoinLength(rows, r);
    BlankBeforeRow(r);
    if r > 0 {
      QuarterStep(r - 1);
    }
  }

  /** The character before row r, when r is a non-zero multiple of four, is
      the empty line's newline. */
  lemma JoinBlank(rows: seq<seq<char>>, r: nat)
    requires 0 < r < |rows| && r % 4 == 0
    requires forall k :: 0 <= k < |rows| ==> |rows[k]| == 68
    ensures RowStart(r) <= |Join(rows, |rows|)|
    ensures Join(rows, |rows|)[RowStart(r) - 1] == '\n'
  {
    JoinHead(rows, r);
    JoinPrefix(rows, r + 1, |rows|);
    var head := Join(rows, r) + BlankBefore(16 * r);
    var upto := Join(rows, r + 1);
    assert head[|head| - 1] == '\n' by {
      BlankBeforeRow(r);
    }
    assert upto == head + rows[r];
    assert upto[|head| - 1] == '\n';
  }

  /** The empty line before row r (byte offset 16r) is there exactly when r
      is a non-zero multiple of four. */
  lemma BlankBeforeRow(r: nat)
    ensures BlankBefore(16 * r) == (if r != 0 && r % 4 == 0 then "\n" else "")
  {
  }
}
