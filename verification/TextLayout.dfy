/**
  What text looks like on a terminal of a given width: lines are broken at
  newlines, and a line that is longer than the width wraps.  Wrapping is
  deferred: a line of exactly the width stays on one row.
 */
module TextLayout {
  import opened Bytes

  const NEWLINE: Byte := 0x0a

  type Row = seq<Byte>

  function LastRow(rows: seq<Row>): Row
    requires rows != []
  {
    rows[|rows| - 1]
  }

  /** One character printed at the end of the rows so far. */
  function Put(rows: seq<Row>, c: Byte, width: nat): (r: seq<Row>)
    requires rows != []
    ensures r != []
  {
    if c == NEWLINE then rows + [[]]
    else if |LastRow(rows)| == width then rows + [[c]]
    else rows[|rows| - 1 := LastRow(rows) + [c]]
  }

  /** Characters printed one after the other. */
  function PutAll(rows: seq<Row>, text: seq<Byte>, width: nat): (r: seq<Row>)
    requires rows != []
    ensures r != []
  {
    if text == [] then rows else Put(PutAll(rows, text[..|text| - 1], width), text[|text| - 1], width)
  }

  /** Printing a and then b is printing a + b. */
  lemma {:induction false} PrintingComposes(rows: seq<Row>, a: seq<Byte>, b: seq<Byte>, width: nat)
    requires rows != []
    ensures PutAll(PutAll(rows, a, width), b, width) == PutAll(rows, a + b, width)
    decreases |b|
  {
    if b == [] {
      assert a + b == a;
    } else {
      var c := b[..|b| - 1];
      PrintingComposes(rows, a, c, width);
      assert (a + b)[..|a + b| - 1] == a + c;
    }
  }

  // ---------- The whole text at once ----------

  /** A line without newlines, cut into rows of the width; the last row may be short but only the empty line gives an empty row. */
  function Chunks(line: seq<Byte>, width: nat): (r: seq<Row>)
    requires width > 0
    ensures r != []
    decreases |line|
  {
    if |line| <= width then [line] else [line[..width]] + Chunks(line[width..], width)
  }

  function FirstNewline(text: seq<Byte>): (i: nat)
    ensures i <= |text| && NEWLINE !in text[..i]
    ensures i < |text| ==> text[i] == 10
  {
    if text == [] || text[0] == NEWLINE then 0 else
      var i := FirstNewline(text[1..]);
      assert text[..1 + i] == [text[0]] + text[1..][..i];
      1 + i
  }

  /** The rows of a text: its lines, each cut into chunks. */
  function Wrap(text: seq<Byte>, width: nat): (r: seq<Row>)
    requires width > 0
    ensures r != []
    decreases |text|
  {
    var i := FirstNewline(text);
    if i == |text| then Chunks(text, width) else Chunks(text[..i], width) + Wrap(text[i + 1..], width)
  }

  lemma {:induction false} ChunksGrow(line: seq<Byte>, c: Byte, width: nat)
    requires width > 0 && c != NEWLINE
    ensures Chunks(line + [c], width) == Put(Chunks(line, width), c, width)
    decreases |line|
  {
    if |line| < width {
    } else if |line| == width {
      assert (line + [c])[..width] == line && (line + [c])[width..] == [c];
    } else {
      ChunksGrow(line[width..], c, width);
      assert (line + [c])[width..] == line[width..] + [c] && (line + [c])[..width] == line[..width];
      PutAtEnd([line[..width]], Chunks(line[width..], width), c, width);
    }
  }

  lemma PutAtEnd(before: seq<Row>, rows: seq<Row>, c: Byte, width: nat)
    requires rows != []
    ensures Put(before + rows, c, width) == before + Put(rows, c, width)
  {
  }

  lemma {:induction false} FirstNewlineIs(text: seq<Byte>, i: nat)
    requires i <= |text| && NEWLINE !in text[..i] && (i < |text| ==> text[i] == NEWLINE)
    ensures FirstNewline(text) == i
  {
    var j := FirstNewline(text);
    assert forall k | 0 <= k < i :: text[k] == text[..i][k];
    assert forall k | 0 <= k < j :: text[k] == text[..j][k];
  }

  lemma {:induction false} WrapGrows(text: seq<Byte>, c: Byte, width: nat)
    requires width > 0
    ensures Wrap(text + [c], width) == Put(Wrap(text, width), c, width)
    decreases |text|
  {
    var i := FirstNewline(text);
    if i < |text| {
      assert (text + [c])[..i] == text[..i] && (text + [c])[i + 1..] == text[i + 1..] + [c];
      FirstNewlineIs(text + [c], i);
      WrapGrows(text[i + 1..], c, width);
      PutAtEnd(Chunks(text[..i], width), Wrap(text[i + 1..], width), c, width);
    } else if c == NEWLINE {
      assert text[..i] == text;
      assert (text + [c])[..i] == text && (text + [c])[i + 1..] == [];
      FirstNewlineIs(text + [c], i);
      assert Wrap([], width) == [[]];
    } else {
      assert text[..i] == text && (text + [c])[..i + 1] == text + [c];
      FirstNewlineIs(text + [c], i + 1);
      ChunksGrow(text, c, width);
    }
  }

  /** Character-by-character printing from an empty screen gives the rows of the whole text. */
  lemma {:induction false} PrintingWraps(text: seq<Byte>, width: nat)
    requires width > 0
    ensures PutAll([[]], text, width) == Wrap(text, width)
  {
    if text == [] {
      assert FirstNewline(text) == 0;
    } else {
      var before := text[..|text| - 1];
      PrintingWraps(before, width);
      WrapGrows(before, text[|text| - 1], width);
      assert text == before + [text[|text| - 1]];
    }
  }

  /** No row is longer than the width. */
  lemma {:induction false} RowsFit(rows: seq<Row>, text: seq<Byte>, width: nat)
    requires width > 0 && rows != [] && forall r | r in rows :: |r| <= width
    ensures forall r | r in PutAll(rows, text, width) :: |r| <= width
  {
    if text != [] {
      RowsFit(rows, text[..|text| - 1], width);
    }
  }
}
