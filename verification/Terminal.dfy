/**
  The text terminal's row buffers: 96 rows of 128 characters in one byte array,
  a length for each, and the cursor.  Printing edits them in place and scrolls
  by moving every row up; what they hold is the end of the layout of the whole
  text.
 */
module Terminal {
  import opened Bytes
  import opened TextLayout

  const ROWS := 96
  const COLUMNS := 128

  /** The row shown on line r when the rows so far are given: the last height of them, from the top. */
  function Shown(rows: seq<Row>, height: nat, r: nat): Row
    requires rows != []
  {
    if |rows| <= height then (if r < |rows| then rows[r] else [])
    else if r < height then rows[|rows| - height + r]
    else []
  }

  /** From the top, the screen is the end of the text: its last height rows, or all of them and empty lines. */
  lemma ScreenShowsLastRows(rows: seq<Row>, height: nat, r: nat)
    requires rows != []
    ensures |rows| >= height ==> seq(height, k requires 0 <= k < height => Shown(rows, height, k)) == rows[|rows| - height..]
    ensures |rows| < height ==> seq(|rows|, k requires 0 <= k < |rows| => Shown(rows, height, k)) == rows
    ensures r >= height || r >= |rows| ==> Shown(rows, height, r) == []
  {
  }

  /** The row that line r shows after scrolling up by one. */
  function ShownNext(rows: seq<Row>, height: nat, r: nat): Row
    requires rows != []
  {
    Shown(rows, height, r + 1)
  }

  /** A new empty row scrolls a full screen, and changes no line of one that is not full. */
  lemma NewRowShown(rows: seq<Row>, height: nat, r: nat)
    requires rows != []
    ensures Shown(rows + [[]], height, r) == if |rows| >= height && r < height then ShownNext(rows, height, r) else Shown(rows, height, r)
  {
  }

  lemma LastRowShown(rows: seq<Row>, last: Row, height: nat, r: nat)
    requires rows != [] && height > 0
    ensures Shown(rows[|rows| - 1 := last], height, r)
         == if r == (if |rows| < height then |rows| else height) - 1 then last else Shown(rows, height, r)
  {
  }

  lemma ReplaceNewRow(rows: seq<Row>, c: Byte)
    ensures (rows + [[]])[|rows| := LastRow(rows + [[]]) + [c]] == rows + [[c]]
  {
    var empty: Row := [];
    assert empty + [c] == [c];
  }

  class TextTerminal {
    var x: nat
    var y: nat
    var width: nat
    var height: nat
    const characters: array<Byte>
    const lengths: array<nat>

    ghost predicate WellFormed()
      reads `width, `height
    {
      && characters.Length == ROWS * COLUMNS && lengths.Length == ROWS
      && 1 <= width <= COLUMNS && 1 <= height < ROWS
    }

    function Cell(r: nat, j: nat): Byte
      reads characters
      requires r < ROWS && j < COLUMNS && characters.Length == ROWS * COLUMNS
    {
      characters[COLUMNS * r + j]
    }

    /** Row buffer r holds s, and zeros after it. */
    ghost predicate Holds(r: nat, s: Row)
      reads `width, `height, characters, lengths
      requires WellFormed() && r < ROWS
    {
      && lengths[r] == |s| && |s| <= COLUMNS
      && forall j | 0 <= j < COLUMNS :: Cell(r, j) == if j < |s| then s[j] else 0
    }

    /** The buffers and the cursor are those of a screen on which the rows have been printed. */
    ghost predicate Shows(rows: seq<Row>)
      reads this, characters, lengths
    {
      && WellFormed() && rows != [] && (forall s | s in rows :: |s| <= width)
      && y == (if |rows| < height then |rows| else height) - 1 && x == |LastRow(rows)|
      && forall r | 0 <= r < ROWS :: Holds(r, Shown(rows, height, r))
    }

    /** Sizes in characters come from the video mode and the font. */
    constructor (screenWidth: nat, screenHeight: nat, fontWidth: nat, fontHeight: nat)
      requires fontWidth > 0 && fontHeight > 0
      requires 1 <= screenWidth / fontWidth <= COLUMNS && 1 <= screenHeight / fontHeight < ROWS
      ensures width == screenWidth / fontWidth && height == screenHeight / fontHeight
      ensures Shows([[]]) && fresh(characters) && fresh(lengths)
      ensures characters.Length == 96 * 128 && lengths.Length == 96
    {
      x, y := 0, 0;
      height := screenHeight / fontHeight;
      width := screenWidth / fontWidth;
      characters := new Byte[ROWS * COLUMNS];
      lengths := new nat[ROWS];
      new;
      var i := 0;
      while i < ROWS
        invariant 0 <= i <= ROWS && WellFormed()
        invariant forall r, j | 0 <= r < i && 0 <= j < COLUMNS :: Cell(r, j) == 0
        invariant forall r | 0 <= r < i :: lengths[r] == 0
        modifies characters, lengths
      {
        Memset(characters, COLUMNS * i, 0, COLUMNS);
        lengths[i] := 0;
        i := i + 1;
      }
    }

    /** Moves row y+1 of the buffers to row y, which is cleared first. */
    method MoveRowUp(y: nat, ghost above: Row, ghost below: Row)
      requires WellFormed() && y + 1 < ROWS && Holds(y, above) && Holds(y + 1, below)
      modifies characters, lengths
      ensures Holds(y, below)
      ensures forall r, j | 0 <= r < ROWS && r != y && 0 <= j < COLUMNS :: Cell(r, j) == old(Cell(r, j))
      ensures forall r | 0 <= r < ROWS && r != y :: lengths[r] == old(lengths[r])
    {
      Memset(characters, COLUMNS * y, 0, lengths[y]);
      assert forall j | 0 <= j < COLUMNS :: Cell(y, j) == 0;
      Memmove(characters, COLUMNS * y, COLUMNS * (y + 1), lengths[y + 1]);
      lengths[y] := lengths[y + 1];
    }

    /** Every row moves up one line; the row below the screen, always empty, becomes the last. */
    method Scroll(ghost rows: seq<Row>)
      requires WellFormed() && rows != []
      requires forall r | 0 <= r < ROWS :: Holds(r, Shown(rows, height, r))
      requires |rows| >= height
      modifies characters, lengths
      ensures forall r | 0 <= r < ROWS :: Holds(r, Shown(rows + [[]], height, r))
    {
      var i := 0;
      while i < height
        invariant 0 <= i <= height
        invariant forall r | 0 <= r < i :: Holds(r, ShownNext(rows, height, r))
        invariant forall r | i <= r < ROWS :: Holds(r, Shown(rows, height, r))
      {
        MoveRowUp(i, Shown(rows, height, i), Shown(rows, height, i + 1));
        i := i + 1;
      }
      forall r | 0 <= r < ROWS
        ensures Holds(r, Shown(rows + [[]], height, r))
      {
        NewRowShown(rows, height, r);
      }
    }

    /** To the start of the next line, scrolling on the last one. */
    method NextLine(ghost rows: seq<Row>)
      requires Shows(rows)
      modifies this`x, this`y, characters, lengths
      ensures Shows(rows + [[]])
    {
      if y + 1 == height {
        Scroll(rows);
      } else {
        y := y + 1;
        forall r | 0 <= r < ROWS
          ensures Holds(r, Shown(rows + [[]], height, r))
        {
          NewRowShown(rows, height, r);
        }
      }
      x := 0;
    }

    /** The first len characters of the string, from wherever the cursor is. */
    method PrintCount(text: seq<Byte>, len: nat, ghost rows: seq<Row>)
      requires Shows(rows) && len <= |text|
      modifies this`x, this`y, characters, lengths
      ensures Shows(PutAll(rows, text[..len], width))
    {
      var i := 0;
      while i < len
        invariant 0 <= i <= len && Shows(PutAll(rows, text[..i], width))
      {
        ghost var now, next := PutAll(rows, text[..i], width), PutAll(rows, text[..i + 1], width);
        assert text[..i + 1][..i] == text[..i] && next == Put(now, text[i], width);
        i := i + 1;
        if text[i - 1] == NEWLINE {
          NextLine(now);
          assert Shows(next);
          continue;
        }
        if x == width {
          NextLine(now);
          ReplaceNewRow(now, text[i - 1]);
          now := now + [[]];
        }
        assert next == now[|now| - 1 := LastRow(now) + [text[i - 1]]];
        PutChar(text[i - 1], now);
        assert Shows(next);
      }
    }

    /** Stores one character at the cursor. */
    method PutChar(c: Byte, ghost rows: seq<Row>)
      requires Shows(rows) && x < width
      modifies this`x, characters, lengths
      ensures Shows(rows[|rows| - 1 := LastRow(rows) + [c]])
    {
      hide Shown;
      ghost var last, after := LastRow(rows), rows[|rows| - 1 := LastRow(rows) + [c]];
      LastRowShown(rows, last, height, y);
      assert rows[|rows| - 1 := last] == rows;
      assert Holds(y, Shown(rows, height, y));
      StoreChar(c, last);
      x := x + 1;
      forall r | 0 <= r < ROWS
        ensures Holds(r, Shown(after, height, r))
      {
        LastRowShown(rows, last + [c], height, r);
        assert old(Holds(r, Shown(rows, height, r)));
      }
    }

    /** The character and the row's length; the other rows stay as they are. */
    method StoreChar(c: Byte, ghost row: Row)
      requires WellFormed() && y < ROWS && x == |row| < COLUMNS && Holds(y, row)
      modifies characters, lengths
      ensures Holds(y, row + [c])
      ensures forall r, j | 0 <= r < ROWS && r != y && 0 <= j < COLUMNS :: Cell(r, j) == old(Cell(r, j))
      ensures forall r | 0 <= r < ROWS && r != y :: lengths[r] == old(lengths[r])
    {
      characters[COLUMNS * y + x] := c;
      lengths[y] := lengths[y] + 1;
      assert forall j | 0 <= j < COLUMNS && j != x :: Cell(y, j) == old(Cell(y, j));
      assert Cell(y, x) == c;
    }
  }
}
