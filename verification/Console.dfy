/** The screen buffer of src/console/console.c: a ring of rows that shows the end of everything printed. */
module Console {
  import L = Layout
  import opened Words

  const BUFFER: int := 200

  /** What row `y` of a screen of height `h` shows at column `x`: the last `h` rows of a text, blank where there is none. */
  function Shown(rows: seq<L.Row>, h: nat, y: nat, x: nat): char {
    var i := if |rows| > h then |rows| - h + y else y;
    if i < |rows| && x < |rows[i]| then rows[i][x] else ' '
  }

  /** The buffer row that is `y` rows below `start` in a ring of `h` rows. */
  function Ring(start: int, h: int, y: int): (r: int)
    requires 0 <= start < h && 0 <= y <= h
    ensures r == if start + y < h then start + y else start + y - h
  {
    RingValue(start, h, y);
    (start + y) % h
  }

  lemma RingValue(start: int, h: int, y: int)
    requires 0 <= start < h && 0 <= y <= h
    ensures (start + y) % h == if start + y < h then start + y else start + y - h
  {
    if start + y < h {
      Residue(start + y, h, 0, start + y);
    } else {
      Residue(start + y, h, 1, start + y - h);
    }
  }

  /** A character that is no newline is shown behind the last one, in a row that may have scrolled up by one. */
  lemma LastIsShown(rows: seq<L.Row>, filled: bool, w: nat, h: nat, c: char)
    requires |rows| > 0 && |L.LastRow(rows)| < w && h > 0 && c != '\n'
    ensures var x, y := |L.LastRow(rows)|, (if |rows| < h then |rows| else h) - 1;
            var row := y - if x + 1 == w && y + 1 == h then 1 else 0;
            0 <= row ==> Shown(L.Next(rows, filled, w, c), h, row, x) == c
  {
  }

  class Screen {
    const screenbuf: array2<char>
    const cursorxmax: int
    const cursorymax: int
    var linestart: int
    var cursorx: int
    var cursory: int
    var linefull: bool
    ghost var printed: seq<char>     // everything handed to printchar so far

    ghost predicate Valid()
      reads this
    {
      && screenbuf.Length0 == screenbuf.Length1 == BUFFER
      && 1 <= cursorxmax < BUFFER && 1 <= cursorymax <= BUFFER
      && 0 <= linestart < cursorymax && 0 <= cursorx < cursorxmax && 0 <= cursory < cursorymax
    }

    /** The character on display in row `y`, column `x`, as refreshscreen draws it. */
    function At(y: int, x: int): char
      requires Valid() && 0 <= y < cursorymax && 0 <= x < cursorxmax
      reads this, screenbuf
    {
      screenbuf[Ring(linestart, cursorymax, y), x]
    }

    /** The screen shows the rows of `text`, and the cursor stands behind its last character. */
    ghost predicate Shows(text: seq<char>)
      requires Valid()
      reads this, screenbuf
    {
      var rows := L.Rows(text, cursorxmax);
      && Displays(rows)
      && linefull == L.RowJustFilled(text, cursorxmax)
    }

    ghost predicate Displays(rows: seq<L.Row>)
      requires Valid() && |rows| > 0
      reads this, screenbuf
    {
      && cursory == (if |rows| < cursorymax then |rows| else cursorymax) - 1
      && cursorx == |rows[|rows| - 1]|
      && forall y, x :: 0 <= y < cursorymax && 0 <= x < cursorxmax ==> At(y, x) == Shown(rows, cursorymax, y, x)
    }

    /** initconsole for a screen of the given size in pixels */
    constructor (width: int, height: int)
      requires 1 <= (width - 6) / 8 < BUFFER && 1 <= (height - 6) / 16 <= BUFFER
      ensures Valid() && Shows([]) && printed == [] && fresh(screenbuf)
      ensures cursorxmax == (width - 6) / 8 && cursorymax == (height - 6) / 16
    {
      screenbuf := new char[BUFFER, BUFFER];
      cursorxmax, cursorymax := (width - 6) / 8, (height - 6) / 16;
      linestart, cursorx, cursory, linefull := 0, 0, 0, false;
      printed := [];
      new;
      ClearScreen();
    }

    /** clearscreen */
    method ClearScreen()
      requires Valid()
      modifies screenbuf
      ensures forall y, x :: 0 <= y < cursorymax && 0 <= x < cursorxmax ==> At(y, x) == ' '
    {
      var i := 0;
      while i < cursorymax
        invariant 0 <= i <= cursorymax
        invariant forall y, x :: 0 <= y < i && 0 <= x < cursorxmax ==> screenbuf[y, x] == ' '
      {
        var j := 0;
        while j < cursorxmax
          invariant 0 <= j <= cursorxmax
          invariant forall y, x :: 0 <= y < i && 0 <= x < cursorxmax ==> screenbuf[y, x] == ' '
          invariant forall x :: 0 <= x < j ==> screenbuf[i, x] == ' '
        {
          screenbuf[i, j] := ' ';
          j := j + 1;
        }
        screenbuf[i, cursorxmax] := '\0';
        i := i + 1;
      }
    }

    /** Lines 159-169 and 179-189: on to the next row, scrolling when the last one was left. */
    method NewRow(ghost rows: seq<L.Row>)
      requires Valid() && |rows| > 0
      requires cursory == (if |rows| < cursorymax then |rows| else cursorymax) - 1
      requires forall y, x :: 0 <= y < cursorymax && 0 <= x < cursorxmax ==> At(y, x) == Shown(rows, cursorymax, y, x)
      modifies this`cursorx, this`cursory, this`linestart, screenbuf
      ensures Valid() && Displays(rows + [[]])
    {
      cursorx := 0;
      if cursory == cursorymax - 1 {
        var i := 0;
        ghost var ls := linestart;
        label Before:
        while i < cursorxmax
          invariant 0 <= i <= cursorxmax && Valid() && cursory == cursorymax - 1 && linestart == ls && cursorx == 0
          invariant forall x :: 0 <= x < i ==> screenbuf[ls, x] == ' '
          invariant forall y, x :: 0 <= y < cursorymax && 0 <= x < cursorxmax && y != ls ==>
                      screenbuf[y, x] == old@Before(screenbuf[y, x])
        {
          screenbuf[Ring(linestart, cursorymax, cursory + 1), i] := ' ';
          i := i + 1;
        }
        linestart := Ring(linestart, cursorymax, 1);
        forall y, x | 0 <= y < cursorymax && 0 <= x < cursorxmax
          ensures At(y, x) == Shown(rows + [[]], cursorymax, y, x)
        {
          if y + 1 < cursorymax {
            assert old@Before(At(y + 1, x)) == Shown(rows, cursorymax, y + 1, x);
            assert Shown(rows + [[]], cursorymax, y, x) == Shown(rows, cursorymax, y + 1, x);
          }
        }
      } else {
        cursory := cursory + 1;
        forall y, x | 0 <= y < cursorymax && 0 <= x < cursorxmax
          ensures At(y, x) == Shown(rows + [[]], cursorymax, y, x)
        {
          assert Shown(rows + [[]], cursorymax, y, x) == Shown(rows, cursorymax, y, x);
        }
      }
    }

    /** Lines 156-195: one character changes what is on display as it changes the rows of a text. */
    method Step(ch: char, ghost rows: seq<L.Row>)
      requires Valid() && |rows| > 0 && Displays(rows) && |rows[|rows| - 1]| < cursorxmax
      modifies this`cursorx, this`cursory, this`linestart, this`linefull, screenbuf
      ensures Valid() && Displays(L.Next(rows, old(linefull), cursorxmax, ch))
      ensures linefull <==> ch != '\n' && |rows[|rows| - 1]| + 1 == cursorxmax
    {
      if ch == '\n' {
        if !linefull {
          NewRow(rows);
        } else {
          linefull := false;
        }
      } else {
        ghost var written := rows[..|rows| - 1] + [rows[|rows| - 1] + [ch]];
        Put(ch, rows);
        if cursorx == cursorxmax - 1 {
          linefull := true;
          NewRow(written);
          assert written + [[]] == L.Next(rows, false, cursorxmax, ch);
        } else {
          linefull := false;
          cursorx := cursorx + 1;
        }
      }
    }

    /** printchar: from a screen that shows a text to one that shows the text and one more character. */
    method PrintChar(ch: char)
      requires Valid() && Shows(printed)
      modifies this, screenbuf
      ensures Valid() && printed == old(printed) + [ch] && Shows(printed)
    {
      L.RowsGrow(printed, cursorxmax, ch);
      L.FillGrows(printed, cursorxmax, ch);
      Step(ch, L.Rows(printed, cursorxmax));
      printed := printed + [ch];
    }

    /** Line 176. */
    method Put(ch: char, ghost rows: seq<L.Row>)
      requires Valid() && |rows| > 0 && Displays(rows)
      modifies screenbuf
      ensures At(cursory, cursorx) == ch
      ensures var written := rows[..|rows| - 1] + [rows[|rows| - 1] + [ch]];
              forall y, x :: 0 <= y < cursorymax && 0 <= x < cursorxmax ==> At(y, x) == Shown(written, cursorymax, y, x)
    {
      screenbuf[Ring(linestart, cursorymax, cursory), cursorx] := ch;
      ghost var written := rows[..|rows| - 1] + [rows[|rows| - 1] + [ch]];
      forall y, x | 0 <= y < cursorymax && 0 <= x < cursorxmax
        ensures At(y, x) == Shown(written, cursorymax, y, x)
      {
        assert old(At(y, x)) == Shown(rows, cursorymax, y, x);
      }
    }

    /** printstring up to the terminating zero */
    method PrintString(buf: seq<char>)
      requires Valid() && Shows(printed)
      modifies this, screenbuf
      ensures Valid() && printed == old(printed) + buf && Shows(printed)
    {
      for i := 0 to |buf|
        invariant Valid() && Shows(printed) && printed == old(printed) + buf[..i]
      {
        PrintChar(buf[i]);
      }
    }
  }
}
