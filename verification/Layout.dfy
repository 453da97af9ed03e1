/** What a text terminal of a given width shows for a text: the reference for the console. */
module Layout {
  import opened Words

  type Row = seq<char>

  /** A line cut into rows of `w` characters; the last row may be shorter, and only an empty line has an empty row. */
  function Wrap(line: seq<char>, w: nat): (rows: seq<Row>)
    requires w > 0
    ensures |rows| > 0
  {
    if |line| <= w then [line] else [line[..w]] + Wrap(line[w..], w)
  }

  /** The unfinished last line: after a full row the next row is begun at once. */
  function WrapOpen(line: seq<char>, w: nat): (rows: seq<Row>)
    requires w > 0
    ensures |rows| > 0 && |rows[|rows| - 1]| < w
  {
    if |line| < w then [line] else [line[..w]] + WrapOpen(line[w..], w)
  }

  function FirstNewline(text: seq<char>): (i: nat)
    ensures i <= |text|
    ensures i < |text| ==> text[i] == '\n'
    ensures forall j :: 0 <= j < i ==> text[j] != '\n'
  {
    if text == [] || text[0] == '\n' then 0 else 1 + FirstNewline(text[1..])
  }

  lemma IsFirstNewline(text: seq<char>, i: nat)
    requires i <= |text| && (i < |text| ==> text[i] == '\n')
    requires forall j :: 0 <= j < i ==> text[j] != '\n'
    ensures FirstNewline(text) == i
  {
    var k := FirstNewline(text);
    assert i <= k <= i;
  }

  /** The rows of a text: its lines end at newlines and are wrapped; the last row is the one being written. */
  function Rows(text: seq<char>, w: nat): (rows: seq<Row>)
    requires w > 0
    ensures |rows| > 0 && |rows[|rows| - 1]| < w
    decreases |text|
  {
    var i := FirstNewline(text);
    if i == |text| then WrapOpen(text, w) else Wrap(text[..i], w) + Rows(text[i + 1..], w)
  }

  /** The line being written has just filled a row exactly. */
  predicate RowJustFilled(text: seq<char>, w: nat)
    requires w > 0
    decreases |text|
  {
    var i := FirstNewline(text);
    if i == |text| then |text| > 0 && |text| % w == 0 else RowJustFilled(text[i + 1..], w)
  }

  /** How one more character changes the rows. */
  function Next(rows: seq<Row>, filled: bool, w: nat, c: char): seq<Row>
    requires |rows| > 0
  {
    var last := |rows| - 1;
    if c == '\n' then
      if filled then rows else rows + [[]]
    else
      var row := rows[last] + [c];
      rows[..last] + (if |row| == w then [row, []] else [row])
  }

  lemma {:induction false} OpenOrClosed(line: seq<char>, w: nat)
    requires w > 0
    ensures WrapOpen(line, w) == if |line| > 0 && |line| % w == 0 then Wrap(line, w) + [[]] else Wrap(line, w)
  {
    if |line| > w {
      OpenOrClosed(line[w..], w);
      ModuloLess(|line|, w);
    } else if |line| == w {
      assert line[..w] == line;
      assert WrapOpen(line[w..], w) == [[]];
      ModuloLess(w, w);
    }
  }

  lemma ModuloLess(n: nat, w: nat)
    requires 0 < w <= n
    ensures n % w == (n - w) % w
  {
    var q, r := n / w, n % w;
    assert n - w == (q - 1) * w + r;
    Residue(n - w, w, q - 1, r);
  }

  lemma NextConcat(front: seq<Row>, rows: seq<Row>, filled: bool, w: nat, c: char)
    requires |rows| > 0
    ensures Next(front + rows, filled, w, c) == front + Next(rows, filled, w, c)
  {
    assert (front + rows)[..|front| + |rows| - 1] == front + rows[..|rows| - 1];
  }

  lemma {:induction false} OpenGrows(line: seq<char>, w: nat, c: char)
    requires w > 0 && c != '\n'
    ensures WrapOpen(line + [c], w) == Next(WrapOpen(line, w), false, w, c)
  {
    if |line| >= w {
      assert (line + [c])[..w] == line[..w] && (line + [c])[w..] == line[w..] + [c];
      OpenGrows(line[w..], w, c);
      NextConcat([line[..w]], WrapOpen(line[w..], w), false, w, c);
    } else if |line| + 1 == w {
      assert (line + [c])[..w] == line + [c];
      assert WrapOpen((line + [c])[w..], w) == [[]];
    }
  }

  /** The rows of a text that begins with the finished line `line`. */
  lemma AfterLine(line: seq<char>, rest: seq<char>, w: nat)
    requires w > 0 && '\n' !in line
    ensures Rows(line + ['\n'] + rest, w) == Wrap(line, w) + Rows(rest, w)
    ensures RowJustFilled(line + ['\n'] + rest, w) == RowJustFilled(rest, w)
  {
    var text := line + ['\n'] + rest;
    IsFirstNewline(text, |line|);
    assert text[..|line|] == line && text[|line| + 1..] == rest;
  }

  /** And how it grows: only the rest changes. */
  lemma AfterLineAppended(text: seq<char>, line: seq<char>, rest: seq<char>, w: nat, c: char)
    requires w > 0 && '\n' !in line && text == line + ['\n'] + rest
    ensures Rows(text, w) == Wrap(line, w) + Rows(rest, w) && Rows(text + [c], w) == Wrap(line, w) + Rows(rest + [c], w)
    ensures RowJustFilled(text, w) == RowJustFilled(rest, w) && RowJustFilled(text + [c], w) == RowJustFilled(rest + [c], w)
  {
    AfterLine(line, rest, w);
    AfterLine(line, rest + [c], w);
    assert text + [c] == line + ['\n'] + (rest + [c]);
  }

  /** An unfinished line that is finished. */
  lemma LineFinished(line: seq<char>, w: nat)
    requires w > 0 && '\n' !in line
    ensures Rows(line + ['\n'], w) == Wrap(line, w) + [[]] && !RowJustFilled(line + ['\n'], w)
  {
    AfterLine(line, [], w);
    assert line + ['\n'] + [] == line + ['\n'];
  }

  lemma OpenLine(line: seq<char>, w: nat)
    requires w > 0 && '\n' !in line
    ensures Rows(line, w) == WrapOpen(line, w)
    ensures RowJustFilled(line, w) <==> |line| > 0 && |line| % w == 0
  {
    IsFirstNewline(line, |line|);
  }

  /** A text that holds a newline is its first line and the rest. */
  lemma Split(text: seq<char>) returns (line: seq<char>, rest: seq<char>)
    requires '\n' in text
    ensures text == line + ['\n'] + rest && '\n' !in line
  {
    var i := FirstNewline(text);
    line, rest := text[..i], text[i + 1..];
  }

  /** Laying out a text one character longer takes one step from the rows of the text. */
  lemma {:induction false} RowsGrow(text: seq<char>, w: nat, c: char)
    requires w > 0
    ensures Rows(text + [c], w) == Next(Rows(text, w), RowJustFilled(text, w), w, c)
    decreases |text|
  {
    if '\n' in text {
      var line, rest := Split(text);
      RowsGrow(rest, w, c);
      AfterLineAppended(text, line, rest, w, c);
      NextConcat(Wrap(line, w), Rows(rest, w), RowJustFilled(rest, w), w, c);
    } else {
      OpenRowsGrow(text, w, c);
    }
  }

  lemma OpenRowsGrow(line: seq<char>, w: nat, c: char)
    requires w > 0 && '\n' !in line
    ensures Rows(line + [c], w) == Next(Rows(line, w), RowJustFilled(line, w), w, c)
  {
    OpenLine(line, w);
    if c == '\n' {
      LineFinished(line, w);
      OpenOrClosed(line, w);
    } else {
      OpenLine(line + [c], w);
      OpenGrows(line, w, c);
    }
  }

  function LastRow(rows: seq<Row>): Row
    requires |rows| > 0
  {
    rows[|rows| - 1]
  }

  /** The last row has just been filled when the character went into its last column. */
  lemma {:induction false} FillGrows(text: seq<char>, w: nat, c: char)
    requires w > 0
    ensures RowJustFilled(text + [c], w) <==> c != '\n' && |LastRow(Rows(text, w))| + 1 == w
    decreases |text|
  {
    if '\n' in text {
      var line, rest := Split(text);
      FillGrows(rest, w, c);
      AfterLineAppended(text, line, rest, w, c);
      assert LastRow(Wrap(line, w) + Rows(rest, w)) == LastRow(Rows(rest, w));
    } else {
      OpenFillGrows(text, w, c);
    }
  }

  lemma OpenFillGrows(line: seq<char>, w: nat, c: char)
    requires w > 0 && '\n' !in line
    ensures RowJustFilled(line + [c], w) <==> c != '\n' && |LastRow(Rows(line, w))| + 1 == w
  {
    if c == '\n' {
      LineFinished(line, w);
    } else {
      OpenLine(line, w);
      OpenLine(line + [c], w);
      OpenFills(line, w);
    }
  }

  lemma {:induction false} OpenFills(line: seq<char>, w: nat)
    requires w > 0
    ensures (|line| + 1) % w == 0 <==> |LastRow(WrapOpen(line, w))| + 1 == w
  {
    if |line| >= w {
      OpenFills(line[w..], w);
      ModuloLess(|line| + 1, w);
    } else if |line| + 1 < w {
      Residue(|line| + 1, w, 0, |line| + 1);
    }
  }

  // ---------- where each character stands ----------

  /** A finished line takes full rows and then one that is not empty; only an empty line has an empty row. */
  lemma {:induction false} WrapTakes(line: seq<char>, w: nat, q: nat, r: nat)
    requires 0 < r <= w && |line| == q * w + r
    ensures |Wrap(line, w)| == q + 1
    decreases q
  {
    if q > 0 {
      var before := (q - 1) * w;
      assert q * w == before + w;
      WrapTakes(line[w..], w, q - 1, r);
    }
  }

  lemma {:induction false} WrapPlaces(line: seq<char>, w: nat, q: nat, r: nat, k: nat)
    requires r < w && k < |line| && k == q * w + r
    ensures q < |Wrap(line, w)| && r < |Wrap(line, w)[q]| && Wrap(line, w)[q][r] == line[k]
    decreases q
  {
    if q > 0 {
      var before := (q - 1) * w;
      assert q * w == before + w;
      WrapPlaces(line[w..], w, q - 1, r, k - w);
    }
  }

  /** A line ends at a newline or at the end of the text. */
  ghost predicate EndsLine(rest: seq<char>) {
    rest != [] ==> rest[0] == '\n'
  }

  /** Finished lines. */
  ghost predicate Finished(before: seq<char>) {
    before != [] ==> before[|before| - 1] == '\n'
  }

  lemma FirstLineStands(line: seq<char>, rest: seq<char>, w: nat, q: nat, r: nat, k: nat)
    requires '\n' !in line && EndsLine(rest) && r < w && k < |line| && k == q * w + r
    ensures var rows := Rows(line + rest, w);
            q < |rows| && r < |rows[q]| && rows[q][r] == line[k]
  {
    WrapPlaces(line, w, q, r, k);
    if rest == [] {
      assert line + rest == line;
      OpenLine(line, w);
      OpenOrClosed(line, w);
    } else {
      var next := rest[1..];
      assert line + rest == line + ['\n'] + next;
      AfterLine(line, next, w);
    }
  }

  /** All rows but the one being written. */
  function FrontRows(rows: seq<Row>): (front: seq<Row>)
    requires |rows| > 0
    ensures rows == front + [LastRow(rows)]
  {
    rows[..|rows| - 1]
  }

  lemma FrontConcat(a: seq<Row>, b: seq<Row>, c: seq<Row>)
    requires |b| > 0
    ensures |a + b| > 0 && FrontRows(a + b) + c == a + (FrontRows(b) + c)
  {
  }

  lemma Regroup(line: seq<char>, later: seq<char>, text: seq<char>)
    ensures line + ['\n'] + later + text == line + ['\n'] + (later + text)
  {
  }

  /** Finished lines keep their rows, and what follows begins in the row below them. */
  lemma {:induction false} RowsConcat(before: seq<char>, text: seq<char>, w: nat)
    requires w > 0 && Finished(before)
    ensures Rows(before + text, w) == FrontRows(Rows(before, w)) + Rows(text, w)
    decreases |before|
  {
    if before == [] {
      assert before + text == text && WrapOpen(before, w) == [[]];
    } else {
      var l, later := Split(before);
      var t := later + text;
      Regroup(l, later, text);
      AfterLine(l, later, w);
      AfterLine(l, t, w);
      RowsConcat(later, text, w);
      FrontConcat(Wrap(l, w), Rows(later, w), Rows(text, w));
    }
  }

  /**
    Behind finished lines, character `q * w + r` of a line stands `q` rows below the row in which the line begins, at
    column `r`.
   */
  lemma CharacterStands(before: seq<char>, line: seq<char>, rest: seq<char>, w: nat, q: nat, r: nat, k: nat)
    requires Finished(before) && '\n' !in line && EndsLine(rest) && r < w && k < |line| && k == q * w + r
    ensures var rows, at := Rows(before + (line + rest), w), |Rows(before, w)| - 1 + q;
            at < |rows| && r < |rows[at]| && rows[at][r] == line[k]
  {
    var text := line + rest;
    FirstLineStands(line, rest, w, q, r, k);
    RowsConcat(before, text, w);
  }

  /** A finished line of `q` full rows and `r` more characters takes `q + 1` rows, an empty one takes one. */
  lemma LineTakesRows(line: seq<char>, rest: seq<char>, w: nat, q: nat, r: nat)
    requires w > 0 && '\n' !in line && (if line == [] then q == r == 0 else 0 < r <= w && |line| == q * w + r)
    ensures |Rows(line + ['\n'] + rest, w)| == q + 1 + |Rows(rest, w)|
  {
    AfterLine(line, rest, w);
    if line != [] {
      WrapTakes(line, w, q, r);
    }
  }

  // ---------- the layout is faithful to the text ----------

  function Flat(rows: seq<Row>): seq<char> {
    if rows == [] then [] else rows[0] + Flat(rows[1..])
  }

  function WithoutNewlines(text: seq<char>): seq<char> {
    if text == [] then [] else (if text[0] == '\n' then [] else [text[0]]) + WithoutNewlines(text[1..])
  }

  lemma {:induction false} FlatConcat(a: seq<Row>, b: seq<Row>)
    ensures Flat(a + b) == Flat(a) + Flat(b)
  {
    if a == [] {
      assert a + b == b;
    } else {
      assert (a + b)[1..] == a[1..] + b;
      FlatConcat(a[1..], b);
    }
  }

  lemma {:induction false} WithoutConcat(a: seq<char>, b: seq<char>)
    ensures WithoutNewlines(a + b) == WithoutNewlines(a) + WithoutNewlines(b)
  {
    if a == [] {
      assert a + b == b;
    } else {
      assert (a + b)[1..] == a[1..] + b;
      WithoutConcat(a[1..], b);
    }
  }

  lemma FlatAppend(rows: seq<Row>, r: Row)
    ensures Flat(rows + [r]) == Flat(rows) + r
  {
    FlatConcat(rows, [r]);
    assert [r][1..] == [];
  }

  lemma FlatGrows(front: seq<Row>, last: Row, c: char)
    ensures Flat(front + [last + [c]]) == Flat(front + [last]) + [c]
  {
    FlatAppend(front, last);
    FlatAppend(front, last + [c]);
    assert Flat(front) + (last + [c]) == Flat(front) + last + [c];
  }

  lemma NextOfSplit(rows: seq<Row>, front: seq<Row>, last: Row, filled: bool, w: nat, c: char)
    requires rows == front + [last]
    ensures Next(rows, filled, w, c)
            == if c == '\n' then (if filled then rows else rows + [[]])
               else front + [last + [c]] + if |last| + 1 == w then [[]] else []
  {
    assert rows[..|front|] == front && rows[|front|] == last;
    assert front + [last + [c], []] == front + [last + [c]] + [[]];
  }

  /** One more character, newline or not, appears once at the end. */
  lemma NextHolds(rows: seq<Row>, front: seq<Row>, last: Row, filled: bool, w: nat, c: char)
    requires rows == front + [last]
    ensures Flat(Next(rows, filled, w, c)) == Flat(rows) + if c == '\n' then [] else [c]
  {
    var longer := front + [last + [c]];
    NextOfSplit(rows, front, last, filled, w, c);
    if c == '\n' {
      FlatAppend(rows, []);
      assert Flat(rows) + [] == Flat(rows);
    } else {
      FlatGrows(front, last, c);
      FlatAppend(longer, []);
      assert longer + [] == longer && Flat(longer) + [] == Flat(longer);
    }
  }

  /** No character is lost, doubled or moved by the layout. */
  lemma {:induction false} RowsHoldTheText(text: seq<char>, w: nat)
    requires w > 0
    ensures Flat(Rows(text, w)) == WithoutNewlines(text)
  {
    if text != [] {
      var before, c := text[..|text| - 1], text[|text| - 1];
      assert text == before + [c];
      RowsHoldTheText(before, w);
      RowsGrow(before, w, c);
      WithoutGrows(before, c);
      var rows := Rows(before, w);
      NextHolds(rows, FrontRows(rows), LastRow(rows), RowJustFilled(before, w), w, c);
    }
  }

  lemma WithoutGrows(text: seq<char>, c: char)
    ensures WithoutNewlines(text + [c]) == WithoutNewlines(text) + if c == '\n' then [] else [c]
  {
    WithoutConcat(text, [c]);
    assert [c][1..] == [];
  }

  lemma NextFits(rows: seq<Row>, filled: bool, w: nat, c: char)
    requires |rows| > 0 && |LastRow(rows)| < w && forall r :: r in rows ==> |r| <= w
    ensures forall r :: r in Next(rows, filled, w, c) ==> |r| <= w
  {
  }

  /** No row is wider than the screen. */
  lemma {:induction false} RowsFit(text: seq<char>, w: nat)
    requires w > 0
    ensures forall r :: r in Rows(text, w) ==> |r| <= w
  {
    if text != [] {
      var before, c := text[..|text| - 1], text[|text| - 1];
      assert text == before + [c];
      RowsFit(before, w);
      RowsGrow(before, w, c);
      NextFits(Rows(before, w), RowJustFilled(before, w), w, c);
    }
  }
}
