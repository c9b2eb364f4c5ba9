/**
 * The terminal text field: a list of lines and a cursor `(column, row)` edited one key at a time.
 * Text is ASCII, so a grapheme is one character and a line's length is its number of characters.
 */
module TextEditing {

  /** The keys `handle_event` tells apart; every other key is `Other`. */
  datatype KeyCode = Backspace | Delete | Enter | Char(c: char) | Up | Down | Left | Right | End | Home | Other

  /** The lines and the cursor of a `TextFieldState`. */
  datatype Field = Field(lines: seq<string>, col: nat, row: nat)

  /** Without lines the cursor is at `(0, 0)`; otherwise it is on a line, at most at its end. */
  predicate CursorInside(f: Field) {
    (f.lines == [] ==> f.col == 0 && f.row == 0)
    && (f.lines != [] ==> f.row < |f.lines| && f.col <= |f.lines[f.row]|)
  }

  /** `current_line_len` */
  function CurrentLineLen(lines: seq<string>, row: nat): nat {
    if row < |lines| then |lines[row]| else 0
  }

  function Min(a: nat, b: nat): nat {
    if a < b then a else b
  }

  /** `remove_char` */
  function RemoveChar(s: string, idx: nat): string
    requires idx < |s|
  {
    s[..idx] + s[idx + 1..]
  }

  /** `insert_char`: at `idx`, or at the end when the line is shorter. */
  function InsertChar(s: string, idx: nat, c: char): string {
    if idx < |s| then s[..idx] + [c] + s[idx..] else s + [c]
  }

  /** The position `split_at_char` splits at: `mid`, or the end when the line is shorter. */
  function SplitPoint(s: string, mid: nat): nat {
    if mid < |s| then mid else |s|
  }

  /** `handle_event`, as written. */
  function Step(f: Field, key: KeyCode): Field
    requires CursorInside(f)
  {
    var lines := f.lines;
    match key
    case Backspace =>
      if f.col > 0 then
        Field(lines[f.row := RemoveChar(lines[f.row], f.col - 1)], f.col - 1, f.row)
      else if lines != [] then
        var line := lines[f.row];
        var rest := lines[..f.row] + lines[f.row + 1..];
        var row := if f.row > 0 then f.row - 1 else f.row;
        var col := CurrentLineLen(rest, row);
        if rest != [] then Field(rest[row := rest[row] + line], col, row) else Field(rest, col, row)
      else f
    case Delete =>
      if lines != [] then
        if |lines[f.row]| > f.col then Field(lines[f.row := RemoveChar(lines[f.row], f.col)], f.col, f.row)
        else if |lines| > f.row + 1 then
          Field(lines[..f.row] + [lines[f.row] + lines[f.row + 1]] + lines[f.row + 2..], f.col, f.row)
        else f
      else f
    case Enter =>
      if lines == [] then Field(["", ""], f.col, 1)
      else
        var line := lines[f.row];
        var mid := SplitPoint(line, f.col);
        Field(lines[..f.row] + [line[..mid], line[mid..]] + lines[f.row + 1..], 0, f.row + 1)
    case Char(c) =>
      if lines == [] then Field([[c]], f.col + 1, f.row)
      else Field(lines[f.row := InsertChar(lines[f.row], f.col, c)], f.col + 1, f.row)
    case Up =>
      if f.row > 0 then Field(lines, Min(CurrentLineLen(lines, f.row - 1), f.col), f.row - 1) else f
    case Down =>
      if f.row + 1 < |lines| then Field(lines, Min(CurrentLineLen(lines, f.row + 1), f.col), f.row + 1) else f
    case Left =>
      if f.col > 0 then f.(col := f.col - 1) else f
    case Right =>
      if f.col < CurrentLineLen(lines, f.row) then f.(col := f.col + 1) else f
    case End => f.(col := CurrentLineLen(lines, f.row))
    case Home => f.(col := 0)
    case Other => f
  }

  /** `handle_event` with Backspace at the very start of the text doing nothing. */
  function StepCorrected(f: Field, key: KeyCode): Field
    requires CursorInside(f)
  {
    if key == Backspace && f.col == 0 && f.row == 0 then f else Step(f, key)
  }

  /** Every key keeps the cursor inside the lines. */
  lemma StepKeepsCursorInside(f: Field, key: KeyCode)
    requires CursorInside(f)
    ensures CursorInside(Step(f, key)) && CursorInside(StepCorrected(f, key))
  {
  }

  // ---------------------------------------------------------------------------------------
  // The text around the cursor

  /** `lines.join("\n")` */
  function Join(ls: seq<string>): string {
    if ls == [] then ""
    else if |ls| == 1 then ls[0]
    else ls[0] + "\n" + Join(ls[1..])
  }

  /** The text before the cursor. */
  function Before(f: Field): string
    requires CursorInside(f)
  {
    if f.lines == [] then "" else Join(f.lines[..f.row] + [f.lines[f.row][..f.col]])
  }

  /** The text from the cursor on. */
  function After(f: Field): string
    requires CursorInside(f)
  {
    if f.lines == [] then "" else Join([f.lines[f.row][f.col..]] + f.lines[f.row + 1..])
  }

  /** Joining lines where one line is cut in two cuts the text in two. */
  lemma {:induction false} JoinCut(p: seq<string>, x: string, y: string, r: seq<string>)
    ensures Join(p + [x + y] + r) == Join(p + [x]) + Join([y] + r)
    decreases |p|
  {
    if p == [] {
      assert [x + y] + r == [x + y] + r;
      if r != [] {
        assert ([x + y] + r)[1..] == r && ([y] + r)[1..] == r;
      }
    } else {
      JoinCut(p[1..], x, y, r);
      assert (p + [x + y] + r)[1..] == p[1..] + [x + y] + r;
      assert (p + [x])[1..] == p[1..] + [x];
    }
  }

  /** Joining two non-empty lists of lines puts one line break between them. */
  lemma {:induction false} JoinConcat(a: seq<string>, b: seq<string>)
    requires a != [] && b != []
    ensures Join(a + b) == Join(a) + "\n" + Join(b)
    decreases |a|
  {
    if |a| > 1 {
      JoinConcat(a[1..], b);
      assert (a + b)[1..] == a[1..] + b;
    } else {
      assert (a + b)[1..] == b;
    }
  }

  /** The text is the text before the cursor followed by the text from it on. */
  lemma TextSplitsAtCursor(f: Field)
    requires CursorInside(f)
    ensures Join(f.lines) == Before(f) + After(f)
  {
    if f.lines != [] {
      var l := f.lines[f.row];
      JoinCut(f.lines[..f.row], l[..f.col], l[f.col..], f.lines[f.row + 1..]);
      assert l[..f.col] + l[f.col..] == l;
      assert f.lines == f.lines[..f.row] + [l] + f.lines[f.row + 1..];
    }
  }

  /** Before the cursor there is nothing exactly at the start of the first line. */
  lemma AtStart(f: Field)
    requires CursorInside(f)
    ensures Before(f) == "" <==> f.col == 0 && f.row == 0
  {
    if f.lines != [] && f.row > 0 {
      JoinConcat(f.lines[..f.row], [f.lines[f.row][..f.col]]);
    }
  }

  /** A character key types the character at the cursor, which then stands after it. */
  lemma CharTypesAtCursor(f: Field, c: char)
    requires CursorInside(f)
    ensures var g := Step(f, Char(c)); Before(g) == Before(f) + [c] && After(g) == After(f)
  {
    var g := Step(f, Char(c));
    if f.lines != [] {
      var l := f.lines[f.row];
      var l' := InsertChar(l, f.col, c);
      assert l' == l[..f.col] + [c] + l[f.col..];
      assert g.lines[..g.row] == f.lines[..f.row] && g.lines[g.row + 1..] == f.lines[f.row + 1..];
      assert l'[..g.col] == l[..f.col] + [c];
      assert l'[g.col..] == l[f.col..];
      JoinCut(f.lines[..f.row], l[..f.col], [c], []);
      assert f.lines[..f.row] + [l[..f.col] + [c]] + [] == g.lines[..g.row] + [l'[..g.col]];
      assert [[c]] + [] == [[c]];
      assert Before(g) == Join(g.lines[..g.row] + [l'[..g.col]]);
    }
  }

  /** Enter breaks the line at the cursor: a line break is typed, and the cursor stands after it. */
  lemma EnterBreaksAtCursor(f: Field)
    requires CursorInside(f)
    ensures var g := Step(f, Enter);
      && Before(g) == Before(f) + "\n"
      && After(g) == After(f)
      && |g.lines| == (if f.lines == [] then 2 else |f.lines| + 1)
  {
    var g := Step(f, Enter);
    if f.lines != [] {
      var l := f.lines[f.row];
      var p := f.lines[..f.row];
      assert g.lines[..g.row] == p + [l[..f.col]];
      assert g.lines[g.row] == l[f.col..] && g.lines[g.row + 1..] == f.lines[f.row + 1..];
      assert l[f.col..][..0] == "";
      JoinConcat(p + [l[..f.col]], [""]);
      assert g.lines[..g.row] + [g.lines[g.row][..0]] == (p + [l[..f.col]]) + [""];
    } else {
      assert g.lines[..1] + [g.lines[1][..0]] == ["", ""];
    }
  }

  /** Backspace anywhere but at the start deletes the character before the cursor, joining lines at a line break. */
  lemma BackspaceDeletesBeforeCursor(f: Field)
    requires CursorInside(f) && Before(f) != ""
    ensures var g := Step(f, Backspace); Before(g) == Before(f)[..|Before(f)| - 1] && After(g) == After(f)
  {
    AtStart(f);
    var g := Step(f, Backspace);
    var l := f.lines[f.row];
    var p := f.lines[..f.row];
    if f.col > 0 {
      var l' := RemoveChar(l, f.col - 1);
      assert g.lines[..g.row] == p && g.lines[g.row + 1..] == f.lines[f.row + 1..];
      assert l'[..g.col] == l[..f.col - 1] && l'[g.col..] == l[f.col..];
      JoinCut(p, l[..f.col - 1], [l[f.col - 1]], []);
      assert l[..f.col] == l[..f.col - 1] + [l[f.col - 1]];
      assert p + [l[..f.col - 1] + [l[f.col - 1]]] + [] == p + [l[..f.col]];
      assert [[l[f.col - 1]]] + [] == [[l[f.col - 1]]];
      assert Before(g) == Join(p + [l[..f.col - 1]]);
      assert Before(f) == Join(p + [l[..f.col - 1]]) + [l[f.col - 1]];
    } else {
      var rest := f.lines[..f.row] + f.lines[f.row + 1..];
      var prev := f.lines[f.row - 1];
      assert g.row == f.row - 1 && g.col == |prev|;
      assert g.lines[..g.row] == f.lines[..f.row - 1];
      assert g.lines[g.row] == prev + l;
      assert g.lines[g.row + 1..] == f.lines[f.row + 1..];
      assert (prev + l)[..g.col] == prev && (prev + l)[g.col..] == l;
      assert f.lines[..f.row - 1] + [prev] == p;
      JoinConcat(p, [""]);
      assert p + [l[..0]] == p + [""];
      assert l[0..] == l;
    }
  }

  /** Delete removes the character from the cursor on, joining the next line at the end of a line. */
  lemma DeleteRemovesAtCursor(f: Field)
    requires CursorInside(f)
    ensures var g := Step(f, Delete);
      Before(g) == Before(f) && After(g) == (if After(f) == "" then "" else After(f)[1..])
  {
    if f.lines != [] {
      if |f.lines[f.row]| > f.col {
        DeleteInsideLine(f);
      } else if |f.lines| > f.row + 1 {
        DeleteJoinsNextLine(f);
      } else {
        assert f.lines[f.row][f.col..] == "" && f.lines[f.row + 1..] == [];
      }
    }
  }

  /** Delete inside a line removes the character under the cursor. */
  lemma DeleteInsideLine(f: Field)
    requires CursorInside(f) && f.lines != [] && |f.lines[f.row]| > f.col
    ensures var g := Step(f, Delete); Before(g) == Before(f) && After(f) != "" && After(g) == After(f)[1..]
  {
    var g := Step(f, Delete);
    var l := f.lines[f.row];
    var p := f.lines[..f.row];
    var r := f.lines[f.row + 1..];
    var l' := RemoveChar(l, f.col);
    assert f.lines[f.row := l'] == p + [l'] + r;
    SplitAround(p, l', r);
    assert l'[..f.col] == l[..f.col] && l'[f.col..] == l[f.col + 1..];
    JoinCut([], [l[f.col]], l[f.col + 1..], r);
    assert [l[f.col]] + l[f.col + 1..] == l[f.col..];
  }

  /** Delete at the end of a line that has a successor joins the successor to it. */
  lemma DeleteJoinsNextLine(f: Field)
    requires CursorInside(f) && f.lines != [] && |f.lines[f.row]| <= f.col && |f.lines| > f.row + 1
    ensures var g := Step(f, Delete); Before(g) == Before(f) && After(f) != "" && After(g) == After(f)[1..]
  {
    var g := Step(f, Delete);
    var l := f.lines[f.row];
    var next := f.lines[f.row + 1];
    var rest := f.lines[f.row + 2..];
    var p := f.lines[..f.row];
    assert g == Field(p + [l + next] + rest, f.col, f.row);
    SplitAround(p, l + next, rest);
    assert f.col == |l| && f.lines[f.row + 1..] == [next] + rest;
    JoinedLinesAround(l, next, rest);
  }

  /** The parts of a sequence around the element at `|p|`. */
  lemma SplitAround<T>(p: seq<T>, x: T, r: seq<T>)
    ensures var s := p + [x] + r; s[..|p|] == p && s[|p|] == x && s[|p| + 1..] == r
  {
  }

  /** Around the cursor at the end of `l`, joining `l` and `next` changes only the line break between them. */
  lemma JoinedLinesAround(l: string, next: string, rest: seq<string>)
    ensures (l + next)[..|l|] == l[..|l|] && (l + next)[|l|..] == next
    ensures Join([l[|l|..]] + ([next] + rest)) == "\n" + Join([next] + rest)
  {
    JoinConcat([""], [next] + rest);
    assert l[|l|..] == "";
  }

  /** The moving keys leave the text as it is. */
  lemma MovingKeepsText(f: Field, key: KeyCode)
    requires CursorInside(f) && (key.Up? || key.Down? || key.Left? || key.Right? || key.End? || key.Home? || key.Other?)
    ensures var g := Step(f, key); Join(g.lines) == Join(f.lines) && Before(g) + After(g) == Before(f) + After(f)
  {
    TextSplitsAtCursor(f);
    StepKeepsCursorInside(f, key);
    TextSplitsAtCursor(Step(f, key));
  }

  /**
   * As written, Backspace at the very start moves the first line onto the end of the second, or
   * removes a sole line: `["ab", "cd"]` becomes `["cdab"]` and `["ab"]` becomes `[]`.
   */
  lemma BackspaceAtStartAsWritten()
    ensures Step(Field(["ab", "cd"], 0, 0), Backspace) == Field(["cdab"], 2, 0)
    ensures Step(Field(["ab"], 0, 0), Backspace) == Field([], 0, 0)
    ensures Join(["ab", "cd"]) != Join(["cdab"])
  {
    var two: seq<string> := ["ab", "cd"];
    assert two[..0] + two[1..] == ["cd"];
    assert "cd" + "ab" == "cdab";
    assert ["cd"][0 := "cdab"] == ["cdab"];
    var one: seq<string> := ["ab"];
    assert one[..0] + one[1..] == [];
    assert two[1..] == ["cd"];
    assert Join(two)[2] == '\n';
    assert Join(["cdab"])[2] == 'a';
  }

  /**
   * With the correction every key acts on the text at the cursor: Backspace deletes the character
   * before it, or nothing at the start.
   */
  lemma BackspaceCorrected(f: Field)
    requires CursorInside(f)
    ensures var g := StepCorrected(f, Backspace);
      (Before(f) == "" ==> g == f)
      && (Before(f) != "" ==> Before(g) == Before(f)[..|Before(f)| - 1] && After(g) == After(f))
  {
    AtStart(f);
    if Before(f) != "" {
      BackspaceDeletesBeforeCursor(f);
    }
  }

  // ---------------------------------------------------------------------------------------
  // Setting the text

  /** The pieces of a text between its line breaks. */
  function Pieces(s: string): (r: seq<string>)
    ensures r != []
  {
    if s == [] then [""]
    else
      var rest := Pieces(s[1..]);
      if s[0] == '\n' then [""] + rest else [[s[0]] + rest[0]] + rest[1..]
  }

  /** A line ended by `"\r\n"` loses its carriage return. */
  function StripCarriageReturn(line: string): string {
    if line != [] && line[|line| - 1] == '\r' then line[..|line| - 1] else line
  }

  function StripAll(ls: seq<string>): (r: seq<string>)
    ensures |r| == |ls|
  {
    if ls == [] then [] else [StripCarriageReturn(ls[0])] + StripAll(ls[1..])
  }

  /** `str::lines`: split at `"\n"` or `"\r\n"`; a final line break adds no empty line. */
  function Lines(text: string): seq<string> {
    var p := Pieces(text);
    var last := p[|p| - 1];
    StripAll(p[..|p| - 1]) + (if last == "" then [] else [last])
  }

  predicate PlainLine(line: string) {
    '\n' !in line && '\r' !in line
  }

  lemma {:induction false} PiecesOfPlain(a: string, rest: string)
    requires PlainLine(a)
    ensures Pieces(a + rest) == [a + Pieces(rest)[0]] + Pieces(rest)[1..]
    decreases |a|
  {
    if a != [] {
      PiecesOfPlain(a[1..], rest);
      assert (a + rest)[1..] == a[1..] + rest;
      assert [a[0]] + (a[1..] + Pieces(rest)[0]) == a + Pieces(rest)[0];
    } else {
      assert a + rest == rest;
      assert a + Pieces(rest)[0] == Pieces(rest)[0];
      assert [Pieces(rest)[0]] + Pieces(rest)[1..] == Pieces(rest);
    }
  }

  lemma {:induction false} PiecesOfJoin(ls: seq<string>)
    requires ls != [] && forall k :: 0 <= k < |ls| ==> PlainLine(ls[k])
    ensures Pieces(Join(ls)) == ls
    decreases |ls|
  {
    if |ls| == 1 {
      PiecesOfPlain(ls[0], "");
      assert ls[0] + "" == ls[0];
      assert Pieces("") == [""];
      assert [ls[0] + ""] + [""][1..] == ls;
    } else {
      PiecesOfJoin(ls[1..]);
      assert ls[0] + "\n" + Join(ls[1..]) == ls[0] + ("\n" + Join(ls[1..]));
      PiecesOfPlain(ls[0], "\n" + Join(ls[1..]));
      assert ("\n" + Join(ls[1..]))[1..] == Join(ls[1..]);
      assert Pieces("\n" + Join(ls[1..])) == [""] + ls[1..];
      assert ls[0] + "" == ls[0];
      assert ls == [ls[0]] + ls[1..];
    }
  }

  lemma {:induction false} StripPlain(ls: seq<string>)
    requires forall k :: 0 <= k < |ls| ==> PlainLine(ls[k])
    ensures StripAll(ls) == ls
    decreases |ls|
  {
    if ls != [] {
      StripPlain(ls[1..]);
      assert ls == [ls[0]] + ls[1..];
    }
  }

  lemma SplitLast(ls: seq<string>)
    requires ls != []
    ensures ls == ls[..|ls| - 1] + [ls[|ls| - 1]]
  {
  }

  /** Pieces whose last one is empty give the lines before it; otherwise all of them, without carriage returns. */
  lemma LinesOfPieces(text: string, init: seq<string>, last: string)
    requires Pieces(text) == init + [last]
    ensures Lines(text) == StripAll(init) + (if last == "" then [] else [last])
  {
    var p := Pieces(text);
    assert p[..|p| - 1] == init;
  }

  /**
   * `set_text(get_text())` gives back the lines, except that one trailing empty line is dropped,
   * so that a sole empty line becomes no line at all.
   */
  lemma SetTextOfGetText(ls: seq<string>)
    requires forall k :: 0 <= k < |ls| ==> PlainLine(ls[k])
    ensures Lines(Join(ls)) == if ls != [] && ls[|ls| - 1] == "" then ls[..|ls| - 1] else ls
  {
    if ls == [] {
      assert Pieces("") == [""];
    } else {
      SplitLast(ls);
      PiecesOfJoin(ls);
      StripPlain(ls[..|ls| - 1]);
      LinesOfPieces(Join(ls), ls[..|ls| - 1], ls[|ls| - 1]);
    }
  }

  /** `first_line`: the first line, or nothing without lines. */
  function FirstLine(ls: seq<string>): string {
    if ls != [] then ls[0] else ""
  }

  /** The joined text starts with the first line, followed by a line break when there are more. */
  lemma JoinStartsWithFirst(ls: seq<string>)
    requires ls != []
    ensures ls[0] <= Join(ls) && (|ls| > 1 ==> Join(ls)[|ls[0]|] == '\n') && (|ls| == 1 ==> Join(ls) == ls[0])
  {
    if |ls| > 1 {
      assert Join(ls) == ls[0] + ("\n" + Join(ls[1..]));
    }
  }

  /** The first line is the text up to its first line break. */
  lemma FirstLineIsTextUpToBreak(ls: seq<string>)
    requires forall k :: 0 <= k < |ls| ==> PlainLine(ls[k])
    ensures var first := FirstLine(ls); var text := Join(ls);
      && PlainLine(first)
      && first <= text
      && (|first| < |text| ==> text[|first|] == '\n')
  {
    if ls != [] {
      assert PlainLine(ls[0]);
      JoinStartsWithFirst(ls);
    }
  }

  /** Dropping a trailing empty line can leave the cursor below the last line. */
  lemma SetTextCanStrandCursor()
    ensures var f := Field(["a", ""], 0, 1);
      CursorInside(f) && Lines(Join(f.lines)) == ["a"] && !CursorInside(f.(lines := ["a"]))
  {
    SetTextOfGetText(["a", ""]);
  }

  /** `TextFieldState`; the screen position of the cursor belongs to rendering and is left out. */
  class TextFieldState {
    var cursor: (nat, nat)
    var scroll: (nat, nat)
    var lines: seq<string>

    function State(): Field
      reads this
    {
      Field(lines, cursor.0, cursor.1)
    }

    /** `new` */
    constructor ()
      ensures lines == [] && cursor == (0, 0) && scroll == (0, 0) && CursorInside(State())
    {
      cursor := (0, 0);
      scroll := (0, 0);
      lines := [];
    }

    function CurrentLineLength(): nat
      reads this
    {
      if cursor.1 < |lines| then |lines[cursor.1]| else 0
    }

    /** `handle_event` */
    method HandleEvent(event: KeyCode)
      requires CursorInside(State())
      modifies this
      ensures State() == Step(old(State()), event) && scroll == old(scroll) && CursorInside(State())
    {
      StepKeepsCursorInside(State(), event);
      match event {
        case Backspace => RemoveBefore();
        case Delete => RemoveAt();
        case Enter => BreakLine();
        case Char(c) => TypeChar(c);
        case _ => Move(event);
      }
    }

    /** Backspace: the character before the cursor goes, or at a line start the line joins the one above. */
    method RemoveBefore()
      requires CursorInside(State())
      modifies this
      ensures State() == Step(old(State()), Backspace) && scroll == old(scroll)
    {
      if cursor.0 > 0 {
        cursor := (cursor.0 - 1, cursor.1);
        lines := lines[cursor.1 := RemoveChar(lines[cursor.1], cursor.0)];
      } else if lines != [] {
        var line := lines[cursor.1];
        lines := lines[..cursor.1] + lines[cursor.1 + 1..];
        if cursor.1 > 0 {
          cursor := (cursor.0, cursor.1 - 1);
        }
        cursor := (CurrentLineLength(), cursor.1);
        if lines != [] {
          lines := lines[cursor.1 := lines[cursor.1] + line];
        }
      }
    }

    /** Delete: the character at the cursor goes, or at a line end the next line joins this one. */
    method RemoveAt()
      requires CursorInside(State())
      modifies this
      ensures State() == Step(old(State()), Delete) && scroll == old(scroll)
    {
      if lines != [] {
        var line := lines[cursor.1];
        if |line| > cursor.0 {
          lines := lines[cursor.1 := RemoveChar(line, cursor.0)];
        } else if |lines| > cursor.1 + 1 {
          var next := lines[cursor.1 + 1];
          lines := lines[..cursor.1 + 1] + lines[cursor.1 + 2..];
          lines := lines[cursor.1 := lines[cursor.1] + next];
        }
      }
    }

    /** Enter: the line splits at the cursor, which moves to the start of the new line. */
    method BreakLine()
      requires CursorInside(State())
      modifies this
      ensures State() == Step(old(State()), Enter) && scroll == old(scroll)
    {
      if lines == [] {
        lines := lines + [""];
        lines := lines + [""];
        cursor := (cursor.0, 1);
      } else {
        var line := lines[cursor.1];
        var mid := SplitPoint(line, cursor.0);
        lines := lines[cursor.1 := line[..mid]];
        cursor := (0, cursor.1 + 1);
        lines := lines[..cursor.1] + [line[mid..]] + lines[cursor.1..];
      }
    }

    /** A character key: the character goes in at the cursor, which moves past it. */
    method TypeChar(c: char)
      requires CursorInside(State())
      modifies this
      ensures State() == Step(old(State()), Char(c)) && scroll == old(scroll)
    {
      if lines == [] {
        lines := lines + [[c]];
      } else {
        lines := lines[cursor.1 := InsertChar(lines[cursor.1], cursor.0, c)];
      }
      cursor := (cursor.0 + 1, cursor.1);
    }

    /** The keys that only move the cursor, and the keys that do nothing. */
    method Move(event: KeyCode)
      requires CursorInside(State()) && !event.Backspace? && !event.Delete? && !event.Enter? && !event.Char?
      modifies this
      ensures State() == Step(old(State()), event) && scroll == old(scroll)
    {
      match event {
        case Up =>
          if cursor.1 > 0 {
            cursor := (cursor.0, cursor.1 - 1);
            cursor := (Min(CurrentLineLength(), cursor.0), cursor.1);
          }
        case Down =>
          if cursor.1 + 1 < |lines| {
            cursor := (cursor.0, cursor.1 + 1);
            cursor := (Min(CurrentLineLength(), cursor.0), cursor.1);
          }
        case Left =>
          if cursor.0 > 0 {
            cursor := (cursor.0 - 1, cursor.1);
          }
        case Right =>
          if cursor.0 < CurrentLineLength() {
            cursor := (cursor.0 + 1, cursor.1);
          }
        case End =>
          cursor := (CurrentLineLength(), cursor.1);
        case Home =>
          cursor := (0, cursor.1);
        case Other =>
      }
    }

    /** `clear` */
    method Clear()
      modifies this
      ensures lines == [] && cursor == (0, 0) && scroll == (0, 0) && CursorInside(State())
    {
      lines := [];
      cursor := (0, 0);
      scroll := (0, 0);
    }

    /** `get_text` */
    function GetText(): string
      reads this
    {
      Join(lines)
    }

    /** `set_text`: the lines of the text; the cursor stays where it was. */
    method SetText(text: string)
      modifies this
      ensures lines == Lines(text) && cursor == old(cursor) && scroll == old(scroll)
    {
      lines := Lines(text);
    }

    /** `end`: the cursor to the end of the last line. */
    method End()
      modifies this
      ensures lines == old(lines) && scroll == old(scroll) && CursorInside(State())
      ensures cursor == if lines == [] then (0, 0) else (|lines[|lines| - 1]|, |lines| - 1)
      ensures After(State()) == ""
    {
      if lines != [] {
        cursor := (|lines[|lines| - 1]|, |lines| - 1);
        assert lines[cursor.1][cursor.0..] == "";
        assert lines[cursor.1 + 1..] == [];
      } else {
        cursor := (0, 0);
      }
    }
  }
}
