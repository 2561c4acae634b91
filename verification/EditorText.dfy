/** The text of an editor tab: an array of lines, a cursor, and one flat string they stand for. */
module EditorText {

  const MAX_LINES := 65536
  /** The longest line: a buffer of 4096 characters, one of them the terminator. */
  const MAX_LEN := 4095

  datatype Doc = Doc(lines: seq<string>, line: nat, col: nat)

  predicate CursorOk(d: Doc) { d.line < |d.lines| && d.col <= |d.lines[d.line]| }

  // ---- Joining lines ---------------------------------------------------------------------

  /** The lines with a newline between each two. */
  function Join(lines: seq<string>): string {
    if lines == [] then "" else if |lines| == 1 then lines[0] else lines[0] + "\n" + Join(lines[1..])
  }

  lemma {:induction false} JoinConcat(a: seq<string>, b: seq<string>)
    requires a != [] && b != []
    ensures Join(a + b) == Join(a) + "\n" + Join(b)
  {
    if |a| == 1 {
      assert (a + b)[1..] == b;
    } else {
      JoinConcat(a[1..], b);
      assert (a + b)[1..] == a[1..] + b;
    }
  }

  /** The text before the cursor and the text after it. */
  function Before(d: Doc): string
    requires CursorOk(d)
  {
    Join(d.lines[..d.line] + [d.lines[d.line][..d.col]])
  }

  function After(d: Doc): string
    requires CursorOk(d)
  {
    Join([d.lines[d.line][d.col..]] + d.lines[d.line + 1..])
  }

  /** Cutting the lines inside one line cuts the flat text there. */
  lemma JoinCut(a: seq<string>, x: string, y: string, b: seq<string>)
    ensures Join(a + [x + y] + b) == Join(a + [x]) + Join([y] + b)
  {
    var m := [x + y];
    if a != [] {
      JoinConcat(a, [x]);
      JoinConcat(a, m);
    } else {
      assert a + [x] == [x] && a + m == m;
    }
    if b != [] {
      JoinConcat([y], b);
      JoinConcat(a + m, b);
    } else {
      assert [y] + b == [y] && a + m + b == a + m;
    }
  }

  lemma FlatIsBeforeAfter(d: Doc)
    requires CursorOk(d)
    ensures Join(d.lines) == Before(d) + After(d)
  {
    var l := d.lines[d.line];
    JoinCut(d.lines[..d.line], l[..d.col], l[d.col..], d.lines[d.line + 1..]);
    assert l == l[..d.col] + l[d.col..];
    assert d.lines == d.lines[..d.line] + [l] + d.lines[d.line + 1..];
  }

  predicate Clean(s: string) { forall i :: 0 <= i < |s| ==> s[i] != '\n' && s[i] != '\0' }

  predicate AllClean(lines: seq<string>) { lines != [] && forall i :: 0 <= i < |lines| ==> Clean(lines[i]) }

  /** Where the first line of a text ends. */
  function LineEnd(s: string): nat { if s == "" || s[0] == '\n' then 0 else 1 + LineEnd(s[1..]) }

  lemma {:induction false} LineEndIs(s: string, k: nat)
    requires k <= |s| && (forall i :: 0 <= i < k ==> s[i] != '\n') && (k == |s| || s[k] == '\n')
    ensures LineEnd(s) == k
  {
    if k > 0 {
      LineEndIs(s[1..], k - 1);
    }
  }

  /** The first line is found again in the flat text. */
  lemma FirstLine(a: seq<string>)
    requires AllClean(a)
    ensures LineEnd(Join(a)) == |a[0]| <= |Join(a)| && a[0] == Join(a)[..|a[0]|]
    ensures if |a| == 1 then |Join(a)| == |a[0]| else |Join(a)| > |a[0]| && Join(a[1..]) == Join(a)[|a[0]| + 1..]
  {
    assert Clean(a[0]);
    LineEndIs(Join(a), |a[0]|);
  }

  /** Lines without newlines in them can be read back from the flat text. */
  lemma {:induction false} JoinInjective(a: seq<string>, b: seq<string>)
    requires AllClean(a) && AllClean(b) && Join(a) == Join(b)
    ensures a == b
  {
    FirstLine(a);
    FirstLine(b);
    if |a| > 1 && |b| > 1 {
      JoinInjective(a[1..], b[1..]);
    }
    assert a == [a[0]] + a[1..] && b == [b[0]] + b[1..];
  }

  predicate LinesFit(lines: seq<string>) { forall i :: 0 <= i < |lines| ==> |lines[i]| <= MAX_LEN }

  // ---- Editing ------------------------------------------------------------------------------

  function Clamp(c: nat, n: nat): nat { if c > n then n else c }

  predicate TypesChar(d: Doc) { d.line < |d.lines| && |d.lines[d.line]| < MAX_LEN }

  /** Types one character; nothing happens on a full line. */
  function InsertChar(d: Doc, ch: char): Doc {
    if !TypesChar(d) then d
    else
      var l := d.lines[d.line];
      var c := Clamp(d.col, |l|);
      Doc(d.lines[d.line := l[..c] + [ch] + l[c..]], d.line, c + 1)
  }

  predicate BreaksLine(d: Doc) { d.line < |d.lines| < MAX_LINES }

  function InsertNewline(d: Doc): Doc {
    if !BreaksLine(d) then d
    else
      var l := d.lines[d.line];
      var c := Clamp(d.col, |l|);
      Doc(d.lines[..d.line] + [l[..c], l[c..]] + d.lines[d.line + 1..], d.line + 1, 0)
  }

  function Backspace(d: Doc): Doc
    requires CursorOk(d)
  {
    var l := d.lines[d.line];
    if d.col > 0 then Doc(d.lines[d.line := l[..d.col - 1] + l[d.col..]], d.line, d.col - 1)
    else if d.line > 0 then
      var p := d.lines[d.line - 1];
      Doc(d.lines[..d.line - 1] + [p + l] + d.lines[d.line + 1..], d.line - 1, |p|)
    else d
  }

  function DeleteForward(d: Doc): Doc
    requires CursorOk(d)
  {
    if d.col < |d.lines[d.line]| then Backspace(d.(col := d.col + 1))
    else if d.line < |d.lines| - 1 then Backspace(d.(line := d.line + 1, col := 0))
    else d
  }

  function InsertOne(d: Doc, ch: char): Doc { if ch == '\n' then InsertNewline(d) else InsertChar(d, ch) }

  function InsertText(d: Doc, text: string): Doc
    decreases |text|
  {
    if text == "" then d else InsertText(InsertOne(d, text[0]), text[1..])
  }

  // ---- Every edit is one splice of the flat text ----------------------------------------------

  lemma InsertCharSplices(d: Doc, ch: char)
    requires CursorOk(d) && TypesChar(d)
    ensures var e := InsertChar(d, ch); CursorOk(e) && Before(e) == Before(d) + [ch] && After(e) == After(d)
  {
    var e, a, x := InsertChar(d, ch), d.lines[..d.line], d.lines[d.line][..d.col];
    assert e.lines[..e.line] == a && e.lines[e.line][..e.col] == x + [ch];
    assert e.lines[e.line][e.col..] == d.lines[d.line][d.col..] && e.lines[e.line + 1..] == d.lines[d.line + 1..];
    JoinCut(a, x, [ch], []);
    assert a + [x + [ch]] + [] == a + [x + [ch]] && [[ch]] + [] == [[ch]];
  }

  lemma InsertNewlineSplices(d: Doc)
    requires CursorOk(d) && BreaksLine(d)
    ensures var e := InsertNewline(d); CursorOk(e) && Before(e) == Before(d) + "\n" && After(e) == After(d)
  {
    var e, a, l := InsertNewline(d), d.lines[..d.line], d.lines[d.line];
    assert e.lines[..e.line] == a + [l[..d.col]];
    assert e.lines[e.line][..0] == "" && e.lines[e.line][0..] == l[d.col..];
    assert e.lines[e.line + 1..] == d.lines[d.line + 1..];
    JoinConcat(a + [l[..d.col]], [""]);
  }

  lemma BackspaceSplices(d: Doc)
    requires CursorOk(d)
    ensures var e := Backspace(d);
            && CursorOk(e)
            && (d.line == 0 && d.col == 0 <==> Before(d) == "")
            && (Before(d) == "" ==> e == d)
            && (Before(d) != "" ==> Before(e) == Before(d)[..|Before(d)| - 1] && After(e) == After(d))
  {
    hide Before, After, Join;
    if d.col > 0 {
      BackspaceInLine(d);
    } else if d.line > 0 {
      BackspaceJoins(d);
    } else {
      NothingBefore(d);
    }
  }

  lemma NothingBefore(d: Doc)
    requires CursorOk(d) && d.line == 0 && d.col == 0
    ensures Before(d) == "" && Backspace(d) == d
  {
    assert d.lines[..0] + [d.lines[0][..0]] == [""];
  }

  lemma BackspaceInLine(d: Doc)
    requires CursorOk(d) && d.col > 0
    ensures var e := Backspace(d);
            CursorOk(e) && Before(d) == Before(e) + [d.lines[d.line][d.col - 1]] && After(e) == After(d)
  {
    hide Join;
    var e, a, l := Backspace(d), d.lines[..d.line], d.lines[d.line];
    var x, ch := l[..d.col - 1], [l[d.col - 1]];
    assert l[..d.col] == x + ch;
    JoinCut(a, x, ch, []);
    assert a + [x + ch] + [] == a + [l[..d.col]] && [ch] + [] == [ch];
    JoinOne(ch);
    assert e.lines[..e.line] == a && e.lines[e.line][..e.col] == x;
    assert e.lines[e.line][e.col..] == l[d.col..] && e.lines[e.line + 1..] == d.lines[d.line + 1..];
  }

  lemma JoinOne(x: string)
    ensures Join([x]) == x
  {
  }

  lemma BackspaceJoins(d: Doc)
    requires CursorOk(d) && d.col == 0 && d.line > 0
    ensures var e := Backspace(d); CursorOk(e) && Before(d) == Before(e) + "\n" && After(e) == After(d)
  {
    hide Join;
    var e, a, l, p := Backspace(d), d.lines[..d.line], d.lines[d.line], d.lines[d.line - 1];
    assert a == d.lines[..d.line - 1] + [p] && l[..0] == "" && l[0..] == l;
    JoinConcat(a, [""]);
    JoinOne("");
    assert e.lines[..e.line] == d.lines[..d.line - 1] && e.lines[e.line][..e.col] == p;
    assert e.lines[e.line][e.col..] == l && e.lines[e.line + 1..] == d.lines[d.line + 1..];
    assert Join(a) + "\n" + "" == Join(a) + "\n";
  }

  lemma DeleteForwardSplices(d: Doc)
    requires CursorOk(d)
    ensures var e := DeleteForward(d);
            && CursorOk(e)
            && (After(d) == "" ==> e == d)
            && (After(d) != "" ==> Before(e) == Before(d) && After(e) == After(d)[1..])
  {
    var l := d.lines[d.line];
    if d.col < |l| {
      var r := d.(col := d.col + 1);
      MoveRight(d);
      BackspaceSplices(r);
    } else if d.line < |d.lines| - 1 {
      var r := d.(line := d.line + 1, col := 0);
      MoveDown(d);
      BackspaceSplices(r);
    } else {
      assert l[d.col..] == "" && d.lines[d.line + 1..] == [];
      assert [l[d.col..]] + d.lines[d.line + 1..] == [""];
    }
  }

  lemma MoveRight(d: Doc)
    requires CursorOk(d) && d.col < |d.lines[d.line]|
    ensures var r := d.(col := d.col + 1);
            After(d) != "" && Before(r) == Before(d) + [After(d)[0]] && After(r) == After(d)[1..]
  {
    var l, r := d.lines[d.line], d.(col := d.col + 1);
    var a, b := d.lines[..d.line], d.lines[d.line + 1..];
    var x, ch, y := l[..d.col], [l[d.col]], l[d.col + 1..];
    assert l[..d.col + 1] == x + ch && l[d.col..] == ch + y;
    JoinCut(a, x, ch, []);
    assert a + [x + ch] + [] == a + [x + ch] && [ch] + [] == [ch];
    JoinCut([], ch, y, b);
    assert [] + [ch + y] + b == [ch + y] + b && [] + [ch] == [ch];
  }

  lemma MoveDown(d: Doc)
    requires CursorOk(d) && d.col == |d.lines[d.line]| && d.line + 1 < |d.lines|
    ensures var r := d.(line := d.line + 1, col := 0);
            After(d) != "" && Before(r) == Before(d) + [After(d)[0]] && After(r) == After(d)[1..]
  {
    var l, n := d.lines[d.line], d.lines[d.line + 1];
    assert l[..d.col] == l && l[d.col..] == "" && n[..0] == "" && n[0..] == n;
    assert d.lines[..d.line + 1] == d.lines[..d.line] + [l];
    JoinConcat(d.lines[..d.line] + [l], [""]);
    assert [n] + d.lines[d.line + 2..] == d.lines[d.line + 1..];
    JoinConcat([""], d.lines[d.line + 1..]);
  }

  // ---- Offsets in the flat text ---------------------------------------------------------------------

  /** The offset of a column of a line in the flat text: the lines before it and a newline for each. */
  function Offset(lines: seq<string>, line: nat, col: nat): nat
    requires line < |lines|
  {
    if line == 0 then col else |lines[0]| + 1 + Offset(lines[1..], line - 1, col)
  }

  lemma {:induction false} PrefixLength(lines: seq<string>, line: nat, col: nat)
    requires line < |lines| && col <= |lines[line]|
    ensures |Join(lines[..line] + [lines[line][..col]])| == Offset(lines, line, col)
    decreases line
  {
    if line == 0 {
      assert lines[..0] + [lines[0][..col]] == [lines[0][..col]];
    } else {
      var rest := lines[1..];
      PrefixLength(rest, line - 1, col);
      var tail := rest[..line - 1] + [rest[line - 1][..col]];
      assert lines[..line] + [lines[line][..col]] == [lines[0]] + tail;
      JoinConcat([lines[0]], tail);
    }
  }

  /** The cursor stands at its offset: the flat text before it has that length. */
  lemma CursorOffset(d: Doc)
    requires CursorOk(d)
    ensures Before(d) + After(d) == Join(d.lines) && |Before(d)| == Offset(d.lines, d.line, d.col)
  {
    FlatIsBeforeAfter(d);
    PrefixLength(d.lines, d.line, d.col);
  }

  /** A character is taken on lines of less than 4095, a newline in texts of less than 65536 lines. */
  lemma Limits(d: Doc, ch: char)
    requires CursorOk(d)
    ensures InsertChar(d, ch) != d <==> |d.lines[d.line]| < 4095
    ensures InsertNewline(d) != d <==> |d.lines| < 65536
  {
    if |d.lines[d.line]| < 4095 {
      assert InsertChar(d, ch).col == d.col + 1;
    }
  }

  // ---- Inserting a text ---------------------------------------------------------------------------

  predicate Accepts(d: Doc, ch: char) { if ch == '\n' then BreaksLine(d) else TypesChar(d) }

  /** Every character of the text is taken. */
  predicate Takes(d: Doc, text: string)
    decreases |text|
  {
    text == "" || (Accepts(d, text[0]) && Takes(InsertOne(d, text[0]), text[1..]))
  }

  lemma InsertOneSplices(d: Doc, ch: char)
    requires CursorOk(d)
    ensures var e := InsertOne(d, ch);
            && CursorOk(e)
            && (if Accepts(d, ch) then Before(e) == Before(d) + [ch] && After(e) == After(d) else e == d)
  {
    if ch == '\n' {
      if BreaksLine(d) { InsertNewlineSplices(d); }
    } else if TypesChar(d) {
      InsertCharSplices(d, ch);
    }
  }

  /** A text that is taken is spliced in before the cursor; a text that is not loses characters. */
  lemma {:induction false} InsertTextSplices(d: Doc, text: string)
    requires CursorOk(d)
    ensures var e := InsertText(d, text);
            && CursorOk(e)
            && (Takes(d, text) ==> Before(e) == Before(d) + text && After(e) == After(d))
            && |Join(e.lines)| <= |Join(d.lines)| + |text|
            && (!Takes(d, text) ==> |Join(e.lines)| < |Join(d.lines)| + |text|)
    decreases |text|
  {
    hide CursorOk, Accepts, InsertOne;
    if text == "" {
      assert Before(d) + text == Before(d);
    } else {
      var m := InsertOne(d, text[0]);
      InsertOneSplices(d, text[0]);
      InsertTextSplices(m, text[1..]);
      FlatIsBeforeAfter(d);
      FlatIsBeforeAfter(m);
      hide Before, After, Join;
      assert text == [text[0]] + text[1..];
      assert Before(d) + [text[0]] + text[1..] == Before(d) + text;
    }
  }

  lemma {:induction false} InsertTextClean(d: Doc, text: string)
    requires CursorOk(d) && AllClean(d.lines) && '\0' !in text
    ensures AllClean(InsertText(d, text).lines)
    decreases |text|
  {
    if text != "" {
      InsertOneSplices(d, text[0]);
      InsertOneClean(d, text[0]);
      InsertTextClean(InsertOne(d, text[0]), text[1..]);
    }
  }

  lemma InsertOneClean(d: Doc, ch: char)
    requires CursorOk(d) && AllClean(d.lines) && ch != '\0'
    ensures AllClean(InsertOne(d, ch).lines)
  {
    var e := InsertOne(d, ch);
    assert Clean(d.lines[d.line]);
    forall i | 0 <= i < |e.lines|
      ensures Clean(e.lines[i])
    {
      if i < d.line {
        assert Clean(d.lines[i]);
      } else if |e.lines| == |d.lines| {
        assert Clean(d.lines[i]);
      } else if i > d.line + 1 {
        assert Clean(d.lines[i - 1]);
      }
    }
  }
}
