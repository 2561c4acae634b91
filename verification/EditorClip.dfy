/** Cut and paste: the selected text, what a cut leaves, and when a paste brings it back. */
module EditorClip {
  import opened EditorText

  /** A selection; line -1 means none. */
  datatype Sel = Sel(sl: int, sc: nat, el: int, ec: nat)

  predicate InText(lines: seq<string>, s: Sel) { 0 <= s.sl <= s.el < |lines| }

  function From(lines: seq<string>, s: Sel, i: nat): (c: nat)
    requires i < |lines|
    ensures c <= |lines[i]|
  {
    if i == s.sl then Clamp(s.sc, |lines[i]|) else 0
  }

  function To(lines: seq<string>, s: Sel, i: nat): (c: nat)
    requires i < |lines|
    ensures c <= |lines[i]|
  {
    if i == s.el then Clamp(s.ec, |lines[i]|) else |lines[i]|
  }

  /** What is selected of line i. */
  function Piece(lines: seq<string>, s: Sel, i: nat): string
    requires i < |lines|
  {
    if To(lines, s, i) > From(lines, s, i) then lines[i][From(lines, s, i)..To(lines, s, i)] else ""
  }

  function Pieces(lines: seq<string>, s: Sel): seq<string>
    requires InText(lines, s)
  {
    seq(s.el - s.sl + 1, k requires 0 <= k <= s.el - s.sl => Piece(lines, s, s.sl + k))
  }

  function Selected(lines: seq<string>, s: Sel): string
    requires InText(lines, s)
  {
    Join(Pieces(lines, s))
  }

  /** The rest of the last line still fits behind the start of the first. */
  predicate RestFits(lines: seq<string>, s: Sel)
    requires InText(lines, s)
  {
    s.sl == s.el || From(lines, s, s.sl) + (|lines[s.el]| - To(lines, s, s.el)) <= MAX_LEN
  }

  /** The tab after a cut; a rest that does not fit is lost. */
  function Cut(lines: seq<string>, s: Sel): Doc
    requires InText(lines, s)
  {
    var f, t := From(lines, s, s.sl), To(lines, s, s.el);
    var rest := if RestFits(lines, s) then lines[s.el][t..] else "";
    Doc(lines[..s.sl] + [lines[s.sl][..f] + rest] + lines[s.el + 1..], s.sl, f)
  }

  // ---- What a cut does to the flat text --------------------------------------------------------

  lemma PiecesAre(lines: seq<string>, s: Sel)
    requires InText(lines, s) && s.sl < s.el
    ensures Pieces(lines, s)
         == [lines[s.sl][From(lines, s, s.sl)..]] + lines[s.sl + 1..s.el] + [lines[s.el][..To(lines, s, s.el)]]
  {
    var q := [lines[s.sl][From(lines, s, s.sl)..]] + lines[s.sl + 1..s.el] + [lines[s.el][..To(lines, s, s.el)]];
    forall k | 0 <= k < |q|
      ensures Pieces(lines, s)[k] == q[k]
    {
      var l := lines[s.sl + k];
      if k == 0 {
        assert q[k] == l[From(lines, s, s.sl)..|l|];
      } else if k == s.el - s.sl {
        assert q[k] == l[0..To(lines, s, s.el)];
      } else {
        assert q[k] == lines[s.sl + 1..s.el][k - 1] == l == l[0..|l|];
      }
    }
  }

  /** The text is what comes before the selection, the selection, and what comes after it. */
  lemma CutSplits(lines: seq<string>, s: Sel)
    requires InText(lines, s) && (s.sl == s.el ==> From(lines, s, s.sl) <= To(lines, s, s.el))
    ensures var p := Join(lines[..s.sl] + [lines[s.sl][..From(lines, s, s.sl)]]);
            var q := Join([lines[s.el][To(lines, s, s.el)..]] + lines[s.el + 1..]);
            Join(lines) == p + Selected(lines, s) + q
  {
    if s.sl == s.el {
      CutSplitsLine(lines, s);
    } else {
      CutSplitsLines(lines, s);
    }
  }

  lemma OnePiece(lines: seq<string>, s: Sel)
    requires InText(lines, s) && s.sl == s.el && From(lines, s, s.sl) <= To(lines, s, s.el)
    ensures var m := lines[s.sl][From(lines, s, s.sl)..To(lines, s, s.el)]; Selected(lines, s) == Join([m]) == m
  {
    var f, t := From(lines, s, s.sl), To(lines, s, s.el);
    assert f == t ==> lines[s.sl][f..t] == "";
    assert Pieces(lines, s) == [Piece(lines, s, s.sl)];
  }

  lemma CutSplitsLine(lines: seq<string>, s: Sel)
    requires InText(lines, s) && s.sl == s.el && From(lines, s, s.sl) <= To(lines, s, s.el)
    ensures var p := Join(lines[..s.sl] + [lines[s.sl][..From(lines, s, s.sl)]]);
            var q := Join([lines[s.el][To(lines, s, s.el)..]] + lines[s.el + 1..]);
            Join(lines) == p + Selected(lines, s) + q
  {
    hide Selected, From, To, Join;
    var l, f, t := lines[s.sl], From(lines, s, s.sl), To(lines, s, s.el);
    var a, b := lines[..s.sl], lines[s.el + 1..];
    var x, m, y := l[..f], l[f..t], l[t..];
    OnePiece(lines, s);
    assert l == x + (m + y) && lines == a + [l] + b;
    JoinCut(a, x, m + y, b);
    JoinCut([], m, y, b);
    assert [] + [m + y] + b == [m + y] + b && [] + [m] == [m];
  }

  lemma CutSplitsLines(lines: seq<string>, s: Sel)
    requires InText(lines, s) && s.sl < s.el
    ensures var p := Join(lines[..s.sl] + [lines[s.sl][..From(lines, s, s.sl)]]);
            var q := Join([lines[s.el][To(lines, s, s.el)..]] + lines[s.el + 1..]);
            Join(lines) == p + Selected(lines, s) + q
  {
    var f, t := From(lines, s, s.sl), To(lines, s, s.el);
    var a, b := lines[..s.sl], lines[s.el + 1..];
    var x, y := lines[s.sl][..f], lines[s.el][t..];
    var u, v, mid := lines[s.sl][f..], lines[s.el][..t], lines[s.sl + 1..s.el];
    PiecesAre(lines, s);
    LinesAre(lines, s.sl, s.el);
    assert lines[s.sl] == x + u && lines[s.el] == v + y;
    hide Pieces, Join, From, To;
    JoinThree(a, x, u, mid, v, y, b);
  }

  /** Cutting the lines at two places. */
  lemma JoinThree(a: seq<string>, x: string, u: string, mid: seq<string>, v: string, y: string, b: seq<string>)
    ensures Join(a + [x + u] + (mid + [v + y] + b)) == Join(a + [x]) + Join([u] + mid + [v]) + Join([y] + b)
  {
    hide Join;
    var r := mid + [v + y] + b;
    JoinCut(a, x, u, r);
    JoinCut([u] + mid, v, y, b);
    assert [u] + r == [u] + mid + [v + y] + b;
  }

  lemma LinesAre(lines: seq<string>, i: nat, j: nat)
    requires i < j < |lines|
    ensures lines == lines[..i] + [lines[i]] + (lines[i + 1..j] + [lines[j]] + lines[j + 1..])
  {
  }

  lemma CutCursor(lines: seq<string>, s: Sel)
    requires InText(lines, s)
    ensures var d := Cut(lines, s);
            && CursorOk(d)
            && Before(d) == Join(lines[..s.sl] + [lines[s.sl][..From(lines, s, s.sl)]])
            && After(d)
            == Join([if RestFits(lines, s) then lines[s.el][To(lines, s, s.el)..] else ""] + lines[s.el + 1..])
  {
    var d, x := Cut(lines, s), lines[s.sl][..From(lines, s, s.sl)];
    assert d.lines[..d.line] == lines[..s.sl] && d.lines[d.line][..d.col] == x;
    assert d.lines[d.line + 1..] == lines[s.el + 1..];
    assert d.lines[d.line][d.col..] == if RestFits(lines, s) then lines[s.el][To(lines, s, s.el)..] else "";
  }

  /** The selection is the flat text between the offsets of its ends, columns cut at the ends of their lines. */
  lemma SelectedIs(lines: seq<string>, s: Sel)
    requires InText(lines, s)
    requires var f, t := Lesser(s.sc, |lines[s.sl]|), Lesser(s.ec, |lines[s.el]|); s.sl < s.el || f <= t
    ensures var i := Offset(lines, s.sl, Lesser(s.sc, |lines[s.sl]|));
            var j := Offset(lines, s.el, Lesser(s.ec, |lines[s.el]|));
            i <= j <= |Join(lines)| && Selected(lines, s) == Join(lines)[i..j]
  {
    hide Selected, Join, Offset, From, To, Before;
    EndsAre(lines, s);
    var f, t := From(lines, s, s.sl), To(lines, s, s.el);
    CutSplits(lines, s);
    PrefixLength(lines, s.sl, f);
    var d := Doc(lines, s.el, t);
    CursorOffset(d);
    Middle(Join(lines[..s.sl] + [lines[s.sl][..f]]), Selected(lines, s), After(d));
  }

  /** The end of the last line is the end of the flat text. */
  lemma LastOffset(lines: seq<string>)
    requires lines != []
    ensures Offset(lines, |lines| - 1, |lines[|lines| - 1]|) == |Join(lines)|
  {
    hide Join, Offset;
    var n := |lines| - 1;
    PrefixLength(lines, n, |lines[n]|);
    assert lines[n][..|lines[n]|] == lines[n];
    assert lines[..n] + [lines[n]] == lines;
  }

  lemma EndsAre(lines: seq<string>, s: Sel)
    requires InText(lines, s)
    ensures From(lines, s, s.sl) == Lesser(s.sc, |lines[s.sl]|) && To(lines, s, s.el) == Lesser(s.ec, |lines[s.el]|)
  {
  }

  function Lesser(a: nat, b: nat): nat { if a <= b then a else b }

  lemma Middle(p: string, m: string, q: string)
    ensures (p + m + q)[|p|..|p| + |m|] == m
  {
  }

  lemma HeadLength(x: string, b: seq<string>)
    ensures |Join([x] + b)| == |x| + |Join([""] + b)|
  {
    if b == [] {
      assert [x] + b == [x] && [""] + b == [""];
    } else {
      JoinConcat([x], b);
      JoinConcat([""], b);
    }
  }

  /** A cut keeps everything but the selection, unless the rest of the last line did not fit. */
  lemma CutKeeps(lines: seq<string>, s: Sel)
    requires InText(lines, s) && (s.sl == s.el ==> From(lines, s, s.sl) <= To(lines, s, s.el))
    ensures var d := Cut(lines, s);
            && CursorOk(d)
            && (RestFits(lines, s) ==> Before(d) + Selected(lines, s) + After(d) == Join(lines))
            && (!RestFits(lines, s) && From(lines, s, s.sl) <= MAX_LEN ==>
                  |Join(d.lines)| + |Selected(lines, s)| < |Join(lines)|)
  {
    CutSplits(lines, s);
    CutCursor(lines, s);
    FlatIsBeforeAfter(Cut(lines, s));
    HeadLength(lines[s.el][To(lines, s, s.el)..], lines[s.el + 1..]);
    hide Before, After, Join, Selected;
  }

  // ---- When a paste has room --------------------------------------------------------------------------

  /** Typing a word without newlines. */
  lemma {:induction false} TakesWord(d: Doc, word: string, more: string)
    requires CursorOk(d) && |d.lines[d.line]| <= MAX_LEN && Clean(word)
    ensures var l := d.lines[d.line];
            Takes(d, word + more) <==>
              |l| + |word| <= MAX_LEN
              && Takes(Doc(d.lines[d.line := l[..d.col] + word + l[d.col..]], d.line, d.col + |word|), more)
    decreases |word|
  {
    var l := d.lines[d.line];
    if word == "" {
      assert word + more == more && l[..d.col] + word + l[d.col..] == l && d.lines[d.line := l] == d.lines;
    } else {
      var ch, tail := word[0], word[1..];
      assert (word + more)[1..] == tail + more && (word + more)[0] == ch;
      if TypesChar(d) {
        var e := InsertChar(d, ch);
        var k := e.lines[e.line];
        TakesWord(e, tail, more);
        assert k[..e.col] + tail + k[e.col..] == l[..d.col] + word + l[d.col..];
        assert e.lines[e.line := k[..e.col] + tail + k[e.col..]] == d.lines[d.line := l[..d.col] + word + l[d.col..]];
      }
    }
  }

  /** Room for the pieces of a text, line by line. */
  predicate Room(d: Doc, pieces: seq<string>)
    requires CursorOk(d) && pieces != []
  {
    && |d.lines[d.line]| + |pieces[0]| <= MAX_LEN
    && forall i :: 1 <= i < |pieces| ==> |d.lines[d.line]| - d.col + |pieces[i]| <= MAX_LEN
  }

  /** A text of several lines is taken exactly when each of its lines has room. */
  lemma {:induction false} TakesPieces(d: Doc, pieces: seq<string>)
    requires CursorOk(d) && LinesFit(d.lines) && AllClean(pieces) && |d.lines| + |pieces| - 1 <= MAX_LINES
    ensures Takes(d, Join(pieces)) <==> Room(d, pieces)
    decreases |pieces|
  {
    var l, w := d.lines[d.line], pieces[0];
    assert Clean(w);
    if |pieces| == 1 {
      TakesWord(d, w, "");
      assert w + "" == w;
    } else {
      var rest := pieces[1..];
      TakesWord(d, w, "\n" + Join(rest));
      assert Join(pieces) == w + ("\n" + Join(rest));
      if |l| + |w| <= MAX_LEN {
        var m := Doc(d.lines[d.line := l[..d.col] + w + l[d.col..]], d.line, d.col + |w|);
        var e := InsertNewline(m);
        assert ("\n" + Join(rest))[1..] == Join(rest);
        assert e.lines[e.line] == l[d.col..];
        NewlineFits(m);
        TakesPieces(e, rest);
        hide Takes, Join;
        assert forall i :: 1 <= i < |pieces| ==> pieces[i] == rest[i - 1];
        assert forall i :: 1 <= i < |rest| ==> rest[i] == pieces[i + 1];
      }
    }
  }

  lemma NewlineFits(m: Doc)
    requires CursorOk(m) && LinesFit(m.lines) && BreaksLine(m)
    ensures var e := InsertNewline(m); CursorOk(e) && LinesFit(e.lines) && |e.lines| == |m.lines| + 1
  {
  }

  // ---- Cut, then paste --------------------------------------------------------------------------------

  /** Every selected line but the last leaves room for the rest of the last one. */
  predicate PasteFits(lines: seq<string>, s: Sel)
    requires InText(lines, s)
  {
    forall i :: s.sl <= i < s.el ==> |lines[i]| + (|lines[s.el]| - To(lines, s, s.el)) <= MAX_LEN
  }

  lemma PieceLengths(lines: seq<string>, s: Sel)
    requires InText(lines, s) && (s.sl == s.el ==> From(lines, s, s.sl) <= To(lines, s, s.el))
    ensures forall k :: 0 <= k <= s.el - s.sl ==>
              |Pieces(lines, s)[k]| == To(lines, s, s.sl + k) - From(lines, s, s.sl + k)
  {
    forall k | 0 <= k <= s.el - s.sl
      ensures |Pieces(lines, s)[k]| == To(lines, s, s.sl + k) - From(lines, s, s.sl + k)
    {
      assert Pieces(lines, s)[k] == Piece(lines, s, s.sl + k);
    }
  }

  /** After a cut that kept everything, the pieces have room exactly when the selection's lines do. */
  lemma RoomIff(lines: seq<string>, s: Sel)
    requires InText(lines, s) && LinesFit(lines) && RestFits(lines, s)
    requires s.sl == s.el ==> From(lines, s, s.sl) <= To(lines, s, s.el)
    ensures CursorOk(Cut(lines, s)) && Room(Cut(lines, s), Pieces(lines, s)) <==> PasteFits(lines, s)
  {
    var d, ps := Cut(lines, s), Pieces(lines, s);
    CutCursor(lines, s);
    PieceLengths(lines, s);
    var f, rest := From(lines, s, s.sl), |lines[s.el]| - To(lines, s, s.el);
    assert |d.lines[d.line]| == f + rest;
    if PasteFits(lines, s) {
      forall k | 0 <= k <= s.el - s.sl
        ensures k == 0 ==> f + rest + |ps[k]| <= MAX_LEN
        ensures k > 0 ==> rest + |ps[k]| <= MAX_LEN
      {
        var i := s.sl + k;
        assert |ps[k]| == To(lines, s, i) - From(lines, s, i);
        assert |lines[i]| <= MAX_LEN;
      }
    }
    if Room(d, ps) {
      forall i | s.sl <= i < s.el
        ensures |lines[i]| + rest <= MAX_LEN
      {
        assert |ps[i - s.sl]| == To(lines, s, i) - From(lines, s, i);
      }
    }
  }

  lemma {:induction false} JoinHas(pieces: seq<string>, k: nat)
    requires AllClean(pieces) && k < |Join(pieces)|
    ensures Join(pieces)[k] != '\0'
    decreases |pieces|
  {
    assert Clean(pieces[0]);
    if |pieces| > 1 && k > |pieces[0]| {
      JoinHas(pieces[1..], k - |pieces[0]| - 1);
    }
  }

  lemma PiecesClean(lines: seq<string>, s: Sel)
    requires InText(lines, s) && AllClean(lines)
    ensures AllClean(Pieces(lines, s)) && '\0' !in Selected(lines, s)
  {
    var ps := Pieces(lines, s);
    forall k | 0 <= k < |ps|
      ensures Clean(ps[k])
    {
      assert ps[k] == Piece(lines, s, s.sl + k) && Clean(lines[s.sl + k]);
    }
    forall k | 0 <= k < |Join(ps)|
      ensures Join(ps)[k] != '\0'
    {
      JoinHas(ps, k);
    }
  }

  lemma CutClean(lines: seq<string>, s: Sel)
    requires InText(lines, s) && AllClean(lines) && LinesFit(lines)
    ensures AllClean(Cut(lines, s).lines)
    ensures RestFits(lines, s) && (s.sl == s.el ==> From(lines, s, s.sl) <= To(lines, s, s.el)) ==>
              LinesFit(Cut(lines, s).lines)
  {
    assert Clean(lines[s.sl]) && Clean(lines[s.el]);
    var d := Cut(lines, s);
    forall i | 0 <= i < |d.lines|
      ensures Clean(d.lines[i])
    {
      if i < s.sl {
        assert d.lines[i] == lines[i];
      } else if i > s.sl {
        assert d.lines[i] == lines[i + (s.el - s.sl)];
      }
    }
  }

  lemma NonEmpty(lines: seq<string>, s: Sel)
    requires InText(lines, s) && s.sl == s.el && Selected(lines, s) != ""
    ensures From(lines, s, s.sl) < To(lines, s, s.el)
  {
    assert |Pieces(lines, s)| == 1 && Pieces(lines, s)[0] == Piece(lines, s, s.sl);
  }

  /**
    * Cutting a selection and pasting it back restores the lines exactly when every selected line but
    * the last has room for the rest of the last one.
    */
  lemma CutPasteRestoresIff(lines: seq<string>, s: Sel)
    requires InText(lines, s) && AllClean(lines) && LinesFit(lines) && |lines| <= MAX_LINES
    requires Selected(lines, s) != ""
    ensures InsertText(Cut(lines, s), Selected(lines, s)).lines == lines <==> PasteFits(lines, s)
  {
    if s.sl == s.el { NonEmpty(lines, s); }
    var d, text := Cut(lines, s), Selected(lines, s);
    var e := InsertText(d, text);
    CutKeeps(lines, s);
    InsertTextSplices(d, text);
    if RestFits(lines, s) {
      RestoresWhenTaken(lines, s);
    } else {
      assert From(lines, s, s.sl) <= |lines[s.sl]| <= MAX_LEN;
      assert !PasteFits(lines, s) by { assert s.sl <= s.sl < s.el; }
    }
  }

  lemma RestoresWhenTaken(lines: seq<string>, s: Sel)
    requires InText(lines, s) && AllClean(lines) && LinesFit(lines) && |lines| <= MAX_LINES && RestFits(lines, s)
    requires s.sl == s.el ==> From(lines, s, s.sl) <= To(lines, s, s.el)
    ensures InsertText(Cut(lines, s), Selected(lines, s)).lines == lines <==> PasteFits(lines, s)
  {
    var d, text := Cut(lines, s), Selected(lines, s);
    var e := InsertText(d, text);
    CutKeeps(lines, s);
    CutClean(lines, s);
    PiecesClean(lines, s);
    assert |d.lines| + |Pieces(lines, s)| - 1 == |lines|;
    TakesPieces(d, Pieces(lines, s));
    RoomIff(lines, s);
    InsertTextSplices(d, text);
    InsertTextClean(d, text);
    FlatIsBeforeAfter(d);
    FlatIsBeforeAfter(e);
    hide Cut, Pieces, Room, Takes, InsertText, Before, After, RestFits, From, To, Join, LinesFit, Clean;
    if Takes(d, text) {
      assert Join(e.lines) == Join(lines);
      JoinInjective(e.lines, lines);
    } else {
      assert |Join(d.lines)| + |text| == |Join(lines)|;
    }
  }

  function Line(n: nat): string { seq(n, _ => 'a') }

  /** A full line and a short one: cutting from the end of the first to the start of the second, and pasting. */
  lemma PasteLosesText()
    ensures var lines, s := [Line(4095), "b"], Sel(0, 4094, 1, 0);
            && InText(lines, s) && AllClean(lines) && LinesFit(lines)
            && Selected(lines, s) != "" && InsertText(Cut(lines, s), Selected(lines, s)).lines != lines
  {
    var lines, s := [Line(4095), "b"], Sel(0, 4094, 1, 0);
    assert Clean(lines[0]) && Clean(lines[1]);
    assert |lines[0]| == 4095 && AllClean(lines) && LinesFit(lines);
    PiecesAre(lines, s);
    hide Line;
    var u, v := lines[0][From(lines, s, 0)..], lines[1][..To(lines, s, 1)];
    assert [u] + lines[1..1] + [v] == [u] + [v];
    JoinConcat([u], [v]);
    assert !PasteFits(lines, s) by { assert s.sl <= 0 < s.el; }
    hide Cut, Selected, Pieces, Join;
    CutPasteRestoresIff(lines, s);
  }
}
