/** An editor tab in its own form: lines, cursor, selection, clipboard and a ring of undo records. */
module EditorModel {
  import opened EditorText
  import opened EditorClip
  import opened U = EditorUndo

  class Tab {
    var lines: seq<string>
    var cursorLine: nat
    var cursorCol: nat
    var sel: Sel
    var clipboard: string
    var modified: bool
    const ring: array<Record>
    var undoPos: nat
    var undoCount: nat
    /** The tab these fields stand for. */
    ghost var session: Session

    ghost predicate RingIs()
      reads this, ring
    {
      Holds(ring[..], undoPos, undoCount, session.undo)
    }

    ghost predicate DocIs()
      reads this
    {
      && session.doc == Doc(lines, cursorLine, cursorCol)
      && CursorOk(session.doc) && LinesFit(lines) && |lines| <= MAX_LINES
    }

    ghost predicate Valid()
      reads this, ring
    {
      DocIs() && RingIs()
    }

    constructor ()
      ensures Valid() && fresh(ring) && session == Session(Doc([""], 0, 0), [])
    {
      lines, cursorLine, cursorCol := [""], 0, 0;
      sel, clipboard, modified := Sel(0, 0, 0, 0), "", false;
      ring := new Record[MAX_UNDO](_ => Record(Insert, 0, 0, ""));
      undoPos, undoCount := 0, 0;
      session := Session(Doc([""], 0, 0), []);
    }

    /** Records an edit unless the ring is full. */
    method UndoPush(r: Record)
      requires RingIs()
      modifies ring, this`undoPos, this`undoCount, this`session
      ensures RingIs() && session == old(session).(undo := Pushed(old(session.undo), r))
    {
      if undoCount >= MAX_UNDO {
        return;
      }
      ghost var before := ring[..];
      HoldsPushed(before, undoPos, undoCount, session.undo, r);
      ring[undoPos] := r;
      assert ring[..] == before[undoPos := r];
      undoPos := (undoPos + 1) % MAX_UNDO;
      undoCount := undoCount + 1;
      session := session.(undo := session.undo + [r]);
    }

    method InsertChar(ch: char)
      requires Valid()
      modifies this, ring
      ensures Valid() && session == TypeChar(old(session), ch)
      ensures clipboard == old(clipboard) && sel == old(sel)
    {
      hide Holds;
      var l := lines[cursorLine];
      if |l| >= MAX_LEN {
        return;
      }
      cursorCol := Clamp(cursorCol, |l|);
      UndoPush(Record(Insert, cursorLine, cursorCol, [ch]));
      lines := lines[cursorLine := l[..cursorCol] + [ch] + l[cursorCol..]];
      cursorCol := cursorCol + 1;
      modified := true;
      session := session.(doc := Doc(lines, cursorLine, cursorCol));
    }

    method InsertNewline()
      requires Valid()
      modifies this
      ensures Valid() && session == old(session).(doc := EditorText.InsertNewline(old(session.doc)))
      ensures clipboard == old(clipboard) && sel == old(sel)
    {
      hide Holds;
      if |lines| >= MAX_LINES {
        return;
      }
      var l := lines[cursorLine];
      var col := Clamp(cursorCol, |l|);
      lines := lines[..cursorLine] + [l[..col], l[col..]] + lines[cursorLine + 1..];
      cursorLine := cursorLine + 1;
      cursorCol := 0;
      modified := true;
      session := session.(doc := Doc(lines, cursorLine, cursorCol));
    }

    /** Backspace. Joining two lines is up to the caller to keep within the line buffer. */
    method DeleteChar()
      requires Valid()
      requires cursorCol == 0 && cursorLine > 0 ==> |lines[cursorLine - 1]| + |lines[cursorLine]| <= MAX_LEN
      modifies this, ring
      ensures Valid() && session == Erase(old(session))
      ensures clipboard == old(clipboard) && sel == old(sel)
    {
      hide Holds;
      var l := lines[cursorLine];
      if cursorCol > 0 {
        UndoPush(Record(Delete, cursorLine, cursorCol - 1, [l[cursorCol - 1]]));
        cursorCol := cursorCol - 1;
        lines := lines[cursorLine := l[..cursorCol] + l[cursorCol + 1..]];
      } else if cursorLine > 0 {
        var p := lines[cursorLine - 1];
        UndoPush(Record(Delete, cursorLine, 0, l));
        cursorCol := |p|;
        lines := lines[..cursorLine - 1] + [p + l] + lines[cursorLine + 1..];
        cursorLine := cursorLine - 1;
      }
      modified := true;
      session := session.(doc := Doc(lines, cursorLine, cursorCol));
    }

    /** Delete: a step to the right, then backspace. */
    method DeleteForward()
      requires Valid()
      requires cursorCol == |lines[cursorLine]| && cursorLine + 1 < |lines| ==>
                 |lines[cursorLine]| + |lines[cursorLine + 1]| <= MAX_LEN
      modifies this, ring
      ensures Valid() && session.doc == EditorText.DeleteForward(old(session.doc))
      ensures var d := old(session.doc);
              session.undo
              == if d.col < |d.lines[d.line]|
                 then Pushed(old(session.undo), Record(Delete, d.line, d.col, [d.lines[d.line][d.col]]))
                 else if d.line + 1 < |d.lines|
                 then Pushed(old(session.undo), Record(Delete, d.line + 1, 0, d.lines[d.line + 1]))
                 else old(session.undo)
      ensures clipboard == old(clipboard) && sel == old(sel)
    {
      hide Holds;
      if cursorCol < |lines[cursorLine]| {
        cursorCol := cursorCol + 1;
        session := session.(doc := Doc(lines, cursorLine, cursorCol));
        DeleteChar();
      } else if cursorLine < |lines| - 1 {
        cursorLine := cursorLine + 1;
        cursorCol := 0;
        session := session.(doc := Doc(lines, cursorLine, cursorCol));
        DeleteChar();
      }
    }

    /** Types a C string: it ends at the first NUL. */
    method InsertText(text: string)
      requires Valid()
      modifies this, ring
      ensures Valid() && session == TypeText(old(session), CString(text))
      ensures clipboard == old(clipboard) && sel == old(sel)
    {
      hide Holds;
      ghost var s := session;
      var i := 0;
      assert text[0..] == text;
      while i < |text| && text[i] != '\0'
        invariant i <= |text| && Valid() && clipboard == old(clipboard) && sel == old(sel)
        invariant TypeText(session, CString(text[i..])) == TypeText(s, CString(text))
      {
        assert text[i..][1..] == text[i + 1..];
        assert CString(text[i..])[1..] == CString(text[i + 1..]);
        if text[i] == '\n' {
          InsertNewline();
        } else {
          InsertChar(text[i]);
        }
        i := i + 1;
      }
    }

    /** Undoes the newest record. */
    method UndoLast()
      requires Valid() && CanUndo(session)
      modifies this
      ensures Valid() && session == U.Undo(old(session))
      ensures clipboard == old(clipboard) && sel == old(sel)
    {
      assert |session.undo| == undoCount;
      hide Holds, Revert, Applicable, LinesFit;
      if undoCount == 0 {
        return;
      }
      var r := PopRecord();
      Apply(r);
      modified := true;
      session := session.(doc := Doc(lines, cursorLine, cursorCol));
    }

    method PopRecord() returns (r: Record)
      requires RingIs() && undoCount > 0
      modifies this`undoPos, this`undoCount, this`session
      ensures RingIs() && r == old(session.undo)[old(undoCount) - 1]
      ensures session == old(session).(undo := old(session.undo)[..old(undoCount) - 1])
    {
      HoldsPopped(ring[..], undoPos, undoCount, session.undo);
      undoPos := (undoPos - 1 + MAX_UNDO) % MAX_UNDO;
      r := ring[undoPos];
      undoCount := undoCount - 1;
      session := session.(undo := session.undo[..undoCount]);
    }

    method Apply(r: Record)
      requires var d := Doc(lines, cursorLine, cursorCol);
               CursorOk(d) && LinesFit(lines) && Applicable(d, r)
      modifies this`lines, this`cursorLine, this`cursorCol
      ensures var d := Doc(lines, cursorLine, cursorCol);
              && d == Revert(old(Doc(lines, cursorLine, cursorCol)), r)
              && CursorOk(d) && LinesFit(lines) && |lines| == old(|lines|)
    {
      if r.line >= |lines| {
        return;
      }
      var l, k := lines[r.line], |r.text|;
      match r.kind {
        case Insert =>
          if r.col + k <= |l| {
            lines, cursorLine, cursorCol := lines[r.line := l[..r.col] + l[r.col + k..]], r.line, r.col;
          }
        case Delete =>
          if |l| + k <= MAX_LEN {
            lines, cursorLine, cursorCol := lines[r.line := l[..r.col] + r.text + l[r.col..]], r.line, r.col + k;
          }
        case Replace =>
          if r.col + k <= |l| {
            lines, cursorLine, cursorCol := lines[r.line := l[..r.col] + r.text + l[r.col + k..]], r.line, r.col;
          }
      }
    }

    /** The selected text, line by line. */
    method GetSelection() returns (text: string)
      requires Valid()
      ensures text == Copied(lines, sel)
    {
      if sel.sl < 0 || sel.el < 0 || sel.sl > sel.el || sel.sl >= |lines| {
        return "";
      }
      text := CopyLines();
    }

    method CopyLines() returns (text: string)
      requires 0 <= sel.sl <= sel.el && sel.sl < |lines|
      ensures text == Copied(lines, sel)
    {
      ghost var s := Within(lines, sel);
      ghost var ps := Pieces(lines, s);
      CopiedIs(lines, sel);
      hide Copied, Pieces, Piece, Join, Lead, Within, Valid;
      text := "";
      var i := sel.sl;
      while i <= sel.el && i < |lines|
        invariant sel.sl <= i <= s.el + 1
        invariant text == Lead(ps, i - sel.sl) + if sel.sl < i <= sel.el then "\n" else ""
      {
        var piece := CopyLine(i);
        PieceAt(lines, s, i);
        JoinNext(ps, i - sel.sl);
        text := text + piece;
        if i < sel.el {
          text := text + "\n";
        }
        i := i + 1;
      }
    }

    method CopyLine(i: nat) returns (piece: string)
      requires i < |lines|
      ensures piece == Piece(lines, Within(lines, sel), i)
    {
      var len := |lines[i]|;
      var start := Clamp(if i == sel.sl then sel.sc else 0, len);
      var end := Clamp(if i == sel.el then sel.ec else len, len);
      piece := if end > start then lines[i][start..end] else "";
    }

    /** Moves a non-empty selection to the clipboard. */
    method CutSelection()
      requires Valid() && (0 <= sel.sl <= sel.el ==> sel.el < |lines|)
      modifies this
      ensures Valid()
      ensures var s, l := old(sel), old(lines);
              if Copied(l, s) != ""
              then clipboard == Selected(l, s) && session == old(session).(doc := Cut(l, s))
                   && sel == Sel(-1, s.sc, -1, s.ec)
              else session == old(session) && clipboard == old(clipboard) && sel == old(sel)
    {
      var text := GetSelection();
      if text == "" {
        return;
      }
      clipboard := text;
      DeleteSelection();
    }

    method DeleteSelection()
      requires Valid() && InText(lines, sel) && Selected(lines, sel) != ""
      modifies this
      ensures Valid() && clipboard == old(clipboard)
      ensures session == old(session).(doc := Cut(old(lines), old(sel))) && sel == Sel(-1, old(sel.sc), -1, old(sel.ec))
    {
      hide Holds;
      ghost var d := Cut(lines, sel);
      CutFits(lines, sel);
      var sl, sc := sel.sl, Clamp(sel.sc, |lines[sel.sl]|);
      RemoveLines();
      assert d == Doc(lines, sl, sc);
      hide LinesFit, Cut, Selected;
      cursorLine, cursorCol := sl, sc;
      sel := Sel(-1, sel.sc, -1, sel.ec);
      modified := true;
      session := session.(doc := d);
    }

    method RemoveLines()
      requires InText(lines, sel)
      modifies this`lines
      ensures lines == Cut(old(lines), sel).lines
    {
      var sl, el := sel.sl, sel.el;
      var sc, ec := Clamp(sel.sc, |lines[sl]|), Clamp(sel.ec, |lines[el]|);
      if sl == el {
        lines := lines[sl := lines[sl][..sc] + lines[sl][ec..]];
      } else {
        var first, rest := lines[sl][..sc], |lines[el]| - ec;
        if sc + rest <= MAX_LEN {
          first := first + lines[el][ec..];
        } else {
          assert first == first + "";
        }
        lines := lines[..sl] + [first] + lines[el + 1..];
      }
    }

    method Paste()
      requires Valid()
      modifies this, ring
      ensures Valid() && session == TypeText(old(session), CString(old(clipboard)))
    {
      if clipboard == "" {
        return;
      }
      InsertText(clipboard);
    }

    /** Cut, then paste: the lines come back exactly when the selection's lines leave room. */
    method CutAndPaste()
      requires Valid() && AllClean(lines) && InText(lines, sel) && Selected(lines, sel) != ""
      modifies this, ring
      ensures Valid() && (lines == old(lines) <==> PasteFits(old(lines), old(sel)))
    {
      CutPasteRestoresIff(lines, sel);
      ghost var text := Selected(lines, sel);
      PiecesClean(lines, sel);
      WholeCString(text);
      CutSelection();
      TypeTextDoc(session, text);
      Paste();
    }
  }

  /** The ring keeps the n records in the slots before pos. */
  ghost predicate Holds(ring: seq<Record>, pos: nat, n: nat, undo: seq<Record>) {
    && |ring| == MAX_UNDO && pos < MAX_UNDO && |undo| == n <= MAX_UNDO
    && forall k {:trigger undo[k]} :: 0 <= k < n ==> undo[k] == ring[(pos - n + k) % MAX_UNDO]
  }

  /** The selection cut short at the end of the text. */
  function Within(lines: seq<string>, s: Sel): Sel
    requires lines != []
  {
    if s.el < |lines| then s else s.(el := |lines| - 1, ec := |lines[|lines| - 1]|)
  }

  /** What get_selection copies; a selection that runs past the last line takes a newline after it. */
  function Copied(lines: seq<string>, s: Sel): string {
    if 0 <= s.sl <= s.el && s.sl < |lines|
    then Selected(lines, Within(lines, s)) + if s.el < |lines| then "" else "\n"
    else ""
  }

  /** The first k pieces, joined. */
  function Lead(ps: seq<string>, k: nat): string
    requires k <= |ps|
  {
    Join(ps[..k])
  }

  /** A selection that runs past the last line is the rest of the flat text and a newline. */
  lemma CopiedPastEnd(lines: seq<string>, s: Sel)
    requires 0 <= s.sl < |lines| <= s.el
    ensures var i := Offset(lines, s.sl, Lesser(s.sc, |lines[s.sl]|));
            i <= |Join(lines)| && Copied(lines, s) == Join(lines)[i..] + "\n"
  {
    hide Selected, Join, Offset;
    var w := Within(lines, s);
    SelectedIs(lines, w);
    LastOffset(lines);
  }

  lemma CopiedIs(lines: seq<string>, s: Sel)
    requires 0 <= s.sl <= s.el && s.sl < |lines|
    ensures var w := Within(lines, s);
            && w.sl == s.sl && w.el == Clamp(s.el, |lines| - 1)
            && InText(lines, w) && |Pieces(lines, w)| == w.el - w.sl + 1
            && Lead(Pieces(lines, w), 0) == ""
            && Copied(lines, s) == Lead(Pieces(lines, w), w.el - w.sl + 1) + if s.el < |lines| then "" else "\n"
  {
    var ps := Pieces(lines, Within(lines, s));
    assert ps[..|ps|] == ps;
  }

  lemma JoinNext(ps: seq<string>, k: nat)
    requires k < |ps|
    ensures Lead(ps, k + 1) == Lead(ps, k) + (if k == 0 then "" else "\n") + ps[k]
  {
    assert ps[..k + 1] == ps[..k] + [ps[k]];
    if k > 0 {
      JoinConcat(ps[..k], [ps[k]]);
    }
  }

  lemma PieceAt(lines: seq<string>, s: Sel, i: nat)
    requires InText(lines, s) && s.sl <= i <= s.el
    ensures |Pieces(lines, s)| == s.el - s.sl + 1 && Pieces(lines, s)[i - s.sl] == Piece(lines, s, i)
  {
  }

  lemma CutFits(lines: seq<string>, s: Sel)
    requires InText(lines, s) && LinesFit(lines) && Selected(lines, s) != ""
    ensures var d := Cut(lines, s); CursorOk(d) && LinesFit(d.lines) && |d.lines| <= |lines|
  {
    CutCursor(lines, s);
    if s.sl == s.el { NonEmpty(lines, s); }
    var d := Cut(lines, s);
    hide Selected;
    forall i | 0 <= i < |d.lines|
      ensures |d.lines[i]| <= MAX_LEN
    {
      if i < s.sl {
        assert d.lines[i] == lines[i];
      } else if i > s.sl {
        assert d.lines[i] == lines[i + (s.el - s.sl)];
      }
    }
  }

  function CString(s: string): string { if s == "" || s[0] == '\0' then "" else [s[0]] + CString(s[1..]) }

  lemma {:induction false} WholeCString(s: string)
    requires '\0' !in s
    ensures CString(s) == s
  {
    if s != "" {
      WholeCString(s[1..]);
    }
  }

  lemma HoldsPushed(ring: seq<Record>, pos: nat, n: nat, undo: seq<Record>, r: Record)
    requires Holds(ring, pos, n, undo) && n < MAX_UNDO
    ensures Holds(ring[pos := r], (pos + 1) % MAX_UNDO, n + 1, undo + [r])
  {
    forall k | 0 <= k < n + 1
      ensures (undo + [r])[k] == ring[pos := r][((pos + 1) % MAX_UNDO - (n + 1) + k) % MAX_UNDO]
    {
      RingSlot(pos, n, k);
      assert k < n ==> undo[k] == ring[(pos - n + k) % MAX_UNDO];
    }
  }

  lemma HoldsPopped(ring: seq<Record>, pos: nat, n: nat, undo: seq<Record>)
    requires Holds(ring, pos, n, undo) && n > 0
    ensures var p := (pos - 1 + MAX_UNDO) % MAX_UNDO; undo[n - 1] == ring[p] && Holds(ring, p, n - 1, undo[..n - 1])
  {
    forall k | 0 <= k < n
      ensures undo[k] == ring[((pos - 1 + MAX_UNDO) % MAX_UNDO - (n - 1) + k) % MAX_UNDO]
    {
      UndoSlot(pos, n, k);
    }
  }

  /** Where record k lies after a push. */
  lemma RingSlot(pos: nat, n: nat, k: nat)
    requires pos < MAX_UNDO && n < MAX_UNDO && k <= n
    ensures (((pos + 1) % MAX_UNDO) - (n + 1) + k) % MAX_UNDO == (pos - n + k) % MAX_UNDO
    ensures (pos - n + k) % MAX_UNDO == pos <==> k == n
  {
  }

  /** Where record k lies after an undo. */
  lemma UndoSlot(pos: nat, n: nat, k: nat)
    requires pos < MAX_UNDO && 0 < n <= MAX_UNDO && k < n
    ensures (((pos - 1 + MAX_UNDO) % MAX_UNDO) - (n - 1) + k) % MAX_UNDO == (pos - n + k) % MAX_UNDO
    ensures (pos - 1 + MAX_UNDO) % MAX_UNDO == (pos - 1) % MAX_UNDO
  {
  }
}
