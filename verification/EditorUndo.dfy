/** The undo records of a tab: what edits record, and what undoing them restores. */
module EditorUndo {
  import opened EditorText

  const MAX_UNDO := 1024

  datatype Kind = Insert | Delete | Replace

  datatype Record = Record(kind: Kind, line: nat, col: nat, text: string)

  /** A tab with its records, the oldest first. */
  datatype Session = Session(doc: Doc, undo: seq<Record>)

  /** A full list of records takes no more. */
  function Pushed(undo: seq<Record>, r: Record): seq<Record> { if |undo| < MAX_UNDO then undo + [r] else undo }

  function TypeChar(s: Session, ch: char): Session {
    var d := s.doc;
    if !TypesChar(d) then s
    else Session(InsertChar(d, ch), Pushed(s.undo, Record(Insert, d.line, Clamp(d.col, |d.lines[d.line]|), [ch])))
  }

  function Erase(s: Session): Session
    requires CursorOk(s.doc)
  {
    var d, l := s.doc, s.doc.lines[s.doc.line];
    Session(Backspace(d),
            if d.col > 0 then Pushed(s.undo, Record(Delete, d.line, d.col - 1, [l[d.col - 1]]))
            else if d.line > 0 then Pushed(s.undo, Record(Delete, d.line, 0, l))
            else s.undo)
  }

  function TypeOne(s: Session, ch: char): Session {
    if ch == '\n' then s.(doc := InsertNewline(s.doc)) else TypeChar(s, ch)
  }

  function TypeText(s: Session, text: string): Session
    decreases |text|
  {
    if text == "" then s else TypeText(TypeOne(s, text[0]), text[1..])
  }

  lemma {:induction false} TypeTextDoc(s: Session, text: string)
    ensures TypeText(s, text).doc == InsertText(s.doc, text)
    decreases |text|
  {
    if text != "" {
      TypeTextDoc(TypeOne(s, text[0]), text[1..]);
    }
  }

  // ---- Undoing one record -----------------------------------------------------------------

  /** The record does not reach past the end of its line. */
  predicate Applicable(d: Doc, r: Record) {
    r.kind.Delete? && r.line < |d.lines| && |d.lines[r.line]| + |r.text| <= MAX_LEN ==> r.col <= |d.lines[r.line]|
  }

  function Revert(d: Doc, r: Record): Doc
    requires Applicable(d, r)
  {
    if r.line >= |d.lines| then d
    else
      var l, n := d.lines[r.line], |r.text|;
      match r.kind
      case Insert =>
        if r.col + n > |l| then d else Doc(d.lines[r.line := l[..r.col] + l[r.col + n..]], r.line, r.col)
      case Delete =>
        if |l| + n > MAX_LEN then d else Doc(d.lines[r.line := l[..r.col] + r.text + l[r.col..]], r.line, r.col + n)
      case Replace =>
        if r.col + n > |l| then d else Doc(d.lines[r.line := l[..r.col] + r.text + l[r.col + n..]], r.line, r.col)
  }

  predicate CanUndo(s: Session) { s.undo == [] || Applicable(s.doc, s.undo[|s.undo| - 1]) }

  function Undo(s: Session): Session
    requires CanUndo(s)
  {
    if s.undo == [] then s
    else Session(Revert(s.doc, s.undo[|s.undo| - 1]), s.undo[..|s.undo| - 1])
  }

  // ---- Undoing runs of edits -------------------------------------------------------------------

  /** Putting the cursor somewhere, and typing a character or erasing one inside a line. */
  datatype Edit = Typed(line: nat, col: nat, ch: char) | Erased(line: nat, col: nat)

  function Placed(s: Session, e: Edit): Session { s.(doc := s.doc.(line := e.line, col := e.col)) }

  /** The edit changes the text. */
  predicate Effective(s: Session, e: Edit) {
    && CursorOk(Placed(s, e).doc)
    && (e.Typed? ==> TypesChar(Placed(s, e).doc))
    && (e.Erased? ==> e.col > 0)
  }

  function DoEdit(s: Session, e: Edit): Session
    requires Effective(s, e)
  {
    match e
    case Typed(_, _, ch) => TypeChar(Placed(s, e), ch)
    case Erased(_, _) => Erase(Placed(s, e))
  }

  predicate AllEffective(s: Session, es: seq<Edit>)
    decreases |es|
  {
    es == [] || (Effective(s, es[0]) && AllEffective(DoEdit(s, es[0]), es[1..]))
  }

  function DoEdits(s: Session, es: seq<Edit>): Session
    requires AllEffective(s, es)
    decreases |es|
  {
    if es == [] then s else DoEdits(DoEdit(s, es[0]), es[1..])
  }

  /** n undos are all possible. */
  predicate CanUndoAll(s: Session, n: nat)
    decreases n
  {
    n == 0 || (CanUndo(s) && CanUndoAll(Undo(s), n - 1))
  }

  function UndoAll(s: Session, n: nat): Session
    requires CanUndoAll(s, n)
    decreases n
  {
    if n == 0 then s else UndoAll(Undo(s), n - 1)
  }

  predicate SameText(s: Session, t: Session) { s.doc.lines == t.doc.lines && s.undo == t.undo }

  /** Undoing an edit, wherever the cursor went since, restores the text and the cursor of the edit. */
  lemma UndoInvertsEdit(s: Session, e: Edit, t: Session)
    requires Effective(s, e) && LinesFit(s.doc.lines) && |s.undo| < MAX_UNDO && SameText(t, DoEdit(s, e))
    ensures CanUndo(t) && Undo(t) == Placed(s, e)
    ensures LinesFit(DoEdit(s, e).doc.lines) && |DoEdit(s, e).undo| == |s.undo| + 1
  {
    var d, u := Placed(s, e).doc, DoEdit(s, e);
    var l := d.lines[d.line];
    assert u.undo[..|u.undo| - 1] == s.undo;
    match e
    case Typed(_, _, ch) =>
      var k := l[..d.col] + [ch] + l[d.col..];
      assert k[..d.col] + k[d.col + 1..] == l;
      assert d.lines[d.line := k][d.line := l] == d.lines;
    case Erased(_, _) =>
      var k := l[..d.col - 1] + l[d.col..];
      assert k[..d.col - 1] + [l[d.col - 1]] + k[d.col - 1..] == l;
      assert d.lines[d.line := k][d.line := l] == d.lines;
  }

  /** 1024 records are kept; further ones are not. */
  lemma RecordsKept(undo: seq<Record>, r: Record)
    ensures Pushed(undo, r) == if |undo| < 1024 then undo + [r] else undo
  {
  }

  /** Undoing a replacement puts the recorded characters back in their place and changes nothing else. */
  lemma ReplaceReverts(d: Doc, r: Record)
    requires r.kind.Replace? && r.line < |d.lines| && r.col + |r.text| <= |d.lines[r.line]|
    ensures var e, l := Revert(d, r), d.lines[r.line];
            && |e.lines| == |d.lines| && e.line == r.line && e.col == r.col
            && (forall i :: 0 <= i < |d.lines| && i != r.line ==> e.lines[i] == d.lines[i])
            && |e.lines[r.line]| == |l|
            && forall k :: 0 <= k < |l| ==>
                 e.lines[r.line][k] == if r.col <= k < r.col + |r.text| then r.text[k - r.col] else l[k]
  {
  }

  lemma {:induction false} UndoOneMore(s: Session, n: nat)
    requires CanUndoAll(s, n) && CanUndo(UndoAll(s, n))
    ensures CanUndoAll(s, n + 1) && UndoAll(s, n + 1) == Undo(UndoAll(s, n))
    decreases n
  {
    if n > 0 {
      UndoOneMore(Undo(s), n - 1);
    }
  }

  /** Any n edits that fit in the list of records, followed by n undos, restore text and records. */
  lemma {:induction false} UndoInvertsEdits(s: Session, es: seq<Edit>)
    requires AllEffective(s, es) && LinesFit(s.doc.lines) && |s.undo| + |es| <= MAX_UNDO
    ensures CanUndoAll(DoEdits(s, es), |es|)
    ensures var t := UndoAll(DoEdits(s, es), |es|); SameText(t, s) && (es != [] ==> t == Placed(s, es[0]))
    decreases |es|
  {
    if es != [] {
      var s1, all := DoEdit(s, es[0]), DoEdits(s, es);
      UndoInvertsEdit(s, es[0], s1);
      UndoInvertsEdits(s1, es[1..]);
      var t := UndoAll(all, |es| - 1);
      UndoInvertsEdit(s, es[0], t);
      UndoOneMore(all, |es| - 1);
    }
  }

  /** Undoing a backspace restores the lines exactly when it did not join two of them. */
  lemma EraseUndoneIff(s: Session)
    requires CursorOk(s.doc) && (s.doc.line > 0 || s.doc.col > 0) && LinesFit(s.doc.lines) && |s.undo| < MAX_UNDO
    ensures CanUndo(Erase(s)) && (Undo(Erase(s)).doc.lines == s.doc.lines <==> s.doc.col > 0)
  {
    var t := Erase(s);
    if s.doc.col > 0 {
      var e := Erased(s.doc.line, s.doc.col);
      assert Placed(s, e) == s;
      UndoInvertsEdit(s, e, t);
    } else {
      assert |Undo(t).doc.lines| == |t.doc.lines| == |s.doc.lines| - 1;
    }
  }
}
