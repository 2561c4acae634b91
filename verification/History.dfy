/** The canvas undo history: two bounded stacks of snapshots around the layer. */
module History {
  import opened Grid
  import opened Sequences

  const UNDO_MAX := 50

  datatype Image = Image(w: nat, h: nat, pixels: seq<Pixel>)

  predicate SameSize(a: Image, b: Image) { a.w == b.w && a.h == b.h }

  /** The snapshots to go back to, the layer, and the snapshots to go forward to, newest last. */
  datatype State = State(undo: seq<Image>, now: Image, redo: seq<Image>)

  /** A full stack drops its oldest snapshot. */
  function Stacked(stack: seq<Image>, i: Image): seq<Image>
    requires |stack| <= UNDO_MAX
  {
    (if |stack| >= UNDO_MAX then stack[1..] else stack) + [i]
  }

  predicate Bounded(s: State) { |s.undo| <= UNDO_MAX && |s.redo| <= UNDO_MAX }

  function Top(stack: seq<Image>): Image
    requires stack != []
  {
    stack[|stack| - 1]
  }

  /** A snapshot is copied back only into a layer of its own size. */
  function Restored(now: Image, snap: Image): Image { if SameSize(snap, now) then snap else now }

  function Undo(s: State): State
    requires Bounded(s)
  {
    if s.undo == [] then s
    else State(s.undo[..|s.undo| - 1], Restored(s.now, Top(s.undo)), Stacked(s.redo, s.now))
  }

  function Redo(s: State): State
    requires Bounded(s)
  {
    if s.redo == [] then s
    else State(Stacked(s.undo, s.now), Restored(s.now, Top(s.redo)), s.redo[..|s.redo| - 1])
  }

  /** The snapshot taken before a change. */
  function Push(s: State): State
    requires Bounded(s)
  {
    State(Stacked(s.undo, s.now), s.now, [])
  }

  // ---- The timeline --------------------------------------------------------------------------------

  /** Every state of the layer that can still be reached, oldest first. */
  function Timeline(s: State): seq<Image> { s.undo + [s.now] + Reversed(s.redo) }

  /** Both stacks together never hold more than one of them may. */
  predicate Room(s: State) { |s.undo| + |s.redo| <= UNDO_MAX }

  /** Undo never shifts the redo stack; it keeps the timeline exactly when the snapshot has the layer's size. */
  lemma UndoKeepsTimelineIff(s: State)
    requires Room(s) && s.undo != []
    ensures Room(Undo(s)) && |Undo(s).undo| == |s.undo| - 1 && Undo(s).redo == s.redo + [s.now]
    ensures Timeline(Undo(s)) == Timeline(s) <==> SameSize(Top(s.undo), s.now)
  {
    hide Reversed;
    var u, n := Undo(s), |s.undo|;
    ReversedAppend(s.redo, s.now);
    assert s.undo == u.undo + [Top(s.undo)];
    assert Timeline(u) == u.undo + [u.now] + ([s.now] + Reversed(s.redo));
    assert Timeline(u)[n - 1] == u.now && Timeline(s)[n - 1] == Top(s.undo);
    if SameSize(Top(s.undo), s.now) {
      assert Timeline(s) == u.undo + [u.now] + ([s.now] + Reversed(s.redo));
    }
  }

  lemma RedoKeepsTimelineIff(s: State)
    requires Room(s) && s.redo != []
    ensures Room(Redo(s)) && Redo(s).undo == s.undo + [s.now] && |Redo(s).redo| == |s.redo| - 1
    ensures Timeline(Redo(s)) == Timeline(s) <==> SameSize(Top(s.redo), s.now)
  {
    hide Reversed;
    var r, n, top := Redo(s), |s.undo|, Top(s.redo);
    assert s.redo == r.redo + [top];
    ReversedAppend(r.redo, top);
    var past, rest := s.undo + [s.now], Reversed(r.redo);
    assert Timeline(s) == past + [top] + rest by { assert past + ([top] + rest) == past + [top] + rest; }
    assert Timeline(r) == past + [r.now] + rest;
    assert (past + [r.now] + rest)[n + 1] == r.now && (past + [top] + rest)[n + 1] == top;
  }

  /** Undo and redo take each other back. */
  lemma UndoRedoInverse(s: State)
    requires Room(s)
    ensures s.undo != [] && SameSize(Top(s.undo), s.now) ==> Redo(Undo(s)) == s
    ensures s.redo != [] && SameSize(Top(s.redo), s.now) ==> Undo(Redo(s)) == s
  {
    if s.undo != [] && SameSize(Top(s.undo), s.now) {
      var b := s.redo + [s.now];
      assert s.undo == s.undo[..|s.undo| - 1] + [Top(s.undo)] && b[..|b| - 1] == s.redo;
    }
    if s.redo != [] && SameSize(Top(s.redo), s.now) {
      var a := s.undo + [s.now];
      assert s.redo == s.redo[..|s.redo| - 1] + [Top(s.redo)] && a[..|a| - 1] == s.undo;
    }
  }

  // ---- Runs on a layer of one size -------------------------------------------------------------------

  datatype Op = Back | Forward | Change(pixels: seq<Pixel>)

  function Apply(s: State, op: Op): State
    requires Bounded(s)
  {
    match op
    case Back => Undo(s)
    case Forward => Redo(s)
    case Change(pixels) => var p := Push(s); p.(now := p.now.(pixels := pixels))
  }

  /** One layer size throughout, and room in the stacks. */
  predicate Sound(s: State) {
    && Room(s)
    && (forall i :: 0 <= i < |s.undo| ==> SameSize(s.undo[i], s.now))
    && (forall i :: 0 <= i < |s.redo| ==> SameSize(s.redo[i], s.now))
  }

  lemma ApplyKeepsSound(s: State, op: Op)
    requires Sound(s)
    ensures Sound(Apply(s, op)) && SameSize(Apply(s, op).now, s.now)
  {
  }

  function Run(s: State, ops: seq<Op>): State
    requires Sound(s)
    decreases |ops|
  {
    if ops == [] then s else ApplyKeepsSound(s, ops[0]); Run(Apply(s, ops[0]), ops[1..])
  }

  lemma {:induction false} RunKeepsSound(s: State, ops: seq<Op>)
    requires Sound(s)
    ensures Sound(Run(s, ops)) && SameSize(Run(s, ops).now, s.now)
    ensures |Run(s, ops).undo| + |Run(s, ops).redo| <= 50
    decreases |ops|
  {
    if ops != [] {
      ApplyKeepsSound(s, ops[0]);
      RunKeepsSound(Apply(s, ops[0]), ops[1..]);
    }
  }

  /** The place on a timeline of n images that steps back and forward lead to. */
  function Walk(at: nat, n: nat, ops: seq<Op>): nat
    decreases |ops|
  {
    if ops == [] then at
    else Walk(match ops[0]
              case Back => if at > 0 then at - 1 else at
              case Forward => if at + 1 < n then at + 1 else at
              case Change(_) => at, n, ops[1..])
  }

  lemma StepKeepsTimeline(s: State, op: Op)
    requires Sound(s) && !op.Change?
    ensures Sound(Apply(s, op)) && Timeline(Apply(s, op)) == Timeline(s)
    ensures |Apply(s, op).undo| == Walk(|s.undo|, |Timeline(s)|, [op])
  {
    ApplyKeepsSound(s, op);
    if op.Back? && s.undo != [] { UndoKeepsTimelineIff(s); }
    if op.Forward? && s.redo != [] { RedoKeepsTimelineIff(s); }
  }

  /** Any run of undos and redos keeps the timeline and shows the image at the place it walked to. */
  lemma {:induction false} RunWalksTimeline(s: State, ops: seq<Op>)
    requires Sound(s) && forall i :: 0 <= i < |ops| ==> !ops[i].Change?
    ensures var t, at := Run(s, ops), Walk(|s.undo|, |Timeline(s)|, ops);
            Timeline(t) == Timeline(s) && at == |t.undo| && t.now == Timeline(s)[at]
    decreases |ops|
  {
    if ops != [] {
      StepKeepsTimeline(s, ops[0]);
      RunWalksTimeline(Apply(s, ops[0]), ops[1..]);
    }
  }

  /** A change drops what was undone and keeps the latest 50 images behind the new one. */
  lemma ChangeKeepsLatest(s: State, pixels: seq<Pixel>)
    requires Bounded(s)
    ensures var t, past := Apply(s, Change(pixels)), s.undo + [s.now];
            && t.now == s.now.(pixels := pixels)
            && Timeline(t) == past[if |past| > 50 then |past| - 50 else 0..] + [t.now]
  {
    var past := s.undo + [s.now];
    assert past[0..] == past && (s.undo != [] ==> past[1..] == s.undo[1..] + [s.now]);
  }

  /** Every change sinks the snapshots below it by one, until they fall out. */
  lemma {:induction false} ChangesSink(s: State, cs: seq<Op>, k: nat)
    requires Sound(s) && 0 < k <= |s.undo| && k + |cs| <= UNDO_MAX && forall i :: 0 <= i < |cs| ==> cs[i].Change?
    ensures var u := Run(s, cs).undo; |u| >= k + |cs| && u[|u| - k - |cs|] == s.undo[|s.undo| - k]
    decreases |cs|
  {
    if cs != [] {
      ApplyKeepsSound(s, cs[0]);
      ChangesSink(Apply(s, cs[0]), cs[1..], k + 1);
    }
  }

  function Backs(n: nat): seq<Op> { if n == 0 then [] else [Back] + Backs(n - 1) }

  lemma {:induction false} WalkBack(at: nat, n: nat, k: nat)
    requires k <= at
    ensures Walk(at, n, Backs(k)) == at - k && |Backs(k)| == k && forall i :: 0 <= i < k ==> Backs(k)[i] == Back
  {
    if k > 0 {
      WalkBack(at - 1, n, k - 1);
    }
  }

  /** Up to 50 changes are undone by as many undos, whatever the history was before. */
  lemma UndosRestore(s: State, cs: seq<Op>)
    requires Sound(s) && |cs| <= 50 && forall i :: 0 <= i < |cs| ==> cs[i].Change?
    ensures Sound(Run(s, cs)) && Run(Run(s, cs), Backs(|cs|)).now == s.now
  {
    RunKeepsSound(s, cs);
    if cs != [] {
      var t, s1 := Run(s, cs), Apply(s, cs[0]);
      ApplyKeepsSound(s, cs[0]);
      ChangesSink(s1, cs[1..], 1);
      WalkBack(|t.undo|, |Timeline(t)|, |cs|);
      RunWalksTimeline(t, Backs(|cs|));
    }
  }

  // ---- The history in place --------------------------------------------------------------------------

  class CanvasHistory {
    const undoStack: array<Image>
    var undoSp: nat
    const redoStack: array<Image>
    var redoSp: nat
    var hasLayer: bool
    var w: nat
    var h: nat
    var pixels: seq<Pixel>

    ghost predicate Valid()
      reads this
    {
      && undoStack != redoStack && undoStack.Length == redoStack.Length == UNDO_MAX
      && undoSp <= UNDO_MAX && redoSp <= UNDO_MAX
    }

    ghost function Abs(): (s: State)
      reads this, undoStack, redoStack
      requires Valid()
      ensures Bounded(s)
    {
      State(undoStack[..undoSp], Image(w, h, pixels), redoStack[..redoSp])
    }

    constructor (width: nat, height: nat, image: seq<Pixel>)
      ensures Valid() && fresh(undoStack) && fresh(redoStack) && hasLayer
      ensures Abs() == State([], Image(width, height, image), []) && Sound(Abs())
    {
      undoStack := new Image[UNDO_MAX](_ => Image(0, 0, []));
      redoStack := new Image[UNDO_MAX](_ => Image(0, 0, []));
      undoSp, redoSp, hasLayer, w, h, pixels := 0, 0, true, width, height, image;
    }

    method StepBack()
      requires Valid()
      modifies this`undoSp, this`redoSp, this`pixels, redoStack
      ensures Valid() && Abs() == if hasLayer then Undo(old(Abs())) else old(Abs())
    {
      if undoSp == 0 || !hasLayer {
        return;
      }
      redoSp := PushOn(redoStack, redoSp, Image(w, h, pixels));
      undoSp := undoSp - 1;
      var snap := undoStack[undoSp];
      if snap.w == w && snap.h == h {
        pixels := snap.pixels;
      }
      assert undoStack[..undoSp] == old(undoStack[..undoSp])[..undoSp];
    }

    method StepForward()
      requires Valid()
      modifies this`undoSp, this`redoSp, this`pixels, undoStack
      ensures Valid() && Abs() == if hasLayer then Redo(old(Abs())) else old(Abs())
    {
      if redoSp == 0 || !hasLayer {
        return;
      }
      undoSp := PushOn(undoStack, undoSp, Image(w, h, pixels));
      redoSp := redoSp - 1;
      var snap := redoStack[redoSp];
      if snap.w == w && snap.h == h {
        pixels := snap.pixels;
      }
      assert redoStack[..redoSp] == old(redoStack[..redoSp])[..redoSp];
    }

    /** Called before a change: takes a snapshot and clears the redo stack. */
    method Snapshot()
      requires Valid()
      modifies this`undoSp, this`redoSp, undoStack
      ensures Valid() && Abs() == if hasLayer then Push(old(Abs())) else old(Abs())
    {
      if !hasLayer {
        return;
      }
      undoSp := PushOn(undoStack, undoSp, Image(w, h, pixels));
      ghost var u := undoStack[..undoSp];
      while redoSp > 0
        invariant Valid() && undoStack[..undoSp] == u
      {
        redoSp := redoSp - 1;
      }
    }
  }

  /** Pushes onto a stack, dropping its oldest entry when it is full. */
  method PushOn(stack: array<Image>, sp: nat, i: Image) returns (next: nat)
    requires sp <= stack.Length == UNDO_MAX
    modifies stack
    ensures 0 < next <= UNDO_MAX && stack[..next] == Stacked(old(stack[..sp]), i)
  {
    next := sp;
    if sp >= UNDO_MAX {
      forall k | 0 <= k < UNDO_MAX - 1 {
        stack[k] := stack[k + 1];
      }
      next := UNDO_MAX - 1;
    }
    stack[next] := i;
    next := next + 1;
  }
}
