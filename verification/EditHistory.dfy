/** What the text editor of mxedit.c does to its buffer, selection and undo and redo stacks. */
module EditHistory {
  import opened Bits

  /** Characters that fit the buffer beside its terminator. */
  const ROOM: nat := 32767

  /** Snapshots a stack holds. */
  const DEPTH: nat := 32

  /** The buffer or a snapshot of it. */
  datatype Doc = Doc(text: seq<byte>, caret: nat)

  predicate DocOk(d: Doc) { |d.text| <= ROOM && d.caret <= |d.text| }

  /** The whole editor: sel is the selection's other end or -1, run the caret after the last typed character. */
  datatype Editor = Editor(doc: Doc, sel: int, run: int, ud: seq<Doc>, rd: seq<Doc>)

  predicate DocsOk(s: seq<Doc>) { forall i :: 0 <= i < |s| ==> DocOk(s[i]) }

  /** What every operation keeps: undo and redo together never hold more than one stack does. */
  predicate Ok(e: Editor) {
    DocOk(e.doc) && e.sel >= -1 && DocsOk(e.ud) && DocsOk(e.rd) && |e.ud| + |e.rd| <= DEPTH
  }

  // ---- snapshots ----

  /** A stack after a push that evicts the oldest snapshot when it is full. */
  function Pushed(s: seq<Doc>, d: Doc): seq<Doc> {
    (if |s| == DEPTH then s[1..] else s) + [d]
  }

  function Marked(e: Editor): Editor { e.(ud := Pushed(e.ud, e.doc), rd := []) }

  function Undone(e: Editor): Editor {
    if e.ud == [] then e
    else e.(doc := e.ud[|e.ud| - 1], sel := -1, ud := e.ud[..|e.ud| - 1], rd := e.rd + [e.doc])
  }

  function Redone(e: Editor): Editor {
    if e.rd == [] then e
    else e.(doc := e.rd[|e.rd| - 1], sel := -1, rd := e.rd[..|e.rd| - 1], ud := e.ud + [e.doc])
  }

  // ---- edits ----

  predicate HasSel(e: Editor) { e.sel >= 0 && e.sel != e.doc.caret }

  function Lo(e: Editor): int { if e.sel < e.doc.caret then e.sel else e.doc.caret }

  function Hi(e: Editor): int { if e.sel < e.doc.caret then e.doc.caret else e.sel }

  /** A document without the characters from lo to hi. */
  function Without(d: Doc, lo: int, hi: int): Doc {
    var l := if lo < 0 then 0 else lo;
    var h := if hi > |d.text| then |d.text| else hi;
    if l >= h then d else Doc(d.text[..l] + d.text[h..], l)
  }

  /** The document once a selection is deleted. */
  function Base(e: Editor): Doc { if HasSel(e) then Without(e.doc, Lo(e), Hi(e)) else e.doc }

  /** A document with w put in at the caret. */
  function Spliced(d: Doc, w: seq<byte>): Doc
    requires d.caret <= |d.text|
  {
    Doc(d.text[..d.caret] + w + d.text[d.caret..], d.caret + |w|)
  }

  lemma BaseOk(e: Editor)
    requires DocOk(e.doc)
    ensures DocOk(Base(e))
  {}

  /** Whether an insertion starts a new step of the history. */
  predicate Marks(e: Editor) { HasSel(e) || e.doc.caret != e.run }

  function Inserted(e: Editor, ch: byte): Editor
    requires DocOk(e.doc)
  {
    if |e.doc.text| >= ROOM then e
    else
      BaseOk(e);
      var m := if Marks(e) then Marked(e) else e;
      var d := Spliced(Base(e), [ch]);
      m.(doc := d, sel := if HasSel(e) then -1 else e.sel, run := d.caret)
  }

  function Erased(e: Editor): Editor {
    if HasSel(e) then Marked(e).(doc := Base(e), sel := -1, run := -2)
    else if e.doc.caret == 0 then e
    else Marked(e).(doc := Without(e.doc, e.doc.caret - 1, e.doc.caret), run := -2)
  }

  function Deleted(e: Editor): Editor {
    if HasSel(e) then Marked(e).(doc := Base(e), sel := -1, run := -2)
    else if e.doc.caret < |e.doc.text| then Marked(e).(doc := Without(e.doc, e.doc.caret, e.doc.caret + 1), run := -2)
    else e.(run := -2)
  }

  function CutOut(e: Editor): Editor {
    if HasSel(e) then Marked(e).(doc := Base(e), sel := -1) else e
  }

  function Pasted(e: Editor, clip: seq<byte>): Editor
    requires DocOk(e.doc)
  {
    if clip == [] then e
    else
      BaseOk(e);
      var d := Base(e);
      var k := if |clip| <= ROOM - |d.text| then |clip| else ROOM - |d.text|;
      Marked(e).(doc := Spliced(d, clip[..k]), sel := -1)
  }

  // ---- every operation ----

  datatype Op =
    | Type(ch: byte)
    | Backspace
    | Delete
    | Cut
    | Paste(clip: seq<byte>)
    | Undo
    | Redo
    | Click(pos: nat)               // puts the caret down and anchors a selection there
    | Drag(pos: nat)
    | Move(pos: nat)                // the arrow and page keys
    | SelectAll
    | Open(text: seq<byte>)
    | New(menu: bool)               // from the menu, or by its key

  /** Positions come from looking the pointer or a row up in the text; files are read up to the room there is. */
  predicate OpOk(e: Editor, op: Op) {
    match op
    case Click(pos) => pos <= |e.doc.text|
    case Drag(pos) => pos <= |e.doc.text|
    case Move(pos) => pos <= |e.doc.text|
    case Open(text) => |text| <= ROOM
    case _ => true
  }

  function Did(e: Editor, op: Op): (r: Editor)
    requires DocOk(e.doc)
  {
    match op
    case Type(ch) => Inserted(e, ch)
    case Backspace => Erased(e)
    case Delete => Deleted(e)
    case Cut => CutOut(e)
    case Paste(clip) => Pasted(e, clip)
    case Undo => Undone(e)
    case Redo => Redone(e)
    case Click(pos) => e.(doc := Doc(e.doc.text, pos), sel := pos)
    case Drag(pos) => if e.sel >= 0 then e.(doc := Doc(e.doc.text, pos)) else e
    case Move(pos) => e.(doc := Doc(e.doc.text, pos), sel := -1, run := -2)
    case SelectAll => if e.doc.text != [] then e.(doc := Doc(e.doc.text, |e.doc.text|), sel := 0) else e
    case Open(text) => e.(doc := Doc(text, 0))
    case New(menu) => Editor(Doc([], 0), -1, if menu then -2 else e.run, [], [])
  }

  /** Both stacks together stay within one, whatever is done; so pushing onto the other stack never finds it full. */
  lemma DidOk(e: Editor, op: Op)
    requires Ok(e) && OpOk(e, op)
    ensures Ok(Did(e, op))
  {
    BaseOk(e);
  }

  predicate CanRun(e: Editor, ops: seq<Op>)
    decreases ops
  {
    ops == [] || (DocOk(e.doc) && OpOk(e, ops[0]) && CanRun(Did(e, ops[0]), ops[1..]))
  }

  function Ran(e: Editor, ops: seq<Op>): Editor
    requires CanRun(e, ops)
    decreases ops
  {
    if ops == [] then e else Ran(Did(e, ops[0]), ops[1..])
  }

  // ---- undo and redo move along a line of documents ----

  function Reversed(s: seq<Doc>): (r: seq<Doc>)
    ensures |r| == |s|
  {
    if s == [] then [] else [s[|s| - 1]] + Reversed(s[..|s| - 1])
  }

  /** Everything undo and redo can reach, oldest first. */
  function Timeline(e: Editor): (r: seq<Doc>)
    ensures |r| == |e.ud| + 1 + |e.rd|
  {
    e.ud + [e.doc] + Reversed(e.rd)
  }

  /** Where on the line the document is. */
  function Place(e: Editor): nat { |e.ud| }

  lemma UndoKeeps(e: Editor)
    ensures Timeline(Undone(e)) == Timeline(e)
    ensures Place(Undone(e)) == if Place(e) == 0 then 0 else Place(e) - 1
  {
    if e.ud != [] {
      var n := |e.ud|;
      assert e.ud == e.ud[..n - 1] + [e.ud[n - 1]];
      assert (e.rd + [e.doc])[..|e.rd|] == e.rd;
    }
  }

  lemma RedoKeeps(e: Editor)
    ensures Timeline(Redone(e)) == Timeline(e)
    ensures Place(Redone(e)) == if e.rd == [] then Place(e) else Place(e) + 1
  {}

  /** Undo and redo undo each other, stacks and caret included; only a selection is dropped. */
  lemma UndoRedo(e: Editor)
    ensures e.ud != [] ==> Redone(Undone(e)) == e.(sel := -1)
    ensures e.rd != [] ==> Undone(Redone(e)) == e.(sel := -1)
  {
    if e.ud != [] {
      var n := |e.ud|;
      assert e.ud[..n - 1] + [e.ud[n - 1]] == e.ud && (e.rd + [e.doc])[..|e.rd|] == e.rd;
    }
    if e.rd != [] {
      var n := |e.rd|;
      assert e.rd[..n - 1] + [e.rd[n - 1]] == e.rd && (e.ud + [e.doc])[..|e.ud|] == e.ud;
    }
  }

  /** Undos (false) and redos (true) in any order. */
  function Moved(e: Editor, ms: seq<bool>): Editor
    decreases ms
  {
    if ms == [] then e else Moved(if ms[0] then Redone(e) else Undone(e), ms[1..])
  }

  /** A place moved back and forth between 0 and last. */
  function Walked(at: nat, last: nat, ms: seq<bool>): nat
    decreases ms
  {
    if ms == [] then at
    else Walked(if ms[0] then (if at < last then at + 1 else at) else if at == 0 then 0 else at - 1, last, ms[1..])
  }

  /** Any undos and redos only move along the line, which stays as it is. */
  lemma {:induction false} MovesAlong(e: Editor, ms: seq<bool>)
    ensures Timeline(Moved(e, ms)) == Timeline(e)
    ensures Place(Moved(e, ms)) == Walked(Place(e), |Timeline(e)| - 1, ms)
    ensures Moved(e, ms).doc == Timeline(e)[Place(Moved(e, ms))]
    decreases ms
  {
    if ms == [] {
      assert Timeline(e)[|e.ud|] == e.doc;
    } else {
      UndoKeeps(e);
      RedoKeeps(e);
      MovesAlong(if ms[0] then Redone(e) else Undone(e), ms[1..]);
    }
  }

  /** Opening a file leaves the line as it is, with the file in the place of the document. */
  lemma OpenKeepsLine(e: Editor, text: seq<byte>)
    requires Ok(e)
    ensures Timeline(Did(e, Open(text))) == Timeline(e)[Place(e) := Doc(text, 0)]
    ensures Undone(Did(e, Open(text))).doc == Doc(text, 0) <==> e.ud == [] || e.ud[|e.ud| - 1] == Doc(text, 0)
  {}

  /** Type a, open a file that holds b, undo: the document is the empty one from before the a. */
  lemma UndoAcrossFiles(e: Editor)
    requires e == Blank
    ensures CanRun(e, [Type(97), Open([98]), Undo]) && Ran(e, [Type(97), Open([98]), Undo]).doc == Doc([], 0)
  {
    hide Did, Ran, CanRun;
    assert [Type(97)] + [Open([98]), Undo] == [Type(97), Open([98]), Undo];
    assert [Open([98])] + [Undo] == [Open([98]), Undo] && [Undo] + [] == [Undo];
    var a, b := Doc([97], 1), Doc([98], 0);
    OpenStates(e, a, b);
    RanNone(Did(Editor(b, -1, 1, [e.doc], []), Undo));
    RanCons(Editor(b, -1, 1, [e.doc], []), Undo, []);
    RanCons(Editor(a, -1, 1, [e.doc], []), Open([98]), [Undo]);
    RanCons(e, Type(97), [Open([98]), Undo]);
  }

  lemma OpenStates(e: Editor, a: Doc, b: Doc)
    requires e == Blank && a == Doc([97], 1) && b == Doc([98], 0)
    ensures Did(e, Type(97)) == Editor(a, -1, 1, [e.doc], [])
    ensures Did(Editor(a, -1, 1, [e.doc], []), Open([98])) == Editor(b, -1, 1, [e.doc], [])
    ensures Did(Editor(b, -1, 1, [e.doc], []), Undo).doc == Doc([], 0)
  {}

  lemma RanNone(e: Editor)
    ensures CanRun(e, []) && Ran(e, []) == e
  {}

  lemma RanCons(e: Editor, op: Op, ops: seq<Op>)
    requires DocOk(e.doc) && OpOk(e, op) && CanRun(Did(e, op), ops)
    ensures CanRun(e, [op] + ops) && Ran(e, [op] + ops) == Ran(Did(e, op), ops)
  {
    assert ([op] + ops)[1..] == ops;
  }

  // ---- which operations enter the history ----

  /** The editor as it starts. */
  const Blank := Editor(Doc([], 0), -1, -2, [], [])

  /** The operation takes a snapshot first. */
  predicate Enters(e: Editor, op: Op) {
    match op
    case Type(_) => |e.doc.text| < ROOM && Marks(e)
    case Backspace => HasSel(e) || e.doc.caret > 0
    case Delete => HasSel(e) || e.doc.caret < |e.doc.text|
    case Cut => HasSel(e)
    case Paste(clip) => clip != []
    case _ => false
  }

  predicate Edits(op: Op) { !op.Undo? && !op.Redo? && !op.New? }

  /** Short of undo, redo and New, an operation empties redo and is pushed for undo exactly when it takes a snapshot. */
  lemma EntersIff(e: Editor, op: Op)
    requires Ok(e) && Edits(op)
    ensures Did(e, op).ud == if Enters(e, op) then Pushed(e.ud, e.doc) else e.ud
    ensures Did(e, op).rd == if Enters(e, op) then [] else e.rd
  {}

  lemma StaleStates(e: Editor, a: Doc, ax: Doc, ab: Doc)
    requires e == Blank && a == Doc([97], 1) && ax == Doc([97, 120], 2) && ab == Doc([97, 98], 2)
    ensures Did(e, Type(97)) == Editor(a, -1, 1, [e.doc], [])
    ensures Did(Editor(a, -1, 1, [e.doc], []), Paste([120])) == Editor(ax, -1, 1, [e.doc, a], [])
    ensures Did(Editor(ax, -1, 1, [e.doc, a], []), Undo) == Editor(a, -1, 1, [e.doc], [ax])
    ensures Did(Editor(a, -1, 1, [e.doc], [ax]), Type(98)) == Editor(ab, -1, 2, [e.doc], [ax])
    ensures Did(Editor(ab, -1, 2, [e.doc], [ax]), Redo).doc == ax
  {
    assert [120][..1] == [120] && [e.doc, a][..1] == [e.doc];
  }

  /** Type a, paste x, undo, type b: the redo that is left brings the x back and drops the b. */
  lemma StaleRedo(e: Editor)
    requires e == Blank
    ensures var ops := [Type(97), Paste([120]), Undo, Type(98), Redo];
            CanRun(e, ops) && Ran(e, ops).doc == Doc([97, 120], 2)
  {
    hide Did, Ran, CanRun;
    assert [Type(97)] + [Paste([120]), Undo, Type(98), Redo] == [Type(97), Paste([120]), Undo, Type(98), Redo];
    assert [Paste([120])] + [Undo, Type(98), Redo] == [Paste([120]), Undo, Type(98), Redo];
    assert [Undo] + [Type(98), Redo] == [Undo, Type(98), Redo];
    assert [Type(98)] + [Redo] == [Type(98), Redo] && [Redo] + [] == [Redo];
    var a, ax, ab := Doc([97], 1), Doc([97, 120], 2), Doc([97, 98], 2);
    StaleStates(e, a, ax, ab);
    var e4 := Editor(ab, -1, 2, [e.doc], [ax]);
    RanNone(Did(e4, Redo));
    RanCons(e4, Redo, []);
    RanCons(Editor(a, -1, 1, [e.doc], [ax]), Type(98), [Redo]);
    RanCons(Editor(ax, -1, 1, [e.doc, a], []), Undo, [Type(98), Redo]);
    RanCons(Editor(a, -1, 1, [e.doc], []), Paste([120]), [Undo, Type(98), Redo]);
    RanCons(e, Type(97), [Paste([120]), Undo, Type(98), Redo]);
  }

  // ---- the history of a run ----

  /** The last n of s, or all of it. */
  function Last(s: seq<Doc>, n: nat): (r: seq<Doc>)
    ensures |r| == if |s| <= n then |s| else n
  {
    if |s| <= n then s else s[|s| - n..]
  }

  predicate AllEdits(ops: seq<Op>) { forall i :: 0 <= i < |ops| ==> Edits(ops[i]) }

  /** The documents that the run's operations took snapshots of, in order. */
  function Snapshots(e: Editor, ops: seq<Op>): seq<Doc>
    requires CanRun(e, ops)
    decreases ops
  {
    if ops == [] then []
    else (if Enters(e, ops[0]) then [e.doc] else []) + Snapshots(Did(e, ops[0]), ops[1..])
  }

  lemma PushedLast(ud: seq<Doc>, d: Doc, rest: seq<Doc>)
    requires |ud| <= DEPTH
    ensures Last(Pushed(ud, d) + rest, DEPTH) == Last(ud + ([d] + rest), DEPTH)
  {
    var x, y := Pushed(ud, d) + rest, ud + ([d] + rest);
    if |ud| == DEPTH { assert x == y[1..]; } else { assert x == y; }
  }

  /** After any run without undo, redo and New, the undo stack is the last 32 snapshots there were. */
  lemma {:induction false} EditsAppend(e: Editor, ops: seq<Op>)
    requires Ok(e) && CanRun(e, ops) && AllEdits(ops)
    ensures Ok(Ran(e, ops)) && Ran(e, ops).ud == Last(e.ud + Snapshots(e, ops), DEPTH)
    ensures Ran(e, ops).rd == if Snapshots(e, ops) == [] then e.rd else []
    decreases ops
  {
    if ops == [] {
      assert e.ud + [] == e.ud;
    } else {
      var e', rest := Did(e, ops[0]), ops[1..];
      DidOk(e, ops[0]);
      EntersIff(e, ops[0]);
      EditsAppend(e', rest);
      if Enters(e, ops[0]) {
        PushedLast(e.ud, e.doc, Snapshots(e', rest));
      } else {
        assert [] + Snapshots(e', rest) == Snapshots(e', rest);
      }
    }
  }

  function Undos(k: nat): (r: seq<bool>)
    ensures |r| == k
  {
    seq(k, i => false)
  }

  lemma {:induction false} UndosWalk(at: nat, last: nat, k: nat)
    ensures Walked(at, last, Undos(k)) == if at < k then 0 else at - k
    decreases k
  {
    if k > 0 {
      assert Undos(k)[1..] == Undos(k - 1);
      UndosWalk(if at == 0 then 0 else at - 1, last, k - 1);
    }
  }

  /** k undos go k places down the stack, or to its bottom. */
  lemma UndosBack(x: Editor, k: nat)
    ensures Moved(x, Undos(k)).doc == (x.ud + [x.doc])[if k <= |x.ud| then |x.ud| - k else 0]
  {
    hide Moved, Walked, Undos;
    MovesAlong(x, Undos(k));
    UndosWalk(Place(x), |Timeline(x)| - 1, k);
  }

  /** A run and then k undos. */
  function ThenUndos(ops: seq<Op>, k: nat): (r: seq<Op>)
    ensures |r| == |ops| + k
  {
    if k == 0 then ops else ThenUndos(ops, k - 1) + [Undo]
  }

  lemma {:induction false} RanSnoc(e: Editor, ops: seq<Op>, op: Op)
    requires CanRun(e, ops) && DocOk(Ran(e, ops).doc) && OpOk(Ran(e, ops), op)
    ensures CanRun(e, ops + [op]) && Ran(e, ops + [op]) == Did(Ran(e, ops), op)
    decreases ops
  {
    if ops == [] {
      assert [] + [op] == [op];
      assert CanRun(Did(e, op), [op][1..]);
    } else {
      assert (ops + [op])[1..] == ops[1..] + [op];
      RanSnoc(Did(e, ops[0]), ops[1..], op);
    }
  }

  lemma {:induction false} MovedSnoc(e: Editor, k: nat)
    ensures Moved(e, Undos(k + 1)) == Undone(Moved(e, Undos(k)))
    decreases k
  {
    assert Undos(k + 1)[1..] == Undos(k);
    if k > 0 {
      assert Undos(k)[1..] == Undos(k - 1);
      MovedSnoc(Undone(e), k - 1);
    }
  }

  /** Undos at the end of a run move along its line. */
  lemma {:induction false} RanUndos(e: Editor, ops: seq<Op>, k: nat)
    requires CanRun(e, ops) && Ok(Ran(e, ops))
    ensures CanRun(e, ThenUndos(ops, k)) && Ok(Ran(e, ThenUndos(ops, k)))
    ensures Ran(e, ThenUndos(ops, k)) == Moved(Ran(e, ops), Undos(k))
    decreases k
  {
    if k > 0 {
      RanUndos(e, ops, k - 1);
      RanSnoc(e, ThenUndos(ops, k - 1), Undo);
      DidOk(Ran(e, ThenUndos(ops, k - 1)), Undo);
      MovedSnoc(Ran(e, ops), k - 1);
    }
  }

  /**
    k undos after any run without undo, redo and New bring back the document of
    the k-th last snapshot, of those in the stack before and those of the run;
    no more than 32 are kept, and further undos stay at the oldest.
   */
  lemma EditsUndone(e: Editor, ops: seq<Op>, k: nat)
    requires Ok(e) && CanRun(e, ops) && AllEdits(ops)
    ensures CanRun(e, ThenUndos(ops, k))
    ensures var line := Last(e.ud + Snapshots(e, ops), DEPTH) + [Ran(e, ops).doc];
            Ran(e, ThenUndos(ops, k)).doc == line[if k < |line| then |line| - 1 - k else 0]
  {
    hide Ran, CanRun, Moved, Snapshots, ThenUndos, Undos, Ok;
    EditsAppend(e, ops);
    RanUndos(e, ops, k);
    UndosBack(Ran(e, ops), k);
  }

  /** Every operation of the run takes a snapshot. */
  predicate AllEnter(e: Editor, ops: seq<Op>)
    requires CanRun(e, ops)
    decreases ops
  {
    ops == [] || (Enters(e, ops[0]) && AllEnter(Did(e, ops[0]), ops[1..]))
  }

  lemma {:induction false} SnapshotPerEdit(e: Editor, ops: seq<Op>)
    requires CanRun(e, ops) && AllEnter(e, ops)
    ensures |Snapshots(e, ops)| == |ops| && (ops != [] ==> Snapshots(e, ops)[0] == e.doc)
    decreases ops
  {
    if ops != [] { SnapshotPerEdit(Did(e, ops[0]), ops[1..]); }
  }

  /** n edits that each take a snapshot and n undos bring back the start whenever n is at most 32. */
  lemma EditsAllUndone(e: Editor, ops: seq<Op>)
    requires Ok(e) && CanRun(e, ops) && AllEdits(ops) && AllEnter(e, ops) && |ops| <= DEPTH
    ensures CanRun(e, ThenUndos(ops, |ops|)) && Ran(e, ThenUndos(ops, |ops|)).doc == e.doc
  {
    EditsUndone(e, ops, |ops|);
    SnapshotPerEdit(e, ops);
    if ops != [] {
      var all := e.ud + Snapshots(e, ops);
      var line := Last(all, DEPTH) + [Ran(e, ops).doc];
      assert all[|all| - |ops|] == Snapshots(e, ops)[0];
      assert line[|line| - 1 - |ops|] == e.doc;
    }
  }

  // ---- typing ----

  /** An insertion that marks is undone in one step; one that does not leaves the history alone. */
  lemma InsertUndone(e: Editor, ch: byte)
    requires Ok(e) && |e.doc.text| < ROOM
    ensures Marks(e) ==> Undone(Inserted(e, ch)).doc == e.doc && Inserted(e, ch).rd == []
    ensures !Marks(e) ==> Inserted(e, ch).ud == e.ud && Inserted(e, ch).rd == e.rd
  {}

  /** Every change but a further character of a run of typing is taken back by one undo. */
  lemma ChangeUndone(e: Editor, op: Op)
    requires Ok(e) && (op.Type? || op.Backspace? || op.Delete? || op.Cut? || op.Paste?)
    requires Did(e, op).doc.text != e.doc.text && (op.Type? ==> Marks(e))
    ensures Undone(Did(e, op)).doc == e.doc && Did(e, op).rd == []
  {}

  function Typed(e: Editor, w: seq<byte>): (r: Editor)
    requires Ok(e)
    decreases w
  {
    if w == [] then e
    else
      DidOk(e, Type(w[0]));
      Typed(Inserted(e, w[0]), w[1..])
  }

  /** The state after a click: an anchor under the caret, which is no selection yet. */
  predicate Anchored(e: Editor) { e.sel >= 0 && e.sel == e.doc.caret }

  lemma SplicedTwice(d: Doc, a: byte, w: seq<byte>)
    requires d.caret <= |d.text|
    ensures Spliced(Spliced(d, [a]), w) == Spliced(d, [a] + w)
  {
    var x := Spliced(d, [a]);
    assert x.text[..x.caret] == d.text[..d.caret] + [a] && x.text[x.caret..] == d.text[d.caret..];
    assert d.text[..d.caret] + [a] + w + d.text[d.caret..] == d.text[..d.caret] + ([a] + w) + d.text[d.caret..];
  }

  lemma {:induction false} TypedPlain(e: Editor, w: seq<byte>)
    requires Ok(e) && e.sel == -1 && |e.doc.text| + |w| <= ROOM
    ensures Typed(e, w).doc == Spliced(e.doc, w)
    decreases w
  {
    if w == [] {
      assert e.doc.text[..e.doc.caret] + [] + e.doc.text[e.doc.caret..] == e.doc.text;
    } else {
      DidOk(e, Type(w[0]));
      TypedPlain(Inserted(e, w[0]), w[1..]);
      SplicedTwice(e.doc, w[0], w[1..]);
      assert [w[0]] + w[1..] == w;
    }
  }

  /** After a click the first character typed becomes a selection, and the second replaces it. */
  lemma TypedAnchored(e: Editor, w: seq<byte>)
    requires Ok(e) && Anchored(e) && |e.doc.text| + |w| <= ROOM && |w| >= 2
    ensures Typed(e, w).doc == Spliced(e.doc, w[1..])
  {
    var e1 := Inserted(e, w[0]);
    DidOk(e, Type(w[0]));
    var c := e.doc.caret;
    assert HasSel(e1) && Lo(e1) == c && Hi(e1) == c + 1;
    assert e1.doc.text[..c] + e1.doc.text[c + 1..] == e.doc.text;
    assert Base(e1) == e.doc;
    var e2 := Inserted(e1, w[1]);
    DidOk(e1, Type(w[1]));
    TypedPlain(e2, w[2..]);
    SplicedTwice(e.doc, w[1], w[2..]);
    assert w[1..][1..] == w[2..] && [w[1]] + w[2..] == w[1..];
  }

  lemma TypedSelected(e: Editor, w: seq<byte>)
    requires Ok(e) && HasSel(e) && |e.doc.text| + |w| <= ROOM && |w| >= 1
    ensures Typed(e, w).doc == Spliced(Base(e), w)
  {
    BaseOk(e);
    DidOk(e, Type(w[0]));
    TypedPlain(Inserted(e, w[0]), w[1..]);
    SplicedTwice(Base(e), w[0], w[1..]);
    assert [w[0]] + w[1..] == w;
  }

  /** What is typed, two characters or more, ends up in the text exactly when no anchor lay under the caret. */
  lemma TypingIff(e: Editor, w: seq<byte>)
    requires Ok(e) && |e.doc.text| + |w| <= ROOM && |w| >= 2
    ensures DocOk(Base(e)) && (Typed(e, w).doc == Spliced(Base(e), w) <==> !Anchored(e))
  {
    BaseOk(e);
    if Anchored(e) {
      TypedAnchored(e, w);
      assert Spliced(e.doc, w[1..]).caret != Spliced(e.doc, w).caret;
    } else if HasSel(e) {
      TypedSelected(e, w);
    } else {
      TypedPlain(e, w);
    }
  }

  /** Click at the start of an empty buffer and type ab: only b is there. */
  lemma ClickLosesCharacter(e: Editor)
    requires e == Blank
    ensures Ok(Did(e, Click(0))) && Typed(Did(e, Click(0)), [97, 98]).doc == Doc([98], 1)
  {
    TypedAnchored(Did(e, Click(0)), [97, 98]);
  }
}
