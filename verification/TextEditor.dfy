/** The buffer and stacks of mxedit.c, updated in place. */
module TextEditor {
  import opened Bits
  import opened EditHistory

  /** A stack of snapshots in a fixed array. */
  class Snaps {
    const st: array<Doc>
    var n: nat

    ghost predicate Valid()
      reads this
    {
      st.Length == DEPTH && n <= DEPTH
    }

    ghost function Contents(): (s: seq<Doc>)
      requires Valid()
      reads this, st
    {
      st[..n]
    }

    constructor ()
      ensures Valid() && fresh(st) && Contents() == []
    {
      st := new Doc[DEPTH](i => Doc([], 0));
      n := 0;
    }

    /** snap_clear. */
    method Clear()
      requires Valid()
      modifies this
      ensures Valid() && Contents() == []
    {
      n := 0;
    }

    /** The shift of snap_push: everything one place down, over the oldest snapshot. */
    method Evict()
      requires Valid() && n == DEPTH
      modifies this, st
      ensures Valid() && Contents() == old(Contents())[1..]
    {
      var i := 1;
      while i < DEPTH
        invariant 1 <= i <= DEPTH && n == DEPTH
        invariant forall k :: 0 <= k < i - 1 ==> st[k] == old(st[k + 1])
        invariant forall k :: i <= k < DEPTH ==> st[k] == old(st[k])
      {
        st[i - 1] := st[i];
        i := i + 1;
      }
      n := n - 1;
    }

    /** snap_push, with allocation succeeding. */
    method Push(d: Doc)
      requires Valid()
      modifies this, st
      ensures Valid() && Contents() == Pushed(old(Contents()), d)
    {
      if n == DEPTH { Evict(); }
      st[n] := d;
      n := n + 1;
    }
  }

  class Session {
    const buf: array<byte>
    var len: nat
    var caret: nat
    var sel: int
    var run: int
    const ud: Snaps
    const rd: Snaps

    ghost predicate Apart()
      reads this
    {
      buf.Length == ROOM + 1 && len <= ROOM && ud != rd && ud.st != rd.st
    }

    ghost predicate Valid()
      reads this, buf, ud, ud.st, rd, rd.st
    {
      Apart() && ud.Valid() && rd.Valid() && Ok(State())
    }

    /** What the editor holds, as a value. */
    ghost function State(): (e: Editor)
      requires Apart() && ud.Valid() && rd.Valid()
      reads this, buf, ud, ud.st, rd, rd.st
    {
      Editor(Doc(buf[..len], caret), sel, run, ud.Contents(), rd.Contents())
    }

    constructor ()
      ensures Valid() && State() == Blank
    {
      buf := new byte[ROOM + 1];
      len, caret, sel, run := 0, 0, -1, -2;
      ud := new Snaps();
      rd := new Snaps();
    }

    /** ed_checkpoint. */
    method Checkpoint()
      requires Valid()
      modifies ud, ud.st, rd
      ensures Valid() && State() == Marked(old(State()))
    {
      ud.Push(Doc(buf[..len], caret));
      rd.Clear();
    }

    /** memcpy into the buffer. */
    method Load(text: seq<byte>)
      requires Apart() && |text| <= ROOM
      modifies this`len, buf
      ensures len == |text| && buf[..len] == text
    {
      var i := 0;
      while i < |text|
        invariant 0 <= i <= |text| && buf[..i] == text[..i]
      {
        buf[i] := text[i];
        i := i + 1;
      }
      len := |text|;
      buf[len] := 0;
      assert text[..|text|] == text;
    }

    /** The loop that moves everything from at + d on, terminator included, down by d. */
    method MoveDown(at: nat, d: nat)
      requires Apart() && 0 < d && at + d <= len
      modifies buf
      ensures buf[..len - d] == old(buf[..len])[..at] + old(buf[..len])[at + d..]
    {
      ghost var was := buf[..len];
      var i := at;
      while i + d <= len
        invariant at <= i <= len - d + 1
        invariant forall k :: 0 <= k < at || i <= k < buf.Length ==> buf[k] == old(buf[k])
        invariant forall k :: at <= k < i ==> buf[k] == old(buf[k + d])
      {
        buf[i] := buf[i + d];
        i := i + 1;
      }
      assert buf[..len - d] == was[..at] + was[at + d..];
    }

    /** ed_del_range. */
    method DelRange(from: int, to: int)
      requires Apart() && caret <= len
      modifies this`len, this`caret, buf
      ensures len <= ROOM && Doc(buf[..len], caret) == Without(Doc(old(buf[..len]), old(caret)), from, to)
    {
      var lo := if from < 0 then 0 else from;
      var hi := if to > len then len else to;
      if lo >= hi { return; }
      var d := hi - lo;
      MoveDown(lo, d);
      len := len - d;
      caret := lo;
      buf[len] := 0;
    }

    /** The loop that moves everything from at on up by one. */
    method MoveUp(at: nat)
      requires Apart() && at <= len < ROOM
      modifies buf
      ensures buf[..at] == old(buf[..at]) && buf[at + 1..len + 1] == old(buf[at..len])
    {
      var i := len;
      while i > at
        invariant at <= i <= len
        invariant forall k :: 0 <= k <= i ==> buf[k] == old(buf[k])
        invariant forall k :: i < k <= len ==> buf[k] == old(buf[k - 1])
      {
        buf[i] := buf[i - 1];
        i := i - 1;
      }
    }

    /** Makes room at the caret for one character and puts it there. */
    method PutChar(ch: byte)
      requires Apart() && len < ROOM && caret <= len
      modifies this`len, this`caret, buf
      ensures len == old(len) + 1 && caret == old(caret) + 1
      ensures Doc(buf[..len], caret) == Spliced(Doc(old(buf[..len]), old(caret)), [ch])
    {
      ghost var before, behind := buf[..caret], buf[caret..len];
      MoveUp(caret);
      buf[caret] := ch;
      len, caret := len + 1, caret + 1;
      buf[len] := 0;
      assert buf[..caret - 1] == before && buf[caret..len] == behind;
      assert buf[..len] == before + [ch] + behind;
      assert old(buf[..len])[..caret - 1] == before && old(buf[..len])[caret - 1..] == behind;
    }

    function SelLo(): int
      reads this
    {
      if sel < caret then sel else caret
    }

    function SelHi(): int
      reads this
    {
      if sel < caret then caret else sel
    }

    predicate Selected()
      reads this
    {
      sel >= 0 && sel != caret
    }

    /** Deletes the selection after a checkpoint. */
    method DropSelection()
      requires Valid() && HasSel(State())
      modifies this, buf, ud, ud.st, rd
      ensures Valid() && State() == Marked(old(State())).(doc := Base(old(State())), sel := -1)
    {
      BaseOk(State());
      Checkpoint();
      DelRange(SelLo(), SelHi());
      sel := -1;
    }

    /** ed_insert. */
    method Insert(ch: byte)
      requires Valid()
      modifies this, buf, ud, ud.st, rd
      ensures Valid() && State() == Inserted(old(State()), ch)
    {
      if len >= ROOM { return; }
      DidOk(State(), Type(ch));
      if Selected() {
        DropSelection();
      } else if caret != run {
        Checkpoint();
      }
      PutChar(ch);
      run := caret;
    }

    /** ed_backspace. */
    method EraseBack()
      requires Valid()
      modifies this, buf, ud, ud.st, rd
      ensures Valid() && State() == Erased(old(State()))
    {
      if Selected() {
        DropSelection();
        run := -2;
        return;
      }
      if caret <= 0 { return; }
      Checkpoint();
      run := -2;
      MoveDown(caret - 1, 1);
      caret, len := caret - 1, len - 1;
    }

    /** The delete key. */
    method EraseNext()
      requires Valid()
      modifies this, buf, ud, ud.st, rd
      ensures Valid() && State() == Deleted(old(State()))
    {
      run := -2;
      if Selected() {
        DropSelection();
      } else if caret < len {
        Checkpoint();
        MoveDown(caret, 1);
        len := len - 1;
        buf[len] := 0;
      }
    }

    /** ed_cut. */
    method CutSelection()
      requires Valid()
      modifies this, buf, ud, ud.st, rd
      ensures Valid() && State() == CutOut(old(State()))
    {
      if Selected() { DropSelection(); }
    }

    /** The copying loop of ed_paste. */
    method PutAll(clip: seq<byte>) returns (k: nat)
      requires Apart() && caret <= len
      modifies this`len, this`caret, buf
      ensures len <= ROOM && k == (if |clip| <= ROOM - old(len) then |clip| else ROOM - old(len))
      ensures Doc(buf[..len], caret) == Spliced(Doc(old(buf[..len]), old(caret)), clip[..k])
    {
      ghost var d := Doc(buf[..len], caret);
      k := 0;
      assert d.text[..caret] + [] + d.text[caret..] == d.text;
      while k < |clip| && len < ROOM
        invariant k <= |clip| && len == old(len) + k <= ROOM && caret == old(caret) + k
        invariant Doc(buf[..len], caret) == Spliced(d, clip[..k])
      {
        PutChar(clip[k]);
        SplicedNext(d, clip, k);
        k := k + 1;
      }
    }

    /** ed_paste. */
    method PasteClip(clip: seq<byte>)
      requires Valid()
      modifies this, buf, ud, ud.st, rd
      ensures Valid() && State() == Pasted(old(State()), clip)
    {
      hide Pushed, Without, Lo, Hi, Spliced;
      if clip == [] { return; }
      DidOk(State(), Paste(clip));
      if Selected() { DropSelection(); } else { Checkpoint(); }
      sel := -1;
      var k := PutAll(clip);
    }

    /** snap_restore: the document moves to one stack and comes from the other. */
    method Restore(from: Snaps, to: Snaps)
      requires Valid() && ((from == ud && to == rd) || (from == rd && to == ud))
      modifies this, buf, ud, ud.st, rd, rd.st
      ensures Valid() && State() == if from == ud then Undone(old(State())) else Redone(old(State()))
    {
      if from.n <= 0 { return; }
      to.st[to.n] := Doc(buf[..len], caret);
      if to.n < DEPTH { to.n := to.n + 1; }
      from.n := from.n - 1;
      var s := from.st[from.n];
      assert DocOk(s);
      Load(s.text);
      caret, sel := s.caret, -1;
    }

    /** One key, click or menu entry. */
    method Perform(op: Op)
      requires Valid() && OpOk(State(), op)
      modifies this, buf, ud, ud.st, rd, rd.st
      ensures Valid() && State() == Did(old(State()), op)
    {
      hide Inserted, Erased, Deleted, CutOut, Pasted, Undone, Redone;
      match op
      case Type(ch) => Insert(ch);
      case Backspace => EraseBack();
      case Delete => EraseNext();
      case Cut => CutSelection();
      case Paste(clip) => PasteClip(clip);
      case Undo => Restore(ud, rd);
      case Redo => Restore(rd, ud);
      case Click(pos) => caret := pos; sel := caret;
      case Drag(pos) => if sel >= 0 { caret := pos; }
      case Move(pos) => sel, run, caret := -1, -2, pos;
      case SelectAll => if len > 0 { sel, caret := 0, len; }
      case Open(text) => Load(text); caret := 0;
      case New(menu) =>
        Load([]);
        caret, sel := 0, -1;
        ud.Clear();
        rd.Clear();
        if menu { run := -2; }
    }

    /** Any run of the editor keeps both stacks within one. */
    method PerformAll(ops: seq<Op>)
      requires Valid() && CanRun(State(), ops)
      modifies this, buf, ud, ud.st, rd, rd.st
      ensures Valid() && State() == Ran(old(State()), ops) && ud.n + rd.n <= DEPTH
    {
      hide Did, OpOk;
      var i := 0;
      assert ops[0..] == ops;
      while i < |ops|
        invariant 0 <= i <= |ops| && Valid() && CanRun(State(), ops[i..])
        invariant Ran(State(), ops[i..]) == Ran(old(State()), ops)
      {
        assert ops[i..][0] == ops[i] && ops[i..][1..] == ops[i + 1..];
        Perform(ops[i]);
        i := i + 1;
      }
    }
  }

  lemma SplicedNext(d: Doc, clip: seq<byte>, k: nat)
    requires d.caret <= |d.text| && k < |clip|
    ensures Spliced(Spliced(d, clip[..k]), [clip[k]]) == Spliced(d, clip[..k + 1])
  {
    var x := Spliced(d, clip[..k]);
    assert x.text[..x.caret] == d.text[..d.caret] + clip[..k] && x.text[x.caret..] == d.text[d.caret..];
    assert clip[..k] + [clip[k]] == clip[..k + 1];
    assert d.text[..d.caret] + clip[..k] + [clip[k]] == d.text[..d.caret] + clip[..k + 1];
  }
}
