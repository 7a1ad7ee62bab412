/** What the editor's operations do to the text, and which of them take each other back. */
module EditTexts {
  import opened Bits
  import opened EditHistory

  /** The selection: from the anchor or the caret, whichever is first, to the other. */
  predicate Selection(e: Editor, before: seq<byte>, middle: seq<byte>, behind: seq<byte>) {
    && e.doc.text == before + middle + behind && middle != [] && e.sel >= 0
    && ((e.sel == |before| && e.doc.caret == |before| + |middle|)
      || (e.doc.caret == |before| && e.sel == |before| + |middle|))
  }

  lemma SelectionIs(e: Editor, before: seq<byte>, middle: seq<byte>, behind: seq<byte>)
    requires Selection(e, before, middle, behind)
    ensures HasSel(e) && Base(e) == Doc(before + behind, |before|)
  {
    var t, l, h := e.doc.text, |before|, |before| + |middle|;
    assert t[..l] == before && t[h..] == behind;
  }

  /** With a selection, typing, pasting, cutting and both erasing keys put what is new in its place. */
  lemma ReplacesSelection(e: Editor, before: seq<byte>, middle: seq<byte>, behind: seq<byte>, ch: byte, clip: seq<byte>)
    requires Ok(e) && Selection(e, before, middle, behind) && clip != [] && |before| + |clip| + |behind| <= ROOM
    ensures |e.doc.text| < ROOM ==> Inserted(e, ch).doc == Doc(before + [ch] + behind, |before| + 1)
    ensures Pasted(e, clip).doc == Doc(before + clip + behind, |before| + |clip|)
    ensures CutOut(e).doc == Erased(e).doc == Deleted(e).doc == Doc(before + behind, |before|)
  {
    SelectionIs(e, before, middle, behind);
    var t := before + behind;
    assert t[..|before|] == before && t[|before|..] == behind && clip[..|clip|] == clip;
  }

  /** Without one they work at the caret. */
  lemma WorksAtCaret(e: Editor, before: seq<byte>, behind: seq<byte>, c: byte, ch: byte, clip: seq<byte>)
    requires Ok(e) && !HasSel(e) && clip != []
    ensures e.doc == Doc(before + behind, |before|) && |e.doc.text| < ROOM ==>
              Inserted(e, ch).doc == Doc(before + [ch] + behind, |before| + 1)
    ensures e.doc == Doc(before + behind, |before|) && |before| + |clip| + |behind| <= ROOM ==>
              Pasted(e, clip).doc == Doc(before + clip + behind, |before| + |clip|)
    ensures e.doc == Doc(before + [c] + behind, |before| + 1) ==> Erased(e).doc == Doc(before + behind, |before|)
    ensures e.doc == Doc(before + [c] + behind, |before|) ==> Deleted(e).doc == Doc(before + behind, |before|)
    ensures CutOut(e) == e
  {
    var t, u := before + behind, before + [c] + behind;
    assert t[..|before|] == before && t[|before|..] == behind && clip[..|clip|] == clip;
    assert u[..|before|] == before && u[|before| + 1..] == behind;
  }

  /** What does not fit is not pasted. */
  lemma PastesWhatFits(e: Editor, clip: seq<byte>)
    requires Ok(e) && clip != []
    ensures |Pasted(e, clip).doc.text| == if |Base(e).text| + |clip| <= ROOM then |Base(e).text| + |clip| else ROOM
  {
    BaseOk(e);
  }

  /** Backspace takes back a typed character, and leaves a selection it replaced deleted. */
  lemma BackspaceAfterType(e: Editor, ch: byte)
    requires Ok(e) && |e.doc.text| < ROOM
    ensures Erased(Inserted(e, ch)).doc == Base(e)
  {
    BaseOk(e);
    var d, x := Base(e), Spliced(Base(e), [ch]);
    assert x.text[..d.caret] == d.text[..d.caret] && x.text[d.caret + 1..] == d.text[d.caret..];
    assert d.text[..d.caret] + d.text[d.caret..] == d.text;
    assert Without(x, d.caret, d.caret + 1) == d;
  }

  /** Pasting back what was cut gives back the text. */
  lemma PasteAfterCut(e: Editor, before: seq<byte>, middle: seq<byte>, behind: seq<byte>)
    requires Ok(e) && Selection(e, before, middle, behind)
    ensures Pasted(CutOut(e), middle).doc == Doc(e.doc.text, |before| + |middle|)
  {
    DidOk(e, Cut);
    ReplacesSelection(e, before, middle, behind, 0, middle);
    WorksAtCaret(CutOut(e), before, behind, 0, 0, middle);
  }

  // ---- moving and selecting ----

  /** A press at p and a drag to q select what lies between, whichever comes first; cutting takes it out. */
  lemma DragSelects(e: Editor, p: nat, q: nat)
    requires Ok(e) && p < q <= |e.doc.text|
    ensures var a, b := Did(Did(e, Click(p)), Drag(q)), Did(Did(e, Click(q)), Drag(p));
            var t := e.doc.text;
            && Selection(a, t[..p], t[p..q], t[q..]) && Selection(b, t[..p], t[p..q], t[q..])
            && Did(a, Cut).doc == Did(b, Cut).doc == Doc(t[..p] + t[q..], p)
  {
    var t := e.doc.text;
    var a, b := Did(Did(e, Click(p)), Drag(q)), Did(Did(e, Click(q)), Drag(p));
    assert t == t[..p] + t[p..q] + t[q..];
    SelectionIs(a, t[..p], t[p..q], t[q..]);
    SelectionIs(b, t[..p], t[p..q], t[q..]);
  }

  /** A drag without a press before it does nothing. */
  lemma DragAlone(e: Editor, q: nat)
    requires Ok(e) && e.sel == -1
    ensures Did(e, Drag(q)) == e
  {}

  /** The arrow keys leave no selection and end a run of typing: the next character takes a snapshot. */
  lemma MoveEndsRun(e: Editor, p: nat, ch: byte)
    requires Ok(e) && p <= |e.doc.text| < ROOM
    ensures var a := Did(e, Move(p));
            && a.doc == Doc(e.doc.text, p) && Did(a, Cut) == a
            && Undone(Did(a, Type(ch))).doc == a.doc && Did(a, Type(ch)).ud == Pushed(e.ud, a.doc)
  {}

  /** Selecting all and cutting empties the text, and one undo brings it back. */
  lemma CutAll(e: Editor)
    requires Ok(e) && e.doc.text != []
    ensures var a := Did(Did(e, SelectAll), Cut);
            a.doc == Doc([], 0) && Undone(a).doc == Doc(e.doc.text, |e.doc.text|)
  {
    var a := Did(e, SelectAll);
    assert e.doc.text == [] + e.doc.text + [];
    SelectionIs(a, [], e.doc.text, []);
  }

  /** New leaves an empty text and nothing to undo or redo; opening a file shows it from its start. */
  lemma FreshText(e: Editor, menu: bool, text: seq<byte>)
    requires Ok(e)
    ensures var a := Did(e, New(menu)); a.doc == Doc([], 0) && Undone(a) == a && Redone(a) == a && Did(a, Cut) == a
    ensures Did(e, Open(text)).doc == Doc(text, 0)
  {}
}
