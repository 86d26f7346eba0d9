/** A paragraph of the parsed HWP document and what `applyReplacements`
    does to it: the char list is rewritten, and after a change the header
    count, the line segments and the char shapes are fixed up. */
module Paragraphs {
  import opened Optional
  import opened HwpChar
  import opened Placeholders
  import opened Rewrite

  /** A (position, char shape id) pair of the paragraph's char shape list. */
  type ShapePair = (int, int)

  /** A control anchored in a paragraph: a table, or any other control,
      which the walk does not enter. */
  datatype Control = TableControl(table: Table) | OtherControl(kind: int)
  datatype Table = Table(rows: seq<Row>)
  datatype Row = Row(cells: seq<Cell>)
  /** A cell's paragraph array, whose entries may be `null`. */
  datatype Cell = Cell(paragraphs: seq<Paragraph?>)

  /** The fields of a paragraph that the engine reads or writes. */
  datatype ParaState = ParaState(
    chars: Option<seq<HChar>>,   // the text's char list; None when the text or its list is null
    characterCount: int,         // header character count
    charShapes: seq<ShapePair>,  // char shape (position, shape id) list
    charShapeCount: int,         // header char shape count
    hasLineSeg: bool)            // whether line segments are present

  class Paragraph {
    var chars: Option<seq<HChar>>
    var characterCount: int
    var charShapes: seq<ShapePair>
    var charShapeCount: int
    var hasLineSeg: bool
    /** The paragraph's control list (an absent list is empty). */
    const controls: seq<Control>

    constructor (state: ParaState, controls: seq<Control>)
      ensures State() == state && this.controls == controls
    {
      chars := state.chars;
      characterCount := state.characterCount;
      charShapes := state.charShapes;
      charShapeCount := state.charShapeCount;
      hasLineSeg := state.hasLineSeg;
      this.controls := controls;
    }

    function State(): ParaState
      reads this
    {
      ParaState(chars, characterCount, charShapes, charShapeCount, hasLineSeg)
    }
  }

  /** The header counts agree with the lists they count. */
  predicate Consistent(s: ParaState)
  {
    (s.chars.Some? ==> s.characterCount == |s.chars.value|) && s.charShapeCount == |s.charShapes|
  }

  /** The char shape list cut down to its first entry, when it had more. */
  function FirstShapeOnly(s: ParaState): ParaState
  {
    if |s.charShapes| > 1 then s.(charShapes := s.charShapes[..1], charShapeCount := 1) else s
  }

  /** The effect of `applyReplacements` on a paragraph. */
  function Applied(s: ParaState, entries: Entries): ParaState
  {
    if s.chars.None? then s
    else match NewCharList(s.chars.value, entries)
      case None => s
      case Some(newList) =>
        FirstShapeOnly(s.(chars := Some(newList), characterCount := |newList|, hasLineSeg := false))
  }

  /** `changeNewCharList`: the char list is cleared and refilled in place,
      then the header count is set to the new length. */
  method ChangeNewCharList(paragraph: Paragraph, newCharList: seq<HChar>)
    requires paragraph.chars.Some?
    modifies paragraph
    ensures paragraph.State()
      == old(paragraph.State()).(chars := Some(newCharList), characterCount := |newCharList|)
  {
    paragraph.chars := Some([]);
    var i := 0;
    while i < |newCharList|
      invariant 0 <= i <= |newCharList|
      invariant paragraph.State() == old(paragraph.State()).(chars := Some(newCharList[..i]))
    {
      assert newCharList[..i + 1] == newCharList[..i] + [newCharList[i]];
      paragraph.chars := Some(paragraph.chars.value + [newCharList[i]]);
      i := i + 1;
    }
    assert newCharList[..i] == newCharList;
    paragraph.characterCount := |newCharList|;
  }

  /** `removeLineSeg`: the line segments are deleted. */
  method RemoveLineSeg(paragraph: Paragraph)
    modifies paragraph
    ensures paragraph.State() == old(paragraph.State()).(hasLineSeg := false)
  {
    paragraph.hasLineSeg := false;
  }

  /** `removeCharShapeExceptFirstOne`: while the list has more than one
      entry, the entry at index 1 is removed, and the header count is set
      to 1; a list of at most one entry is left alone. */
  method RemoveCharShapeExceptFirstOne(paragraph: Paragraph)
    modifies paragraph
    ensures paragraph.State() == FirstShapeOnly(old(paragraph.State()))
  {
    var size := |paragraph.charShapes|;
    if size > 1 {
      var index := 0;
      while index < size - 1
        invariant 0 <= index <= size - 1
        invariant paragraph.charShapes == [old(paragraph.charShapes)[0]] + old(paragraph.charShapes)[index + 1..]
        invariant paragraph.State() == old(paragraph.State()).(charShapes := paragraph.charShapes)
      {
        paragraph.charShapes := paragraph.charShapes[..1] + paragraph.charShapes[2..];
        index := index + 1;
      }
      paragraph.charShapeCount := 1;
    }
  }

  /** `applyReplacements(para, data)`; a `null` paragraph is left alone. */
  method ApplyReplacements(para: Paragraph?, entries: Entries)
    modifies para
    ensures para != null ==> para.State() == Applied(old(para.State()), entries)
  {
    if para == null || para.chars.None? {
      return;
    }
    var newCharList := GetNewCharList(para.chars.value, entries);
    if newCharList.Some? {
      ChangeNewCharList(para, newCharList.value);
      RemoveLineSeg(para);
      RemoveCharShapeExceptFirstOne(para);
    }
  }

  /** A paragraph with no text, or in which no maximal run of normal chars
      contains a placeholder of the map, is left exactly as it was. */
  lemma {:induction false} AppliedWithoutMatch(s: ParaState, entries: Entries)
    requires s.chars.Some? ==> forall r :: r in Runs(s.chars.value) ==> !RunMatches(r, entries)
    ensures Applied(s, entries) == s
  {
    if s.chars.Some? {
      NewCharListNoneIff(s.chars.value, entries);
    }
  }

  /** With an empty map no paragraph changes. */
  lemma {:induction false} AppliedWithEmptyMap(s: ParaState)
    ensures Applied(s, []) == s
  {
    AppliedWithoutMatch(s, []);
  }

  /** A paragraph in which some run contains a placeholder is changed: its
      line segments are gone and its char shape list is cut to its first
      entry. */
  lemma {:induction false} AppliedWithMatch(s: ParaState, entries: Entries, r: seq<HChar>)
    requires s.chars.Some? && r in Runs(s.chars.value) && RunMatches(r, entries)
    ensures var t := Applied(s, entries);
      t.chars.Some? && t.characterCount == |t.chars.value| && !t.hasLineSeg
      && (|s.charShapes| > 1 ==> t.charShapes == [s.charShapes[0]] && t.charShapeCount == 1)
      && (|s.charShapes| <= 1 ==> t.charShapes == s.charShapes && t.charShapeCount == s.charShapeCount)
  {
    NewCharListNoneIff(s.chars.value, entries);
  }

  /** The control chars of a paragraph survive substitution unchanged and in order. */
  lemma {:induction false} AppliedKeepsControls(s: ParaState, entries: Entries)
    requires s.chars.Some?
    ensures Applied(s, entries).chars.Some?
    ensures Controls(Applied(s, entries).chars.value) == Controls(s.chars.value)
  {
    RewrittenKeepsControls(s.chars.value, entries);
  }

  /** Substitution keeps the header counts in agreement with the lists. */
  lemma {:induction false} AppliedKeepsConsistent(s: ParaState, entries: Entries)
    requires Consistent(s)
    ensures Consistent(Applied(s, entries))
  {
  }
}
