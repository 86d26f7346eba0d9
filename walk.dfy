/** `process` and `processTable`: the walk over a parsed document that
    applies the replacements to every top-level paragraph and to every
    paragraph of every cell of a table anchored in a top-level paragraph. */
module Walk {
  import opened HwpChar
  import opened Placeholders
  import opened Rewrite
  import opened Paragraphs

  /** A section's paragraph array (an absent array is empty); reading a
      control list of a `null` entry would fail, so entries are not null. */
  datatype Section = Section(paragraphs: seq<Paragraph>)
  /** The body text of a parsed HWP file. */
  datatype Document = Document(sections: seq<Section>)

  /** `f` of every element of `s`, in order, concatenated. */
  function Flatten<T>(s: seq<T>, f: T -> seq<Paragraph?>): seq<Paragraph?>
  {
    if s == [] then [] else Flatten(s[..|s| - 1], f) + f(s[|s| - 1])
  }

  lemma {:induction false} FlattenSnoc<T>(s: seq<T>, i: nat, f: T -> seq<Paragraph?>)
    requires i < |s|
    ensures Flatten(s[..i + 1], f) == Flatten(s[..i], f) + f(s[i])
  {
    assert s[..i + 1][..i] == s[..i];
  }

  /** One step of a loop over `s` that counts `f` of each element after `done`. */
  lemma {:induction false} FlattenStep<T>(done: seq<Paragraph?>, s: seq<T>, i: nat, f: T -> seq<Paragraph?>)
    requires i < |s|
    ensures done + Flatten(s[..i + 1], f) == done + Flatten(s[..i], f) + f(s[i])
  {
    FlattenSnoc(s, i, f);
  }

  lemma {:induction false} FlattenMember<T>(s: seq<T>, f: T -> seq<Paragraph?>, x: Paragraph?)
    ensures x in Flatten(s, f) <==> exists e :: e in s && x in f(e)
  {
    if s != [] {
      var init := s[..|s| - 1];
      FlattenMember(init, f, x);
      assert s == init + [s[|s| - 1]];
      if x in Flatten(init, f) {
        var e :| e in init && x in f(e);
        assert e in s;
      }
    }
  }

  function CellVisits(cell: Cell): seq<Paragraph?>
  {
    cell.paragraphs
  }

  function RowVisits(row: Row): seq<Paragraph?>
  {
    Flatten(row.cells, CellVisits)
  }

  /** The paragraphs `processTable` visits, in order. */
  function TableVisits(table: Table): seq<Paragraph?>
  {
    Flatten(table.rows, RowVisits)
  }

  /** A table control is entered; any other control contributes nothing. */
  function ControlVisit(control: Control): seq<Paragraph?>
  {
    if control.TableControl? then TableVisits(control.table) else []
  }

  function ControlVisits(controls: seq<Control>): seq<Paragraph?>
  {
    Flatten(controls, ControlVisit)
  }

  /** A top-level paragraph, then the cells of its tables. */
  function ParagraphVisits(para: Paragraph): seq<Paragraph?>
  {
    [para] + ControlVisits(para.controls)
  }

  function SectionVisits(section: Section): seq<Paragraph?>
  {
    Flatten(section.paragraphs, ParagraphVisits)
  }

  /** The paragraphs `process` hands to `applyReplacements`, in order. */
  function Visits(doc: Document): seq<Paragraph?>
  {
    Flatten(doc.sections, SectionVisits)
  }

  /** `applyReplacements` applied `n` times. */
  function AppliedTimes(s: ParaState, entries: Entries, n: nat): ParaState
  {
    if n == 0 then s else Applied(AppliedTimes(s, entries, n - 1), entries)
  }

  lemma {:induction false} AppliedTimesAdd(s: ParaState, entries: Entries, a: nat, b: nat)
    ensures AppliedTimes(AppliedTimes(s, entries, a), entries, b) == AppliedTimes(s, entries, a + b)
  {
    if b != 0 {
      AppliedTimesAdd(s, entries, a, b - 1);
    }
  }

  /** The states of the paragraphs of `ps`, in the current heap. */
  ghost function Snapshot(ps: seq<Paragraph?>): map<Paragraph, ParaState>
    reads set p: Paragraph | p in ps
  {
    map p: Paragraph | p in ps :: p.State()
  }

  /** From the states `before` to the states `now`, each paragraph of `ps`
      has gone through `applyReplacements` once per occurrence in `done`. */
  ghost predicate Counted(before: map<Paragraph, ParaState>, now: map<Paragraph, ParaState>,
                          ps: seq<Paragraph?>, entries: Entries, done: seq<Paragraph?>)
  {
    forall p: Paragraph :: p in ps ==>
      p in before && p in now && now[p] == AppliedTimes(before[p], entries, multiset(done)[p])
  }

  /** The same between the previous state and this one. */
  twostate predicate AppliedAsCounted(ps: seq<Paragraph?>, entries: Entries, done: seq<Paragraph?>)
    reads set p: Paragraph | p in ps
  {
    forall p: Paragraph :: p in ps ==> p.State() == AppliedTimes(old(p.State()), entries, multiset(done)[p])
  }

  /** One more `applyReplacements(para, data)`, which changes `para` and no
      other paragraph, adds `para` to the count. */
  lemma {:induction false} CountedApply(before: map<Paragraph, ParaState>, mid: map<Paragraph, ParaState>, post: map<Paragraph, ParaState>,
                     ps: seq<Paragraph?>, para: Paragraph?, entries: Entries, done: seq<Paragraph?>)
    requires Counted(before, mid, ps, entries, done)
    requires forall p: Paragraph :: p in ps ==> p in post && post[p] == if p == para then Applied(mid[p], entries) else mid[p]
    ensures Counted(before, post, ps, entries, done + [para])
  {
    forall p: Paragraph | p in ps
      ensures post[p] == AppliedTimes(before[p], entries, multiset(done + [para])[p])
    {
      if p == para {
        assert multiset(done + [para])[p] == multiset(done)[p] + 1;
      } else {
        assert multiset(done + [para])[p] == multiset(done)[p];
      }
    }
  }

  /** Two runs in a row compose: counts `first` from `before` to `mid` and
      `second` from `mid` to `after` are `first + second` from `before` to
      `after` (for instance, two walks in a row over one in-memory tree). */
  lemma {:induction false} CountedCompose(before: map<Paragraph, ParaState>, mid: map<Paragraph, ParaState>, after: map<Paragraph, ParaState>,
                       ps: seq<Paragraph?>, entries: Entries, first: seq<Paragraph?>, second: seq<Paragraph?>)
    requires Counted(before, mid, ps, entries, first)
    requires Counted(mid, after, ps, entries, second)
    ensures Counted(before, after, ps, entries, first + second)
  {
    forall p: Paragraph | p in ps
      ensures after[p] == AppliedTimes(before[p], entries, multiset(first + second)[p])
    {
      AppliedTimesAdd(before[p], entries, multiset(first)[p], multiset(second)[p]);
    }
  }

  /** Every paragraph `f` gives for an element of `s` is in `Flatten(s, f)`. */
  lemma {:induction false} FlattenCovers<T>(s: seq<T>, i: nat, f: T -> seq<Paragraph?>)
    requires i < |s|
    ensures forall x :: x in f(s[i]) ==> x in Flatten(s, f)
  {
    if i < |s| - 1 {
      FlattenCovers(s[..|s| - 1], i, f);
    }
  }

  /* Each level of the walk below extends the count `done` of a run that
     started from the states `before`, over any paragraphs `ps` of interest;
     `Process` starts it with the whole document. */

  /** The innermost loop of `processTable`: every paragraph of one cell. */
  method ProcessCellParagraphs(cellParagraphs: seq<Paragraph?>, entries: Entries,
                               ghost before: map<Paragraph, ParaState>, ghost ps: seq<Paragraph?>, ghost done: seq<Paragraph?>)
    requires Counted(before, Snapshot(ps), ps, entries, done)
    modifies set p: Paragraph | p in cellParagraphs
    ensures Counted(before, Snapshot(ps), ps, entries, done + cellParagraphs)
  {
    var k := 0;
    while k < |cellParagraphs|
      invariant 0 <= k <= |cellParagraphs|
      invariant Counted(before, Snapshot(ps), ps, entries, done + cellParagraphs[..k])
    {
      var cellPara := cellParagraphs[k];
      ghost var mid := Snapshot(ps);
      ApplyReplacements(cellPara, entries);
      CountedApply(before, mid, Snapshot(ps), ps, cellPara, entries, done + cellParagraphs[..k]);
      assert done + cellParagraphs[..k + 1] == done + cellParagraphs[..k] + [cellPara];
      k := k + 1;
    }
    assert cellParagraphs[..k] == cellParagraphs;
  }

  /** The loop of `processTable` over the cells of one row. */
  method ProcessRow(row: Row, entries: Entries,
                    ghost before: map<Paragraph, ParaState>, ghost ps: seq<Paragraph?>, ghost done: seq<Paragraph?>)
    requires Counted(before, Snapshot(ps), ps, entries, done)
    modifies set p: Paragraph | p in RowVisits(row)
    ensures Counted(before, Snapshot(ps), ps, entries, done + RowVisits(row))
  {
    var cells := row.cells;
    var j := 0;
    ghost var seen: seq<Paragraph?> := done;
    while j < |cells|
      invariant 0 <= j <= |cells|
      invariant seen == done + Flatten(cells[..j], CellVisits)
      invariant Counted(before, Snapshot(ps), ps, entries, seen)
    {
      FlattenCovers(cells, j, CellVisits);
      ProcessCellParagraphs(cells[j].paragraphs, entries, before, ps, seen);
      FlattenStep(done, cells, j, CellVisits);
      seen := seen + CellVisits(cells[j]);
      j := j + 1;
    }
    assert cells[..j] == cells;
  }

  /** `processTable(table, data)`: rows, then cells, then the cell's paragraphs. */
  method ProcessTable(table: Table, entries: Entries,
                      ghost before: map<Paragraph, ParaState>, ghost ps: seq<Paragraph?>, ghost done: seq<Paragraph?>)
    requires Counted(before, Snapshot(ps), ps, entries, done)
    modifies set p: Paragraph | p in TableVisits(table)
    ensures Counted(before, Snapshot(ps), ps, entries, done + TableVisits(table))
  {
    var rows := table.rows;
    var i := 0;
    ghost var seen: seq<Paragraph?> := done;
    while i < |rows|
      invariant 0 <= i <= |rows|
      invariant seen == done + Flatten(rows[..i], RowVisits)
      invariant Counted(before, Snapshot(ps), ps, entries, seen)
    {
      FlattenCovers(rows, i, RowVisits);
      ProcessRow(rows[i], entries, before, ps, seen);
      FlattenStep(done, rows, i, RowVisits);
      seen := seen + RowVisits(rows[i]);
      i := i + 1;
    }
    assert rows[..i] == rows;
  }

  /** One control in the loop of `process`: a table is entered, any other
      control is passed over. */
  method ProcessControl(ctrl: Control, entries: Entries,
                        ghost before: map<Paragraph, ParaState>, ghost ps: seq<Paragraph?>, ghost done: seq<Paragraph?>)
    requires Counted(before, Snapshot(ps), ps, entries, done)
    modifies set p: Paragraph | p in ControlVisit(ctrl)
    ensures Counted(before, Snapshot(ps), ps, entries, done + ControlVisit(ctrl))
  {
    if ctrl.TableControl? {
      ProcessTable(ctrl.table, entries, before, ps, done);
    } else {
      assert done + ControlVisit(ctrl) == done;
    }
  }

  /** The loop of `process` over a paragraph's controls. */
  method ProcessControls(controls: seq<Control>, entries: Entries,
                         ghost before: map<Paragraph, ParaState>, ghost ps: seq<Paragraph?>, ghost done: seq<Paragraph?>)
    requires Counted(before, Snapshot(ps), ps, entries, done)
    modifies set p: Paragraph | p in ControlVisits(controls)
    ensures Counted(before, Snapshot(ps), ps, entries, done + ControlVisits(controls))
  {
    var c := 0;
    ghost var seen: seq<Paragraph?> := done;
    while c < |controls|
      invariant 0 <= c <= |controls|
      invariant seen == done + Flatten(controls[..c], ControlVisit)
      invariant Counted(before, Snapshot(ps), ps, entries, seen)
    {
      FlattenCovers(controls, c, ControlVisit);
      ProcessControl(controls[c], entries, before, ps, seen);
      FlattenStep(done, controls, c, ControlVisit);
      seen := seen + ControlVisit(controls[c]);
      c := c + 1;
    }
    assert controls[..c] == controls;
  }

  /** The body of the loop of `process` over a section's paragraphs: the
      paragraph itself, then the tables among its controls. */
  method ProcessParagraph(para: Paragraph, entries: Entries,
                          ghost before: map<Paragraph, ParaState>, ghost ps: seq<Paragraph?>, ghost done: seq<Paragraph?>)
    requires Counted(before, Snapshot(ps), ps, entries, done)
    modifies set p: Paragraph | p in ParagraphVisits(para)
    ensures Counted(before, Snapshot(ps), ps, entries, done + ParagraphVisits(para))
  {
    ghost var mid := Snapshot(ps);
    ApplyReplacements(para, entries);
    CountedApply(before, mid, Snapshot(ps), ps, para, entries, done);
    ProcessControls(para.controls, entries, before, ps, done + [para]);
    assert done + [para] + ControlVisits(para.controls) == done + ParagraphVisits(para);
  }

  /** The loop of `process` over one section's paragraphs. */
  method ProcessSection(section: Section, entries: Entries,
                        ghost before: map<Paragraph, ParaState>, ghost ps: seq<Paragraph?>, ghost done: seq<Paragraph?>)
    requires Counted(before, Snapshot(ps), ps, entries, done)
    modifies set p: Paragraph | p in SectionVisits(section)
    ensures Counted(before, Snapshot(ps), ps, entries, done + SectionVisits(section))
  {
    var paragraphs := section.paragraphs;
    var k := 0;
    ghost var seen: seq<Paragraph?> := done;
    while k < |paragraphs|
      invariant 0 <= k <= |paragraphs|
      invariant seen == done + Flatten(paragraphs[..k], ParagraphVisits)
      invariant Counted(before, Snapshot(ps), ps, entries, seen)
    {
      FlattenCovers(paragraphs, k, ParagraphVisits);
      ProcessParagraph(paragraphs[k], entries, before, ps, seen);
      FlattenStep(done, paragraphs, k, ParagraphVisits);
      seen := seen + ParagraphVisits(paragraphs[k]);
      k := k + 1;
    }
    assert paragraphs[..k] == paragraphs;
  }

  /** `process(templatePath, outputPath, data)` between reading and writing
      the file: every paragraph of the document has gone through
      `applyReplacements` once per occurrence in `Visits(doc)`, and no
      other paragraph has changed. */
  method Process(doc: Document, entries: Entries)
    modifies set p: Paragraph | p in Visits(doc)
    ensures AppliedAsCounted(Visits(doc), entries, Visits(doc))
  {
    ghost var visits := Visits(doc);
    ghost var before := Snapshot(visits);
    var sections := doc.sections;
    var s := 0;
    ghost var seen: seq<Paragraph?> := [];
    while s < |sections|
      invariant 0 <= s <= |sections|
      invariant seen == Flatten(sections[..s], SectionVisits)
      invariant Counted(before, Snapshot(visits), visits, entries, seen)
    {
      FlattenCovers(sections, s, SectionVisits);
      ProcessSection(sections[s], entries, before, visits, seen);
      FlattenSnoc(sections, s, SectionVisits);
      seen := seen + SectionVisits(sections[s]);
      s := s + 1;
    }
    assert sections[..s] == sections;
    forall p: Paragraph | p in visits
      ensures p.State() == AppliedTimes(old(p.State()), entries, multiset(visits)[p])
    {
      assert Snapshot(visits)[p] == p.State();
    }
  }

  /** A paragraph of a cell of a table among `controls`. */
  ghost predicate InTables(controls: seq<Control>, x: Paragraph?)
  {
    exists ctrl, row, cell :: ctrl in controls && ctrl.TableControl? && row in ctrl.table.rows
      && cell in row.cells && x in cell.paragraphs
  }

  /** Where `process` goes, stated without the visit order: a paragraph of a
      section, or a paragraph of a cell of a table anchored in one. */
  ghost predicate Reachable(doc: Document, x: Paragraph?)
  {
    exists section, para :: section in doc.sections && para in section.paragraphs
      && (x == para || InTables(para.controls, x))
  }

  lemma {:induction false} TableVisitsMember(table: Table, x: Paragraph?)
    ensures x in TableVisits(table) <==> exists row, cell :: row in table.rows && cell in row.cells && x in cell.paragraphs
  {
    FlattenMember(table.rows, RowVisits, x);
    forall row | row in table.rows {
      FlattenMember(row.cells, CellVisits, x);
    }
  }

  lemma {:induction false} ControlVisitsMember(controls: seq<Control>, x: Paragraph?)
    ensures x in ControlVisits(controls) <==> InTables(controls, x)
  {
    FlattenMember(controls, ControlVisit, x);
    forall ctrl | ctrl in controls && ctrl.TableControl? {
      TableVisitsMember(ctrl.table, x);
    }
  }

  /** The visit order reaches exactly the reachable paragraphs: nested
      tables inside a cell are not entered, and nothing else is visited. */
  lemma {:induction false} VisitsReachable(doc: Document, x: Paragraph?)
    ensures x in Visits(doc) <==> Reachable(doc, x)
  {
    FlattenMember(doc.sections, SectionVisits, x);
    forall section | section in doc.sections {
      FlattenMember(section.paragraphs, ParagraphVisits, x);
    }
    forall section, para | section in doc.sections && para in section.paragraphs {
      ControlVisitsMember(para.controls, x);
    }
  }

  /** A paragraph without a matching placeholder is left as it is, however
      often the walk reaches it. */
  lemma {:induction false} AppliedTimesWithoutMatch(s: ParaState, entries: Entries, n: nat)
    requires s.chars.Some? ==> forall r :: r in Runs(s.chars.value) ==> !RunMatches(r, entries)
    ensures AppliedTimes(s, entries, n) == s
  {
    if n != 0 {
      AppliedTimesWithoutMatch(s, entries, n - 1);
      AppliedWithoutMatch(s, entries);
    }
  }

  /** However often a paragraph is reached, its header counts stay in step
      with its lists. */
  lemma {:induction false} AppliedTimesKeepsConsistent(s: ParaState, entries: Entries, n: nat)
    requires Consistent(s)
    ensures Consistent(AppliedTimes(s, entries, n))
  {
    if n != 0 {
      AppliedTimesKeepsConsistent(s, entries, n - 1);
      AppliedKeepsConsistent(AppliedTimes(s, entries, n - 1), entries);
    }
  }

  /** However often a paragraph is reached, its control characters stay
      the same and in the same order. */
  lemma {:induction false} AppliedTimesKeepsControls(s: ParaState, entries: Entries, n: nat)
    requires s.chars.Some?
    ensures AppliedTimes(s, entries, n).chars.Some?
    ensures Controls(AppliedTimes(s, entries, n).chars.value) == Controls(s.chars.value)
  {
    if n != 0 {
      AppliedTimesKeepsControls(s, entries, n - 1);
      AppliedKeepsControls(AppliedTimes(s, entries, n - 1), entries);
    }
  }
}
