/** `getNewCharList`: a paragraph's char list is cut into maximal runs of
    normal chars; each run's text goes through `changeText` and is rebuilt
    as normal chars, and every other char is copied at its place between
    the runs. */
module Rewrite {
  import opened JavaString
  import opened Optional
  import opened HwpChar
  import opened Placeholders

  /** The index of the first non-normal char, or the length when there is none. */
  function FirstControl(cs: seq<HChar>): (k: nat)
    ensures k <= |cs|
    ensures forall i :: 0 <= i < k ==> cs[i].Normal?
    ensures k < |cs| ==> cs[k].Ctrl?
  {
    if cs == [] || cs[0].Ctrl? then 0 else 1 + FirstControl(cs[1..])
  }

  /** Chars built by `getNewCharList`, and whether a run was changed on the way. */
  datatype Built = Built(list: seq<HChar>, changed: bool)

  /** Two built pieces with the control char `c` copied between them. */
  function Glued(left: Built, c: HChar, right: Built): Built
  {
    Built(left.list + [c] + right.list, left.changed || right.changed)
  }

  /** One run rebuilt: from the substituted text when `changeText` matched,
      otherwise from the run's own text; the flag tells which. */
  function RewriteRun(run: seq<HChar>, entries: Entries): Built
    requires AllNormal(run)
  {
    var text := Text(run);
    match Substitution(text, entries)
    case Some(newText) => Built(NormalChars(newText), true)
    case None => Built(NormalChars(text), false)
  }

  /** A pending run is flushed only when it is non-empty. */
  function Flushed(run: seq<HChar>, entries: Entries): Built
    requires AllNormal(run)
  {
    if run == [] then Built([], false) else RewriteRun(run, entries)
  }

  /** The list `getNewCharList` builds, and its `hasChanges` flag. */
  function Rewritten(cs: seq<HChar>, entries: Entries): Built
    decreases |cs|
  {
    var k := FirstControl(cs);
    var head := Flushed(cs[..k], entries);
    if k == |cs| then head else Glued(head, cs[k], Rewritten(cs[k + 1..], entries))
  }

  /** What `getNewCharList` returns: the new list, or `None` (Java `null`)
      when no run changed. */
  function NewCharList(cs: seq<HChar>, entries: Entries): Option<seq<HChar>>
  {
    var built := Rewritten(cs, entries);
    if built.changed then Some(built.list) else None
  }

  /** A run of normal chars whose text contains a placeholder of the map. */
  predicate RunMatches(run: seq<HChar>, entries: Entries)
  {
    AllNormal(run) && MatchesIn(Text(run), entries)
  }

  /** The maximal non-empty runs of normal chars, in order. */
  function Runs(cs: seq<HChar>): (runs: seq<seq<HChar>>)
    ensures forall r :: r in runs ==> r != [] && AllNormal(r)
    decreases |cs|
  {
    var k := FirstControl(cs);
    (if k == 0 then [] else [cs[..k]]) + (if k < |cs| then Runs(cs[k + 1..]) else [])
  }

  /** The last flush: a list of normal chars alone is its one run. */
  lemma {:induction false} RewrittenOfRun(run: seq<HChar>, entries: Entries)
    requires AllNormal(run)
    ensures Rewritten(run, entries) == Flushed(run, entries)
  {
    FirstControlAfterRun(run, []);
    assert run + [] == run;
  }

  /** A flush at a control char: a run followed by a control char and more. */
  lemma {:induction false} RewrittenAfterRun(run: seq<HChar>, rest: seq<HChar>, entries: Entries)
    requires AllNormal(run) && rest != [] && rest[0].Ctrl?
    ensures Rewritten(run + rest, entries) == Glued(Flushed(run, entries), rest[0], Rewritten(rest[1..], entries))
  {
    FirstControlAfterRun(run, rest);
    assert (run + rest)[..|run|] == run;
    assert (run + rest)[|run| + 1..] == rest[1..];
  }

  lemma {:induction false} FirstControlAfterRun(run: seq<HChar>, rest: seq<HChar>)
    requires AllNormal(run)
    ensures rest == [] || rest[0].Ctrl? ==> FirstControl(run + rest) == |run|
  {
    if run != [] {
      assert (run + rest)[1..] == run[1..] + rest;
      FirstControlAfterRun(run[1..], rest);
    } else {
      assert run + rest == rest;
    }
  }

  lemma {:induction false} FirstControlOfPrefix(a: seq<HChar>, x: seq<HChar>)
    requires FirstControl(a) < |a|
    ensures FirstControl(a + x) == FirstControl(a)
  {
    if a[0].Normal? {
      assert (a + x)[1..] == a[1..] + x;
      FirstControlOfPrefix(a[1..], x);
    }
  }

  lemma {:induction false} ControlsOfSingle(c: HChar)
    requires c.Ctrl?
    ensures Controls([c]) == [c]
  {
    assert [c][1..] == [];
  }

  /** Every non-normal char of the old list is in the new list, unchanged
      and in the same order, and the new list has no other. */
  lemma {:induction false} RewrittenKeepsControls(cs: seq<HChar>, entries: Entries)
    ensures Controls(Rewritten(cs, entries).list) == Controls(cs)
    decreases |cs|
  {
    var k := FirstControl(cs);
    var head := Flushed(cs[..k], entries);
    ControlsOfNormal(head.list);
    ControlsOfNormal(cs[..k]);
    if k == |cs| {
      assert cs[..k] == cs;
    } else {
      var tail := Rewritten(cs[k + 1..], entries);
      RewrittenKeepsControls(cs[k + 1..], entries);
      ControlsOfSingle(cs[k]);
      ControlsAppend(head.list + [cs[k]], tail.list);
      ControlsAppend(head.list, [cs[k]]);
      assert cs == cs[..k] + [cs[k]] + cs[k + 1..];
      ControlsAppend(cs[..k] + [cs[k]], cs[k + 1..]);
      ControlsAppend(cs[..k], [cs[k]]);
    }
  }

  lemma {:induction false} SplitAfterRun(a: seq<HChar>, c: HChar, b: seq<HChar>, entries: Entries)
    requires AllNormal(a) && c.Ctrl?
    ensures Rewritten(a + [c] + b, entries) == Glued(Rewritten(a, entries), c, Rewritten(b, entries))
  {
    assert a + [c] + b == a + ([c] + b);
    assert ([c] + b)[1..] == b;
    RewrittenAfterRun(a, [c] + b, entries);
    RewrittenOfRun(a, entries);
  }

  /** `Rewritten` of a list whose first control char is at `k`. */
  lemma {:induction false} RewrittenAtControl(cs: seq<HChar>, k: nat, entries: Entries)
    requires k == FirstControl(cs) < |cs|
    ensures Rewritten(cs, entries) == Glued(Rewritten(cs[..k], entries), cs[k], Rewritten(cs[k + 1..], entries))
  {
    RewrittenOfRun(cs[..k], entries);
  }

  /** The step of `RewrittenSplitsAtControl` past the first control char
      `a[k]` of `a`, given the split of the shorter rest `a[k + 1..]`. */
  lemma {:induction false} SplitPastControl(a: seq<HChar>, c: HChar, b: seq<HChar>, k: nat, entries: Entries)
    requires k == FirstControl(a) < |a|
    requires Rewritten(a[k + 1..] + [c] + b, entries) == Glued(Rewritten(a[k + 1..], entries), c, Rewritten(b, entries))
    ensures Rewritten(a + [c] + b, entries) == Glued(Rewritten(a, entries), c, Rewritten(b, entries))
  {
    var cs := a + [c] + b;
    SlicesOfSplit(a, c, b, k);
    FirstControlOfPrefix(a, [c] + b);
    RewrittenAtControl(cs, k, entries);
    RewrittenAtControl(a, k, entries);
    GluedAround(Rewritten(a[..k], entries), a[k], Rewritten(a[k + 1..], entries), c, Rewritten(b, entries));
  }

  lemma {:induction false} SlicesOfSplit(a: seq<HChar>, c: HChar, b: seq<HChar>, k: nat)
    requires k < |a|
    ensures a + [c] + b == a + ([c] + b)
    ensures (a + [c] + b)[..k] == a[..k] && (a + [c] + b)[k] == a[k]
    ensures (a + [c] + b)[k + 1..] == a[k + 1..] + [c] + b
  {
  }

  lemma {:induction false} GluedAround(h: Built, x: HChar, m: Built, c: HChar, r: Built)
    ensures Glued(h, x, Glued(m, c, r)) == Glued(Glued(h, x, m), c, r)
  {
    assert h.list + [x] + (m.list + [c] + r.list) == (h.list + [x] + m.list) + [c] + r.list;
  }

  /** The list is rewritten independently on each side of a control char:
      a placeholder that a control char splits is never seen whole. */
  lemma {:induction false} RewrittenSplitsAtControl(a: seq<HChar>, c: HChar, b: seq<HChar>, entries: Entries)
    requires c.Ctrl?
    ensures Rewritten(a + [c] + b, entries) == Glued(Rewritten(a, entries), c, Rewritten(b, entries))
    decreases |a|
  {
    var k := FirstControl(a);
    if k == |a| {
      SplitAfterRun(a, c, b, entries);
    } else {
      RewrittenSplitsAtControl(a[k + 1..], c, b, entries);
      SplitPastControl(a, c, b, k, entries);
    }
  }

  /** A run is changed exactly when some entry's placeholder occurs in its text. */
  lemma {:induction false} RewriteRunChangedIff(run: seq<HChar>, entries: Entries)
    requires AllNormal(run)
    ensures RewriteRun(run, entries).changed <==> MatchesIn(Text(run), entries)
  {
    SubstitutionNoneIff(Text(run), entries);
  }

  /** An unmatched run whose text has no surrogate pair is rebuilt as the
      very chars it was made of. */
  lemma {:induction false} RewriteRunKeepsUnmatched(run: seq<HChar>, entries: Entries)
    requires AllNormal(run) && NoSurrogatePair(Text(run))
    requires !MatchesIn(Text(run), entries)
    ensures RewriteRun(run, entries) == Built(run, false)
  {
    SubstitutionNoneIff(Text(run), entries);
    TextRoundTrip(run);
  }

  /** The list changes exactly when its first run, if non-empty, matches or
      what follows the first control char changes. */
  lemma {:induction false} ChangedAtFirstControl(cs: seq<HChar>, entries: Entries)
    ensures var k := FirstControl(cs);
      Rewritten(cs, entries).changed <==>
        (k != 0 && RunMatches(cs[..k], entries)) || (k < |cs| && Rewritten(cs[k + 1..], entries).changed)
  {
    var k := FirstControl(cs);
    if k != 0 {
      RewriteRunChangedIff(cs[..k], entries);
    }
  }

  /** A changed list has a matching run. */
  lemma {:induction false} ChangedHasMatchingRun(cs: seq<HChar>, entries: Entries)
    requires Rewritten(cs, entries).changed
    ensures exists r :: r in Runs(cs) && RunMatches(r, entries)
    decreases |cs|
  {
    var k := FirstControl(cs);
    ChangedAtFirstControl(cs, entries);
    if k != 0 && RunMatches(cs[..k], entries) {
      assert cs[..k] in Runs(cs);
    } else {
      ChangedHasMatchingRun(cs[k + 1..], entries);
      var r :| r in Runs(cs[k + 1..]) && RunMatches(r, entries);
      assert r in Runs(cs);
    }
  }

  /** A matching maximal run is the first run, which then matches, or a
      maximal run after the first control char. */
  lemma {:induction false} MatchingRunAtFirstControl(cs: seq<HChar>, entries: Entries, r: seq<HChar>)
    requires r in Runs(cs) && RunMatches(r, entries)
    ensures var k := FirstControl(cs);
      (k != 0 && RunMatches(cs[..k], entries)) || (k < |cs| && r in Runs(cs[k + 1..]))
  {
    RunsMember(cs, r);
  }

  /** A maximal run is the first run or a maximal run after the first control char. */
  lemma {:induction false} RunsMember(cs: seq<HChar>, r: seq<HChar>)
    requires r in Runs(cs)
    ensures var k := FirstControl(cs);
      (k != 0 && r == cs[..k]) || (k < |cs| && r in Runs(cs[k + 1..]))
  {
    var k := FirstControl(cs);
    var head: seq<seq<HChar>> := if k == 0 then [] else [cs[..k]];
    var tail := if k < |cs| then Runs(cs[k + 1..]) else [];
    InConcat(r, head, tail);
  }

  /** Membership in a concatenation. */
  lemma {:induction false} InConcat<T>(x: T, a: seq<T>, b: seq<T>)
    requires x in a + b
    ensures x in a || x in b
  {
  }

  /** A matching run changes the list. */
  lemma {:induction false} MatchingRunChanges(cs: seq<HChar>, entries: Entries, r: seq<HChar>)
    requires r in Runs(cs) && RunMatches(r, entries)
    ensures Rewritten(cs, entries).changed
    decreases |cs|
  {
    var k := FirstControl(cs);
    MatchingRunAtFirstControl(cs, entries, r);
    ChangedAtFirstControl(cs, entries);
    if k < |cs| && r in Runs(cs[k + 1..]) {
      MatchingRunChanges(cs[k + 1..], entries, r);
    }
  }

  /** The list changes exactly when some entry's placeholder occurs in the
      text of one of its maximal runs of normal chars. */
  lemma {:induction false} RewrittenChangedIff(cs: seq<HChar>, entries: Entries)
    ensures Rewritten(cs, entries).changed <==> exists r :: r in Runs(cs) && RunMatches(r, entries)
  {
    if Rewritten(cs, entries).changed {
      ChangedHasMatchingRun(cs, entries);
    }
    forall r | r in Runs(cs) && RunMatches(r, entries)
      ensures Rewritten(cs, entries).changed
    {
      MatchingRunChanges(cs, entries, r);
    }
  }

  /** `getNewCharList` returns `null` exactly when no maximal run's text
      contains a placeholder of the map. */
  lemma {:induction false} NewCharListNoneIff(cs: seq<HChar>, entries: Entries)
    ensures NewCharList(cs, entries).None? <==> forall r :: r in Runs(cs) ==> !RunMatches(r, entries)
  {
    RewrittenChangedIff(cs, entries);
  }

  /** `${k}` with a line-break control char before its `}` is not replaced:
      neither run holds the whole placeholder. */
  lemma SplitPlaceholderIsNotReplaced()
    ensures NewCharList([Normal(0x24), Normal(0x7B), Normal(0x6B), Ctrl(0x0A), Normal(0x7D)], [([0x6B], [0x76])]) == None
  {
    var entries: Entries := [([0x6B], [0x76])];
    var split := [Normal(0x24), Normal(0x7B), Normal(0x6B), Ctrl(0x0A), Normal(0x7D)];
    var placeholder := Placeholder([0x6B]);
    assert placeholder == [0x24, 0x7B, 0x6B, 0x7D];
    assert FirstControl(split) == 3;
    var last := split[4..];
    assert last == [Normal(0x7D)] && last[1..] == [];
    assert FirstControl(last) == 1;
    assert last[..1] == last;
    assert Runs(last) == [last];
    assert Runs(split) == [split[..3], last];
    assert !Contains(Text(split[..3]), placeholder) && !Contains(Text(last), placeholder);
    NewCharListNoneIff(split, entries);
  }

  /** The same chars in one run are replaced by the value. */
  lemma WholePlaceholderIsReplaced()
    ensures NewCharList([Normal(0x24), Normal(0x7B), Normal(0x6B), Normal(0x7D)], [([0x6B], [0x76])]) == Some([Normal(0x76)])
  {
    var entries: Entries := [([0x6B], [0x76])];
    var whole := [Normal(0x24), Normal(0x7B), Normal(0x6B), Normal(0x7D)];
    var placeholder := Placeholder([0x6B]);
    assert placeholder == [0x24, 0x7B, 0x6B, 0x7D];
    assert Text(whole) == placeholder;
    assert OccursAt(Text(whole), placeholder, 0);
    assert placeholder[4..] == [];
    assert ReplaceAll(Text(whole), placeholder, [0x76]) == [0x76];
    SingleEntry(Text(whole), [0x6B], [0x76]);
    assert NormalChars([0x76]) == [Normal(0x76)];
    assert FirstControl(whole) == 4;
    assert whole[..4] == whole;
    assert Rewritten(whole, entries) == RewriteRun(whole, entries) == Built([Normal(0x76)], true);
  }

  /** The loop state of `getNewCharList`, completed by what the rest of
      the list will contribute. */
  function Join(newList: seq<HChar>, hasChanges: bool, pending: Built): Built
  {
    Built(newList + pending.list, hasChanges || pending.changed)
  }

  /** Flushing the pending run at the control char `cs[i]` and copying that char. */
  lemma {:induction false} FlushAtControl(newList: seq<HChar>, hasChanges: bool, run: seq<HChar>, cs: seq<HChar>, i: nat, entries: Entries)
    requires AllNormal(run) && i < |cs| && cs[i].Ctrl?
    ensures var head := Flushed(run, entries);
      Join(newList, hasChanges, Rewritten(run + cs[i..], entries))
        == Join(newList + head.list + [cs[i]], hasChanges || head.changed, Rewritten([] + cs[i + 1..], entries))
  {
    var rest := cs[i..];
    assert rest[1..] == cs[i + 1..] == [] + cs[i + 1..];
    RewrittenAfterRun(run, rest, entries);
    JoinGlued(newList, hasChanges, Flushed(run, entries), cs[i], Rewritten(cs[i + 1..], entries));
  }

  /** Appending two glued pieces is appending the left one and the char first. */
  lemma {:induction false} JoinGlued(newList: seq<HChar>, hasChanges: bool, left: Built, c: HChar, right: Built)
    ensures Join(newList, hasChanges, Glued(left, c, right))
         == Join(newList + left.list + [c], hasChanges || left.changed, right)
  {
    assert newList + (left.list + [c] + right.list) == (newList + left.list + [c]) + right.list;
  }

  /** The flush of `listForText` that `getNewCharList` performs at each
      control char and after the last char: a non-empty pending run is
      rebuilt and appended to `newList`. */
  method FlushRun(newList: seq<HChar>, hasChanges: bool, listForText: seq<HChar>, entries: Entries)
    returns (list: seq<HChar>, changed: bool)
    requires AllNormal(listForText)
    ensures Built(list, changed) == Join(newList, hasChanges, Flushed(listForText, entries))
  {
    list, changed := newList, hasChanges;
    if |listForText| > 0 {
      var text := ToString(listForText);
      var newText := ChangeText(text, entries);
      if newText.Some? {
        var chars := ToHwpCharList(newText.value);
        list := list + chars;
        changed := true;
      } else {
        var chars := ToHwpCharList(text);
        list := list + chars;
      }
    } else {
      assert list + [] == list;
    }
  }

  /** The loop of `getNewCharList` read as a function: the chars still to
      visit, the pending run `listForText`, and the `newList` and
      `hasChanges` built so far. */
  function Scan(cs: seq<HChar>, listForText: seq<HChar>, newList: seq<HChar>, hasChanges: bool, entries: Entries)
    : Built
    requires AllNormal(listForText)
    decreases |cs|
  {
    if cs == [] then Join(newList, hasChanges, Flushed(listForText, entries))
    else if cs[0].Normal? then Scan(cs[1..], listForText + [cs[0]], newList, hasChanges, entries)
    else
      var flushed := Join(newList, hasChanges, Flushed(listForText, entries));
      Scan(cs[1..], [], flushed.list + [cs[0]], flushed.changed, entries)
  }

  /** The char-by-char loop builds the run-by-run result: whatever it has
      built and is holding, the rest of the list completes it as `Rewritten`
      says. */
  lemma {:induction false} ScanIsRewritten(cs: seq<HChar>, listForText: seq<HChar>, newList: seq<HChar>, hasChanges: bool, entries: Entries)
    requires AllNormal(listForText)
    ensures Scan(cs, listForText, newList, hasChanges, entries)
      == Join(newList, hasChanges, Rewritten(listForText + cs, entries))
    decreases |cs|
  {
    if cs == [] {
      assert listForText + cs == listForText;
      RewrittenOfRun(listForText, entries);
    } else if cs[0].Normal? {
      assert (listForText + [cs[0]]) + cs[1..] == listForText + cs;
      ScanIsRewritten(cs[1..], listForText + [cs[0]], newList, hasChanges, entries);
    } else {
      var flushed := Join(newList, hasChanges, Flushed(listForText, entries));
      assert cs[0..] == cs;
      FlushAtControl(newList, hasChanges, listForText, cs, 0, entries);
      ScanIsRewritten(cs[1..], [], flushed.list + [cs[0]], flushed.changed, entries);
    }
  }

  /** `getNewCharList(oldList, data)`. */
  method GetNewCharList(oldList: seq<HChar>, entries: Entries) returns (r: Option<seq<HChar>>)
    ensures r == NewCharList(oldList, entries)
  {
    var newList: seq<HChar> := [];
    var listForText: seq<HChar> := [];
    var hasChanges := false;
    var i := 0;
    while i < |oldList|
      invariant 0 <= i <= |oldList|
      invariant AllNormal(listForText)
      invariant Scan(oldList, [], [], false, entries) == Scan(oldList[i..], listForText, newList, hasChanges, entries)
    {
      var ch := oldList[i];
      assert oldList[i..][1..] == oldList[i + 1..];
      if ch.Normal? {
        listForText := listForText + [ch];
      } else {
        newList, hasChanges := FlushRun(newList, hasChanges, listForText, entries);
        listForText := [];
        newList := newList + [ch];
      }
      i := i + 1;
    }
    newList, hasChanges := FlushRun(newList, hasChanges, listForText, entries);
    ScanIsRewritten(oldList, [], [], false, entries);
    assert [] + oldList == oldList;
    assert [] + Rewritten(oldList, entries).list == Rewritten(oldList, entries).list;
    r := if hasChanges then Some(newList) else None;
  }
}
