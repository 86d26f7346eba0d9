/** `changeText`: replacing `${key}` placeholders in one piece of text. */
module Placeholders {
  import opened JavaString
  import opened Optional

  /** The data map's entries, in the map's iteration order; values are
      already in their `toString()` form. */
  type Entries = seq<(JString, JString)>

  /** `"${" + key + "}"`. */
  function Placeholder(key: JString): (p: JString)
  {
    [0x24, 0x7B] + key + [0x7D]
  }

  /** Some entry's placeholder occurs in `text`. */
  predicate MatchesIn(text: JString, entries: Entries)
  {
    exists i :: 0 <= i < |entries| && Contains(text, Placeholder(entries[i].0))
  }

  /** The text after visiting `entries` in order, and whether some entry's
      placeholder was contained in the text at its turn. */
  function Substituted(text: JString, entries: Entries): (JString, bool)
    decreases |entries|
  {
    if entries == [] then (text, false)
    else
      var placeholder := Placeholder(entries[0].0);
      if Contains(text, placeholder) then
        (Substituted(ReplaceAll(text, placeholder, entries[0].1), entries[1..]).0, true)
      else Substituted(text, entries[1..])
  }

  /** The value `changeText` returns: the new text, or `None` (Java `null`)
      when no entry matched. */
  function Substitution(text: JString, entries: Entries): Option<JString>
  {
    var (result, modified) := Substituted(text, entries);
    if modified then Some(result) else None
  }

  /** `changeText(text, data)`. */
  method ChangeText(text: JString, entries: Entries) returns (r: Option<JString>)
    ensures r == Substitution(text, entries)
  {
    var result := text;
    var modified := false;
    var i := 0;
    while i < |entries|
      invariant 0 <= i <= |entries|
      invariant Substituted(text, entries)
        == (Substituted(result, entries[i..]).0, modified || Substituted(result, entries[i..]).1)
    {
      assert entries[i..][1..] == entries[i + 1..];
      var placeholder := Placeholder(entries[i].0);
      if Contains(result, placeholder) {
        result := ReplaceAll(result, placeholder, entries[i].1);
        modified := true;
      }
      i := i + 1;
    }
    r := if modified then Some(result) else None;
  }

  /** `changeText` returns `null` exactly when no entry's placeholder occurs
      in the text: as long as nothing matched, the text each entry is
      checked against is the original one. */
  lemma {:induction false} SubstitutionNoneIff(text: JString, entries: Entries)
    ensures Substitution(text, entries).None? <==> !MatchesIn(text, entries)
  {
    if entries != [] {
      SubstitutionNoneIff(text, entries[1..]);
      if MatchesIn(text, entries[1..]) {
        var i :| 0 <= i < |entries[1..]| && Contains(text, Placeholder(entries[1..][i].0));
        assert Contains(text, Placeholder(entries[i + 1].0));
      }
      if MatchesIn(text, entries) && !Contains(text, Placeholder(entries[0].0)) {
        var i :| 0 <= i < |entries| && Contains(text, Placeholder(entries[i].0));
        assert Contains(text, Placeholder(entries[1..][i - 1].0));
      }
    }
  }

  /** With no matching entry the text is left as it is. */
  lemma {:induction false} SubstitutedWithoutMatch(text: JString, entries: Entries)
    requires !MatchesIn(text, entries)
    ensures Substituted(text, entries) == (text, false)
  {
    if entries != [] {
      assert !Contains(text, Placeholder(entries[0].0));
      assert forall i :: 0 <= i < |entries[1..]| ==> entries[1..][i] == entries[i + 1];
      SubstitutedWithoutMatch(text, entries[1..]);
    }
  }

  /** Entries are applied in order, each to the text the earlier ones left:
      the map splits into a prefix and the rest. */
  lemma {:induction false} SubstitutedAppend(text: JString, first: Entries, rest: Entries)
    ensures var (mid, m1) := Substituted(text, first);
      var (out, m2) := Substituted(mid, rest);
      Substituted(text, first + rest) == (out, m1 || m2)
    decreases |first|
  {
    if first == [] {
      assert first + rest == rest;
    } else {
      assert (first + rest)[1..] == first[1..] + rest;
      var placeholder := Placeholder(first[0].0);
      if Contains(text, placeholder) {
        SubstitutedAppend(ReplaceAll(text, placeholder, first[0].1), first[1..], rest);
      } else {
        SubstitutedAppend(text, first[1..], rest);
      }
    }
  }

  /** An entry whose placeholder occurs has all its occurrences replaced by
      its value, and the value is not scanned for that placeholder again. */
  lemma {:induction false} SingleEntry(text: JString, key: JString, value: JString)
    ensures Contains(text, Placeholder(key)) ==>
      Substitution(text, [(key, value)]) == Some(ReplaceAll(text, Placeholder(key), value))
    ensures !Contains(text, Placeholder(key)) ==> Substitution(text, [(key, value)]) == None
  {
    var entries: Entries := [(key, value)];
    assert entries[1..] == [];
    var replaced := ReplaceAll(text, Placeholder(key), value);
    assert Substituted(replaced, []) == (replaced, false);
    assert Substituted(text, []) == (text, false);
  }
}
