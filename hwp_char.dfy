/** The characters of an HWP paragraph and their conversion to and from
    Java text (`toString` and `toHWPCharList` in HwpTemplateService). */
module HwpChar {
  import opened JavaString

  /** A Java `short`, the type of an HWP character code. */
  type Short = x: int | -0x8000 <= x < 0x8000

  /** One element of a paragraph's char list: a `Normal` character, or any
      non-normal one (inline, extended or plain control char), which the
      engine never inspects. */
  datatype HChar = Normal(code: Short) | Ctrl(code: Short)

  /** The Java cast `(char) code` of a short. */
  function CharOfShort(code: Short): CodeUnit
  {
    code % 0x1_0000
  }

  /** The Java cast `(short) x` of an int: keep the low 16 bits, signed. */
  function ShortOf(x: int): Short
  {
    var low := x % 0x1_0000;
    if low < 0x8000 then low else low - 0x1_0000
  }

  predicate IsHighSurrogate(u: CodeUnit) { 0xD800 <= u <= 0xDBFF }
  predicate IsLowSurrogate(u: CodeUnit) { 0xDC00 <= u <= 0xDFFF }

  /** `s.codePointAt(i)`: a high surrogate followed by a low one yields the
      supplementary code point they encode, any other unit yields itself. */
  function CodePointAt(s: JString, i: nat): int
    requires i < |s|
  {
    if IsHighSurrogate(s[i]) && i + 1 < |s| && IsLowSurrogate(s[i + 1]) then
      0x1_0000 + (s[i] as int - 0xD800) * 0x400 + (s[i + 1] as int - 0xDC00)
    else s[i]
  }

  /** No code unit of `s` starts a surrogate pair. */
  predicate NoSurrogatePair(s: JString)
  {
    forall i :: 0 <= i < |s| - 1 ==> !(IsHighSurrogate(s[i]) && IsLowSurrogate(s[i + 1]))
  }

  predicate AllNormal(cs: seq<HChar>)
  {
    forall i :: 0 <= i < |cs| ==> cs[i].Normal?
  }

  /** The text of a run of normal chars, one code unit per char. */
  function Text(run: seq<HChar>): JString
    requires AllNormal(run)
  {
    seq(|run|, i requires 0 <= i < |run| => CharOfShort(run[i].code))
  }

  /** The normal chars built from a text, one per code unit. */
  function NormalChars(s: JString): (cs: seq<HChar>)
    ensures |cs| == |s| && AllNormal(cs)
  {
    seq(|s|, i requires 0 <= i < |s| => Normal(ShortOf(CodePointAt(s, i))))
  }

  /** The non-normal chars of a list, in their order. */
  function Controls(cs: seq<HChar>): seq<HChar>
  {
    if cs == [] then []
    else (if cs[0].Normal? then [] else [cs[0]]) + Controls(cs[1..])
  }

  /** `toString(listForText)`: appends `(char) code` of every char. */
  method ToString(run: seq<HChar>) returns (text: JString)
    requires AllNormal(run)
    ensures text == Text(run)
  {
    text := [];
    var i := 0;
    while i < |run|
      invariant 0 <= i <= |run|
      invariant text == Text(run)[..i]
    {
      text := text + [CharOfShort(run[i].code)];
      i := i + 1;
    }
  }

  /** `toHWPCharList(text)`: one normal char per code unit, holding
      `(short) text.codePointAt(index)`. */
  method ToHwpCharList(text: JString) returns (list: seq<HChar>)
    ensures list == NormalChars(text)
  {
    list := [];
    var index := 0;
    while index < |text|
      invariant 0 <= index <= |text|
      invariant list == NormalChars(text)[..index]
    {
      list := list + [Normal(ShortOf(CodePointAt(text, index)))];
      index := index + 1;
    }
  }

  /** Building chars from a text keeps its length and yields only normal chars;
      reading them back gives the text again when it holds no surrogate pair. */
  lemma {:induction false} NormalCharsRoundTrip(s: JString)
    requires NoSurrogatePair(s)
    ensures |NormalChars(s)| == |s| && AllNormal(NormalChars(s))
    ensures Text(NormalChars(s)) == s
  {
    forall i | 0 <= i < |s|
      ensures Text(NormalChars(s))[i] == s[i]
    {
      assert CodePointAt(s, i) == s[i];
    }
  }

  /** Reading a run of normal chars and rebuilding it gives the same chars,
      when its text holds no surrogate pair. */
  lemma {:induction false} TextRoundTrip(run: seq<HChar>)
    requires AllNormal(run) && NoSurrogatePair(Text(run))
    ensures NormalChars(Text(run)) == run
  {
    var s := Text(run);
    forall i | 0 <= i < |run|
      ensures NormalChars(s)[i] == run[i]
    {
      assert CodePointAt(s, i) == s[i];
    }
  }

  /** At the high surrogate of a pair, `codePointAt` yields the whole code
      point, of which the cast keeps the low 16 bits. */
  lemma {:induction false} SurrogatePairCodeUnit(s: JString, i: nat)
    requires i + 1 < |s| && IsHighSurrogate(s[i]) && IsLowSurrogate(s[i + 1])
    ensures Text(NormalChars(s))[i] == CodePointAt(s, i) % 0x1_0000
  {
  }

  /** The high surrogate of a pair is read back only in 16 of its cases:
      when both halves carry the same 10 bits `h`, and `h % 64 == 54`
      (U+1D836 is one); for every other pair the text changes. */
  lemma {:induction false} SurrogatePairReadBackIff(s: JString, i: nat)
    requires i + 1 < |s| && IsHighSurrogate(s[i]) && IsLowSurrogate(s[i + 1])
    ensures Text(NormalChars(s))[i] == s[i]
        <==> s[i] as int - 0xD800 == s[i + 1] as int - 0xDC00 && (s[i] as int - 0xD800) % 64 == 54
  {
    var h, l := s[i] as int - 0xD800, s[i + 1] as int - 0xDC00;
    SurrogatePairCodeUnit(s, i);
    PairLowBits(h, l);
    PairLowBitsAreHigh(h, l);
  }

  /** The low 16 bits of the code point of the pair with offsets `h` and `l`. */
  lemma {:induction false} PairLowBits(h: int, l: int)
    requires 0 <= h < 0x400 && 0 <= l < 0x400
    ensures (0x1_0000 + h * 0x400 + l) % 0x1_0000 == (h % 64) * 0x400 + l
  {
    var q, r := h / 64, h % 64;
    assert h * 0x400 == q * 0x1_0000 + r * 0x400;
    assert 0x1_0000 + h * 0x400 + l == (q + 1) * 0x1_0000 + (r * 0x400 + l);
  }

  /** Those low bits equal the high surrogate `0xD800 + h` only when `h == l`
      and `h` ends in the bits of 54. */
  lemma {:induction false} PairLowBitsAreHigh(h: int, l: int)
    requires 0 <= h < 0x400 && 0 <= l < 0x400
    ensures (h % 64) * 0x400 + l == 0xD800 + h <==> h == l && h % 64 == 54
  {
    var r := h % 64;
    assert r * 0x400 + l - (54 * 0x400 + h) == (r - 54) * 0x400 + (l - h);
  }

  /** For most surrogate pairs the round trip fails: U+1F600 becomes 0xF600. */
  lemma SurrogatePairIsNotPreserved()
    ensures var s: JString := [0xD83D, 0xDE00];
      Text(NormalChars(s)) == [0xF600, 0xDE00] != s
  {
    var s: JString := [0xD83D, 0xDE00];
    assert CodePointAt(s, 0) == 0x1F600;
  }

  lemma {:induction false} ControlsAppend(a: seq<HChar>, b: seq<HChar>)
    ensures Controls(a + b) == Controls(a) + Controls(b)
  {
    if a == [] {
      assert a + b == b;
    } else {
      assert (a + b)[1..] == a[1..] + b;
      ControlsAppend(a[1..], b);
    }
  }

  /** A run of normal chars has no controls. */
  lemma {:induction false} ControlsOfNormal(cs: seq<HChar>)
    requires AllNormal(cs)
    ensures Controls(cs) == []
  {
    if cs != [] {
      ControlsOfNormal(cs[1..]);
    }
  }
}
