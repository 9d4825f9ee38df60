/** The two pure helpers of internal/display/raylib.go: mapping an ANSI
    colour escape to an RGBA value, and splitting a styled string into its
    text and its colour. */
module Display {
  import opened Wrappers
  import opened Ansi

  type uint32 = x: int | 0 <= x < 0x1_0000_0000

  /** The colour for anything the table does not list: opaque white. */
  const Fallback: uint32 := 0xFFFF_FFFF

  /** `MapANSIColor`'s table, as RGBA. The source also lists
      `world.BrightWhite`, which no file defines; it maps to white like the
      fallback, so leaving it out changes no result. */
  const ColorTable: map<string, uint32> :=
    map[Red := 0xFF00_00FF, Green := 0x00FF_00FF, Yellow := 0xFFFF_00FF, Blue := 0x0000_FFFF,
        Magenta := 0xFF00_FFFF, Cyan := 0x00FF_FFFF, White := 0xFFFF_FFFF, Gray := 0x8080_80FF]

  /** `MapANSIColor`: the table's colour for a listed escape, white for any
      other string. */
  function MapAnsiColor(code: string): (c: uint32)
    ensures code in ColorTable ==> c == ColorTable[code]
    ensures code !in ColorTable ==> c == Fallback
  {
    if code in ColorTable then ColorTable[code] else Fallback
  }

  /** The colours the table is expected to give. */
  lemma ColorExamples()
    ensures MapAnsiColor(Red) == 0xFF00_00FF && MapAnsiColor(Gray) == 0x8080_80FF
    ensures MapAnsiColor(Green) == 0x00FF_00FF && MapAnsiColor(Cyan) == 0x00FF_FFFF
    ensures MapAnsiColor(Reset) == Fallback && MapAnsiColor("") == Fallback
  {
  }

  /** The escape a colour came from, for the colours other than white. */
  function CodeOf(c: uint32): (code: Option<string>)
  {
    if c == 0xFF00_00FF then Some(Red)
    else if c == 0x00FF_00FF then Some(Green)
    else if c == 0xFFFF_00FF then Some(Yellow)
    else if c == 0x0000_FFFF then Some(Blue)
    else if c == 0xFF00_FFFF then Some(Magenta)
    else if c == 0x00FF_FFFF then Some(Cyan)
    else if c == 0x8080_80FF then Some(Gray)
    else None
  }

  /** No two escapes share a colour, except that White and every unlisted
      string share the fallback: the colour identifies the escape exactly
      when it is not white. */
  lemma ColorIdentifiesCode(code: string)
    ensures CodeOf(MapAnsiColor(code)) == if code in ColorTable && code != White then Some(code) else None
    ensures MapAnsiColor(code) == Fallback <==> code == White || code !in ColorTable
  {
  }

  /** `strings.Index(s, string(ch))`: the first position of ch, if any. */
  function IndexOf(s: string, ch: char): (r: Option<nat>)
    ensures r.Some? ==> r.value < |s| && s[r.value] == ch && forall j :: 0 <= j < r.value ==> s[j] != ch
    ensures r.None? <==> ch !in s
    decreases |s|
  {
    if |s| == 0 then None
    else if s[0] == ch then Some(0)
    else
      var rest := IndexOf(s[1..], ch);
      assert forall j :: 1 <= j < |s| ==> s[j] == s[1..][j - 1];
      if rest.None? then None else Some(rest.value + 1)
  }

  /** `strings.ReplaceAll(s, pat, "")`: delete the occurrences of pat found
      scanning left to right, resuming after each one deleted. */
  function RemoveAll(s: string, pat: string): (r: string)
    requires |pat| > 0
    ensures |r| <= |s|
    decreases |s|
  {
    if |s| < |pat| then s
    else if s[..|pat|] == pat then RemoveAll(s[|pat|..], pat)
    else [s[0]] + RemoveAll(s[1..], pat)
  }

  /** A string that does not contain the pattern's first character is left
      as it is. */
  lemma {:induction false} RemoveAllAbsent(s: string, pat: string)
    requires |pat| > 0 && pat[0] !in s
    ensures RemoveAll(s, pat) == s
    decreases |s|
  {
    if |s| >= |pat| {
      assert s[..|pat|][0] == s[0] != pat[0];
      RemoveAllAbsent(s[1..], pat);
      assert s == [s[0]] + s[1..];
    }
  }

  /** `ExtractTextAndColor`: an input without the ESC "[" prefix, or without
      any "m", comes back whole with the fallback colour. Otherwise the part
      up to and including the first "m" picks the colour, and the rest, with
      every Reset deleted, is the text. */
  function ExtractTextAndColor(s: string): (r: (string, uint32))
    ensures !HasPrefix(s, Csi) || 'm' !in s ==> r == (s, Fallback)
    ensures HasPrefix(s, Csi) && 'm' in s ==>
              exists i :: 0 <= i < |s| && s[i] == 'm' && 'm' !in s[..i] &&
                          r == (RemoveAll(s[i + 1..], Reset), MapAnsiColor(s[..i + 1]))
  {
    if !HasPrefix(s, Csi) then (s, Fallback)
    else
      match IndexOf(s, 'm')
      case None => (s, Fallback)
      case Some(i) =>
        assert 'm' !in s[..i];
        (RemoveAll(s[i + 1..], Reset), MapAnsiColor(s[..i + 1]))
  }

  /** Text with no escape character in it passes through the Reset removal
      untouched, and a Reset right after it is removed. */
  lemma {:induction false} RemoveTrailingReset(t: string)
    requires '\U{1B}' !in t
    ensures RemoveAll(t + Reset, Reset) == t
    decreases |t|
  {
    if |t| == 0 {
      assert t + Reset == Reset;
      assert Reset[|Reset|..] == [];
    } else {
      assert (t + Reset)[..|Reset|][0] == t[0] != Reset[0];
      assert (t + Reset)[1..] == t[1..] + Reset;
      RemoveTrailingReset(t[1..]);
      assert t == [t[0]] + t[1..];
    }
  }

  /** Styling and parsing are inverse: wrapping plain text in a table
      escape and a Reset, then extracting, gives back the text and the
      escape's colour. */
  lemma ExtractRoundTrip(code: string, t: string)
    requires code in ColorTable && '\U{1B}' !in t
    ensures ExtractTextAndColor(code + t + Reset) == (t, MapAnsiColor(code))
  {
    CodesWellFormed();
    var s := code + t + Reset;
    assert IsColorCode(code);
    assert s[..|code|] == code;
    assert s[..|Csi|] == code[..|Csi|];
    var i := |code| - 1;
    assert s[i] == 'm';
    assert IndexOf(s, 'm') == Some(i) by {
      var k := IndexOf(s, 'm').value;
      assert k <= i;
      assert s[k] == code[k];
    }
    assert s[..i + 1] == code;
    assert s[i + 1..] == t + Reset;
    RemoveTrailingReset(t);
  }

  /** Deletion does not rescan what it has produced: removing the inner
      Reset of ESC "[" Reset "0m" leaves a Reset behind. */
  lemma RemoveAllSinglePass()
    ensures RemoveAll("\U{1B}[" + Reset + "0m", Reset) == Reset
  {
    var s := "\U{1B}[" + Reset + "0m";
    assert s[..4][2] == '\U{1B}' != Reset[2];
    assert s[1..][..4][0] == '[' != Reset[0];
    assert s[2..][..4] == Reset;
    assert s[2..][4..] == "0m";
    assert s[1..][1..] == s[2..];
    assert RemoveAll(s[2..], Reset) == "0m";
    assert RemoveAll(s[1..], Reset) == "[0m";
  }
}
