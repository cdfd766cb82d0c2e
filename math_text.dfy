/**
 * The formula scanner of the math text component
 * (app/components/Quiz/MathText/index.tsx): `parseText` splits a string into
 * plain text, inline formulas `$...$` and display formulas `$$...$$`. Its
 * behaviour on unmatched delimiters, where text before the delimiter is
 * emitted twice, is part of the model.
 */
module MathText {

  /** One segment of the parsed text. */
  datatype ParsedPart = Text(content: string) | Math(content: string) | DisplayMath(content: string)

  /** `pat` occurs in `s` starting at position `j`. */
  predicate OccursAt(s: string, pat: string, j: int) {
    0 <= j && j + |pat| <= |s| && s[j..j + |pat|] == pat
  }

  /**
   * `s.indexOf(pat, from)` for a non-empty pattern: the first position at or
   * after `from` where `pat` occurs, or -1.
   */
  function IndexOf(s: string, pat: string, from: nat): (r: int)
    requires |pat| > 0
    ensures r == -1 || (from <= r && OccursAt(s, pat, r))
    decreases |s| - from
  {
    if from + |pat| > |s| then -1
    else if s[from..from + |pat|] == pat then from
    else IndexOf(s, pat, from + 1)
  }

  /** No occurrence lies between `from` and the one found, nor anywhere after `from` when none is found. */
  lemma {:induction false} IndexOfFirst(s: string, pat: string, from: nat)
    requires |pat| > 0
    ensures var r := IndexOf(s, pat, from);
      forall j :: from <= j && (r == -1 || j < r) ==> !OccursAt(s, pat, j)
    decreases |s| - from
  {
    if from + |pat| <= |s| && s[from..from + |pat|] != pat {
      IndexOfFirst(s, pat, from + 1);
    }
  }

  /** The text between `pos` and a delimiter found at `k`, pushed only when non-empty. */
  function TextBefore(text: string, pos: nat, k: int): (r: seq<ParsedPart>)
    requires pos <= |text| && (k == -1 || pos <= k <= |text|)
  {
    if k > pos then [Text(text[pos..k])] else []
  }

  /**
   * What one pass of the loop body does at position `pos`: the parts it
   * pushes, and the position it continues from, or -1 when it breaks out.
   */
  datatype Pass = Pass(pushed: seq<ParsedPart>, next: int)

  /**
   * One pass of the loop body. It looks for `$$` first; an unmatched `$$`
   * falls through to the search for `$`, and a `$` at the position of that
   * unmatched `$$` is not a formula start: the text from `pos` on is then
   * pushed whole, after whatever the pass has pushed already. Every pass that
   * continues moves strictly forward.
   */
  function Step(text: string, pos: nat): (p: Pass)
    requires pos < |text|
    ensures p.next == -1 || pos < p.next <= |text|
  {
    var d := IndexOf(text, "$$", pos);
    var lead := if d != -1 then TextBefore(text, pos, d) else [];
    var e := if d != -1 then IndexOf(text, "$$", d + 2) else -1;
    if e != -1 then
      Pass(lead + [DisplayMath(text[d + 2..e])], e + 2)
    else
      var m := IndexOf(text, "$", pos);
      var inlineLead := if m != -1 && m != d then TextBefore(text, pos, m) else [];
      var f := if m != -1 && m != d then IndexOf(text, "$", m + 1) else -1;
      if f != -1 then
        Pass(lead + inlineLead + [Math(text[m + 1..f])], f + 1)
      else
        Pass(lead + inlineLead + [Text(text[pos..])], -1)
  }

  /** The parts the scanner pushes from position `pos` to the end. */
  function PartsFrom(text: string, pos: nat): seq<ParsedPart>
    requires pos <= |text|
    decreases |text| - pos
  {
    if pos == |text| then []
    else
      var p := Step(text, pos);
      if p.next == -1 then p.pushed else p.pushed + PartsFrom(text, p.next)
  }

  /** The parts from `pos` on are those of one pass followed by the parts from where it continues, if it does. */
  lemma PartsFromStep(text: string, pos: nat)
    requires pos < |text|
    ensures var p := Step(text, pos);
      PartsFrom(text, pos) == if p.next == -1 then p.pushed else p.pushed + PartsFrom(text, p.next)
  {
  }

  /** The parts from `pos` on are those of a pass that continues, followed by the parts from where it continues. */
  lemma PartsFromPass(text: string, pos: nat, p: Pass)
    requires pos < |text| && Step(text, pos) == p && p.next != -1
    ensures PartsFrom(text, pos) == p.pushed + PartsFrom(text, p.next)
  {
  }

  lemma ConcatAssoc(a: seq<ParsedPart>, b: seq<ParsedPart>, c: seq<ParsedPart>)
    ensures (a + b) + c == a + (b + c)
  {
  }

  /** A matched `$$ ... $$` at the first `$$`: the text before it and the formula, continuing after it. */
  lemma StepDisplay(text: string, pos: nat, d: int, e: int)
    requires pos < |text|
    requires d == IndexOf(text, "$$", pos) && d != -1
    requires e == IndexOf(text, "$$", d + 2) && e != -1
    ensures Step(text, pos) == Pass(TextBefore(text, pos, d) + [DisplayMath(text[d + 2..e])], e + 2)
  {
  }

  /** No matched `$$` but a matched `$ ... $`: the text before each, and the formula, continuing after it. */
  lemma StepInline(text: string, pos: nat, d: int, m: int, f: int)
    requires pos < |text|
    requires d == IndexOf(text, "$$", pos)
    requires d == -1 || IndexOf(text, "$$", d + 2) == -1
    requires m == IndexOf(text, "$", pos) && m != -1 && m != d
    requires f == IndexOf(text, "$", m + 1) && f != -1
    ensures Step(text, pos) ==
      Pass((if d != -1 then TextBefore(text, pos, d) else []) + TextBefore(text, pos, m) + [Math(text[m + 1..f])], f + 1)
  {
  }

  /** No formula: the text before an unmatched delimiter, then the whole rest, and the scan stops. */
  lemma StepRest(text: string, pos: nat, d: int, m: int)
    requires pos < |text|
    requires d == IndexOf(text, "$$", pos)
    requires d == -1 || IndexOf(text, "$$", d + 2) == -1
    requires m == IndexOf(text, "$", pos)
    requires m == -1 || m == d || IndexOf(text, "$", m + 1) == -1
    ensures Step(text, pos) ==
      Pass((if d != -1 then TextBefore(text, pos, d) else []) +
           (if m != -1 && m != d then TextBefore(text, pos, m) else []) + [Text(text[pos..])], -1)
  {
  }

  /**
   * A pass that continues keeps the loop invariant: the parts pushed so far,
   * followed by the parts still to come, are the parts of the whole text.
   */
  lemma PassContinues(text: string, total: seq<ParsedPart>, before: seq<ParsedPart>, parts: seq<ParsedPart>, pos: nat, p: Pass)
    requires pos < |text| && Step(text, pos) == p && p.next != -1
    requires before + PartsFrom(text, pos) == total
    requires parts == before + p.pushed
    ensures parts + PartsFrom(text, p.next) == total
  {
    PartsFromPass(text, pos, p);
    ConcatAssoc(before, p.pushed, PartsFrom(text, p.next));
  }

  /** The loop body's display-formula branch keeps the loop invariant. */
  lemma PassDisplay(text: string, total: seq<ParsedPart>, before: seq<ParsedPart>, parts: seq<ParsedPart>, pos: nat, d: int, e: int, next: nat)
    requires pos < |text|
    requires d == IndexOf(text, "$$", pos) && d != -1
    requires e == IndexOf(text, "$$", d + 2) && e != -1
    requires before + PartsFrom(text, pos) == total
    requires parts == before + TextBefore(text, pos, d) + [DisplayMath(text[d + 2..e])]
    requires next == e + 2
    ensures next <= |text|
    ensures parts + PartsFrom(text, next) == total
  {
    StepDisplay(text, pos, d, e);
    var p := Step(text, pos);
    ConcatAssoc(before, TextBefore(text, pos, d), [DisplayMath(text[d + 2..e])]);
    PassContinues(text, total, before, parts, pos, p);
  }

  /** The loop body's inline-formula branch keeps the loop invariant. */
  lemma PassInline(text: string, total: seq<ParsedPart>, before: seq<ParsedPart>, lead: seq<ParsedPart>, parts: seq<ParsedPart>,
                   pos: nat, d: int, m: int, f: int, next: nat)
    requires pos < |text|
    requires d == IndexOf(text, "$$", pos)
    requires d == -1 || IndexOf(text, "$$", d + 2) == -1
    requires m == IndexOf(text, "$", pos) && m != -1 && m != d
    requires f == IndexOf(text, "$", m + 1) && f != -1
    requires before + PartsFrom(text, pos) == total
    requires d != -1 ==> lead == before + TextBefore(text, pos, d)
    requires d == -1 ==> lead == before
    requires parts == lead + TextBefore(text, pos, m) + [Math(text[m + 1..f])]
    requires next == f + 1
    ensures next <= |text|
    ensures parts + PartsFrom(text, next) == total
  {
    StepInline(text, pos, d, m, f);
    var p := Step(text, pos);
    var first := if d != -1 then TextBefore(text, pos, d) else [];
    var rest := TextBefore(text, pos, m) + [Math(text[m + 1..f])];
    assert lead == before + first;
    ConcatAssoc(lead, TextBefore(text, pos, m), [Math(text[m + 1..f])]);
    ConcatAssoc(before, first, rest);
    ConcatAssoc(first, TextBefore(text, pos, m), [Math(text[m + 1..f])]);
    PassContinues(text, total, before, parts, pos, p);
  }

  /** The loop body's final branch pushes what is left of the parts of the whole text. */
  lemma PassRest(text: string, total: seq<ParsedPart>, before: seq<ParsedPart>, lead: seq<ParsedPart>, parts: seq<ParsedPart>,
                 pos: nat, d: int, m: int)
    requires pos < |text|
    requires d == IndexOf(text, "$$", pos)
    requires d == -1 || IndexOf(text, "$$", d + 2) == -1
    requires m == IndexOf(text, "$", pos)
    requires m == -1 || m == d || IndexOf(text, "$", m + 1) == -1
    requires before + PartsFrom(text, pos) == total
    requires d != -1 ==> lead == before + TextBefore(text, pos, d)
    requires d == -1 ==> lead == before
    requires parts == lead + (if m != -1 && m != d then TextBefore(text, pos, m) else []) + [Text(text[pos..])]
    ensures parts == total
  {
    StepRest(text, pos, d, m);
    var first := if d != -1 then TextBefore(text, pos, d) else [];
    var second := if m != -1 && m != d then TextBefore(text, pos, m) else [];
    assert lead == before + first;
    ConcatAssoc(lead, second, [Text(text[pos..])]);
    ConcatAssoc(before, first, second + [Text(text[pos..])]);
    ConcatAssoc(first, second, [Text(text[pos..])]);
  }

  /**
   * The scanner's result: the parts pushed, or the input as a single text
   * part when none were. The result is never empty, and the empty string
   * gives exactly one empty text part.
   */
  function Parse(text: string): (r: seq<ParsedPart>)
    ensures |r| > 0
    ensures text == "" ==> r == [Text("")]
  {
    var parts := PartsFrom(text, 0);
    if |parts| > 0 then parts else [Text(text)]
  }

  /** `parseText`: the while loop over `pos`, proved to compute `Parse`. */
  method ParseText(text: string) returns (parts: seq<ParsedPart>)
    ensures parts == Parse(text)
  {
    parts := [];
    var pos: nat := 0;
    ghost var total := PartsFrom(text, 0);
    while pos < |text|
      invariant pos <= |text|
      invariant parts + PartsFrom(text, pos) == total
      decreases |text| - pos
    {
      ghost var before, start := parts, pos;
      var displayMathStart := IndexOf(text, "$$", pos);
      if displayMathStart != -1 {
        if displayMathStart > pos {
          var textContent := text[pos..displayMathStart];
          if textContent != [] {
            parts := parts + [Text(textContent)];
          }
        }
        assert parts == before + TextBefore(text, start, displayMathStart);
        var displayMathEnd := IndexOf(text, "$$", displayMathStart + 2);
        if displayMathEnd != -1 {
          var mathContent := text[displayMathStart + 2..displayMathEnd];
          parts := parts + [DisplayMath(mathContent)];
          pos := displayMathEnd + 2;
          PassDisplay(text, total, before, parts, start, displayMathStart, displayMathEnd, pos);
          continue;
        }
      }
      ghost var lead := parts;
      var mathStart := IndexOf(text, "$", pos);
      if mathStart != -1 && mathStart != displayMathStart {
        if mathStart > pos {
          var textContent := text[pos..mathStart];
          if textContent != [] {
            parts := parts + [Text(textContent)];
          }
        }
        assert parts == lead + TextBefore(text, start, mathStart);
        var mathEnd := IndexOf(text, "$", mathStart + 1);
        if mathEnd != -1 {
          var mathContent := text[mathStart + 1..mathEnd];
          parts := parts + [Math(mathContent)];
          pos := mathEnd + 1;
          PassInline(text, total, before, lead, parts, start, displayMathStart, mathStart, mathEnd, pos);
          continue;
        }
      }
      assert parts == lead + if mathStart != -1 && mathStart != displayMathStart then TextBefore(text, start, mathStart) else [];
      var remaining := text[pos..];
      if remaining != [] {
        parts := parts + [Text(remaining)];
      }
      PassRest(text, total, before, lead, parts, start, displayMathStart, mathStart);
      break;
    }
    parts := if |parts| > 0 then parts else [Text(text)];
  }

  // Properties of the scanner

  /** `s` holds no `$`. */
  predicate NoDollar(s: string) {
    forall i :: 0 <= i < |s| ==> s[i] != '$'
  }

  /** `pat` occurs nowhere in `s`. */
  ghost predicate Free(s: string, pat: string) {
    forall j :: !OccursAt(s, pat, j)
  }

  /** A single `$` occurs exactly where the string holds a `$`. */
  lemma OccursDollar(s: string, j: int)
    ensures OccursAt(s, "$", j) <==> 0 <= j < |s| && s[j] == '$'
  {
    if 0 <= j < |s| {
      assert s[j..j + 1] == [s[j]];
    }
  }

  /** A `$$` starts with a `$`. */
  lemma OccursDoubleDollar(s: string, j: int)
    requires OccursAt(s, "$$", j)
    ensures OccursAt(s, "$", j)
  {
    assert s[j] == s[j..j + 2][0];
    OccursDollar(s, j);
  }

  /** No `$$` starts where there is no `$`, or no `$` after it. */
  lemma NotDoubleDollar(s: string, j: int)
    requires 0 <= j && (j + 1 >= |s| || s[j] != '$' || s[j + 1] != '$')
    ensures !OccursAt(s, "$$", j)
  {
    if j + 2 <= |s| {
      assert s[j..j + 2][0] == s[j] && s[j..j + 2][1] == s[j + 1];
    }
  }

  /** An occurrence inside a slice is an occurrence in the whole string, within the slice. */
  lemma OccursInSlice(s: string, lo: nat, hi: nat, pat: string, j: int)
    requires lo <= hi <= |s| && OccursAt(s[lo..hi], pat, j)
    ensures OccursAt(s, pat, lo + j) && lo + j + |pat| <= hi
  {
    var c := s[lo..hi];
    var inner, outer := c[j..j + |pat|], s[lo + j..lo + j + |pat|];
    forall i | 0 <= i < |pat|
      ensures inner[i] == outer[i]
    {
      assert c[j + i] == s[lo + j + i];
    }
    assert inner == outer;
  }

  /** `IndexOf` finds an occurrence when no earlier one lies at or after `from`. */
  lemma {:induction false} IndexOfIs(s: string, pat: string, from: nat, k: nat)
    requires |pat| > 0 && from <= k && OccursAt(s, pat, k)
    requires forall j :: from <= j < k ==> !OccursAt(s, pat, j)
    ensures IndexOf(s, pat, from) == k
    decreases k - from
  {
    if from < k {
      assert !OccursAt(s, pat, from);
      IndexOfIs(s, pat, from + 1, k);
    }
  }

  /** A part the scanner pushes: non-empty text, an inline formula without `$`, a display formula without `$$`. */
  ghost predicate WellFormedPart(part: ParsedPart) {
    match part
    case Text(c) => c != []
    case Math(c) => NoDollar(c)
    case DisplayMath(c) => Free(c, "$$")
  }

  ghost predicate AllWellFormed(parts: seq<ParsedPart>) {
    forall i :: 0 <= i < |parts| ==> WellFormedPart(parts[i])
  }

  /** The text pushed before a delimiter is well formed. */
  lemma TextBeforeWellFormed(text: string, pos: nat, k: int)
    requires pos <= |text| && (k == -1 || pos <= k <= |text|)
    ensures AllWellFormed(TextBefore(text, pos, k))
  {
  }

  /** The formula between a `$$` and the first `$$` after it holds no `$$`. */
  lemma DisplayContentFree(text: string, d: nat, e: int)
    requires d + 2 <= |text| && e == IndexOf(text, "$$", d + 2) && e != -1
    ensures Free(text[d + 2..e], "$$")
  {
    IndexOfFirst(text, "$$", d + 2);
    var c := text[d + 2..e];
    forall j
      ensures !OccursAt(c, "$$", j)
    {
      if OccursAt(c, "$$", j) {
        OccursInSlice(text, d + 2, e, "$$", j);
      }
    }
  }

  /** The formula between a `$` and the first `$` after it holds no `$`. */
  lemma InlineContentNoDollar(text: string, m: nat, f: int)
    requires m + 1 <= |text| && f == IndexOf(text, "$", m + 1) && f != -1
    ensures NoDollar(text[m + 1..f])
  {
    IndexOfFirst(text, "$", m + 1);
    var c := text[m + 1..f];
    forall i | 0 <= i < |c|
      ensures c[i] != '$'
    {
      OccursDollar(text, m + 1 + i);
    }
  }

  /** Every pass pushes at least one part, and only well-formed ones. */
  lemma StepWellFormed(text: string, pos: nat)
    requires pos < |text|
    ensures |Step(text, pos).pushed| > 0 && AllWellFormed(Step(text, pos).pushed)
  {
    var d := IndexOf(text, "$$", pos);
    var e := if d != -1 then IndexOf(text, "$$", d + 2) else -1;
    var m := IndexOf(text, "$", pos);
    var f := if m != -1 && m != d then IndexOf(text, "$", m + 1) else -1;
    var first := if d != -1 then TextBefore(text, pos, d) else [];
    TextBeforeWellFormed(text, pos, d);
    if e != -1 {
      StepDisplay(text, pos, d, e);
      DisplayContentFree(text, d, e);
    } else if f != -1 {
      StepInline(text, pos, d, m, f);
      TextBeforeWellFormed(text, pos, m);
      InlineContentNoDollar(text, m, f);
    } else {
      StepRest(text, pos, d, m);
      TextBeforeWellFormed(text, pos, m);
    }
  }

  /** From any position short of the end the scanner pushes something, and only well-formed parts. */
  lemma {:induction false} PartsFromWellFormed(text: string, pos: nat)
    requires pos <= |text|
    ensures pos < |text| ==> |PartsFrom(text, pos)| > 0
    ensures AllWellFormed(PartsFrom(text, pos))
    decreases |text| - pos
  {
    if pos < |text| {
      var p := Step(text, pos);
      StepWellFormed(text, pos);
      PartsFromStep(text, pos);
      if p.next != -1 {
        PartsFromWellFormed(text, p.next);
      }
    }
  }

  /**
   * For non-empty input the result is exactly the parts pushed, and each is
   * well formed: no empty text part, no `$` inside an inline formula, no `$$`
   * inside a display formula.
   */
  lemma ParseWellFormed(text: string)
    requires text != ""
    ensures Parse(text) == PartsFrom(text, 0)
    ensures AllWellFormed(Parse(text))
  {
    PartsFromWellFormed(text, 0);
  }

  /** Text without `$` is a single text part. */
  lemma PlainText(text: string)
    requires NoDollar(text)
    ensures Parse(text) == [Text(text)]
  {
    if text != "" {
      var d := IndexOf(text, "$$", 0);
      var m := IndexOf(text, "$", 0);
      if d != -1 {
        OccursDoubleDollar(text, d);
        OccursDollar(text, d);
      }
      if m != -1 {
        OccursDollar(text, m);
      }
      StepRest(text, 0, d, m);
      assert text[0..] == text;
    }
  }

  /** `$$m$$` with no `$` in `m` is one display formula. */
  lemma DisplayOnly(m: string)
    requires NoDollar(m)
    ensures Parse("$$" + m + "$$") == [DisplayMath(m)]
  {
    var text := "$$" + m + "$$";
    var e := |m| + 2;
    assert OccursAt(text, "$$", 0) by { assert text[0..2] == "$$"; }
    IndexOfIs(text, "$$", 0, 0);
    assert OccursAt(text, "$$", e) by { assert text[e..e + 2] == "$$"; }
    forall j | 2 <= j < e
      ensures !OccursAt(text, "$$", j)
    {
      assert text[j] == m[j - 2];
      NotDoubleDollar(text, j);
    }
    IndexOfIs(text, "$$", 2, e);
    StepDisplay(text, 0, 0, e);
    assert text[2..e] == m;
    PartsFromStep(text, 0);
  }

  /** `$m$` with a non-empty `m` holding no `$` is one inline formula. */
  lemma InlineOnly(m: string)
    requires m != [] && NoDollar(m)
    ensures Parse("$" + m + "$") == [Math(m)]
  {
    var text := "$" + m + "$";
    var f := |m| + 1;
    forall j | 1 <= j < f
      ensures !OccursAt(text, "$", j)
    {
      assert text[j] == m[j - 1];
      OccursDollar(text, j);
    }
    forall j | 0 <= j
      ensures !OccursAt(text, "$$", j)
    {
      if j == 0 {
        assert text[1] == m[0];
      } else if j < f {
        assert text[j] == m[j - 1];
      }
      NotDoubleDollar(text, j);
    }
    assert IndexOf(text, "$$", 0) == -1;
    assert OccursAt(text, "$", 0) by { assert text[0..1] == "$"; }
    IndexOfIs(text, "$", 0, 0);
    assert OccursAt(text, "$", f) by { assert text[f..f + 1] == "$"; }
    IndexOfIs(text, "$", 1, f);
    StepInline(text, 0, -1, 0, f);
    assert text[1..f] == m;
    PartsFromStep(text, 0);
  }

  /**
   * An unmatched `$$` makes the scanner emit the text before it twice: once
   * as the text before the delimiter, and again inside the rest of the input.
   */
  lemma UnmatchedDisplayRepeatsText()
    ensures Parse("a$$b") == [Text("a"), Text("a$$b")]
  {
    var text := "a$$b";
    assert OccursAt(text, "$$", 1) by { assert text[1..3] == "$$"; }
    assert !OccursAt(text, "$$", 0) by { assert text[0..2][0] == 'a'; }
    IndexOfIs(text, "$$", 0, 1);
    assert OccursAt(text, "$", 1) by { assert text[1..2] == "$"; }
    assert !OccursAt(text, "$", 0) by { assert text[0..1][0] == 'a'; }
    IndexOfIs(text, "$", 0, 1);
    assert IndexOf(text, "$$", 3) == -1;
    StepRest(text, 0, 1, 1);
    assert text[0..1] == "a" && text[0..] == text;
    PartsFromStep(text, 0);
  }

  /** The text a part stands for, with its delimiters put back. */
  function RenderPart(part: ParsedPart): string {
    match part
    case Text(c) => c
    case Math(c) => "$" + c + "$"
    case DisplayMath(c) => "$$" + c + "$$"
  }

  /** The text a sequence of parts stands for. */
  function Render(parts: seq<ParsedPart>): string {
    if parts == [] then "" else RenderPart(parts[0]) + Render(parts[1..])
  }

  lemma {:induction false} RenderConcat(a: seq<ParsedPart>, b: seq<ParsedPart>)
    ensures Render(a + b) == Render(a) + Render(b)
  {
    if a == [] {
      assert a + b == b;
    } else {
      assert (a + b)[0] == a[0];
      assert (a + b)[1..] == a[1..] + b;
      RenderConcat(a[1..], b);
    }
  }

  /** The number of `$` characters in `s[lo..hi]`. */
  function DollarsIn(s: string, lo: nat, hi: nat): nat
    requires lo <= hi <= |s|
    decreases hi - lo
  {
    if lo == hi then 0 else DollarsIn(s, lo, hi - 1) + (if s[hi - 1] == '$' then 1 else 0)
  }

  /** The number of `$` characters in `s`. */
  function DollarCount(s: string): nat {
    DollarsIn(s, 0, |s|)
  }

  lemma {:induction false} DollarsInSplit(s: string, lo: nat, mid: nat, hi: nat)
    requires lo <= mid <= hi <= |s|
    ensures DollarsIn(s, lo, hi) == DollarsIn(s, lo, mid) + DollarsIn(s, mid, hi)
    decreases hi - mid
  {
    if mid < hi {
      DollarsInSplit(s, lo, mid, hi - 1);
    }
  }

  lemma {:induction false} DollarsInNone(s: string, lo: nat, hi: nat)
    requires lo <= hi <= |s|
    requires forall j :: lo <= j < hi ==> !OccursAt(s, "$", j)
    ensures DollarsIn(s, lo, hi) == 0
    decreases hi - lo
  {
    if lo < hi {
      OccursDollar(s, hi - 1);
      DollarsInNone(s, lo, hi - 1);
    }
  }

  /** Around two `$` characters at `m` and `f`, the text from `pos` is the part before, the formula, and the rest. */
  lemma SplitAtDollars(text: string, pos: nat, m: nat, f: nat)
    requires pos <= m < f < |text| && text[m] == '$' && text[f] == '$'
    ensures text[pos..] == text[pos..m] + ("$" + text[m + 1..f] + "$") + text[f + 1..]
  {
    assert text[pos..] == text[pos..m] + [text[m]] + text[m + 1..f] + [text[f]] + text[f + 1..];
  }

  /** From `pos`, the stretch up to the first `$` at `m` adds no `$`. */
  lemma DollarsLead(text: string, pos: nat, m: int)
    requires pos <= |text| && m == IndexOf(text, "$", pos) && m != -1
    ensures text[m] == '$'
    ensures DollarsIn(text, pos, |text|) == 1 + DollarsIn(text, m + 1, |text|)
  {
    IndexOfFirst(text, "$", pos);
    OccursDollar(text, m);
    DollarsInNone(text, pos, m);
    DollarsInSplit(text, pos, m, |text|);
    DollarsInSplit(text, m, m + 1, |text|);
  }

  /**
   * From `pos`, the first `$` at `m` and the next one at `f`: an unmatched
   * `$` is the only one left, and a matched pair splits the text into the
   * text before it, the formula with its delimiters, and the rest.
   */
  lemma DollarsFrom(text: string, pos: nat, m: int, f: int)
    requires pos <= |text| && m == IndexOf(text, "$", pos) && m != -1
    requires f == IndexOf(text, "$", m + 1)
    ensures f == -1 ==> DollarsIn(text, pos, |text|) == 1
    ensures f != -1 ==>
      text[pos..] == text[pos..m] + ("$" + text[m + 1..f] + "$") + text[f + 1..] &&
      DollarsIn(text, pos, |text|) == 2 + DollarsIn(text, f + 1, |text|)
  {
    DollarsLead(text, pos, m);
    if f == -1 {
      IndexOfFirst(text, "$", m + 1);
      DollarsInNone(text, m + 1, |text|);
    } else {
      DollarsLead(text, m + 1, f);
      SplitAtDollars(text, pos, m, f);
    }
  }

  /** A pass that finds a matched `$ ... $` and no `$$` renders back to the text it passed over. */
  lemma RenderInlinePass(text: string, pos: nat, m: int, f: int)
    requires pos < |text| && IndexOf(text, "$$", pos) == -1
    requires m == IndexOf(text, "$", pos) && m != -1
    requires f == IndexOf(text, "$", m + 1) && f != -1
    requires text[pos..] == text[pos..m] + ("$" + text[m + 1..f] + "$") + text[f + 1..]
    requires Render(PartsFrom(text, f + 1)) == text[f + 1..]
    ensures Render(PartsFrom(text, pos)) == text[pos..]
  {
    StepInline(text, pos, -1, m, f);
    var p := Step(text, pos);
    var formula := [Math(text[m + 1..f])];
    assert p.pushed == TextBefore(text, pos, m) + formula;
    PartsFromPass(text, pos, p);
    RenderConcat(p.pushed, PartsFrom(text, f + 1));
    RenderConcat(TextBefore(text, pos, m), formula);
    assert Render(formula) == "$" + text[m + 1..f] + "$";
    assert Render(TextBefore(text, pos, m)) == text[pos..m];
  }

  /** A pass that finds no `$` at all renders back to the rest of the text. */
  lemma RenderRestPass(text: string, pos: nat)
    requires pos < |text| && IndexOf(text, "$$", pos) == -1 && IndexOf(text, "$", pos) == -1
    ensures Render(PartsFrom(text, pos)) == text[pos..]
  {
    StepRest(text, pos, -1, -1);
    PartsFromStep(text, pos);
  }

  lemma EvenLess2(a: nat, b: nat)
    requires a == 2 + b && a % 2 == 0
    ensures b % 2 == 0
  {
  }

  /** `pat` found nowhere in `s` is not found from any position. */
  lemma FreeIndexOf(s: string, pat: string, from: nat)
    requires |pat| > 0 && Free(s, pat)
    ensures IndexOf(s, pat, from) == -1
  {
  }

  /**
   * One inline pass over text without `$$` from `pos`, with an even number of
   * `$` left: the closing `$` exists, an even number is left after it, and if
   * the rest renders back then so does the text from `pos`.
   */
  lemma RenderInlineCase(text: string, pos: nat, m: int, f: int)
    requires pos < |text| && IndexOf(text, "$$", pos) == -1
    requires DollarsIn(text, pos, |text|) % 2 == 0
    requires m == IndexOf(text, "$", pos) && m != -1
    requires f == IndexOf(text, "$", m + 1)
    ensures pos < f + 1 <= |text| && DollarsIn(text, f + 1, |text|) % 2 == 0
    ensures Render(PartsFrom(text, f + 1)) == text[f + 1..] ==> Render(PartsFrom(text, pos)) == text[pos..]
  {
    DollarsFrom(text, pos, m, f);
    if f == -1 {
      assert false;
    }
    EvenLess2(DollarsIn(text, pos, |text|), DollarsIn(text, f + 1, |text|));
    if Render(PartsFrom(text, f + 1)) == text[f + 1..] {
      RenderInlinePass(text, pos, m, f);
    }
  }

  /** Without `$$` in the text, an even number of `$` from `pos` on renders back to the text from `pos`. */
  lemma {:induction false} RenderPartsFrom(text: string, pos: nat)
    requires pos <= |text| && Free(text, "$$")
    requires DollarsIn(text, pos, |text|) % 2 == 0
    ensures Render(PartsFrom(text, pos)) == text[pos..]
    decreases |text| - pos
  {
    if pos < |text| {
      FreeIndexOf(text, "$$", pos);
      var m := IndexOf(text, "$", pos);
      if m == -1 {
        RenderRestPass(text, pos);
      } else {
        var f := IndexOf(text, "$", m + 1);
        RenderInlineCase(text, pos, m, f);
        RenderPartsFrom(text, f + 1);
      }
    }
  }

  /**
   * The scanner loses nothing on text without `$$` and with an even number of
   * `$`: putting the delimiters back gives the input.
   */
  lemma RenderParse(text: string)
    requires Free(text, "$$") && DollarCount(text) % 2 == 0
    ensures Render(Parse(text)) == text
  {
    if text != "" {
      assert text[0..] == text;
      RenderPartsFrom(text, 0);
      PartsFromWellFormed(text, 0);
    }
  }
}
