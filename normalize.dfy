/**
 * The community-name normaliser `data_normalize` of main.py.
 *
 * The raw text of the community list is stripped of non-ASCII characters,
 * then turned either into URL slugs (lower case, every run of space, `/`
 * or `.` collapsed into one `-`) or into upper-case labels, and split into
 * its non-empty lines.  The two modes are applied to the same text and the
 * aggregator zips their results, so the central fact proved here is that
 * both produce one entry per non-empty source line, in the same order.
 */
module Normalizer {

  /** `str.isascii()` for a single character. */
  predicate IsAscii(c: char) { c as int < 128 }

  /** A member of the character class `[ \/.]` of the slug substitution. */
  predicate IsSeparator(c: char) { c == ' ' || c == '/' || c == '.' }

  predicate IsUpper(c: char) { 'A' <= c <= 'Z' }

  predicate IsLower(c: char) { 'a' <= c <= 'z' }

  // ---------------------------------------------------------------------
  // Dropping non-ASCII characters
  // ---------------------------------------------------------------------

  /** `''.join(filter(lambda char: char.isascii(), s))` */
  function AsciiOnly(s: string): (r: string)
    ensures |r| <= |s|
    ensures forall c :: c in r <==> c in s && IsAscii(c)
  {
    if s == [] then []
    else
      assert s == [s[0]] + s[1..];
      (if IsAscii(s[0]) then [s[0]] else []) + AsciiOnly(s[1..])
  }

  /** A text that is already ASCII passes through unchanged. */
  lemma {:induction false} AsciiOnlyKeepsAscii(s: string)
    requires forall c :: c in s ==> IsAscii(c)
    ensures AsciiOnly(s) == s
  {
    if s != [] {
      assert forall c :: c in s[1..] ==> c in s;
      AsciiOnlyKeepsAscii(s[1..]);
      assert s == [s[0]] + s[1..];
    }
  }

  /** Filtering distributes over concatenation, so the kept characters stay in order. */
  lemma {:induction false} AsciiOnlyConcat(a: string, b: string)
    ensures AsciiOnly(a + b) == AsciiOnly(a) + AsciiOnly(b)
  {
    if a == [] {
      assert a + b == b;
    } else {
      assert (a + b)[0] == a[0];
      assert (a + b)[1..] == a[1..] + b;
      AsciiOnlyConcat(a[1..], b);
    }
  }

  /** Filtering twice is filtering once. */
  lemma {:induction false} AsciiOnlyIdempotent(s: string)
    ensures AsciiOnly(AsciiOnly(s)) == AsciiOnly(s)
  {
    AsciiOnlyKeepsAscii(AsciiOnly(s));
  }

  // ---------------------------------------------------------------------
  // Case mapping (the text is ASCII by then, so only letters change)
  // ---------------------------------------------------------------------

  function LowerChar(c: char): char
  {
    if IsUpper(c) then (c as int + 32) as char else c
  }

  function UpperChar(c: char): char
  {
    if IsLower(c) then (c as int - 32) as char else c
  }

  /** `str.lower()` on an ASCII text. */
  function ToLower(s: string): (r: string)
    ensures |r| == |s|
    ensures forall c :: c in r ==> !IsUpper(c)
    ensures forall i :: 0 <= i < |s| && !IsUpper(s[i]) ==> r[i] == s[i]
    ensures forall i :: 0 <= i < |s| && IsUpper(s[i]) ==> IsLower(r[i]) && r[i] as int == s[i] as int + 32
  {
    seq(|s|, i requires 0 <= i < |s| => LowerChar(s[i]))
  }

  /** `str.upper()` on an ASCII text. */
  function ToUpper(s: string): (r: string)
    ensures |r| == |s|
    ensures forall c :: c in r ==> !IsLower(c)
    ensures forall i :: 0 <= i < |s| && !IsLower(s[i]) ==> r[i] == s[i]
    ensures forall i :: 0 <= i < |s| && IsLower(s[i]) ==> IsUpper(r[i]) && r[i] as int == s[i] as int - 32
  {
    seq(|s|, i requires 0 <= i < |s| => UpperChar(s[i]))
  }

  // ---------------------------------------------------------------------
  // Collapsing separator runs: re.sub(r'[ \/.]+', "-", s)
  // ---------------------------------------------------------------------

  /**
   * The substitution scanned left to right: `inRun` says whether the
   * character before `s` was a separator whose run has already been
   * replaced by its `-`.
   */
  function HyphenateFrom(s: string, inRun: bool): string
  {
    if s == [] then [] else Emit(s[0], inRun) + HyphenateFrom(s[1..], IsSeparator(s[0]))
  }

  /** What the scan writes for one character: a run's first separator becomes `-`, the rest of it nothing. */
  function Emit(c: char, inRun: bool): string
  {
    if !IsSeparator(c) then [c] else if inRun then "" else "-"
  }

  /** The substitution: each maximal run of separators becomes a single `-`. */
  function Hyphenate(s: string): (r: string)
    ensures forall c :: c in r ==> c == '-' || (c in s && !IsSeparator(c))
    ensures r == [] <==> s == []
  {
    HyphenateFromChars(s, false);
    HyphenateFrom(s, false)
  }

  /** Whether a scan that started with `inRun` is inside a run after reading `a`. */
  function EndsInRun(a: string, inRun: bool): bool
  {
    if a == [] then inRun else IsSeparator(a[|a| - 1])
  }

  /** The scan of `a + b` is the scan of `a` followed by the scan of `b` in the state `a` left. */
  lemma {:induction false} HyphenateFromConcat(a: string, b: string, inRun: bool)
    ensures HyphenateFrom(a + b, inRun) == HyphenateFrom(a, inRun) + HyphenateFrom(b, EndsInRun(a, inRun))
  {
    if a == [] {
      assert a + b == b;
    } else {
      var next, tail := IsSeparator(a[0]), HyphenateFrom(b, EndsInRun(a, inRun));
      assert (a + b)[0] == a[0];
      assert (a + b)[1..] == a[1..] + b;
      HyphenateFromConcat(a[1..], b, next);
      assert EndsInRun(a[1..], next) == EndsInRun(a, inRun);
      calc {
        HyphenateFrom(a + b, inRun);
        Emit(a[0], inRun) + HyphenateFrom(a[1..] + b, next);
        Emit(a[0], inRun) + (HyphenateFrom(a[1..], next) + tail);
        (Emit(a[0], inRun) + HyphenateFrom(a[1..], next)) + tail;
      }
    }
  }

  /** The substitution emits only hyphens and non-separator characters of its input, and outside a run it empties no non-empty text. */
  lemma {:induction false} HyphenateFromChars(s: string, inRun: bool)
    ensures forall c :: c in HyphenateFrom(s, inRun) ==> c == '-' || (c in s && !IsSeparator(c))
    ensures !inRun ==> (HyphenateFrom(s, inRun) == [] <==> s == [])
  {
    if s != [] {
      HyphenateFromChars(s[1..], IsSeparator(s[0]));
      assert forall c :: c in s[1..] ==> c in s;
    }
  }

  /** Text without separators is left alone. */
  lemma {:induction false} HyphenateKeepsPlainText(s: string)
    requires forall c :: c in s ==> !IsSeparator(c)
    ensures Hyphenate(s) == s
  {
    if s != [] {
      assert forall c :: c in s[1..] ==> c in s;
      HyphenateKeepsPlainText(s[1..]);
      assert s == [s[0]] + s[1..];
    }
  }

  /** Inside a run, further separators produce nothing. */
  lemma {:induction false} HyphenateFromRunTail(s: string)
    requires forall c :: c in s ==> IsSeparator(c)
    ensures HyphenateFrom(s, true) == []
  {
    if s != [] {
      assert forall c :: c in s[1..] ==> c in s;
      HyphenateFromRunTail(s[1..]);
    }
  }

  /** A whole run of separators, however long, becomes exactly one `-`. */
  lemma HyphenateRun(s: string)
    requires s != [] && forall c :: c in s ==> IsSeparator(c)
    ensures Hyphenate(s) == "-"
  {
    assert s[0] in s;
    assert forall c :: c in s[1..] ==> c in s;
    HyphenateFromRunTail(s[1..]);
  }

  /**
   * Substitution works piecewise on any split that does not cut a run of
   * separators in two.  With HyphenateKeepsPlainText and HyphenateRun this
   * determines Hyphenate on every text.
   */
  lemma HyphenateConcat(a: string, b: string)
    requires a == [] || b == [] || !IsSeparator(a[|a| - 1]) || !IsSeparator(b[0])
    ensures Hyphenate(a + b) == Hyphenate(a) + Hyphenate(b)
  {
    HyphenateFromConcat(a, b, false);
    if b != [] && EndsInRun(a, false) {
      assert HyphenateFrom(b, true) == HyphenateFrom(b, false);
    }
  }

  // ---------------------------------------------------------------------
  // Splitting into lines: re.findall(r'.+', s)
  // ---------------------------------------------------------------------

  /** The position of the first newline of `s`, or |s| when there is none. */
  function LineLength(s: string): (k: nat)
    ensures k <= |s| && (k == |s| || s[k] == '\n')
    ensures forall j :: 0 <= j < k ==> s[j] != '\n'
  {
    if s == [] || s[0] == '\n' then 0 else 1 + LineLength(s[1..])
  }

  /** `re.findall(r'.+', s)`: the maximal non-empty runs of non-newline characters. */
  function Lines(s: string): (r: seq<string>)
    ensures forall i :: 0 <= i < |r| ==> r[i] != [] && '\n' !in r[i]
    decreases |s|
  {
    if s == [] then []
    else if s[0] == '\n' then Lines(s[1..])
    else
      var k := LineLength(s);
      [s[..k]] + Lines(s[k..])
  }

  /** The findall result of a text holding no newline. */
  function LineOf(a: string): seq<string>
  {
    if a == [] then [] else [a]
  }

  lemma LinesOfLine(a: string)
    requires '\n' !in a
    ensures Lines(a) == LineOf(a)
  {
    if a != [] {
      assert a[..|a|] == a;
    }
  }

  /** A newline ends one line (or nothing, if the line is empty) and the rest follows. */
  lemma LinesJoin(a: string, b: string)
    requires '\n' !in a
    ensures Lines(a + "\n" + b) == LineOf(a) + Lines(b)
  {
    var s := a + "\n" + b;
    if a == [] {
      assert s[1..] == b;
    } else {
      assert s[|a|] == '\n';
      assert forall j :: 0 <= j < |a| ==> s[j] == a[j];
      var k := LineLength(s);
      assert k == |a|;
      assert s[..k] == a;
      assert s[k..] == "\n" + b;
      assert ("\n" + b)[1..] == b;
    }
  }

  // ---------------------------------------------------------------------
  // The two modes
  // ---------------------------------------------------------------------

  /** `url_normalize` gives slugs, `csv_normalize` gives display labels. */
  datatype Mode = Url | Label

  /** The text-level transformation of a mode, before the split into lines. */
  function Render(m: Mode, s: string): (r: string)
    ensures r == [] <==> s == []
    ensures '\n' !in s ==> '\n' !in r
    ensures m == Url ==> forall c :: c in r ==> !IsUpper(c) && !IsSeparator(c)
    ensures m == Label ==> forall c :: c in r ==> !IsLower(c)
    ensures m == Label ==> |r| == |s| && forall i :: 0 <= i < |s| && !IsLower(s[i]) ==> r[i] == s[i]
  {
    match m
    case Url =>
      var low := ToLower(s);
      assert '\n' !in s ==> '\n' !in low by {
        if '\n' in low {
          var i :| 0 <= i < |low| && low[i] == '\n';
          assert LowerChar(s[i]) == '\n';
        }
      }
      Hyphenate(low)
    case Label =>
      var up := ToUpper(s);
      assert '\n' !in s ==> '\n' !in up by {
        if '\n' in up {
          var i :| 0 <= i < |up| && up[i] == '\n';
          assert UpperChar(s[i]) == '\n';
        }
      }
      up
  }

  /** Lower-casing forgets an earlier upper-casing. */
  lemma LowerOfUpper(s: string)
    ensures ToLower(ToUpper(s)) == ToLower(s)
  {
    var u := ToUpper(s);
    forall i | 0 <= i < |s|
      ensures ToLower(u)[i] == ToLower(s)[i]
    {
      if IsLower(s[i]) {
        assert IsUpper(u[i]) && u[i] as int == s[i] as int - 32;
      }
    }
  }

  /** The slug of a display label is the slug of the original text. */
  lemma SlugOfLabel(s: string)
    ensures Render(Url, Render(Label, s)) == Render(Url, s)
  {
    LowerOfUpper(s);
  }

  /** Both modes treat a newline as a boundary: the lines are rendered one by one. */
  lemma RenderJoin(m: Mode, a: string, b: string)
    ensures Render(m, a + "\n" + b) == Render(m, a) + "\n" + Render(m, b)
  {
    match m
    case Url =>
      var la, lb := ToLower(a), ToLower(b);
      LowerJoin(a, b);
      assert la + "\n" + lb == la + ("\n" + lb);
      HyphenateConcat(la, "\n" + lb);
      assert ("\n" + lb)[1..] == lb;
    case Label =>
      UpperJoin(a, b);
  }

  lemma LowerJoin(a: string, b: string)
    ensures ToLower(a + "\n" + b) == ToLower(a) + "\n" + ToLower(b)
  {
  }

  lemma UpperJoin(a: string, b: string)
    ensures ToUpper(a + "\n" + b) == ToUpper(a) + "\n" + ToUpper(b)
  {
  }

  /** Every line rendered on its own, in order. */
  function RenderLines(m: Mode, lines: seq<string>): (r: seq<string>)
  {
    seq(|lines|, i requires 0 <= i < |lines| => Render(m, lines[i]))
  }

  /** Rendering a list of lines piecewise. */
  lemma RenderLinesConcat(m: Mode, xs: seq<string>, ys: seq<string>)
    ensures RenderLines(m, xs + ys) == RenderLines(m, xs) + RenderLines(m, ys)
  {
  }

  /** One line rendered on its own is the one line of the rendered text. */
  lemma RenderLineOf(m: Mode, a: string)
    requires '\n' !in a
    ensures Lines(Render(m, a)) == RenderLines(m, LineOf(a))
  {
    LinesOfLine(a);
    LinesOfLine(Render(m, a));
  }

  /** The first line of a text, split off before and after rendering. */
  lemma LinesRenderSplit(m: Mode, a: string, b: string)
    requires '\n' !in a
    ensures Lines(a + "\n" + b) == LineOf(a) + Lines(b)
    ensures Lines(Render(m, a + "\n" + b)) == LineOf(Render(m, a)) + Lines(Render(m, b))
  {
    LinesJoin(a, b);
    RenderJoin(m, a, b);
    LinesJoin(Render(m, a), Render(m, b));
  }

  /**
   * Rendering the whole text and then splitting it into lines gives one
   * entry per non-empty source line: the rendering of that line.
   */
  lemma {:induction false} LinesRender(m: Mode, s: string)
    ensures Lines(Render(m, s)) == RenderLines(m, Lines(s))
    decreases |s|
  {
    var k := LineLength(s);
    if k == |s| {
      assert '\n' !in s;
      RenderLineOf(m, s);
      LinesOfLine(s);
    } else {
      var a, b := s[..k], s[k + 1..];
      assert s == a + "\n" + b;
      assert '\n' !in a;
      LinesRenderSplit(m, a, b);
      LinesRender(m, b);
      RenderLinesConcat(m, LineOf(a), Lines(b));
      RenderLineOf(m, a);
      LinesOfLine(Render(m, a));
    }
  }

  // ---------------------------------------------------------------------
  // data_normalize
  // ---------------------------------------------------------------------

  /** What `data_normalize` returns: a list of lines, or the filtered text itself. */
  datatype Normalized = Items(items: seq<string>) | Plain(text: string)

  /** The non-empty lines of the ASCII-filtered text, before any case mapping. */
  function SourceLines(text: string): seq<string>
  {
    Lines(AsciiOnly(text))
  }

  /**
   * `data_normalize(text, url_normalize, csv_normalize)`.  A mode that is
   * not requested contributes `None`, which like an empty list is falsy, so
   * `url or csv or ascii` picks the first non-empty list.
   */
  function Normalize(text: string, urlNormalize: bool, csvNormalize: bool): (r: Normalized)
    ensures var src := SourceLines(text);
      r == if (urlNormalize || csvNormalize) && src != []
           then Items(RenderLines(if urlNormalize then Url else Label, src))
           else Plain(AsciiOnly(text))
    ensures r.Items? ==> r.items != [] && forall i :: 0 <= i < |r.items| ==> r.items[i] != [] && '\n' !in r.items[i]
    ensures r.Items? && urlNormalize ==>
      forall i, c :: 0 <= i < |r.items| && c in r.items[i] ==> !IsUpper(c) && !IsSeparator(c)
  {
    var ascii := AsciiOnly(text);
    var urlList := if urlNormalize then Lines(Render(Url, ascii)) else [];
    var csvList := if csvNormalize then Lines(Render(Label, ascii)) else [];
    assert urlNormalize ==> urlList == RenderLines(Url, Lines(ascii)) by {
      LinesRender(Url, ascii);
    }
    assert csvNormalize ==> csvList == RenderLines(Label, Lines(ascii)) by {
      LinesRender(Label, ascii);
    }
    if urlList != [] then Items(urlList)
    else if csvList != [] then Items(csvList)
    else Plain(ascii)
  }

  /** A word followed by one separator: the word is kept and the separator becomes `-`. */
  lemma HyphenateWord(w: string, c: char, rest: string)
    requires forall x :: x in w ==> !IsSeparator(x)
    requires IsSeparator(c) && (rest == [] || !IsSeparator(rest[0]))
    ensures Hyphenate(w + [c] + rest) == w + "-" + Hyphenate(rest)
  {
    HyphenateKeepsPlainText(w);
    HyphenateRun([c]);
    HyphenateConcat(w, [c] + rest);
    HyphenateConcat([c], rest);
    assert w + [c] + rest == w + ([c] + rest);
  }

  /*
   * The name "Forest Lawn/Dover", worked through both modes.  Each step is a
   * lemma of its own because the solver evaluates the functions on a literal
   * text eagerly.
   */

  lemma ForestLawnDoverSource(s: string)
    requires s == "Forest Lawn/Dover"
    ensures SourceLines(s) == [s]
  {
    ForestLawnDoverAscii(s);
    ForestLawnDoverOneLine(s);
  }

  lemma ForestLawnDoverAscii(s: string)
    requires s == "Forest Lawn/Dover"
    ensures AsciiOnly(s) == s
  {
    AsciiOnlyKeepsAscii(s);
  }

  lemma ForestLawnDoverOneLine(s: string)
    requires s == "Forest Lawn/Dover"
    ensures Lines(s) == [s]
  {
    LinesOfLine(s);
  }

  lemma ForestLawnDoverLower(s: string)
    requires s == "Forest Lawn/Dover"
    ensures ToLower(s) == "forest" + [' '] + ("lawn" + ['/'] + "dover")
  {
  }

  /** Two words around one separator become the words joined by `-`. */
  lemma HyphenateTwoWords(w: string, c: char, v: string)
    requires forall x :: x in w ==> !IsSeparator(x)
    requires forall x :: x in v ==> !IsSeparator(x)
    requires IsSeparator(c)
    ensures Hyphenate(w + [c] + v) == w + "-" + v
  {
    HyphenateKeepsPlainText(v);
    HyphenateWord(w, c, v);
  }

  lemma LawnDoverHyphens(t: string)
    requires t == "lawn" + ['/'] + "dover"
    ensures Hyphenate(t) == "lawn-dover"
  {
    HyphenateTwoWords("lawn", '/', "dover");
  }

  lemma ForestLawnDoverHyphens(low: string)
    requires low == "forest" + [' '] + ("lawn" + ['/'] + "dover")
    ensures Hyphenate(low) == "forest-lawn-dover"
  {
    var tail := "lawn" + ['/'] + "dover";
    LawnDoverHyphens(tail);
    HyphenateWord("forest", ' ', tail);
  }

  lemma ForestLawnDoverUpper(s: string)
    requires s == "Forest Lawn/Dover"
    ensures ToUpper(s) == "FOREST LAWN/DOVER"
  {
  }

  lemma ForestLawnDoverSlug(s: string)
    requires s == "Forest Lawn/Dover"
    ensures Normalize(s, true, false) == Items(["forest-lawn-dover"])
  {
    ForestLawnDoverSource(s);
    ForestLawnDoverLower(s);
    ForestLawnDoverHyphens(ToLower(s));
  }

  lemma ForestLawnDoverLabel(s: string)
    requires s == "Forest Lawn/Dover"
    ensures Normalize(s, false, true) == Items(["FOREST LAWN/DOVER"])
  {
    ForestLawnDoverSource(s);
    ForestLawnDoverUpper(s);
  }

  /** The name "Forest Lawn/Dover" becomes one slug and one label. */
  lemma ForestLawnDover(s: string)
    requires s == "Forest Lawn/Dover"
    ensures Normalize(s, true, false) == Items(["forest-lawn-dover"])
    ensures Normalize(s, false, true) == Items(["FOREST LAWN/DOVER"])
  {
    ForestLawnDoverSlug(s);
    ForestLawnDoverLabel(s);
  }
}
