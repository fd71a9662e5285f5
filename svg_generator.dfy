/**
 * Text-to-SVG layout: one `g`/`path` pair per character whose glyph the font
 * has, placed left to right by a running x cursor, then the document's
 * width, height and viewBox computed from where the cursor ended.
 */
module SvgGenerator {
  import opened Wrappers
  import opened FontResolver

  /** One glyph of the font: its outline as SVG path data, and its advance width in font units if it has one. */
  datatype Glyph = Glyph(pathData: string, width: Option<int>)

  /**
   * A loaded font: units per em, the best character map (character to glyph
   * name) and the glyph set (glyph name to glyph).
   */
  datatype Font = Font(unitsPerEm: nat, cmap: map<char, string>, glyphSet: map<string, Glyph>)

  /**
   * What the server can reach when it loads a font: the family table, the
   * paths of the files that exist, and the fonts that the files at those
   * paths parse to (a path absent from `parsed` does not parse).
   */
  datatype FontFiles = FontFiles(table: map<string, string>, existing: set<string>, parsed: map<string, Font>)

  datatype LoadFailure = NotResolved(cause: FontError) | Unreadable(path: string)

  datatype SvgError =
    | FailedToLoadFont(reason: LoadFailure)  // the `ValueError` raised around font loading
    | ZeroUnitsPerEm                         // the division by a zero units-per-em

  /** A `path` element: its `d` and `fill`, and its transform `scale(scaleX, scaleY)`. */
  datatype PathElement = PathElement(d: string, fill: string, scaleX: real, scaleY: real)

  /** A `g` element: its transform `translate(translateX, translateY)` and its children. */
  datatype Group = Group(translateX: real, translateY: real, paths: seq<PathElement>)

  datatype ViewBox = ViewBox(minX: real, minY: real, width: real, height: real)

  /** The finished document, as `toxml` serialises it. */
  datatype SvgDocument = SvgDocument(xmlns: string, groups: seq<Group>, viewBox: ViewBox, width: real, height: real)

  const SvgNamespace: string := "http://www.w3.org/2000/svg"
  const NotDef: string := ".notdef"

  /**
   * The `try` block around font loading: resolve the family to a path, then
   * parse the file; any failure becomes `FailedToLoadFont`.
   */
  function LoadFont(family: string, files: FontFiles): (r: Result<Font, SvgError>)
    ensures var path := ResolveFontPath(family, files.table, files.existing);
            r.Success? <==> path.Success? && path.value in files.parsed
    ensures var path := ResolveFontPath(family, files.table, files.existing);
            r.Success? ==> r.value == files.parsed[path.value]
    ensures var path := ResolveFontPath(family, files.table, files.existing);
            path.Failure? ==> r == Failure(FailedToLoadFont(NotResolved(path.error)))
    ensures var path := ResolveFontPath(family, files.table, files.existing);
            path.Success? && path.value !in files.parsed ==> r == Failure(FailedToLoadFont(Unreadable(path.value)))
  {
    match ResolveFontPath(family, files.table, files.existing)
    case Failure(e) => Failure(FailedToLoadFont(NotResolved(e)))
    case Success(path) =>
      if path in files.parsed then Success(files.parsed[path]) else Failure(FailedToLoadFont(Unreadable(path)))
  }

  /** The glyph name the character map gives, `.notdef` when it has none. */
  function GlyphName(font: Font, c: char): string {
    if c in font.cmap then font.cmap[c] else NotDef
  }

  /** The character's glyph name is in the glyph set, so it gets a group. */
  predicate Rendered(font: Font, c: char) {
    GlyphName(font, c) in font.glyphSet
  }

  function ScaleFactor(font: Font, fontSize: int): real
    requires font.unitsPerEm > 0
  {
    fontSize as real / font.unitsPerEm as real
  }

  function MaxHeight(fontSize: int): real {
    fontSize as real * 1.2
  }

  /**
   * How far the cursor moves past `c`: the glyph's width scaled to pixels, or
   * `0.6` of the font size for a glyph without a width; a character that is
   * not rendered does not move it at all.
   */
  function Advance(font: Font, fontSize: int, c: char): real
    requires font.unitsPerEm > 0
  {
    if !Rendered(font, c) then 0.0
    else match font.glyphSet[GlyphName(font, c)].width
      case Some(w) => w as real * ScaleFactor(font, fontSize)
      case None => fontSize as real * 0.6
  }

  /** The group emitted for a rendered character when the cursor stands at `x`. */
  function CharGroup(font: Font, fontSize: int, fill: string, c: char, x: real): Group
    requires font.unitsPerEm > 0 && Rendered(font, c)
  {
    var sf := ScaleFactor(font, fontSize);
    Group(x, MaxHeight(fontSize) * 0.8, [PathElement(font.glyphSet[GlyphName(font, c)].pathData, fill, sf, -sf)])
  }

  /** Where the cursor stands after `text`. */
  function SumAdvances(font: Font, fontSize: int, text: string): real
    requires font.unitsPerEm > 0
  {
    if text == [] then 0.0
    else SumAdvances(font, fontSize, text[..|text| - 1]) + Advance(font, fontSize, text[|text| - 1])
  }

  /** The group has one path, filled with `fill`, scaled and flipped by the font's scale factor, on the baseline. */
  predicate WellFormedGroup(font: Font, fontSize: int, fill: string, g: Group)
    requires font.unitsPerEm > 0
  {
    && |g.paths| == 1
    && g.translateY == fontSize as real * 1.2 * 0.8
    && g.paths[0].fill == fill
    && g.paths[0].scaleX == fontSize as real / font.unitsPerEm as real
    && g.paths[0].scaleY == -g.paths[0].scaleX
  }

  /** The groups emitted for `text`, in order. */
  function Groups(font: Font, fontSize: int, fill: string, text: string): (gs: seq<Group>)
    requires font.unitsPerEm > 0
    ensures |gs| <= |text|
  {
    if text == [] then []
    else
      var prefix := text[..|text| - 1];
      var c := text[|text| - 1];
      Groups(font, fontSize, fill, prefix)
      + (if Rendered(font, c) then [CharGroup(font, fontSize, fill, c, SumAdvances(font, fontSize, prefix))] else [])
  }

  /**
   * Every group holds one path, filled with `fill`, scaled by the font's scale
   * factor and flipped vertically, on the baseline at `0.8` of the line height.
   */
  lemma {:induction false} GroupsWellFormed(font: Font, fontSize: int, fill: string, text: string)
    requires font.unitsPerEm > 0
    ensures forall k :: 0 <= k < |Groups(font, fontSize, fill, text)| ==>
              WellFormedGroup(font, fontSize, fill, Groups(font, fontSize, fill, text)[k])
  {
    if text != [] {
      GroupsWellFormed(font, fontSize, fill, text[..|text| - 1]);
    }
  }

  /** The indices of the rendered characters of `text`, in order. */
  function Positions(font: Font, text: string): seq<nat>
  {
    if text == [] then []
    else Positions(font, text[..|text| - 1]) + (if Rendered(font, text[|text| - 1]) then [|text| - 1] else [])
  }

  /** The advances of the rendered characters of `text`, in order. */
  function EmittedAdvances(font: Font, fontSize: int, text: string): seq<real>
    requires font.unitsPerEm > 0
  {
    if text == [] then []
    else
      var c := text[|text| - 1];
      EmittedAdvances(font, fontSize, text[..|text| - 1]) + (if Rendered(font, c) then [Advance(font, fontSize, c)] else [])
  }

  function RealSum(xs: seq<real>): real {
    if xs == [] then 0.0 else RealSum(xs[..|xs| - 1]) + xs[|xs| - 1]
  }

  /** The document width: the final cursor if it is positive, else `0.6` of the font size per character. */
  function TotalWidth(fontSize: int, length: nat, cursor: real): real {
    if cursor > 0.0 then cursor else fontSize as real * length as real * 0.6
  }

  /** Every width the font gives is non-negative. */
  predicate NonNegativeWidths(font: Font) {
    forall name :: name in font.glyphSet && font.glyphSet[name].width.Some? ==> font.glyphSet[name].width.value >= 0
  }

  /** A rendered character appends its group at the current cursor and moves the cursor by its advance. */
  lemma RenderedStep(font: Font, fontSize: int, fill: string, text: string, i: nat)
    requires font.unitsPerEm > 0 && i < |text| && Rendered(font, text[i])
    ensures Groups(font, fontSize, fill, text[..i + 1])
            == Groups(font, fontSize, fill, text[..i]) + [CharGroup(font, fontSize, fill, text[i], SumAdvances(font, fontSize, text[..i]))]
    ensures SumAdvances(font, fontSize, text[..i + 1]) == SumAdvances(font, fontSize, text[..i]) + Advance(font, fontSize, text[i])
  {
    assert text[..i + 1][..i] == text[..i];
  }

  /** A character that is not rendered leaves the groups and the cursor as they are. */
  lemma SkippedStep(font: Font, fontSize: int, fill: string, text: string, i: nat)
    requires font.unitsPerEm > 0 && i < |text| && !Rendered(font, text[i])
    ensures Groups(font, fontSize, fill, text[..i + 1]) == Groups(font, fontSize, fill, text[..i])
    ensures SumAdvances(font, fontSize, text[..i + 1]) == SumAdvances(font, fontSize, text[..i])
  {
    assert text[..i + 1][..i] == text[..i];
  }

  /**
   * The rendered positions are exactly the indices of the characters whose
   * glyph name is in the glyph set, in increasing order.
   */
  lemma {:induction false} PositionsExact(font: Font, text: string)
    ensures forall k :: 0 <= k < |Positions(font, text)| ==>
              Positions(font, text)[k] < |text| && Rendered(font, text[Positions(font, text)[k]])
    ensures forall i :: 0 <= i < |text| && Rendered(font, text[i]) ==> i in Positions(font, text)
    ensures forall a, b :: 0 <= a < b < |Positions(font, text)| ==> Positions(font, text)[a] < Positions(font, text)[b]
  {
    if text != [] {
      var prefix := text[..|text| - 1];
      PositionsExact(font, prefix);
      assert forall i :: 0 <= i < |prefix| ==> prefix[i] == text[i];
    }
  }

  /** There is one group, and one summed advance, per rendered character. */
  lemma {:induction false} GroupCount(font: Font, fontSize: int, fill: string, text: string)
    requires font.unitsPerEm > 0
    ensures |Groups(font, fontSize, fill, text)| == |Positions(font, text)|
    ensures |EmittedAdvances(font, fontSize, text)| == |Positions(font, text)|
  {
    if text != [] {
      GroupCount(font, fontSize, fill, text[..|text| - 1]);
    }
  }

  /**
   * The k-th group is the group of the k-th rendered character, placed where
   * the cursor stands after every character before it.
   */
  lemma {:induction false} GroupsFollowPositions(font: Font, fontSize: int, fill: string, text: string)
    requires font.unitsPerEm > 0
    ensures |Groups(font, fontSize, fill, text)| == |Positions(font, text)|
    ensures forall k :: 0 <= k < |Groups(font, fontSize, fill, text)| ==>
              && Positions(font, text)[k] < |text|
              && Rendered(font, text[Positions(font, text)[k]])
              && Groups(font, fontSize, fill, text)[k]
                 == CharGroup(font, fontSize, fill, text[Positions(font, text)[k]],
                              SumAdvances(font, fontSize, text[..Positions(font, text)[k]]))
  {
    GroupCount(font, fontSize, fill, text);
    if text != [] {
      var prefix := text[..|text| - 1];
      GroupsFollowPositions(font, fontSize, fill, prefix);
      PositionsExact(font, prefix);
      var gs := Groups(font, fontSize, fill, text);
      var ps := Positions(font, text);
      forall k | 0 <= k < |Groups(font, fontSize, fill, prefix)|
        ensures ps[k] < |text| && Rendered(font, text[ps[k]])
        ensures gs[k] == CharGroup(font, fontSize, fill, text[ps[k]], SumAdvances(font, fontSize, text[..ps[k]]))
      {
        var p := Positions(font, prefix)[k];
        assert ps[k] == p && text[p] == prefix[p];
        assert text[..p] == prefix[..p];
      }
    }
  }

  /**
   * The k-th summed advance is the advance of the k-th rendered character
   * (its width times the scale factor, or `0.6` of the size without a width).
   */
  lemma {:induction false} EmittedAdvancesFollowPositions(font: Font, fontSize: int, text: string)
    requires font.unitsPerEm > 0
    ensures |EmittedAdvances(font, fontSize, text)| == |Positions(font, text)|
    ensures forall k :: 0 <= k < |EmittedAdvances(font, fontSize, text)| ==>
              && Positions(font, text)[k] < |text|
              && Rendered(font, text[Positions(font, text)[k]])
              && EmittedAdvances(font, fontSize, text)[k] == Advance(font, fontSize, text[Positions(font, text)[k]])
  {
    GroupCount(font, fontSize, "", text);
    if text != [] {
      var prefix := text[..|text| - 1];
      EmittedAdvancesFollowPositions(font, fontSize, prefix);
      PositionsExact(font, prefix);
      var ps := Positions(font, text);
      forall k | 0 <= k < |EmittedAdvances(font, fontSize, prefix)|
        ensures ps[k] < |text| && text[ps[k]] == prefix[Positions(font, prefix)[k]]
      {
      }
    }
  }

  /** The final cursor is the sum of the advances of the rendered characters. */
  lemma {:induction false} CursorSumsEmittedAdvances(font: Font, fontSize: int, text: string)
    requires font.unitsPerEm > 0
    ensures SumAdvances(font, fontSize, text) == RealSum(EmittedAdvances(font, fontSize, text))
  {
    if text != [] {
      var prefix := text[..|text| - 1];
      var c := text[|text| - 1];
      CursorSumsEmittedAdvances(font, fontSize, prefix);
      assert SumAdvances(font, fontSize, text) == SumAdvances(font, fontSize, prefix) + Advance(font, fontSize, c);
      if Rendered(font, c) {
        var xs := EmittedAdvances(font, fontSize, prefix);
        var ys := xs + [Advance(font, fontSize, c)];
        assert ys[..|ys| - 1] == xs && ys[|ys| - 1] == Advance(font, fontSize, c);
        assert RealSum(ys) == RealSum(xs) + Advance(font, fontSize, c);
        assert EmittedAdvances(font, fontSize, text) == ys;
      } else {
        assert EmittedAdvances(font, fontSize, text) == EmittedAdvances(font, fontSize, prefix);
        assert Advance(font, fontSize, c) == 0.0;
      }
    }
  }

  /** The x-translate of the k-th group is the sum of the advances of the k rendered characters before it. */
  lemma {:induction false} TranslateIsRunningSum(font: Font, fontSize: int, fill: string, text: string)
    requires font.unitsPerEm > 0
    ensures |Groups(font, fontSize, fill, text)| == |EmittedAdvances(font, fontSize, text)|
    ensures forall k :: 0 <= k < |Groups(font, fontSize, fill, text)| ==>
              Groups(font, fontSize, fill, text)[k].translateX == RealSum(EmittedAdvances(font, fontSize, text)[..k])
  {
    GroupCount(font, fontSize, fill, text);
    if text != [] {
      var prefix := text[..|text| - 1];
      TranslateIsRunningSum(font, fontSize, fill, prefix);
      GroupCount(font, fontSize, fill, prefix);
      var ea := EmittedAdvances(font, fontSize, text);
      var eap := EmittedAdvances(font, fontSize, prefix);
      forall k | 0 <= k < |eap| ensures ea[..k] == eap[..k] {
      }
      if Rendered(font, text[|text| - 1]) {
        CursorSumsEmittedAdvances(font, fontSize, prefix);
        assert ea[..|eap|] == eap;
      }
    }
  }

  /** With non-negative widths and size, no character moves the cursor back. */
  lemma AdvanceNonNegative(font: Font, fontSize: int, c: char)
    requires font.unitsPerEm > 0 && NonNegativeWidths(font) && fontSize >= 0
    ensures Advance(font, fontSize, c) >= 0.0
  {
    if Rendered(font, c) {
      var g := font.glyphSet[GlyphName(font, c)];
      var sf := ScaleFactor(font, fontSize);
      assert sf >= 0.0;
      if g.width.Some? {
        var w := g.width.value as real;
        assert w >= 0.0;
        assert w * sf >= 0.0;
      }
    }
  }

  /** With non-negative widths and size, the cursor after a longer prefix is never behind. */
  lemma {:induction false} CursorNeverDecreases(font: Font, fontSize: int, text: string, i: nat, j: nat)
    requires font.unitsPerEm > 0 && NonNegativeWidths(font) && fontSize >= 0
    requires i <= j <= |text|
    ensures SumAdvances(font, fontSize, text[..i]) <= SumAdvances(font, fontSize, text[..j])
    decreases j - i
  {
    if i < j {
      CursorNeverDecreases(font, fontSize, text, i, j - 1);
      AdvanceNonNegative(font, fontSize, text[j - 1]);
      assert text[..j][..j - 1] == text[..j - 1];
    }
  }

  /** When no character is rendered there are no groups, the cursor stays at 0, and the width falls back. */
  lemma {:induction false} NothingRenderedFallsBack(font: Font, fontSize: int, fill: string, text: string)
    requires font.unitsPerEm > 0
    requires forall i :: 0 <= i < |text| ==> !Rendered(font, text[i])
    ensures Groups(font, fontSize, fill, text) == []
    ensures SumAdvances(font, fontSize, text) == 0.0
    ensures TotalWidth(fontSize, |text|, SumAdvances(font, fontSize, text)) == fontSize as real * |text| as real * 0.6
  {
    if text != [] {
      var prefix := text[..|text| - 1];
      assert forall i :: 0 <= i < |prefix| ==> prefix[i] == text[i];
      NothingRenderedFallsBack(font, fontSize, fill, prefix);
    }
  }

  /**
   * With non-negative widths and size the final cursor is non-negative, the
   * width is the cursor when it is positive, and the width is never negative.
   */
  lemma WidthFromCursor(font: Font, fontSize: int, text: string)
    requires font.unitsPerEm > 0 && NonNegativeWidths(font) && fontSize >= 0
    ensures SumAdvances(font, fontSize, text) >= 0.0
    ensures SumAdvances(font, fontSize, text) > 0.0 ==> TotalWidth(fontSize, |text|, SumAdvances(font, fontSize, text)) == SumAdvances(font, fontSize, text)
    ensures TotalWidth(fontSize, |text|, SumAdvances(font, fontSize, text)) >= 0.0
  {
    CursorNeverDecreases(font, fontSize, text, 0, |text|);
    assert text[..0] == [] && text[..|text|] == text;
    var size := fontSize as real;
    var n := |text| as real;
    assert size * n >= 0.0;
  }

  /** The `svg` root element, which the generator fills in place. */
  class SvgRoot {
    var xmlns: Option<string>
    var groups: seq<Group>
    var viewBox: Option<ViewBox>
    var width: Option<real>
    var height: Option<real>

    /** A fresh `svg` element without attributes or children. */
    constructor ()
      ensures xmlns == None && groups == [] && viewBox == None && width == None && height == None
    {
      xmlns, groups, viewBox, width, height := None, [], None, None, None;
    }

    /** `setAttribute("xmlns", ns)`. */
    method SetNamespace(ns: string)
      modifies this
      ensures xmlns == Some(ns)
      ensures groups == old(groups) && viewBox == old(viewBox) && width == old(width) && height == old(height)
    {
      xmlns := Some(ns);
    }

    /** `appendChild(g)`: the group becomes the last child. */
    method AppendChild(g: Group)
      modifies this
      ensures groups == old(groups) + [g]
      ensures xmlns == old(xmlns) && viewBox == old(viewBox) && width == old(width) && height == old(height)
    {
      groups := groups + [g];
    }

    /** Sets `viewBox` to `0 0 w h`, and `width` and `height`. */
    method SetDimensions(w: real, h: real)
      modifies this
      ensures viewBox == Some(ViewBox(0.0, 0.0, w, h)) && width == Some(w) && height == Some(h)
      ensures xmlns == old(xmlns) && groups == old(groups)
    {
      viewBox, width, height := Some(ViewBox(0.0, 0.0, w, h)), Some(w), Some(h);
    }

    predicate Complete()
      reads this
    {
      xmlns.Some? && viewBox.Some? && width.Some? && height.Some?
    }

    /** The element as a document value, once every attribute is set. */
    function ToDocument(): SvgDocument
      reads this
      requires Complete()
    {
      SvgDocument(xmlns.value, groups, viewBox.value, width.value, height.value)
    }
  }

  /**
   * One pass of the character loop of `generate_svg`: look up the glyph, and
   * when it is in the glyph set append its group at cursor `x` and return the
   * cursor moved by its width (or by `0.6 * size` when the glyph has none).
   */
  method EmitCharacter(root: SvgRoot, font: Font, fontSize: int, fill: string, c: char, x: real)
    returns (next: real)
    requires font.unitsPerEm > 0
    modifies root
    ensures Rendered(font, c) ==> root.groups == old(root.groups) + [CharGroup(font, fontSize, fill, c, x)]
    ensures !Rendered(font, c) ==> root.groups == old(root.groups)
    ensures next == x + Advance(font, fontSize, c)
    ensures root.xmlns == old(root.xmlns) && root.viewBox == old(root.viewBox)
    ensures root.width == old(root.width) && root.height == old(root.height)
  {
    var scaleFactor := ScaleFactor(font, fontSize);
    var glyphName := if c in font.cmap then font.cmap[c] else NotDef;
    assert glyphName == GlyphName(font, c);
    next := x;
    if glyphName in font.glyphSet {
      var glyph := font.glyphSet[glyphName];
      var path := PathElement(glyph.pathData, fill, scaleFactor, -scaleFactor);
      var group := Group(x, MaxHeight(fontSize) * 0.8, [path]);
      assert group == CharGroup(font, fontSize, fill, c, x);
      root.AppendChild(group);
      match glyph.width {
        case Some(w) => next := x + w as real * scaleFactor;
        case None => next := x + fontSize as real * 0.6;
      }
    }
  }

  /**
   * The character loop of `generate_svg`: walk the text once, emitting a group
   * for every rendered character, and return where the cursor ended.
   */
  method EmitText(root: SvgRoot, font: Font, text: string, fontSize: int, fill: string)
    returns (cursor: real)
    requires font.unitsPerEm > 0 && root.groups == []
    modifies root
    ensures root.groups == Groups(font, fontSize, fill, text)
    ensures cursor == SumAdvances(font, fontSize, text)
    ensures root.xmlns == old(root.xmlns) && root.viewBox == old(root.viewBox)
    ensures root.width == old(root.width) && root.height == old(root.height)
  {
    cursor := 0.0;
    for i := 0 to |text|
      invariant root.xmlns == old(root.xmlns) && root.viewBox == old(root.viewBox)
      invariant root.width == old(root.width) && root.height == old(root.height)
      invariant root.groups == Groups(font, fontSize, fill, text[..i])
      invariant cursor == SumAdvances(font, fontSize, text[..i])
    {
      if Rendered(font, text[i]) {
        RenderedStep(font, fontSize, fill, text, i);
      } else {
        SkippedStep(font, fontSize, fill, text, i);
      }
      cursor := EmitCharacter(root, font, fontSize, fill, text[i], cursor);
    }
    assert text[..|text|] == text;
  }

  /**
   * The body of `generate_svg` once the font is loaded: emit the groups, then
   * set the dimensions from where the cursor ended, falling back to
   * `0.6 * size` per character when it stayed at 0.
   */
  method LayOutText(root: SvgRoot, font: Font, text: string, fontSize: int, fill: string)
    requires font.unitsPerEm > 0 && root.groups == []
    modifies root
    ensures root.xmlns == old(root.xmlns)
    ensures root.groups == Groups(font, fontSize, fill, text)
    ensures var width := TotalWidth(fontSize, |text|, SumAdvances(font, fontSize, text));
            && root.width == Some(width)
            && root.height == Some(fontSize as real * 1.2)
            && root.viewBox == Some(ViewBox(0.0, 0.0, width, fontSize as real * 1.2))
  {
    var currentX := EmitText(root, font, text, fontSize, fill);
    var totalWidth := if currentX > 0.0 then currentX else fontSize as real * |text| as real * 0.6;
    assert totalWidth == TotalWidth(fontSize, |text|, currentX);
    root.SetDimensions(totalWidth, MaxHeight(fontSize));
  }

  /**
   * `generate_svg`: a new `svg` element with the SVG namespace; the font is
   * loaded before any character is looked at, and a failure to load it ends
   * the call.
   */
  method GenerateSvg(text: string, family: string, fontSize: int, fill: string, files: FontFiles)
    returns (r: Result<SvgDocument, SvgError>)
    ensures LoadFont(family, files).Failure? ==> r == Failure(LoadFont(family, files).error)
    ensures r.Success? <==> LoadFont(family, files).Success? && LoadFont(family, files).value.unitsPerEm > 0
    ensures r.Failure? && LoadFont(family, files).Success? ==> r.error == ZeroUnitsPerEm
    ensures r.Success? ==>
      var font := LoadFont(family, files).value;
      var width := TotalWidth(fontSize, |text|, SumAdvances(font, fontSize, text));
      && r.value.xmlns == SvgNamespace
      && r.value.groups == Groups(font, fontSize, fill, text)
      && r.value.width == width
      && r.value.height == fontSize as real * 1.2
      && r.value.viewBox == ViewBox(0.0, 0.0, width, fontSize as real * 1.2)
  {
    var root := new SvgRoot();
    root.SetNamespace(SvgNamespace);

    var loaded := LoadFont(family, files);
    if loaded.Failure? {
      return Failure(loaded.error);
    }
    var font := loaded.value;
    if font.unitsPerEm == 0 {
      return Failure(ZeroUnitsPerEm);
    }
    LayOutText(root, font, text, fontSize, fill);
    r := Success(root.ToDocument());
  }
}
