/** `changeBodyBackgroundColor`: string surgery on a note's stored markup that
    gives its `<body>` tag an inline `background-color`. It returns new markup
    and leaves the note untouched.

    Two versions: `RecolorAsWritten` is the code as it stands, whose
    "style already present" branch drops the `style=` attribute name, and
    which the note model uses; `Recolor` is the repaired version, which
    re-emits it. */
module Markup {
  import opened Strings

  const BodyTag := "<body"
  const StyledBodyTag := "<body style="
  const EditableAttr := "contenteditable="

  /** The outcome of the splice: new markup, or the
      `StringIndexOutOfBoundsException` a `substring` call throws. */
  datatype Recolored = Recolored(markup: string) | IndexOutOfBounds

  /** The attribute the "no style yet" branch inserts right after `<body`. */
  function StyleAttr(color: string): string {
    " style='background-color: " + color + ";'"
  }

  /** What the "style already present" branch of the code as written splices
      in: the attribute value without the `style=` name. */
  function BareStyleAttr(color: string): string {
    " 'background-color: " + color + ";'"
  }

  /** What the body tag starts with once it carries the colour. */
  function StyledTag(color: string): string {
    BodyTag + StyleAttr(color)
  }

  /** The code as written. Kotlin's `substring(a, b)` throws unless
      `0 <= a <= b <= length`, and `substring(a)` unless `0 <= a <= length`. */
  function RecolorAsWritten(body: string, color: string): Recolored {
    var beginningStyle := IndexOf(body, StyledBodyTag);
    var endingStyle := IndexOf(body, EditableAttr);
    if beginningStyle == -1 then
      var bodyTag := IndexOf(body, BodyTag);
      if bodyTag + 5 > |body| then IndexOutOfBounds
      else Recolored(body[..bodyTag + 5] + StyleAttr(color) + body[bodyTag + 5..])
    else if endingStyle == -1 then IndexOutOfBounds
    else Recolored(body[..beginningStyle + 5] + BareStyleAttr(color) + body[endingStyle..])
  }

  /** The intended behaviour: the "style already present" branch writes the same
      ` style='background-color: …;' ` attribute the other branch inserts. */
  function Recolor(body: string, color: string): Recolored {
    var beginningStyle := IndexOf(body, StyledBodyTag);
    var endingStyle := IndexOf(body, EditableAttr);
    if beginningStyle == -1 then
      var bodyTag := IndexOf(body, BodyTag);
      if bodyTag + 5 > |body| then IndexOutOfBounds
      else Recolored(body[..bodyTag + 5] + StyleAttr(color) + body[bodyTag + 5..])
    else if endingStyle == -1 then IndexOutOfBounds
    else Recolored(body[..beginningStyle + 5] + StyleAttr(color) + " " + body[endingStyle..])
  }

  /** No style yet, body tag present: the result is the input with exactly the
      style attribute inserted after `<body`; removing it gives the input back,
      and the tag now carries the colour. Both versions agree here. */
  lemma RecolorInsertsStyle(body: string, color: string)
    requires IndexOf(body, StyledBodyTag) == -1 && IndexOf(body, BodyTag) >= 0
    ensures RecolorAsWritten(body, color) == Recolor(body, color)
    ensures Recolor(body, color).Recolored?
    ensures var i, m, n := IndexOf(body, BodyTag), Recolor(body, color).markup, |StyleAttr(color)|;
      && |m| == |body| + n
      && m[..i + 5] + m[i + 5 + n..] == body
      && m[i + 5..i + 5 + n] == StyleAttr(color)
      && OccursAt(m, StyledTag(color), i)
  {
    var i, m, n := IndexOf(body, BodyTag), Recolor(body, color).markup, |StyleAttr(color)|;
    assert OccursAt(body, BodyTag, i);
    assert m == body[..i + 5] + StyleAttr(color) + body[i + 5..];
    assert m[..i + 5] == body[..i + 5];
    assert m[i + 5 + n..] == body[i + 5..];
    assert m[i..i + |StyledTag(color)|] == body[i..i + 5] + StyleAttr(color);
  }

  /** No body tag at all: the source still splices, after the fourth character
      (`indexOf` gives -1 and the cut is at -1 + 5), or throws on shorter input. */
  lemma RecolorWithoutBodyTag(body: string, color: string)
    requires IndexOf(body, BodyTag) == -1
    ensures RecolorAsWritten(body, color) == Recolor(body, color)
    ensures |body| < 4 <==> Recolor(body, color).IndexOutOfBounds?
    ensures |body| >= 4 ==> Recolor(body, color).markup[..4] + Recolor(body, color).markup[4 + |StyleAttr(color)|..] == body
    ensures |body| >= 4 ==> Recolor(body, color).markup[4..4 + |StyleAttr(color)|] == StyleAttr(color)
  {
    IndexOfIsFirst(body, BodyTag);
    IndexOfIsFirst(body, StyledBodyTag);
    if IndexOf(body, StyledBodyTag) != -1 {
      TagPrefix(body, IndexOf(body, StyledBodyTag));
      assert false;
    }
    if |body| >= 4 {
      var m := Recolor(body, color).markup;
      assert m == body[..4] + StyleAttr(color) + body[4..];
      Splice(body[..4], StyleAttr(color), body[4..]);
    }
  }

  /** Style present: the intended version keeps everything before the tag's end
      and everything from `contenteditable=` on, and the tag carries the colour;
      it throws only when `contenteditable=` is missing. */
  lemma RecolorReplacesStyle(body: string, color: string)
    requires IndexOf(body, StyledBodyTag) >= 0
    ensures IndexOf(body, EditableAttr) == -1 <==> Recolor(body, color).IndexOutOfBounds?
    ensures Recolor(body, color).Recolored? ==>
      var j, e, m := IndexOf(body, StyledBodyTag), IndexOf(body, EditableAttr), Recolor(body, color).markup;
      && m[..j + 5] == body[..j + 5]
      && m[|m| - (|body| - e)..] == body[e..]
      && OccursAt(m, StyledTag(color), j)
  {
    var j, e := IndexOf(body, StyledBodyTag), IndexOf(body, EditableAttr);
    IndexOfIsFirst(body, StyledBodyTag);
    TagPrefix(body, j);
    if e != -1 {
      var m := body[..j + 5] + (StyleAttr(color) + " ") + body[e..];
      assert Recolor(body, color) == Recolored(m);
      Splice(body[..j + 5], StyleAttr(color) + " ", body[e..]);
      TagCarriesColor(body[..j + 5], StyleAttr(color) + " ", body[e..], j, color);
    }
  }

  /** The defect in the code as written: once a style is present, the result's
      body tag no longer carries `style=`, so the colour is not a style at all
      (on the skeleton document recoloured once, a second recolouring yields
      `<body 'background-color: …;'contenteditable=…`). */
  lemma RecolorAsWrittenDropsStyle(body: string, color: string)
    requires IndexOf(body, StyledBodyTag) >= 0 && IndexOf(body, EditableAttr) >= 0
    ensures RecolorAsWritten(body, color).Recolored?
    ensures var j, m := IndexOf(body, StyledBodyTag), RecolorAsWritten(body, color).markup;
      && !OccursAt(m, StyledBodyTag, j) && !OccursAt(m, StyledTag(color), j)
      && m[j + 5..j + 5 + |BareStyleAttr(color)|] == BareStyleAttr(color)
      && m[j + 5 + |BareStyleAttr(color)|..] == body[IndexOf(body, EditableAttr)..]
  {
    var j, e := IndexOf(body, StyledBodyTag), IndexOf(body, EditableAttr);
    IndexOfIsFirst(body, StyledBodyTag);
    TagPrefix(body, j);
    var m := body[..j + 5] + BareStyleAttr(color) + body[e..];
    assert RecolorAsWritten(body, color) == Recolored(m);
    Splice(body[..j + 5], BareStyleAttr(color), body[e..]);
    assert m[j + 6] == BareStyleAttr(color)[1];
    NoStyleName(m, j, color);
  }

  /** Everything the code as written promises, branch by branch: with no style
      yet and a body tag, the tag gains the coloured style and nothing else
      changes; with no body tag, it throws exactly on inputs shorter than four
      characters; with a style, it throws exactly when `contenteditable=` is
      missing, and otherwise the tag loses its `style=` name. */
  lemma RecolorAsWrittenOutcome(body: string, color: string)
    ensures var r, i := RecolorAsWritten(body, color), IndexOf(body, BodyTag);
      IndexOf(body, StyledBodyTag) == -1 && i >= 0 ==>
        && r.Recolored?
        && r.markup[..i + 5] + r.markup[i + 5 + |StyleAttr(color)|..] == body
        && OccursAt(r.markup, StyledTag(color), i)
    ensures IndexOf(body, BodyTag) == -1 ==> (RecolorAsWritten(body, color).IndexOutOfBounds? <==> |body| < 4)
    ensures var r, j := RecolorAsWritten(body, color), IndexOf(body, StyledBodyTag);
      j >= 0 ==>
        && (r.IndexOutOfBounds? <==> IndexOf(body, EditableAttr) == -1)
        && (r.Recolored? ==> r.markup[..j + 5] == body[..j + 5] && !OccursAt(r.markup, StyledBodyTag, j))
  {
    var i, j, e := IndexOf(body, BodyTag), IndexOf(body, StyledBodyTag), IndexOf(body, EditableAttr);
    if j == -1 && i >= 0 {
      RecolorInsertsStyle(body, color);
    }
    if i == -1 {
      RecolorWithoutBodyTag(body, color);
    }
    if j >= 0 && e >= 0 {
      RecolorAsWrittenDropsStyle(body, color);
      IndexOfIsFirst(body, StyledBodyTag);
      TagPrefix(body, j);
      Splice(body[..j + 5], BareStyleAttr(color), body[e..]);
    }
  }

  /** Splicing the style attribute in right after a `<body` that ends the
      prefix leaves a tag that carries the colour. */
  lemma TagCarriesColor(a: string, b: string, c: string, j: int, color: string)
    requires 0 <= j && j + 5 == |a| && a[j..] == BodyTag && StyleAttr(color) <= b
    ensures OccursAt(a + b + c, StyledTag(color), j)
  {
    var m, n := a + b + c, |StyleAttr(color)|;
    assert m[j..j + 5] == a[j..];
    assert m[j + 5..j + 5 + n] == b[..n];
    assert m[j..j + 5 + n] == m[j..j + 5] + m[j + 5..j + 5 + n];
  }

  /** A tag whose seventh character is a quote does not start with `<body s`. */
  lemma NoStyleName(m: string, j: int, color: string)
    requires 0 <= j && j + 6 < |m| && m[j + 6] == '\''
    ensures !OccursAt(m, StyledBodyTag, j) && !OccursAt(m, StyledTag(color), j)
  {
    assert StyledTag(color)[6] == 's';
  }

  /** Where `<body style=` occurs, so does `<body`. */
  lemma TagPrefix(body: string, j: int)
    requires OccursAt(body, StyledBodyTag, j)
    ensures OccursAt(body, BodyTag, j) && j + 12 <= |body|
  {
    assert body[j..j + 5] == body[j..j + 12][..5];
  }

  /** The pieces of a three-part splice can be read back off the result. */
  lemma Splice(a: string, b: string, c: string)
    ensures (a + b + c)[..|a|] == a
    ensures (a + b + c)[|a|..|a| + |b|] == b
    ensures (a + b + c)[|a| + |b|..] == c
    ensures forall k :: 0 <= k < |b| ==> (a + b + c)[|a| + k] == b[k]
  {
  }
}
