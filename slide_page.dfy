/** The page the slideshow writes for one image: the orientation rule and
    `create_html`. The style sheet is kept as structured rules whose rendering
    is the exact text the script emits, so that what the browser ends up
    applying (the last declaration of each property wins) can be stated. */
module SlidePage {
  import opened Strings
  import opened ImageNames
  import opened Optional

  datatype Orientation = Landscape | Portrait

  /** `get_image_orientation`: landscape exactly when wider than tall, so a
      square image is portrait. */
  function OrientationOf(size: Dims): (o: Orientation)
    ensures o == Landscape <==> size.width > size.height
  {
    if size.width > size.height then Landscape else Portrait
  }

  // ---------------------------------------------------------------------------
  // Style sheet: declarations, rules and the blocks the script appends

  datatype Decl = Decl(property: string, value: string)
  datatype Rule = Rule(selector: string, decls: seq<Decl>)
  /** One triple-quoted literal: a newline, its rules, then the indentation
      that precedes the closing quotes. */
  datatype Block = Block(rules: seq<Rule>, trailer: string)

  const BodyDecls: seq<Decl> := [
    Decl("margin", "0"), Decl("padding", "0"), Decl("display", "flex"),
    Decl("justify-content", "center"), Decl("align-items", "center"),
    Decl("background-color", "black"), Decl("height", "100vh"),
    Decl("width", "100vw"), Decl("overflow", "hidden") ]

  const ContainerDecls: seq<Decl> := [
    Decl("display", "flex"), Decl("justify-content", "center"),
    Decl("align-items", "center"), Decl("width", "98vw"),
    Decl("height", "98vh"), Decl("background-color", "black") ]

  const ImgDecls: seq<Decl> := [
    Decl("object-fit", "contain"), Decl("max-width", "100%"), Decl("max-height", "100%") ]

  const BaseBlock: Block :=
    Block([ Rule("body", BodyDecls), Rule(".image-container", ContainerDecls), Rule("img", ImgDecls) ], "    ")

  const LandscapeBlock: Block :=
    Block([ Rule("img", [ Decl("width", "100%"), Decl("height", "auto") ]) ], "        ")

  const PortraitBlock: Block :=
    Block([ Rule("img", [ Decl("width", "auto"), Decl("height", "100%") ]) ], "        ")

  const WindowedBlock: Block := Block(
    [ Rule("body", [ Decl("background-color", "#333") ]),
      Rule(".image-container", [ Decl("width", "78vw"), Decl("height", "78vh"),
                                 Decl("margin", "11vh auto") ]) ],
    "        ")

  function RenderDecls(ds: seq<Decl>): string {
    if ds == [] then ""
    else "            " + ds[0].property + ": " + ds[0].value + ";\n" + RenderDecls(ds[1..])
  }

  function RenderRules(rs: seq<Rule>): string {
    if rs == [] then ""
    else "        " + rs[0].selector + " {\n" + RenderDecls(rs[0].decls) + "        }\n" + RenderRules(rs[1..])
  }

  function RenderBlock(b: Block): string {
    "\n" + RenderRules(b.rules) + b.trailer
  }

  function OrientationBlock(o: Orientation): Block {
    if o == Landscape then LandscapeBlock else PortraitBlock
  }

  /** The blocks `create_html` appends to its style text, in order: the base
      block, then the orientation block, then the windowed block unless full
      screen. */
  function StyleBlocks(o: Orientation, fullscreen: bool): seq<Block> {
    [BaseBlock, OrientationBlock(o)] + (if fullscreen then [] else [WindowedBlock])
  }

  /** The text of a sequence of blocks, each appended after the previous one. */
  function RenderBlocks(bs: seq<Block>): string {
    if bs == [] then "" else RenderBlock(bs[0]) + RenderBlocks(bs[1..])
  }

  /** The style text `create_html` accumulates with `+=`. */
  function Style(o: Orientation, fullscreen: bool): string {
    RenderBlocks(StyleBlocks(o, fullscreen))
  }

  /** All rules of a block sequence, in source order. */
  function AllRules(bs: seq<Block>): seq<Rule> {
    if bs == [] then [] else bs[0].rules + AllRules(bs[1..])
  }

  // ---------------------------------------------------------------------------
  // The document

  const PageOpen: string := "\n    <html>\n    <head>\n        <style>"
  const PageMid: string := MidHead + MidDiv
  const MidHead: string := "</style>\n    </head>\n    <body>\n        "
  const MidDiv: string := "<div class=\"image-container\">\n            "
  const ImgOpen: string := "<img src=\"file://"
  const PageClose: string := CloseImg + CloseTags
  const CloseImg: string := "\" alt=\"Slideshow Image\">\n        "
  const CloseTags: string := "</div>\n    </body>\n    </html>\n    "

  /** `create_html(image_path, fullscreen)`, given the size that opening the
      image reports. */
  function CreateHtml(imagePath: string, size: Dims, fullscreen: bool): string {
    Page(Style(OrientationOf(size), fullscreen), imagePath)
  }

  /** The page around a style sheet and an image path. */
  function Page(style: string, imagePath: string): string {
    PageOpen + style + PageMid + ImgOpen + imagePath + PageClose
  }

  // ---------------------------------------------------------------------------
  // What the browser applies: for a selector, the last declaration of a
  // property wins (all selectors here are single type or class selectors, so
  // none is more specific than another)

  function LastDecl(ds: seq<Decl>, property: string): Option<string> {
    if ds == [] then None
    else if ds[|ds| - 1].property == property then Some(ds[|ds| - 1].value)
    else LastDecl(ds[..|ds| - 1], property)
  }

  /** The value `property` takes for elements matched by `selector`. */
  function Effective(rs: seq<Rule>, selector: string, property: string): Option<string> {
    if rs == [] then None
    else
      var last := rs[|rs| - 1];
      var v := if last.selector == selector then LastDecl(last.decls, property) else None;
      if v.Some? then v else Effective(rs[..|rs| - 1], selector, property)
  }

  /** A later rule list overrides an earlier one wherever it says anything. */
  lemma {:induction false} EffectiveAppend(a: seq<Rule>, b: seq<Rule>, selector: string, property: string)
    ensures Effective(a + b, selector, property) ==
      if Effective(b, selector, property).Some? then Effective(b, selector, property) else Effective(a, selector, property)
    decreases |b|
  {
    if b == [] {
      assert a + b == a;
    } else {
      assert (a + b)[..|a + b| - 1] == a + b[..|b| - 1];
      EffectiveAppend(a, b[..|b| - 1], selector, property);
    }
  }

  lemma StyleRules(o: Orientation, fullscreen: bool)
    ensures AllRules(StyleBlocks(o, fullscreen)) ==
      BaseBlock.rules + OrientationBlock(o).rules + (if fullscreen then [] else WindowedBlock.rules)
  {
    var bs := StyleBlocks(o, fullscreen);
    var rest := if fullscreen then [] else [WindowedBlock];
    assert bs[1..] == [OrientationBlock(o)] + rest;
    assert bs[1..][1..] == rest;
    assert AllRules(rest) == if fullscreen then [] else WindowedBlock.rules by {
      if !fullscreen {
        assert rest[1..] == [];
      }
    }
  }

  /** The style text is the base block, then the one block of the image's
      orientation, then the windowed override exactly when not full screen. */
  lemma StyleText(o: Orientation, fullscreen: bool)
    ensures Style(o, fullscreen) == RenderBlock(BaseBlock) + RenderBlock(OrientationBlock(o)) +
      (if fullscreen then "" else RenderBlock(WindowedBlock))
  {
    RenderOptionalThird(BaseBlock, OrientationBlock(o), WindowedBlock, fullscreen);
  }

  lemma RenderOptionalThird(a: Block, b: Block, c: Block, skip: bool)
    ensures RenderBlocks([a, b] + (if skip then [] else [c])) ==
      RenderBlock(a) + RenderBlock(b) + (if skip then "" else RenderBlock(c))
  {
    if skip {
      assert [a, b] + [] == [a, b];
      RenderTwo(a, b);
      assert RenderBlock(a) + RenderBlock(b) + "" == RenderBlock(a) + RenderBlock(b);
    } else {
      assert [a, b] + [c] == [a, b, c];
      RenderThree(a, b, c);
    }
  }

  /** Blocks render one after the other. */
  lemma RenderTwo(a: Block, b: Block)
    ensures RenderBlocks([a, b]) == RenderBlock(a) + RenderBlock(b)
  {
    RenderBlocksOne(b);
    assert [a, b] == [a] + [b];
    RenderBlocksCons(a, [b]);
  }

  lemma RenderThree(a: Block, b: Block, c: Block)
    ensures RenderBlocks([a, b, c]) == RenderBlock(a) + RenderBlock(b) + RenderBlock(c)
  {
    var ra, rb, rc := RenderBlock(a), RenderBlock(b), RenderBlock(c);
    RenderTwo(b, c);
    assert [a, b, c] == [a] + [b, c];
    RenderBlocksCons(a, [b, c]);
    assert ra + (rb + rc) == ra + rb + rc;
  }

  lemma RenderBlocksCons(b: Block, bs: seq<Block>)
    ensures RenderBlocks([b] + bs) == RenderBlock(b) + RenderBlocks(bs)
  {
    assert ([b] + bs)[1..] == bs;
  }

  lemma RenderBlocksOne(b: Block)
    ensures RenderBlocks([b]) == RenderBlock(b)
  {
    var r := RenderBlock(b);
    assert [b][1..] == [];
    assert r + "" == r;
  }

  /** The value of the last declaration of `property` in `ds`, found at `k`. */
  lemma {:induction false} LastDeclAt(ds: seq<Decl>, property: string, k: nat)
    requires k < |ds| && ds[k].property == property
    requires forall j :: k < j < |ds| ==> ds[j].property != property
    ensures LastDecl(ds, property) == Some(ds[k].value)
    decreases |ds|
  {
    if k < |ds| - 1 {
      LastDeclAt(ds[..|ds| - 1], property, k);
    }
  }

  lemma {:induction false} LastDeclAbsent(ds: seq<Decl>, property: string)
    requires forall j :: 0 <= j < |ds| ==> ds[j].property != property
    ensures LastDecl(ds, property) == None
    decreases |ds|
  {
    if ds != [] {
      LastDeclAbsent(ds[..|ds| - 1], property);
    }
  }

  /** The rule at `k` decides `property` for `selector` when no later rule
      for that selector declares it. */
  lemma {:induction false} EffectiveAt(rs: seq<Rule>, selector: string, property: string, k: nat)
    requires k < |rs| && rs[k].selector == selector && LastDecl(rs[k].decls, property).Some?
    requires forall j :: k < j < |rs| ==> rs[j].selector != selector || LastDecl(rs[j].decls, property) == None
    ensures Effective(rs, selector, property) == LastDecl(rs[k].decls, property)
    decreases |rs|
  {
    if k < |rs| - 1 {
      EffectiveAt(rs[..|rs| - 1], selector, property, k);
    }
  }

  lemma {:induction false} EffectiveAbsent(rs: seq<Rule>, selector: string, property: string)
    requires forall j :: 0 <= j < |rs| ==> rs[j].selector != selector || LastDecl(rs[j].decls, property) == None
    ensures Effective(rs, selector, property) == None
    decreases |rs|
  {
    if rs != [] {
      EffectiveAbsent(rs[..|rs| - 1], selector, property);
    }
  }

  /** A landscape image fills the width and a portrait (or square) one the
      height; in both cases it is scaled to fit and never overflows. */
  lemma ImageFit(size: Dims, fullscreen: bool)
    ensures var rs := AllRules(StyleBlocks(OrientationOf(size), fullscreen));
      && Effective(rs, "img", "width") == Some(if size.width > size.height then "100%" else "auto")
      && Effective(rs, "img", "height") == Some(if size.width > size.height then "auto" else "100%")
      && Effective(rs, "img", "object-fit") == Some("contain")
      && Effective(rs, "img", "max-width") == Some("100%")
      && Effective(rs, "img", "max-height") == Some("100%")
  {
    var o := OrientationOf(size);
    StyleRules(o, fullscreen);
    var front := BaseBlock.rules + OrientationBlock(o).rules;
    var tail := if fullscreen then [] else WindowedBlock.rules;
    ImgRules(o);
    WindowedLeavesImg();
    EffectiveAppend(front, tail, "img", "width");
    EffectiveAppend(front, tail, "img", "height");
    EffectiveAppend(front, tail, "img", "object-fit");
    EffectiveAppend(front, tail, "img", "max-width");
    EffectiveAppend(front, tail, "img", "max-height");
    EffectiveAppend(BaseBlock.rules, OrientationBlock(o).rules, "img", "width");
    EffectiveAppend(BaseBlock.rules, OrientationBlock(o).rules, "img", "height");
    EffectiveAppend(BaseBlock.rules, OrientationBlock(o).rules, "img", "object-fit");
    EffectiveAppend(BaseBlock.rules, OrientationBlock(o).rules, "img", "max-width");
    EffectiveAppend(BaseBlock.rules, OrientationBlock(o).rules, "img", "max-height");
  }

  /** What the base block and the orientation blocks say about `img`. */
  lemma ImgRules(o: Orientation)
    ensures Effective(BaseBlock.rules, "img", "object-fit") == Some("contain")
    ensures Effective(BaseBlock.rules, "img", "max-width") == Some("100%")
    ensures Effective(BaseBlock.rules, "img", "max-height") == Some("100%")
    ensures Effective(OrientationBlock(o).rules, "img", "width") == Some(if o == Landscape then "100%" else "auto")
    ensures Effective(OrientationBlock(o).rules, "img", "height") == Some(if o == Landscape then "auto" else "100%")
    ensures Effective(OrientationBlock(o).rules, "img", "object-fit") == None
    ensures Effective(OrientationBlock(o).rules, "img", "max-width") == None
    ensures Effective(OrientationBlock(o).rules, "img", "max-height") == None
  {
    var img := BaseBlock.rules[2].decls;
    LastDeclAt(img, "object-fit", 0);
    LastDeclAt(img, "max-width", 1);
    LastDeclAt(img, "max-height", 2);
    EffectiveAt(BaseBlock.rules, "img", "object-fit", 2);
    EffectiveAt(BaseBlock.rules, "img", "max-width", 2);
    EffectiveAt(BaseBlock.rules, "img", "max-height", 2);
    var rs := OrientationBlock(o).rules;
    var ds := rs[0].decls;
    LastDeclAt(ds, "width", 0);
    LastDeclAt(ds, "height", 1);
    EffectiveAt(rs, "img", "width", 0);
    EffectiveAt(rs, "img", "height", 0);
    LastDeclAbsent(ds, "object-fit");
    LastDeclAbsent(ds, "max-width");
    LastDeclAbsent(ds, "max-height");
    EffectiveAbsent(rs, "img", "object-fit");
    EffectiveAbsent(rs, "img", "max-width");
    EffectiveAbsent(rs, "img", "max-height");
  }

  lemma WindowedLeavesImg()
    ensures forall p :: Effective(WindowedBlock.rules, "img", p) == None
  {
    forall p ensures Effective(WindowedBlock.rules, "img", p) == None {
      EffectiveAbsent(WindowedBlock.rules, "img", p);
    }
  }

  /** Full screen keeps the black full-bleed layout (container 98vw by 98vh, no
      margin); windowed mode turns the backdrop `#333` and shrinks the
      container to 78vw by 78vh with an 11vh margin. */
  lemma Backdrop(o: Orientation, fullscreen: bool)
    ensures var rs := AllRules(StyleBlocks(o, fullscreen));
      && Effective(rs, "body", "background-color") == Some(if fullscreen then "black" else "#333")
      && Effective(rs, ".image-container", "width") == Some(if fullscreen then "98vw" else "78vw")
      && Effective(rs, ".image-container", "height") == Some(if fullscreen then "98vh" else "78vh")
      && Effective(rs, ".image-container", "margin") == (if fullscreen then None else Some("11vh auto"))
  {
    StyleRules(o, fullscreen);
    var front := BaseBlock.rules + OrientationBlock(o).rules;
    var tail := if fullscreen then [] else WindowedBlock.rules;
    BaseLayout();
    WindowedLayout();
    OrientationLeavesLayout(o);
    EffectiveAppend(front, tail, "body", "background-color");
    EffectiveAppend(front, tail, ".image-container", "width");
    EffectiveAppend(front, tail, ".image-container", "height");
    EffectiveAppend(front, tail, ".image-container", "margin");
    EffectiveAppend(BaseBlock.rules, OrientationBlock(o).rules, "body", "background-color");
    EffectiveAppend(BaseBlock.rules, OrientationBlock(o).rules, ".image-container", "width");
    EffectiveAppend(BaseBlock.rules, OrientationBlock(o).rules, ".image-container", "height");
    EffectiveAppend(BaseBlock.rules, OrientationBlock(o).rules, ".image-container", "margin");
  }

  lemma OrientationLeavesLayout(o: Orientation)
    ensures forall p :: Effective(OrientationBlock(o).rules, "body", p) == None
    ensures forall p :: Effective(OrientationBlock(o).rules, ".image-container", p) == None
  {
    forall p ensures Effective(OrientationBlock(o).rules, "body", p) == None {
      EffectiveAbsent(OrientationBlock(o).rules, "body", p);
    }
    forall p ensures Effective(OrientationBlock(o).rules, ".image-container", p) == None {
      EffectiveAbsent(OrientationBlock(o).rules, ".image-container", p);
    }
  }

  lemma BaseLayout()
    ensures Effective(BaseBlock.rules, "body", "background-color") == Some("black")
    ensures Effective(BaseBlock.rules, ".image-container", "width") == Some("98vw")
    ensures Effective(BaseBlock.rules, ".image-container", "height") == Some("98vh")
    ensures Effective(BaseBlock.rules, ".image-container", "margin") == None
  {
    BaseBackground();
    BaseContainerSize();
    BaseContainerMargin();
  }

  lemma BaseBackground()
    ensures Effective(BaseBlock.rules, "body", "background-color") == Some("black")
  {
    var rs := BaseBlock.rules;
    LastDeclAt(BodyDecls, "background-color", 5);
    LastDeclAbsent(ImgDecls, "background-color");
    EffectiveAt(rs, "body", "background-color", 0);
  }

  lemma BaseContainerSize()
    ensures Effective(BaseBlock.rules, ".image-container", "width") == Some("98vw")
    ensures Effective(BaseBlock.rules, ".image-container", "height") == Some("98vh")
  {
    var rs := BaseBlock.rules;
    LastDeclAt(ContainerDecls, "width", 3);
    LastDeclAt(ContainerDecls, "height", 4);
    EffectiveAt(rs, ".image-container", "width", 1);
    EffectiveAt(rs, ".image-container", "height", 1);
  }

  lemma BaseContainerMargin()
    ensures Effective(BaseBlock.rules, ".image-container", "margin") == None
  {
    LastDeclAbsent(ContainerDecls, "margin");
    EffectiveAbsent(BaseBlock.rules, ".image-container", "margin");
  }

  lemma WindowedLayout()
    ensures Effective(WindowedBlock.rules, "body", "background-color") == Some("#333")
    ensures Effective(WindowedBlock.rules, ".image-container", "width") == Some("78vw")
    ensures Effective(WindowedBlock.rules, ".image-container", "height") == Some("78vh")
    ensures Effective(WindowedBlock.rules, ".image-container", "margin") == Some("11vh auto")
  {
    var rs := WindowedBlock.rules;
    LastDeclAt(rs[0].decls, "background-color", 0);
    EffectiveAt(rs, "body", "background-color", 0);
    LastDeclAt(rs[1].decls, "width", 0);
    LastDeclAt(rs[1].decls, "height", 1);
    LastDeclAt(rs[1].decls, "margin", 2);
    EffectiveAt(rs, ".image-container", "width", 1);
    EffectiveAt(rs, ".image-container", "height", 1);
    EffectiveAt(rs, ".image-container", "margin", 1);
  }

  // ---------------------------------------------------------------------------
  // The one image tag of the document

  /** Every `<` of `s` is followed, inside `s`, by something other than `i`. */
  predicate NoImgTagStart(s: string) {
    forall i :: 0 <= i < |s| && s[i] == '<' ==> i + 1 < |s| && s[i + 1] != 'i'
  }

  lemma NoImgTagStartAppend(a: string, b: string)
    requires NoImgTagStart(a) && NoImgTagStart(b)
    ensures NoImgTagStart(a + b)
  {
    forall i | 0 <= i < |a + b| && (a + b)[i] == '<' ensures i + 1 < |a + b| && (a + b)[i + 1] != 'i' {
      if i < |a| {
        assert a[i] == '<';
      } else {
        assert b[i - |a|] == '<';
      }
    }
  }

  lemma TemplateTags()
    ensures NoImgTagStart(PageOpen)
    ensures NoImgTagStart(PageMid)
    ensures NoImgTagStart(PageClose)
    ensures forall i :: 0 < i < |ImgOpen| ==> ImgOpen[i] != '<'
  {
    OpeningTags();
    MidHeadTags();
    MidDivTags();
    CloseImgTags();
    CloseTagsTags();
    ImgOpenTail();
    NoImgTagStartAppend(MidHead, MidDiv);
    NoImgTagStartAppend(CloseImg, CloseTags);
  }

  lemma OpeningTags() ensures NoImgTagStart(PageOpen) {}
  lemma MidHeadTags() ensures NoImgTagStart(MidHead) {}
  lemma MidDivTags() ensures NoImgTagStart(MidDiv) {}
  lemma CloseImgTags() ensures NoImgTagStart(CloseImg) {}
  lemma CloseTagsTags() ensures NoImgTagStart(CloseTags) {}
  lemma ImgOpenTail() ensures forall i :: 0 < i < |ImgOpen| ==> ImgOpen[i] != '<' {}

  /** `s` holds no `<`. */
  predicate NoLt(s: string) {
    forall i :: 0 <= i < |s| ==> s[i] != '<'
  }

  predicate DeclsNoLt(ds: seq<Decl>) {
    forall k :: 0 <= k < |ds| ==> NoLt(ds[k].property) && NoLt(ds[k].value)
  }

  predicate RulesNoLt(rs: seq<Rule>) {
    forall j :: 0 <= j < |rs| ==> NoLt(rs[j].selector) && DeclsNoLt(rs[j].decls)
  }

  lemma {:induction false} RenderDeclsNoLt(ds: seq<Decl>)
    requires DeclsNoLt(ds)
    ensures NoLt(RenderDecls(ds))
  {
    if ds != [] {
      assert NoLt("            ") && NoLt(": ") && NoLt(";\n");
      RenderDeclsNoLt(ds[1..]);
    }
  }

  lemma {:induction false} RenderRulesNoLt(rs: seq<Rule>)
    requires RulesNoLt(rs)
    ensures NoLt(RenderRules(rs))
  {
    if rs != [] {
      assert NoLt("        ") && NoLt(" {\n") && NoLt("        }\n");
      RenderDeclsNoLt(rs[0].decls);
      RenderRulesNoLt(rs[1..]);
    }
  }

  // The words the style blocks are made of, a few at a time.

  lemma BodyWordsNoLt()
    ensures NoLt("body") && NoLt("margin") && NoLt("0") && NoLt("padding") && NoLt("display")
    ensures NoLt("flex") && NoLt("overflow") && NoLt("hidden")
  {
  }

  lemma AlignWordsNoLt()
    ensures NoLt("justify-content") && NoLt("center") && NoLt("align-items")
    ensures NoLt("background-color") && NoLt("black")
  {
  }

  lemma SizeWordsNoLt()
    ensures NoLt("height") && NoLt("100vh") && NoLt("width") && NoLt("100vw")
    ensures NoLt("98vw") && NoLt("98vh") && NoLt("auto")
  {
  }

  lemma ImgWordsNoLt()
    ensures NoLt("img") && NoLt("object-fit") && NoLt("contain") && NoLt("max-width")
    ensures NoLt("100%") && NoLt("max-height")
  {
  }

  lemma WindowedWordsNoLt()
    ensures NoLt(".image-container") && NoLt("#333") && NoLt("78vw") && NoLt("78vh") && NoLt("11vh auto")
    ensures NoLt("    ") && NoLt("        ")
  {
  }

  lemma BaseBodyNoLt() ensures DeclsNoLt(BodyDecls) {
    BodyWordsNoLt();
    AlignWordsNoLt();
    SizeWordsNoLt();
  }

  lemma BaseContainerNoLt() ensures DeclsNoLt(ContainerDecls) {
    BodyWordsNoLt();
    AlignWordsNoLt();
    SizeWordsNoLt();
  }

  lemma BaseImgNoLt() ensures DeclsNoLt(ImgDecls) {
    ImgWordsNoLt();
  }

  lemma BaseNoLt()
    ensures RulesNoLt(BaseBlock.rules) && NoLt(BaseBlock.trailer)
  {
    BaseBodyNoLt();
    BaseContainerNoLt();
    BaseImgNoLt();
    BodyWordsNoLt();
    ImgWordsNoLt();
    WindowedWordsNoLt();
  }

  lemma OrientationNoLt(o: Orientation)
    ensures RulesNoLt(OrientationBlock(o).rules) && NoLt(OrientationBlock(o).trailer)
  {
    SizeWordsNoLt();
    ImgWordsNoLt();
    WindowedWordsNoLt();
    assert DeclsNoLt(OrientationBlock(o).rules[0].decls);
  }

  lemma WindowedNoLt()
    ensures RulesNoLt(WindowedBlock.rules) && NoLt(WindowedBlock.trailer)
  {
    BodyWordsNoLt();
    AlignWordsNoLt();
    SizeWordsNoLt();
    WindowedWordsNoLt();
    assert DeclsNoLt(WindowedBlock.rules[0].decls);
    assert DeclsNoLt(WindowedBlock.rules[1].decls);
  }

  lemma RenderBlockNoLt(b: Block)
    requires RulesNoLt(b.rules) && NoLt(b.trailer)
    ensures NoLt(RenderBlock(b))
  {
    RenderRulesNoLt(b.rules);
  }

  lemma NoLtAppend(a: string, b: string)
    requires NoLt(a) && NoLt(b)
    ensures NoLt(a + b)
  {
  }

  lemma {:induction false} RenderBlocksNoLt(bs: seq<Block>)
    requires forall k :: 0 <= k < |bs| ==> RulesNoLt(bs[k].rules) && NoLt(bs[k].trailer)
    ensures NoLt(RenderBlocks(bs))
  {
    if bs != [] {
      RenderBlockNoLt(bs[0]);
      RenderBlocksNoLt(bs[1..]);
      NoLtAppend(RenderBlock(bs[0]), RenderBlocks(bs[1..]));
    }
  }

  lemma StyleHasNoTag(o: Orientation, fullscreen: bool)
    ensures NoLt(Style(o, fullscreen))
  {
    BaseNoLt();
    OrientationNoLt(o);
    WindowedNoLt();
    var bs := StyleBlocks(o, fullscreen);
    assert bs[0] == BaseBlock && bs[1] == OrientationBlock(o);
    assert |bs| == 3 ==> bs[2] == WindowedBlock;
    RenderBlocksNoLt(bs);
  }

  lemma NoLtNoTag(s: string)
    requires NoLt(s)
    ensures NoImgTagStart(s)
  {
  }

  /** Between two tag-free stretches, the only `<img` is the one `ImgOpen` starts. */
  lemma {:induction false} TagBetween(left: string, imagePath: string, right: string)
    requires NoImgTagStart(left) && NoLt(imagePath) && NoImgTagStart(right)
    requires forall i :: 0 < i < |ImgOpen| ==> ImgOpen[i] != '<'
    ensures forall i :: OccursAt(left + ImgOpen + imagePath + right, "<img", i) <==> i == |left|
  {
    NoImgTagStartAppend(imagePath, right);
    var tail := imagePath + right;
    var html := left + ImgOpen + imagePath + right;
    assert html == left + ImgOpen + tail;
    forall i | OccursAt(html, "<img", i) ensures i == |left| {
      assert html[i..i + 4] == "<img";
      assert html[i] == '<' && html[i + 1] == 'i';
    }
    assert html[|left|..|left| + 4] == "<img";
  }

  /** Right after `left`, the page carries the image's `src` attribute. */
  lemma SourceAttribute(left: string, imagePath: string)
    ensures OccursAt(left + ImgOpen + imagePath + PageClose, "<img src=\"" + ("file://" + imagePath) + "\"", |left|)
  {
    var html := left + ImgOpen + imagePath + PageClose;
    var attr := "<img src=\"" + ("file://" + imagePath) + "\"";
    assert PageClose[0] == '"';
    assert attr == ImgOpen + imagePath + [PageClose[0]];
    assert html[|left|..|left| + |attr|] == attr;
  }

  /** `<img` occurs in `html` at `k` and nowhere else. */
  ghost predicate OnlyTagAt(html: string, k: int) {
    forall i :: OccursAt(html, "<img", i) <==> i == k
  }

  /** The page around any `<`-free style text and image path has its only
      `<img` right after `PageMid`, carrying the path as its source. */
  lemma PageTag(style: string, imagePath: string)
    requires NoLt(style) && NoLt(imagePath)
    ensures var k := |PageOpen| + |style| + |PageMid|;
      OnlyTagAt(Page(style, imagePath), k)
      && OccursAt(Page(style, imagePath), "<img src=\"" + ("file://" + imagePath) + "\"", k)
  {
    var left := PageOpen + style + PageMid;
    TemplateTags();
    NoLtNoTag(style);
    NoImgTagStartAppend(PageOpen, style);
    NoImgTagStartAppend(PageOpen + style, PageMid);
    TagBetween(left, imagePath, PageClose);
    SourceAttribute(left, imagePath);
  }

  /** The page `create_html` builds, `Page(style, imagePath)` for the style
      sheet of the image's orientation and window mode, holds exactly one
      `<img`, right after the style sheet and the opening of the container, and
      its `src` attribute is the image path behind `file://`, provided the path
      itself holds no `<` (the script does not escape it; a `"` in the path
      would also end the attribute early). */
  lemma OneImageTag(imagePath: string, size: Dims, fullscreen: bool, style: string)
    requires '<' !in imagePath
    requires style == Style(OrientationOf(size), fullscreen)
    ensures Page(style, imagePath) == CreateHtml(imagePath, size, fullscreen)
    ensures var k := |PageOpen| + |style| + |PageMid|;
      OnlyTagAt(Page(style, imagePath), k)
      && OccursAt(Page(style, imagePath), "<img src=\"" + ("file://" + imagePath) + "\"", k)
  {
    StyleHasNoTag(OrientationOf(size), fullscreen);
    assert NoLt(imagePath);
    PageTag(style, imagePath);
  }
}
