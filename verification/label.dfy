/**
 The label renderer `generate_label`: a record becomes a fixed canvas
 with five left-aligned white text lines. Pixels are not modelled; a label
 is the list of draw commands, each with an abstract font style.
 */
module Label {
  import opened Wrappers
  import opened Records

  const Width: nat := 580
  const Height: nat := 400
  const Background: string := "#11261A"
  const Ink: string := "white"
  const Padding: int := 20
  const Brand: string := "КультПива"
  const PricePrefix: string := "Цена за 1л: "
  const PriceSuffix: string := " ₽"

  /** The five font roles of a label. */
  datatype Style = Logo | Title | TypeLine | PriceLine | Note

  /** One `draw.text` call. */
  datatype TextItem = TextItem(text: string, x: int, y: int, style: Style, fill: string)

  /** A rendered label: canvas size, background colour and the text drawn on it. */
  datatype Image = Image(width: nat, height: nat, background: string, items: seq<TextItem>)

  /** The price line: the price text between its fixed prefix and the rouble sign. */
  function PriceText(price: string): (r: string)
    ensures |r| == |PricePrefix| + |price| + |PriceSuffix|
    ensures r[..|PricePrefix|] == PricePrefix
    ensures r[|PricePrefix|..|r| - |PriceSuffix|] == price
    ensures r[|r| - |PriceSuffix|..] == PriceSuffix
  {
    var r := PricePrefix + price + PriceSuffix;
    assert r[..|PricePrefix|] == PricePrefix;
    assert r[|PricePrefix|..|r| - |PriceSuffix|] == price;
    r
  }

  /** The texts of a label, top to bottom. */
  function Texts(img: Image): (r: seq<string>)
    ensures |r| == |img.items|
    ensures forall k :: 0 <= k < |r| ==> r[k] == img.items[k].text
  {
    seq(|img.items|, k requires 0 <= k < |img.items| => img.items[k].text)
  }

  /**
   `generate_label`: each line goes through `draw_left`, white at the left
   padding, 50 pixels below the previous one starting at 15.
   */
  function Render(b: Beer): (img: Image)
    ensures img.width == 580 && img.height == 400 && img.background == "#11261A"
    ensures |img.items| == 5
    ensures forall k :: 0 <= k < 5 ==> img.items[k].x == 20 && img.items[k].y == 15 + 50 * k && img.items[k].fill == "white"
    ensures forall k :: 0 <= k < 5 ==> img.items[k].style == [Logo, Title, TypeLine, PriceLine, Note][k]
    ensures Texts(img) == [Brand, b.name, b.kind, PricePrefix + b.price + PriceSuffix, b.greeting]
  {
    Image(Width, Height, Background, [
      TextItem(Brand, Padding, 15, Logo, Ink),
      TextItem(b.name, Padding, 65, Title, Ink),
      TextItem(b.kind, Padding, 115, TypeLine, Ink),
      TextItem(PriceText(b.price), Padding, 165, PriceLine, Ink),
      TextItem(b.greeting, Padding, 215, Note, Ink)])
  }

  /** A label with its texts erased: what the layout fixes independently of the record. */
  function Geometry(img: Image): seq<(int, int, Style, string)>
  {
    seq(|img.items|, k requires 0 <= k < |img.items| => (img.items[k].x, img.items[k].y, img.items[k].style, img.items[k].fill))
  }

  /** Size, background, positions, styles and colours do not depend on the record or the length of its text. */
  lemma GeometryIndependent(b1: Beer, b2: Beer)
    ensures Render(b1).width == Render(b2).width && Render(b1).height == Render(b2).height
    ensures Render(b1).background == Render(b2).background
    ensures Geometry(Render(b1)) == Geometry(Render(b2))
  {
  }

  /** Reads the record back off a label of the rendered shape. */
  function ReadBack(img: Image): (r: Option<Beer>)
    ensures r.Some? ==> |img.items| == 5
  {
    if |img.items| != 5 then None
    else
      var p := img.items[3].text;
      if |p| < |PricePrefix| + |PriceSuffix| || p[..|PricePrefix|] != PricePrefix || p[|p| - |PriceSuffix|..] != PriceSuffix then None
      else Some(Beer(img.items[1].text, img.items[2].text, p[|PricePrefix|..|p| - |PriceSuffix|], img.items[4].text))
  }

  /** A label carries all of its record: reading it back gives the record. */
  lemma ReadBackRender(b: Beer)
    ensures ReadBack(Render(b)) == Some(b)
  {
    var img := Render(b);
    assert img.items[3].text == PriceText(b.price);
  }

  /** Different records give different labels. */
  lemma RenderInjective(b1: Beer, b2: Beer)
    requires Render(b1) == Render(b2)
    ensures b1 == b2
  {
    ReadBackRender(b1);
    ReadBackRender(b2);
  }

  /** A typeface: a TrueType file at a point size, or the library's built-in default. */
  datatype Face = TrueType(file: string, size: nat) | DefaultFace

  /** The resolved face of each style. */
  datatype FontSet = FontSet(logo: Face, title: Face, kind: Face, price: Face, note: Face)
  {
    function Face(st: Style): Face
    {
      match st
      case Logo => logo
      case Title => title
      case TypeLine => kind
      case PriceLine => price
      case Note => note
    }

    predicate AllDefault()
    {
      forall st: Style :: Face(st) == DefaultFace
    }
  }

  const Bold: string := "arialbd.ttf"
  const Regular: string := "arial.ttf"

  /** The preferred faces: bold 28 / bold 26 / regular 22 / bold 22 / regular 18. */
  const Preferred: FontSet := FontSet(TrueType(Bold, 28), TrueType(Bold, 26), TrueType(Regular, 22), TrueType(Bold, 22), TrueType(Regular, 18))

  /**
   The font loading of `generate_label`: `available` is the set of font
   files that load. One failure makes every style use the default face.
   */
  function LoadFonts(available: set<string>): (fs: FontSet)
    ensures fs == Preferred || fs.AllDefault()
    ensures fs == Preferred <==> Bold in available && Regular in available
  {
    if Bold in available && Regular in available then Preferred
    else FontSet(DefaultFace, DefaultFace, DefaultFace, DefaultFace, DefaultFace)
  }

  /**
   The faces the five lines of a label are drawn with: bold 28, bold 26,
   regular 22, bold 22 and regular 18 when both font files load, the
   default face for all of them otherwise.
   */
  lemma RenderFaces(b: Beer, available: set<string>)
    ensures Bold in available && Regular in available ==>
      seq(5, k requires 0 <= k < 5 => LoadFonts(available).Face(Render(b).items[k].style))
        == [TrueType("arialbd.ttf", 28), TrueType("arialbd.ttf", 26), TrueType("arial.ttf", 22),
            TrueType("arialbd.ttf", 22), TrueType("arial.ttf", 18)]
    ensures !(Bold in available && Regular in available) ==>
      forall k :: 0 <= k < 5 ==> LoadFonts(available).Face(Render(b).items[k].style) == DefaultFace
  {
  }

  /**
   `show_label` and `print_label`: with no selection the user is asked to
   pick a record and no label is made; otherwise the selected record's label.
   */
  function LabelFor(selected: Option<Beer>): (r: Option<Image>)
    ensures r.None? <==> selected.None?
    ensures r.Some? ==> r.value == Render(selected.value)
    ensures r.Some? ==> ReadBack(r.value) == selected
  {
    match selected
    case None => None
    case Some(b) =>
      ReadBackRender(b);
      Some(Render(b))
  }
}
