/**
 * Layers and their constructors (src/layer.h, src/layer.c).
 *
 * Image decoding through gdk-pixbuf is outside the model: the constructor
 * that loads a file receives the decoder's answer as a parameter.
 */
module Layers {
  import opened Wrappers
  import opened Pixels

  /** A named raster layer; `surface` is None for a layer without pixels. */
  datatype Layer = Layer(name: string, surface: Option<Surface>, visible: bool, opacity: real)

  /** A decoded image, already in the byte layout of a surface. */
  datatype Image = Image(width: nat, height: nat, pixels: seq<Pixel>)

  predicate WellFormed(img: Image)
  {
    |img.pixels| == img.width * img.height
  }

  function Blank(n: nat): (s: seq<Pixel>)
    ensures |s| == n && forall i :: 0 <= i < n ==> s[i] == Transparent
  {
    seq(n, _ => Transparent)
  }

  lemma BlankPixels(w: nat, h: nat, x: int, y: int)
    requires 0 <= x < w && 0 <= y < h
    ensures GetPixel(FromPixels(w, h, Blank(w * h)), x, y) == Transparent
  {
    GetFromPixels(w, h, Blank(w * h), x, y);
  }

  /**
   * create_surface: a new w x h ARGB32 surface painted with transparent
   * black under CAIRO_OPERATOR_SOURCE, so every pixel is all-zero bytes.
   */
  function CreateSurface(w: nat, h: nat): (s: Surface)
    ensures Valid(s) && s.width == w && s.height == h
    ensures forall x, y :: InBounds(s, x, y) ==> GetPixel(s, x, y) == Transparent
  {
    var s := FromPixels(w, h, Blank(w * h));
    assert forall x, y :: InBounds(s, x, y) ==> GetPixel(s, x, y) == Transparent by {
      forall x, y | InBounds(s, x, y)
        ensures GetPixel(s, x, y) == Transparent
      {
        BlankPixels(w, h, x, y);
      }
    }
    s
  }

  /** Every byte of a freshly created surface is zero. */
  lemma CreateSurfaceZeroBytes(w: nat, h: nat)
    ensures forall i :: 0 <= i < |CreateSurface(w, h).data| ==> CreateSurface(w, h).data[i] == 0
  {
  }

  /** The name layer_new_blank gives a layer: the one passed, or "Layer" for NULL. */
  function DefaultName(name: Option<string>): string
  {
    name.GetOr("Layer")
  }

  /** layer_new_blank: a visible, fully opaque-in-opacity layer over a transparent w x h surface. */
  function LayerNewBlank(name: Option<string>, w: nat, h: nat): (l: Layer)
    ensures l.name == DefaultName(name)
    ensures l.visible && l.opacity == 1.0
    ensures l.surface.Some? && Valid(l.surface.value)
    ensures l.surface.value.width == w && l.surface.value.height == h
    ensures forall x, y :: InBounds(l.surface.value, x, y) ==> GetPixel(l.surface.value, x, y) == Transparent
  {
    Layer(DefaultName(name), Some(CreateSurface(w, h)), true, 1.0)
  }

  /** A given name is kept verbatim; a missing one becomes "Layer". */
  lemma BlankLayerName(name: Option<string>, w: nat, h: nat)
    ensures name.Some? ==> LayerNewBlank(name, w, h).name == name.value
    ensures name.None? ==> LayerNewBlank(name, w, h).name == "Layer"
  {
  }

  // ---------------------------------------------------------------------
  // g_path_get_basename
  // ---------------------------------------------------------------------

  /** `p` with its trailing '/' characters removed. */
  function TrimSlashes(p: string): (r: string)
    ensures |r| <= |p| && r == p[..|r|]
    ensures r == [] || r[|r| - 1] != '/'
    ensures forall i :: |r| <= i < |p| ==> p[i] == '/'
    decreases |p|
  {
    if p == [] || p[|p| - 1] != '/' then p else TrimSlashes(p[..|p| - 1])
  }

  /** The characters of `p` after its last '/', or all of `p` when it has none. */
  function LastComponent(p: string): (r: string)
    ensures |r| <= |p| && r == p[|p| - |r|..]
    ensures '/' !in r
    ensures |r| < |p| ==> p[|p| - |r| - 1] == '/'
    ensures p != [] && p[|p| - 1] != '/' ==> r != []
    decreases |p|
  {
    if p == [] then []
    else if p[|p| - 1] == '/' then []
    else
      var r := LastComponent(p[..|p| - 1]);
      assert p[..|p| - 1][|p| - 1 - |r|..] + [p[|p| - 1]] == p[|p| - 1 - |r|..];
      r + [p[|p| - 1]]
  }

  /**
   * g_path_get_basename on POSIX paths: "." for the empty string, "/" for a
   * string of slashes only, otherwise the last component once trailing
   * slashes are dropped. The result is never empty and holds a slash only
   * when it is "/".
   */
  function Basename(path: string): (r: string)
    ensures r != []
    ensures r == "/" || '/' !in r
  {
    if path == [] then "."
    else
      var t := TrimSlashes(path);
      if t == [] then "/" else LastComponent(t)
  }

  /** Joining a directory and a file name with '/' and taking the basename gives the file name back. */
  lemma BasenameOfJoin(dir: string, name: string)
    requires name != [] && '/' !in name
    ensures Basename(dir + "/" + name) == name
  {
    var p := dir + "/" + name;
    assert p[|p| - 1] == name[|name| - 1];
    assert TrimSlashes(p) == p;
    LastComponentOfJoin(dir + "/", name);
  }

  lemma {:induction false} LastComponentOfJoin(prefix: string, name: string)
    requires prefix != [] && prefix[|prefix| - 1] == '/' && '/' !in name
    ensures LastComponent(prefix + name) == name
    decreases |name|
  {
    var p := prefix + name;
    if name == [] {
      assert p == prefix;
    } else {
      assert p[..|p| - 1] == prefix + name[..|name| - 1];
      assert name[|name| - 1] in name;
      LastComponentOfJoin(prefix, name[..|name| - 1]);
      assert name[..|name| - 1] + [name[|name| - 1]] == name;
    }
  }

  // ---------------------------------------------------------------------
  // layer_new_from_file and layer_free
  // ---------------------------------------------------------------------

  /**
   * layer_new_from_file: None when the decoder fails; otherwise a visible
   * layer at opacity 1.0, named after the file's basename, whose surface
   * has the decoded image's size and pixels.
   */
  function LayerNewFromFile(filename: string, decoded: Option<Image>): (l: Option<Layer>)
    requires decoded.Some? ==> WellFormed(decoded.value)
    ensures decoded.None? <==> l.None?
    ensures l.Some? ==> && l.value.name == Basename(filename)
                        && l.value.visible && l.value.opacity == 1.0
                        && l.value.surface.Some? && Valid(l.value.surface.value)
                        && l.value.surface.value.width == decoded.value.width
                        && l.value.surface.value.height == decoded.value.height
  {
    match decoded
    case None => None
    case Some(img) => Some(Layer(Basename(filename), Some(FromPixels(img.width, img.height, img.pixels)), true, 1.0))
  }

  /** A loaded layer shows the decoded pixel at every position. */
  lemma LoadedPixels(filename: string, img: Image, x: int, y: int)
    requires WellFormed(img) && 0 <= x < img.width && 0 <= y < img.height
    ensures 0 <= y * img.width + x < |img.pixels|
    ensures var l := LayerNewFromFile(filename, Some(img)).value;
            GetPixel(l.surface.value, x, y) == img.pixels[y * img.width + x]
  {
    var l := LayerNewFromFile(filename, Some(img)).value;
    assert l.surface.value == FromPixels(img.width, img.height, img.pixels);
    GetFromPixels(img.width, img.height, img.pixels, x, y);
  }

  /** What layer_free hands back to the allocator. */
  datatype Resource = NameBuffer | SurfaceRef | LayerRecord

  /**
   * layer_free: nothing for NULL; otherwise the name, the surface when
   * there is one, and the record itself.
   */
  function LayerFree(l: Option<Layer>): (released: seq<Resource>)
    ensures l.None? ==> released == []
    ensures l.Some? ==> && NameBuffer in released && LayerRecord in released
                        && (SurfaceRef in released <==> l.value.surface.Some?)
  {
    match l
    case None => []
    case Some(layer) => [NameBuffer] + (if layer.surface.Some? then [SurfaceRef] else []) + [LayerRecord]
  }

  /** Each resource of a layer is released at most once. */
  lemma LayerFreeOnce(l: Option<Layer>, r: Resource)
    ensures multiset(LayerFree(l))[r] <= 1
  {
  }
}
