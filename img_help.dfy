/** The pixel helpers of leafcolors/img_help.py. An image is a sequence of
    rows, a row a sequence of `(B, G, R)` integer triples. OpenCV's k-means,
    GrabCut and the grey conversion stay abstract: the mask GrabCut produces
    is an input, and so are the grey value of a pixel and the dominant-colour
    choice of k-means. */
module ImgHelp {
  import opened PyStr

  type Pixel = (int, int, int)
  type Image = seq<seq<Pixel>>

  /** `np.all(x)` on a pixel: no channel is zero. */
  predicate Bright(p: Pixel) {
    p.0 != 0 && p.1 != 0 && p.2 != 0
  }

  /** `list(filter(lambda x: np.all(x), row))`. */
  function FilterBright(row: seq<Pixel>): (r: seq<Pixel>)
    ensures |r| <= |row|
  {
    if row == [] then []
    else
      var rest := FilterBright(row[..|row| - 1]);
      var last := row[|row| - 1];
      assert row == row[..|row| - 1] + [last];
      if Bright(last) then rest + [last] else rest
  }

  /** `[tuple for row in img_list for tuple in row]`: the pixels, row by row. */
  function Flatten(img: Image): seq<Pixel> {
    if img == [] then []
    else
      var n := |img| - 1;
      Flatten(img[..n]) + img[n]
  }

  /** The filter keeps exactly the bright pixels of the row. */
  lemma {:induction false} FilterBrightMembers(row: seq<Pixel>)
    ensures forall p :: p in FilterBright(row) <==> p in row && Bright(p)
  {
    if row != [] {
      var n := |row| - 1;
      FilterBrightMembers(row[..n]);
      assert row == row[..n] + [row[n]];
    }
  }

  /** A pixel of the flattened image is a pixel of one of its rows. */
  lemma {:induction false} FlattenMembers(img: Image)
    ensures forall p :: p in Flatten(img) <==> exists i :: 0 <= i < |img| && p in img[i]
  {
    if img != [] {
      var n := |img| - 1;
      FlattenMembers(img[..n]);
      assert forall i :: 0 <= i < n ==> img[..n][i] == img[i];
    }
  }

  /** `list(filter(lambda x: x != [], img_arr))`. */
  function DropEmpty(img: Image): (r: Image)
    ensures |r| <= |img|
    ensures forall i :: 0 <= i < |r| ==> r[i] != []
  {
    if img == [] then []
    else
      var rest := DropEmpty(img[..|img| - 1]);
      if img[|img| - 1] == [] then rest else rest + [img[|img| - 1]]
  }

  /** What `remove_dark` returns: the bright pixels of the image, in
      row-major order. */
  function BrightPixels(img: Image): seq<Pixel> {
    FilterBright(Flatten(img))
  }

  /** `remove_dark(img)`: overwrite each row with its bright pixels, drop the
      rows left empty, flatten. */
  method RemoveDark(img: Image) returns (pixels: seq<Pixel>)
    ensures pixels == BrightPixels(img)
  {
    var imgArr := img;
    for i := 0 to |imgArr|
      invariant |imgArr| == |img|
      invariant forall k :: 0 <= k < i ==> imgArr[k] == FilterBright(img[k])
      invariant forall k :: i <= k < |img| ==> imgArr[k] == img[k]
    {
      imgArr := imgArr[i := FilterBright(imgArr[i])];
    }
    var imgList := DropEmpty(imgArr);
    pixels := Flatten(imgList);
    FlattenDropEmpty(imgArr);
    FlattenFilteredRows(img, imgArr);
  }

  lemma {:induction false} FilterBrightAppend(a: seq<Pixel>, b: seq<Pixel>)
    ensures FilterBright(a + b) == FilterBright(a) + FilterBright(b)
    decreases |b|
  {
    if b == [] {
      assert a + b == a;
    } else {
      var n := |b| - 1;
      FilterBrightAppend(a, b[..n]);
      assert (a + b)[..|a + b| - 1] == a + b[..n];
      assert b == b[..n] + [b[n]];
    }
  }

  /** Filtering each row, then flattening, is filtering the flattened image. */
  lemma {:induction false} FlattenFilteredRows(img: Image, rows: Image)
    requires |rows| == |img|
    requires forall k :: 0 <= k < |img| ==> rows[k] == FilterBright(img[k])
    ensures Flatten(rows) == FilterBright(Flatten(img))
  {
    if img != [] {
      var n := |img| - 1;
      FlattenFilteredRows(img[..n], rows[..n]);
      FilterBrightAppend(Flatten(img[..n]), img[n]);
    }
  }

  /** Dropping the emptied rows does not change the flattened result. */
  lemma {:induction false} FlattenDropEmpty(img: Image)
    ensures Flatten(DropEmpty(img)) == Flatten(img)
  {
    if img != [] {
      var n := |img| - 1;
      FlattenDropEmpty(img[..n]);
      if img[n] == [] {
        assert Flatten(img) == Flatten(img[..n]) + [];
      }
    }
  }

  /** The result has no more pixels than the image. */
  lemma {:induction false} BrightPixelsBound(img: Image)
    ensures |BrightPixels(img)| <= |Flatten(img)|
    ensures forall p :: p in BrightPixels(img) <==> Bright(p) && exists i :: 0 <= i < |img| && p in img[i]
  {
    FilterBrightMembers(Flatten(img));
    FlattenMembers(img);
  }

  /** Filtering twice is filtering once. */
  lemma {:induction false} FilterBrightIdempotent(row: seq<Pixel>)
    ensures FilterBright(FilterBright(row)) == FilterBright(row)
  {
    if row != [] {
      var n := |row| - 1;
      FilterBrightIdempotent(row[..n]);
      FilterBrightAppend(FilterBright(row[..n]), [row[n]]);
      if Bright(row[n]) {
        assert FilterBright([row[n]]) == [] + [row[n]];
      } else {
        assert FilterBright(row) == FilterBright(row[..n]);
      }
    }
  }

  /** The bright pixels of the result, read as a one-row image, are the
      result itself: no dark pixel is left to remove. Python's own
      `remove_dark` applied to its (n, 3) result would instead treat each pixel
      as a row of channels and flatten to single numbers; the statement is
      about the result reshaped to one row of pixels. */
  lemma RemoveDarkIdempotent(img: Image)
    ensures BrightPixels([BrightPixels(img)]) == BrightPixels(img)
  {
    var p := BrightPixels(img);
    assert [p][..0] == [];
    assert Flatten([p]) == [] + p;
    assert Flatten([p]) == p;
    FilterBrightIdempotent(Flatten(img));
    assert BrightPixels([p]) == FilterBright(p);
  }

  // ---------------------------------------------------------------------------
  // dom_color
  // ---------------------------------------------------------------------------

  /** What `cv2.kmeans` is given: the bright pixels, or the whole image. */
  datatype Samples = Filtered(pixels: seq<Pixel>) | WholeImage(image: Image)

  /** `noDark.size > 2`: the float array of `remove_dark` has three entries per pixel. */
  function KMeansInput(img: Image): (s: Samples)
    ensures s.Filtered? <==> exists p :: p in Flatten(img) && Bright(p)
    ensures s.Filtered? ==> s.pixels == BrightPixels(img)
    ensures s.WholeImage? ==> s.image == img
  {
    var noDark := BrightPixels(img);
    FilterBrightMembers(Flatten(img));
    assert noDark != [] ==> noDark[0] in noDark;
    if 3 * |noDark| > 2 then Filtered(noDark) else WholeImage(img)
  }

  /** `dom_color(img, n_colors)`, with the k-means run and the choice of the
      centre of the largest cluster given as `dominantOf`. */
  function DomColor(img: Image, nColors: int, dominantOf: (Samples, int) -> Pixel): (c: Pixel)
    ensures (exists p :: p in Flatten(img) && Bright(p)) ==> c == dominantOf(Filtered(BrightPixels(img)), nColors)
    ensures (forall p :: p in Flatten(img) ==> !Bright(p)) ==> c == dominantOf(WholeImage(img), nColors)
  {
    dominantOf(KMeansInput(img), nColors)
  }

  // ---------------------------------------------------------------------------
  // crop_img
  // ---------------------------------------------------------------------------

  /** The leaf position `{'x', 'y', 'width', 'height'}`. */
  datatype Leaf = Leaf(x: int, y: int, width: int, height: int)

  /** A negative `x` or `y` becomes 0; width and height are kept. */
  function ClampLeaf(leaf: Leaf): (r: Leaf)
    ensures r.x == (if leaf.x < 0 then 0 else leaf.x)
    ensures r.y == (if leaf.y < 0 then 0 else leaf.y)
    ensures r.width == leaf.width && r.height == leaf.height
  {
    var x := if leaf.x < 0 then 0 else leaf.x;
    var y := if leaf.y < 0 then 0 else leaf.y;
    Leaf(x, y, leaf.width, leaf.height)
  }

  /** Each row of `rows` sliced `[lo:hi]`. */
  function SliceRows(rows: Image, lo: int, hi: int): Image {
    seq(|rows|, i requires 0 <= i < |rows| => Slice(rows[i], lo, hi))
  }

  /** `crop_img(img, leaf)`: `img[y:y + height, x:x + width]` after the clamp. */
  function CropImg(img: Image, leaf: Leaf): Image {
    var l := ClampLeaf(leaf);
    SliceRows(Slice(img, l.y, l.y + l.height), l.x, l.x + l.width)
  }

  /** The crop has at most `height` rows, and no more than the image. */
  lemma CropImgRows(img: Image, leaf: Leaf)
    ensures |CropImg(img, leaf)| <= |img|
    ensures leaf.height >= 0 ==> |CropImg(img, leaf)| <= leaf.height
  {
  }

  /** Row `i` of the crop is row `y + i` of the image, sliced `[x:x + width]`. */
  lemma CropImgRow(img: Image, leaf: Leaf, i: nat)
    requires i < |CropImg(img, leaf)|
    ensures ClampLeaf(leaf).y + i < |img|
    ensures CropImg(img, leaf)[i]
      == Slice(img[ClampLeaf(leaf).y + i], ClampLeaf(leaf).x, ClampLeaf(leaf).x + leaf.width)
  {
    var l := ClampLeaf(leaf);
    var rows := Slice(img, l.y, l.y + l.height);
    var crop := CropImg(img, leaf);
    assert crop == SliceRows(rows, l.x, l.x + l.width);
    assert i < |rows|;
    SliceIndex(img, l.y, l.y + l.height, i);
    assert crop[i] == Slice(rows[i], l.x, l.x + l.width);
  }

  /** Row `i` of the crop has at most `width` pixels, and pixel `(i, j)` of
      the crop is pixel `(y + i, x + j)` of the image, `x` and `y` clamped. */
  lemma CropImgPixel(img: Image, leaf: Leaf, i: nat, j: nat)
    requires i < |CropImg(img, leaf)|
    ensures ClampLeaf(leaf).y + i < |img|
    ensures leaf.width >= 0 ==> |CropImg(img, leaf)[i]| <= leaf.width
    ensures j < |CropImg(img, leaf)[i]| ==>
      && ClampLeaf(leaf).x + j < |img[ClampLeaf(leaf).y + i]|
      && CropImg(img, leaf)[i][j] == img[ClampLeaf(leaf).y + i][ClampLeaf(leaf).x + j]
  {
    CropImgRow(img, leaf, i);
    var l := ClampLeaf(leaf);
    var row := img[l.y + i];
    var cropped := Slice(row, l.x, l.x + l.width);
    assert CropImg(img, leaf)[i] == cropped;
    if j < |cropped| {
      assert cropped[j] == row[l.x + j];
    }
  }

  /** A leaf box inside the image crops to exactly `height` rows of `width` pixels. */
  lemma CropImgInside(img: Image, leaf: Leaf)
    requires 0 <= leaf.x && 0 <= leaf.y && 0 <= leaf.width && 0 <= leaf.height
    requires leaf.y + leaf.height <= |img|
    requires forall i :: 0 <= i < |img| ==> leaf.x + leaf.width <= |img[i]|
    ensures |CropImg(img, leaf)| == leaf.height
    ensures forall i :: 0 <= i < leaf.height ==> CropImg(img, leaf)[i] == img[leaf.y + i][leaf.x..leaf.x + leaf.width]
  {
  }

  // ---------------------------------------------------------------------------
  // grab_cut
  // ---------------------------------------------------------------------------

  /** GrabCut's labels 0 (background) and 2 (probable background). */
  predicate Background(m: int) {
    m == 0 || m == 2
  }

  predicate SameShape(img: Image, mask: seq<seq<int>>) {
    |mask| == |img| && forall i :: 0 <= i < |img| ==> |mask[i]| == |img[i]|
  }

  /** `np.where((mask == 2) | (mask == 0), 0, 1)` times the row. */
  function MaskRow(row: seq<Pixel>, m: seq<int>): (r: seq<Pixel>)
    requires |m| == |row|
    ensures |r| == |row|
    ensures forall j :: 0 <= j < |row| ==> r[j] == if Background(m[j]) then (0, 0, 0) else row[j]
  {
    if row == [] then []
    else
      var n := |row| - 1;
      MaskRow(row[..n], m[..n]) + [if Background(m[n]) then (0, 0, 0) else row[n]]
  }

  /** `grabbedImg = img * mask2[:, :, np.newaxis]`. */
  function ApplyMask(img: Image, mask: seq<seq<int>>): (r: Image)
    requires SameShape(img, mask)
    ensures SameShape(r, mask)
    ensures forall i, j :: 0 <= i < |img| && 0 <= j < |img[i]| ==>
      r[i][j] == if Background(mask[i][j]) then (0, 0, 0) else img[i][j]
  {
    if img == [] then []
    else
      var n := |img| - 1;
      ApplyMask(img[..n], mask[..n]) + [MaskRow(img[n], mask[n])]
  }

  /** Masking twice with the same mask is masking once. */
  lemma ApplyMaskIdempotent(img: Image, mask: seq<seq<int>>)
    requires SameShape(img, mask)
    ensures ApplyMask(ApplyMask(img, mask), mask) == ApplyMask(img, mask)
  {
    var r := ApplyMask(img, mask);
    var rr := ApplyMask(r, mask);
    forall i | 0 <= i < |img| ensures rr[i] == r[i] {
      assert |rr[i]| == |r[i]|;
    }
  }

  /** `cv2.countNonZero` of the grey image: the pixels whose grey value is not 0. */
  function CountNonZero(img: Image, gray: Pixel -> int): (n: nat)
    ensures n == 0 <==> forall i, j :: 0 <= i < |img| && 0 <= j < |img[i]| ==> gray(img[i][j]) == 0
  {
    if img == [] then 0
    else
      var n := |img| - 1;
      assert forall i :: 0 <= i < n ==> img[..n][i] == img[i];
      CountNonZero(img[..n], gray) + CountRow(img[n], gray)
  }

  function CountRow(row: seq<Pixel>, gray: Pixel -> int): (n: nat)
    ensures n == 0 <==> forall j :: 0 <= j < |row| ==> gray(row[j]) == 0
  {
    if row == [] then 0
    else
      var n := |row| - 1;
      assert forall j :: 0 <= j < n ==> row[..n][j] == row[j];
      CountRow(row[..n], gray) + (if gray(row[n]) != 0 then 1 else 0)
  }

  /** The part of `grab_cut(img)` after `cv2.grabCut`, with its mask given:
      mask the image, and fall back to the original if nothing is left whose
      grey value is non-zero. */
  function GrabCut(img: Image, mask: seq<seq<int>>, gray: Pixel -> int): (r: Image)
    requires SameShape(img, mask)
    ensures (forall i, j :: 0 <= i < |img| && 0 <= j < |img[i]| ==> gray(ApplyMask(img, mask)[i][j]) == 0) ==> r == img
    ensures (exists i, j :: 0 <= i < |img| && 0 <= j < |img[i]| && gray(ApplyMask(img, mask)[i][j]) != 0) ==> r == ApplyMask(img, mask)
  {
    var grabbed := ApplyMask(img, mask);
    if CountNonZero(grabbed, gray) == 0 then img else grabbed
  }

  /** When every mask value is background and black is grey 0, GrabCut has
      removed everything and the original image comes back. */
  lemma GrabCutAllBackground(img: Image, mask: seq<seq<int>>, gray: Pixel -> int)
    requires SameShape(img, mask)
    requires forall i, j :: 0 <= i < |mask| && 0 <= j < |mask[i]| ==> Background(mask[i][j])
    requires gray((0, 0, 0)) == 0
    ensures GrabCut(img, mask, gray) == img
  {
  }

  /** Whatever the mask, the result has the image's shape, and each of its
      pixels is either black or the image's own pixel there. */
  lemma GrabCutPixels(img: Image, mask: seq<seq<int>>, gray: Pixel -> int)
    requires SameShape(img, mask)
    ensures var r := GrabCut(img, mask, gray);
      SameShape(r, mask) &&
      forall i, j :: 0 <= i < |img| && 0 <= j < |img[i]| ==> r[i][j] == img[i][j] || r[i][j] == (0, 0, 0)
  {
  }
}
