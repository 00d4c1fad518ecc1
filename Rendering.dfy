/**
 * The renderer: its state (the final image, the packed pixel buffer, the
 * settings, the frame index and the light direction), the buffer
 * (re)allocation on resize, the row-major pixel loop, and the per-pixel
 * colour test against a fixed sphere seen from a fixed camera.
 */
module Rendering {
  import opened Geometry
  import opened Scenes

  /** The source's uint32_t. */
  newtype u32 = x: int | 0 <= x < 0x1_0000_0000

  datatype Option<T> = None | Some(value: T)

  /** The final image, reduced to its size; the pixels live in the renderer's buffer. */
  datatype Image = Image(width: u32, height: u32)

  /** The number of pixels of an image, without the 32-bit wrap-around (see WrappedPixelCount). */
  function PixelCount(img: Image): nat {
    img.width as nat * img.height as nat
  }

  /** Packed RGBA with red in the lowest byte: opaque magenta for a hit, opaque black for a miss. */
  const HitColor: u32 := 0xffff00ff
  const MissColor: u32 := 0xff000000

  /** The fixed camera position and the radius of the fixed sphere at the world origin. */
  const CameraOrigin := Vec3(0.0, 0.0, 2.0)
  const SphereRadius := 0.5

  // ---- Row-major layout ----

  /** The buffer slot of pixel (x, y) in an image `w` pixels wide. */
  function RowMajor(x: nat, y: nat, w: nat): nat {
    x + y * w
  }

  lemma ProductPositive(w: nat, h: nat)
    requires 0 < w * h
    ensures 0 < w && 0 < h
  {
  }

  /** Every pixel of a `w` by `h` image has a slot inside the buffer of `w * h` entries. */
  lemma RowMajorInBounds(x: nat, y: nat, w: nat, h: nat)
    requires x < w && y < h
    ensures RowMajor(x, y, w) < w * h
  {
    assert (y + 1) * w <= h * w by {
      assert y + 1 <= h;
    }
    assert RowMajor(x, y, w) < (y + 1) * w;
  }

  lemma MulMonotone(a: nat, b: nat, w: nat)
    requires a <= b
    ensures a * w <= b * w
  {
    assert b * w - a * w == (b - a) * w;
  }

  /** Quotient and remainder are determined by their defining equation. */
  lemma DivModUnique(k: nat, w: nat, q: nat, r: nat)
    requires r < w && k == q * w + r
    ensures k / w == q && k % w == r
  {
    var q', r' := k / w, k % w;
    assert (q - q') * w == r' - r;
    if q' < q {
      MulMonotone(1, q - q', w);
      assert false;
    }
    if q < q' {
      MulMonotone(1, q' - q, w);
      assert false;
    }
  }

  /** Distinct pixels have distinct slots: each slot is written by one pixel only. */
  lemma RowMajorInjective(x1: nat, y1: nat, x2: nat, y2: nat, w: nat)
    requires x1 < w && x2 < w
    requires RowMajor(x1, y1, w) == RowMajor(x2, y2, w)
    ensures x1 == x2 && y1 == y2
  {
    DivModUnique(RowMajor(x1, y1, w), w, y1, x1);
    DivModUnique(RowMajor(x2, y2, w), w, y2, x2);
  }

  /** Every slot of the buffer belongs to a pixel: the one in column k % w of row k / w. */
  lemma RowMajorCovers(k: nat, w: nat, h: nat)
    requires k < w * h
    ensures 0 < w && k % w < w && k / w < h
    ensures RowMajor(k % w, k / w, w) == k
  {
  }

  // ---- The per-pixel colour ----

  /**
   * The coordinate PerPixel receives for pixel (x, y) of a `w` by `h` image:
   * (x / w, y / h) * 2 - 1. Every pixel of the image gets one in [-1, 1)
   * on both axes.
   */
  function PixelCoord(x: nat, y: nat, w: nat, h: nat): (c: Vec2)
    requires 0 < w && 0 < h
    ensures x < w ==> -1.0 <= c.x < 1.0
    ensures y < h ==> -1.0 <= c.y < 1.0
  {
    UnitInterval(x, w);
    UnitInterval(y, h);
    Vec2((x as real / w as real) * 2.0 - 1.0, (y as real / h as real) * 2.0 - 1.0)
  }

  lemma UnitInterval(i: nat, n: nat)
    requires 0 < n
    ensures 0.0 <= i as real / n as real
    ensures i < n ==> i as real / n as real < 1.0
  {
  }

  /** The normalised direction of the primary ray through `coord`. */
  function RayDirection(sqrt: real -> real, coord: Vec2): (d: Vec3)
    requires IsSqrt(sqrt)
    ensures Dot(d, d) == 1.0
  {
    Normalize(sqrt, Vec3(coord.x, coord.y, -1.0))
  }

  /**
   * b * b - 4 * a * c for the fixed sphere and a ray from the camera along `d`.
   * Only the direction's z part and its length matter: 16 z^2 - 15 |d|^2.
   */
  function CameraDiscriminant(d: Vec3): (disc: real)
    ensures disc == 16.0 * d.z * d.z - 15.0 * Dot(d, d)
  {
    var a := Dot(d, d);
    var b := 2.0 * Dot(CameraOrigin, d);
    var c := Dot(CameraOrigin, CameraOrigin) - SphereRadius * SphereRadius;
    b * b - 4.0 * a * c
  }

  /**
   * The discriminant PerPixel tests for the ray through `coord`. It does not
   * depend on the normalisation: with L = x^2 + y^2 + 1 it is 16 / L - 15.
   */
  function PixelDiscriminant(sqrt: real -> real, coord: Vec2): (disc: real)
    requires IsSqrt(sqrt)
    ensures var len2 := coord.x * coord.x + coord.y * coord.y + 1.0;
      0.0 < len2 && disc == 16.0 / len2 - 15.0
  {
    var v := Vec3(coord.x, coord.y, -1.0);
    var len := Length(sqrt, v);
    var d := RayDirection(sqrt, coord);
    assert d == Scale(v, 1.0 / len);
    assert 0.0 < len && len * len == Dot(v, v);
    assert d.z * d.z == 1.0 / (len * len);
    CameraDiscriminant(d)
  }

  /**
   * Renderer::PerPixel: the hit colour when the ray through `coord` meets
   * the sphere, the miss colour otherwise, and nothing else. The ray meets
   * the sphere exactly when 15 * (x^2 + y^2) <= 1.
   */
  function PerPixel(sqrt: real -> real, coord: Vec2): (color: u32)
    requires IsSqrt(sqrt)
    ensures color == HitColor || color == MissColor
    ensures color == HitColor <==> 15.0 * (coord.x * coord.x + coord.y * coord.y) <= 1.0
  {
    PixelDiscriminantClosedForm(sqrt, coord);
    if PixelDiscriminant(sqrt, coord) >= 0.0 then HitColor else MissColor
  }

  /** The hit test in closed form: the discriminant is non-negative exactly when 15 * (x^2 + y^2) <= 1. */
  lemma PixelDiscriminantClosedForm(sqrt: real -> real, coord: Vec2)
    requires IsSqrt(sqrt)
    ensures 0.0 <= PixelDiscriminant(sqrt, coord)
        <==> 15.0 * (coord.x * coord.x + coord.y * coord.y) <= 1.0
  {
    var len2 := coord.x * coord.x + coord.y * coord.y + 1.0;
    assert 0.0 <= 16.0 / len2 - 15.0 <==> 15.0 * len2 <= 16.0;
  }

  /** The centre of the image looks straight at the sphere: the discriminant is 1, a hit. */
  lemma PerPixelCentreHits(sqrt: real -> real)
    requires IsSqrt(sqrt)
    ensures PixelDiscriminant(sqrt, Vec2(0.0, 0.0)) == 1.0
    ensures PerPixel(sqrt, Vec2(0.0, 0.0)) == HitColor
  {
  }

  /** The corner (-1, -1) of the image misses the sphere. */
  lemma PerPixelCornerMisses(sqrt: real -> real)
    requires IsSqrt(sqrt)
    ensures PixelDiscriminant(sqrt, Vec2(-1.0, -1.0)) < 0.0
    ensures PerPixel(sqrt, Vec2(-1.0, -1.0)) == MissColor
  {
  }

  /**
   * PerPixel's test is the sphere test of Scene.h for a sphere of radius 0.5
   * at the world origin, seen along a ray from the camera.
   */
  lemma CameraDiscriminantIsSphereTest(d: Vec3, materialIndex: int)
    ensures CameraDiscriminant(d)
         == Discriminant(Sphere(materialIndex, Zero, SphereRadius), Ray(CameraOrigin, d))
  {
  }

  // ---- The whole frame ----

  /** The buffer contents a render leaves: slot k holds the colour of pixel (k % w, k / w). */
  function Frame(sqrt: real -> real, w: nat, h: nat): (f: seq<u32>)
    requires IsSqrt(sqrt)
    ensures |f| == w * h
  {
    seq(w * h, k requires 0 <= k < w * h =>
      ProductPositive(w, h);
      PerPixel(sqrt, PixelCoord(k % w, k / w, w, h)))
  }

  /** After a render, the slot of every pixel holds PerPixel of that pixel's coordinate. */
  lemma FramePixel(sqrt: real -> real, x: nat, y: nat, w: nat, h: nat)
    requires IsSqrt(sqrt) && x < w && y < h
    ensures RowMajor(x, y, w) < |Frame(sqrt, w, h)|
    ensures Frame(sqrt, w, h)[RowMajor(x, y, w)] == PerPixel(sqrt, PixelCoord(x, y, w, h))
  {
    RowMajorInBounds(x, y, w, h);
    DivModUnique(RowMajor(x, y, w), w, y, x);
  }

  // ---- The renderer's state ----

  /** Renderer::Settings; GetSettings hands out a reference to it. */
  class Settings {
    var accumulate: bool

    constructor ()
      ensures accumulate
    {
      accumulate := true;
    }
  }

  class Renderer {
    // The settings member lives inside the renderer: its identity never changes.
    const settings: Settings
    var lightDir: Vec3
    var finalImage: Option<Image>
    var imageData: array?<u32>
    var accumulationData: array?<Vec4>
    var frameIndex: u32

    /** A pixel buffer exists exactly when the image does, with one slot per pixel. */
    ghost predicate Valid()
      reads this
    {
      match finalImage
      case None => imageData == null
      case Some(img) => imageData != null && imageData.Length == PixelCount(img)
    }

    /** A fresh renderer: frame index 1, accumulation on, no image and no buffers. */
    constructor ()
      ensures Valid() && fresh(settings)
      ensures settings.accumulate && frameIndex == 1
      ensures finalImage == None && imageData == null && accumulationData == null
    {
      settings := new Settings();
      frameIndex := 1;
      finalImage := None;
      imageData := null;
      accumulationData := null;
    }

    /** The final image, absent until the first resize; present exactly when a pixel buffer is. */
    function GetFinalImage(): (img: Option<Image>)
      reads this
      requires Valid()
      ensures img.Some? <==> imageData != null
      ensures img.Some? ==> imageData.Length == PixelCount(img.value)
    {
      finalImage
    }

    /** The renderer's own settings object; writing through it changes nothing else of the renderer. */
    function GetSettings(): (s: Settings)
      ensures s == settings
    {
      settings
    }

    method SetLightDir(dir: Vec3)
      modifies this`lightDir
      ensures lightDir == dir
    {
      lightDir := dir;
    }

    method ResetFrameIndex()
      modifies this`frameIndex
      ensures frameIndex == 1
    {
      frameIndex := 1;
    }

    /**
     * Keeps the image and the buffer when the size is unchanged; otherwise
     * records the new size (creating the image if there was none) and
     * allocates a fresh buffer of exactly width * height slots.
     */
    method OnResize(width: u32, height: u32)
      requires Valid()
      modifies this
      ensures Valid()
      ensures finalImage == Some(Image(width, height))
      ensures imageData != null && imageData.Length == width as nat * height as nat
      ensures old(finalImage) == Some(Image(width, height))
          ==> imageData == old(imageData)
      ensures old(finalImage) != Some(Image(width, height))
          ==> fresh(imageData)
      ensures lightDir == old(lightDir) && frameIndex == old(frameIndex)
      ensures accumulationData == old(accumulationData)
    {
      if finalImage.Some? {
        if finalImage.value.width == width && finalImage.value.height == height {
          return;
        }
        finalImage := Some(Image(width, height));
      } else {
        finalImage := Some(Image(width, height));
      }
      imageData := new u32[width as nat * height as nat];
    }

    /**
     * The pixel loop: rows top to bottom, each row left to right, writing
     * PerPixel of the pixel's coordinate into its row-major slot. The ghost
     * `order` lists the slots in the order they are written: 0, 1, ...,
     * width * height - 1, so every slot is written, and written once.
     */
    method Render(sqrt: real -> real) returns (ghost order: seq<nat>)
      requires Valid() && finalImage.Some? && IsSqrt(sqrt)
      modifies imageData
      ensures Valid() && finalImage == old(finalImage) && imageData == old(imageData)
      ensures imageData[..] == Frame(sqrt, finalImage.value.width as nat, finalImage.value.height as nat)
      ensures |order| == imageData.Length && forall k :: 0 <= k < |order| ==> order[k] == k
    {
      var w, h := finalImage.value.width as nat, finalImage.value.height as nat;
      ghost var frame := Frame(sqrt, w, h);
      assert imageData.Length == |frame|;
      order := [];
      var y := 0;
      ghost var row := 0;
      while y < h
        invariant 0 <= y <= h && row == y * w && row <= |frame|
        invariant |order| == row && forall k :: 0 <= k < row ==> order[k] == k
        invariant forall k :: 0 <= k < row ==> imageData[k] == frame[k]
      {
        MulMonotone(y + 1, h, w);
        assert row + w == (y + 1) * w && h * w == |frame|;
        var x := 0;
        while x < w
          invariant 0 <= x <= w && row + w <= |frame|
          invariant |order| == row + x && forall k :: 0 <= k < row + x ==> order[k] == k
          invariant forall k :: 0 <= k < row + x ==> imageData[k] == frame[k]
        {
          var coord := PixelCoord(x, y, w, h);
          FramePixel(sqrt, x, y, w, h);
          assert RowMajor(x, y, w) == row + x;
          imageData[x + y * w] := PerPixel(sqrt, coord);
          order := order + [x + y * w];
          x := x + 1;
        }
        row := row + w;
        y := y + 1;
      }
      assert row == |frame|;
    }
  }

  /**
   * A caller writing the accumulation flag through the reference GetSettings
   * returns. Only the settings object changes; every field of the renderer
   * itself keeps its value.
   */
  method WriteThroughSettings(renderer: Renderer, on: bool)
    modifies renderer.settings
    ensures renderer.settings.accumulate == on
    ensures unchanged(renderer)
  {
    var settings := renderer.GetSettings();
    settings.accumulate := on;
  }

  // ---- 32-bit buffer size ----

  /** Reducing modulo 2^32 never increases a number, and keeps exactly those below 2^32. */
  lemma Wrap32(p: nat)
    ensures p % 0x1_0000_0000 <= p
    ensures p % 0x1_0000_0000 == p <==> p < 0x1_0000_0000
  {
  }

  /** The buffer length OnResize asks for, as the 32-bit product width * height computes it. */
  function WrappedPixelCount(width: u32, height: u32): (n: u32)
    ensures n as int <= width as int * height as int
    ensures n as int == width as int * height as int <==> width as int * height as int < 0x1_0000_0000
  {
    var p: nat := width as nat * height as nat;
    Wrap32(p);
    (p % 0x1_0000_0000) as u32
  }

  /**
   * For a 65536 by 65536 image the 32-bit product is 0, while the pixel loop
   * writes slot 4294967295 of that buffer.
   */
  lemma WrappedPixelCountTooSmall()
    ensures WrappedPixelCount(65536, 65536) == 0
    ensures RowMajor(65535, 65535, 65536) == 4294967295
    ensures PixelCount(Image(65536, 65536)) == 4294967296
  {
  }

  /** The slot of pixel (x, y) as the 32-bit expression x + y * width computes it. */
  function WrappedRowMajor(x: u32, y: u32, w: u32): (i: u32)
    ensures i as int <= RowMajor(x as nat, y as nat, w as nat)
    ensures i as int == RowMajor(x as nat, y as nat, w as nat)
        <==> RowMajor(x as nat, y as nat, w as nat) < 0x1_0000_0000
  {
    var p := RowMajor(x as nat, y as nat, w as nat);
    Wrap32(p);
    (p % 0x1_0000_0000) as u32
  }

  /**
   * In a 65536 by 65537 image, the first pixel of the last row and the first
   * pixel of the first row both go to slot 0 under 32-bit indexing.
   */
  lemma WrappedRowMajorCollides()
    ensures 65536 < 65537 && WrappedRowMajor(0, 65536, 65536) == WrappedRowMajor(0, 0, 65536) == 0
    ensures RowMajor(0, 65536, 65536) != RowMajor(0, 0, 65536)
  {
  }
}
