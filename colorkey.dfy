/** Chroma keying: every pixel whose RGB equals the key exactly becomes fully
    transparent; every other pixel passes through unchanged. */
module ColorKey {
  import opened Pixels

  /** Keying runs only when it is requested and the key list is non-empty (a Python
      list is true exactly when it is non-empty). */
  predicate Active(processColorkey: bool, colorkey: seq<int>) {
    processColorkey && |colorkey| > 0
  }

  /** The pixel's first three components, as a tuple, equal the key list as a tuple.
      Alpha is ignored; there is no tolerance; a key that is not three channel values
      matches no pixel at all. */
  predicate Matches(p: Pixel, colorkey: seq<int>): (m: bool)
    ensures m ==> |colorkey| == 3 && forall k :: 0 <= k < 3 ==> 0 <= colorkey[k] < 256
    ensures m <==> |colorkey| == 3 && colorkey[0] == p.r && colorkey[1] == p.g && colorkey[2] == p.b
  {
    colorkey == [p.r, p.g, p.b]
  }

  /** The key applied to one pixel. A pixel is changed only when its RGB equals the key
      exactly, and a changed pixel is fully transparent. */
  function Keyed(p: Pixel, colorkey: seq<int>): (keyed: Pixel)
    ensures keyed == p || keyed == Transparent
    ensures keyed != p ==> Matches(p, colorkey)
    ensures Matches(p, colorkey) ==> keyed == Transparent
  {
    if Matches(p, colorkey) then Transparent else p
  }

  /** The key applied to a whole image: same size, pixel by pixel. */
  function KeyImage(img: Image, colorkey: seq<int>): (keyed: Image)
    ensures keyed.width == img.width && keyed.height == img.height && |keyed.data| == |img.data|
    ensures img.Valid() ==> keyed.Valid()
  {
    Image(img.width, img.height,
          seq(|img.data|, k requires 0 <= k < |img.data| => Keyed(img.data[k], colorkey)))
  }

  /** Builds the new pixel list one pixel at a time, in data order, and puts it back
      into an image of the same size. */
  method ApplyColorKey(img: Image, colorkey: seq<int>) returns (keyed: Image)
    ensures keyed == KeyImage(img, colorkey)
  {
    var newData: seq<Pixel> := [];
    var k := 0;
    while k < |img.data|
      invariant k <= |img.data|
      invariant |newData| == k
      invariant forall j :: 0 <= j < k ==> newData[j] == Keyed(img.data[j], colorkey)
    {
      var item := img.data[k];
      if Matches(item, colorkey) {
        newData := newData + [Transparent];
      } else {
        newData := newData + [item];
      }
      k := k + 1;
    }
    keyed := Image(img.width, img.height, newData);
  }

  /** Keying acts on each pixel where it stands. */
  lemma KeyImageAt(img: Image, colorkey: seq<int>, x: nat, y: nat)
    requires img.Valid() && x < img.width && y < img.height
    ensures KeyImage(img, colorkey).At(x, y) == Keyed(img.At(x, y), colorkey)
  {
    var keyed := KeyImage(img, colorkey);
    RowMajorIndex(img.width, img.height, x, y);
    var k := y * img.width + x;
    assert |keyed.data| == |img.data|;
    assert keyed.data[k] == Keyed(img.data[k], colorkey);
  }

  /** After keying, no pixel has the key's colour unless the key is black, which is the
      colour of the transparent pixel itself. */
  lemma KeyedNeverMatches(p: Pixel, colorkey: seq<int>)
    ensures Matches(Keyed(p, colorkey), colorkey) ==> colorkey == [0, 0, 0]
  {
  }

  /** Keying twice is keying once. */
  lemma KeyImageIdempotent(img: Image, colorkey: seq<int>)
    ensures KeyImage(KeyImage(img, colorkey), colorkey) == KeyImage(img, colorkey)
  {
  }

  /** The default key (255, 0, 228) removes an exact magenta pixel of any alpha and keeps
      a one-off neighbour such as (255, 0, 227). */
  lemma DefaultKeyExample(alpha: Channel)
    ensures Keyed(Pixel(255, 0, 228, alpha), [255, 0, 228]) == Transparent
    ensures Keyed(Pixel(255, 0, 227, alpha), [255, 0, 228]) == Pixel(255, 0, 227, alpha)
  {
  }
}
