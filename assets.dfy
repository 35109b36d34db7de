/** Where both views find product pictures. */
module Assets {

  const ImagesRoot := "/images/"

  /** The `src` of a product picture: the image reference under the images root. */
  function ImagePath(image: string): (r: string)
    ensures |r| == |ImagesRoot| + |image|
    ensures r[..|ImagesRoot|] == ImagesRoot && r[|ImagesRoot|..] == image
  {
    ImagesRoot + image
  }
}
