/**
 * The product grid: a heading naming the selected category, then one card per
 * product linking to the product's own page.
 */
module Products {
  import opened Text
  import Assets
  import opened CategoryName
  import opened ProductSlug

  datatype Option<T> = None | Some(value: T)

  /** A catalogue entry, with the fields the grid reads. `id` is the catalogue's `_id`, the card's key. Prices are whole cents. */
  datatype Product = Product(id: string, name: string, price: int, image: string)

  /** What one grid card shows: its key, link target, picture, caption and price. */
  datatype Card = Card(key: string, href: string, src: string, alt: string, caption: string, price: int)

  const AllProducts := "All Products"

  /**
   * The grid heading. A category counts as selected when it is present and
   * non-empty (the empty string is falsy in JavaScript).
   */
  function Heading(selectedCategory: Option<string>): string
  {
    if selectedCategory.Some? && selectedCategory.value != [] then FormatCategoryName(selectedCategory.value)
    else AllProducts
  }

  /** The fallback heading is already in title case. */
  lemma AllProductsTitleCased()
    ensures TitleCased(AllProducts) && '_' !in AllProducts
  {
    assert forall i :: 0 <= i < |AllProducts| ==> (StartsWord(AllProducts, i) <==> i == 0 || i == 4);
  }

  /**
   * The heading is the formatted category exactly when one is selected,
   * "All Products" otherwise, and in either case a non-empty title-cased
   * text without underscores.
   */
  lemma HeadingShape(selectedCategory: Option<string>)
    ensures selectedCategory.Some? && selectedCategory.value != [] ==>
      Heading(selectedCategory) == FormatCategoryName(selectedCategory.value)
    ensures selectedCategory.None? || selectedCategory.value == [] ==> Heading(selectedCategory) == AllProducts
    ensures |Heading(selectedCategory)| > 0
    ensures TitleCased(Heading(selectedCategory)) && '_' !in Heading(selectedCategory)
  {
    if selectedCategory.Some? && selectedCategory.value != [] {
      FormatCategoryNameShape(selectedCategory.value);
    } else {
      AllProductsTitleCased();
    }
  }

  /** Selecting the heading itself as the category shows the same heading again. */
  lemma HeadingIsStable(selectedCategory: Option<string>)
    ensures Heading(Some(Heading(selectedCategory))) == Heading(selectedCategory)
  {
    var h := Heading(selectedCategory);
    HeadingShape(selectedCategory);
    FormatCategoryNameFixesTitleCased(h);
  }

  const ProductsRoot := "/products/"

  /** The link target of a product card. */
  function ProductPath(name: string): (r: string)
    ensures |r| >= |ProductsRoot| && r[..|ProductsRoot|] == ProductsRoot
    ensures r[|ProductsRoot|..] == Slug(name)
  {
    ProductsRoot + Slug(name)
  }

  /** Behind the fixed prefix the path holds neither whitespace nor capitals. */
  lemma ProductPathClean(name: string)
    ensures forall c :: c in ProductPath(name)[|ProductsRoot|..] ==> !IsSpace(c) && !IsUpper(c)
  {
    SlugClean(name);
  }

  /** A product's path does not change when its name is replaced by its own slug. */
  lemma ProductPathOfSlug(name: string)
    ensures ProductPath(Slug(name)) == ProductPath(name)
  {
    SlugIdempotent(name);
  }

  /** Names that differ only in letter case link to the same page. */
  lemma ProductPathIgnoresCase(name: string)
    ensures ProductPath(Lower(name)) == ProductPath(name)
  {
    LowerFixesLowercase(Lower(name));
  }

  /** One card: keyed by the product id, linking to the product path, showing the picture, name and price. */
  function CardOf(p: Product): (c: Card)
    ensures c.key == p.id && c.alt == p.name && c.caption == p.name && c.price == p.price
    ensures c.href == ProductPath(p.name) && c.src == Assets.ImagePath(p.image)
  {
    Card(p.id, ProductPath(p.name), Assets.ImagePath(p.image), p.name, p.name, p.price)
  }

  /** `products.map(...)`: one card per product, in the order given. */
  function Grid(products: seq<Product>): (cards: seq<Card>)
    ensures |cards| == |products|
    ensures forall k :: 0 <= k < |products| ==> cards[k] == CardOf(products[k])
  {
    seq(|products|, k requires 0 <= k < |products| => CardOf(products[k]))
  }

  /** The grid of two lists of products is the two grids one after the other. */
  lemma GridAppend(xs: seq<Product>, ys: seq<Product>)
    ensures Grid(xs + ys) == Grid(xs) + Grid(ys)
  {
    assert forall k :: 0 <= k < |xs + ys| ==> Grid(xs + ys)[k] == (Grid(xs) + Grid(ys))[k];
  }

  /** The card keys are the product ids, in order, so distinct ids give distinct keys. */
  lemma GridKeys(products: seq<Product>)
    requires forall i, j :: 0 <= i < j < |products| ==> products[i].id != products[j].id
    ensures forall i, j :: 0 <= i < j < |products| ==> Grid(products)[i].key != Grid(products)[j].key
  {
  }
}
