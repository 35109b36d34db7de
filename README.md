# Oasis storefront: product grid and cart, modelled in Dafny

This project models the two views at the heart of the Oasis plant shop's
front end.

- **Product grid** (`src/Components/Products.jsx`). The heading shows the
  selected category, reformatted by a five-pass string rewrite. Without a
  category it shows "All Products". Each product card links to
  `/products/<slug>`; the slug is the product name lower-cased, with each run
  of whitespace turned into one hyphen. The card picture comes from
  `/images/<image>`.
- **Cart** (`src/Components/Cart.jsx`). It covers:
  - which store action each control dispatches;
  - the order total, as a `reduce` over the lines;
  - what the panel shows for an empty and a non-empty cart;
  - the "checkout disabled" dialog, whose one piece of state is
    `isPopupVisible`.

Modules:

- `Text`: the regular-expression classes `\w` and `\s`, and ASCII case mapping.
- `Assets`: the image path both views use.
- `CategoryName`: `formatCategoryName`, one function per pass.
  - The two `/g` replaces of passes 1 and 2 are modelled as the left-to-right
    scans the regular-expression engine performs (`SplitCamelScan`,
    `SplitAcronymScan`).
  - Each scan is proved equal to "insert a space at every boundary"
    (`SplitCamel`, `SplitAcronym`).
- `CategoryNameExamples`: the three documented inputs, worked out.
- `ProductSlug`: `formatProductNameForURL`. `/\s+/g` is modelled as the
  engine's scan, where the greedy `+` swallows a whole run.
- `Products`: the heading, the product path and the card grid.
- `Cart`: the handlers as functions returning an `Action`, the total, the
  panel, and the dialog as the class `CheckoutPopup`.
  - A click on the dialog is modelled by the handlers it meets as it bubbles
    up: Close, then the dialog body (which stops propagation), then the
    backdrop.

## Model

| member | source | states |
|---|---|---|
| Text.IsWord | src/Components/Products.jsx:12 | `\w` without the `u` flag: an ASCII letter, an ASCII digit or `_` |
| Text.IsSpace | src/Components/Products.jsx:16 | `\s`: exactly the ECMAScript WhiteSpace and LineTerminator code points (tab, line feed, vertical tab, form feed, carriage return, space, no-break space, ogham space, the spaces U+2000 to U+200A, line and paragraph separators, narrow no-break space, medium mathematical space, ideographic space, byte order mark) |
| Text.ToLower | src/Components/Products.jsx:11 | `toLowerCase` on one character: an uppercase ASCII letter becomes lowercase, anything else is unchanged, and the result is never uppercase; word and whitespace characters stay so |
| Text.ToUpper | src/Components/Products.jsx:12 | `toUpperCase` on one character: a lowercase ASCII letter becomes uppercase, anything else is unchanged |
| Text.CaseRoundTrip | src/Components/Products.jsx:11-12 | upper-casing a lowered capital restores it, and lower-casing a raised small letter restores it |
| Text.Lower | src/Components/Products.jsx:11 | `toLowerCase` on a string keeps its length, maps character by character, and leaves no uppercase letter |
| Text.LowerFixesLowercase | src/Components/Products.jsx:16 | lower-casing text without capitals changes nothing |
| Text.LowerAppend | src/Components/Products.jsx:16 | lower-casing distributes over concatenation |
| Assets.ImagePath | src/Components/Products.jsx:49 | the picture `src` is `/images/` followed by the image reference, unchanged |
| CategoryName.SplitCamelScan | src/Components/Products.jsx:8 | the engine's left-to-right scan for `/([a-z])([A-Z])/g`: at a lowercase letter followed by an uppercase one it writes both with a space between and resumes behind the pair; any other character is copied |
| CategoryName.SplitCamel | src/Components/Products.jsx:8 | inserting a space at every lowercase-to-uppercase boundary adds one character per boundary, keeps the first character and leaves no such boundary |
| CategoryName.SplitCamelScanIsInsertion | src/Components/Products.jsx:8 | the engine's scan for `/([a-z])([A-Z])/g` from any position equals inserting a space at every boundary of the rest |
| CategoryName.SplitAcronymScan | src/Components/Products.jsx:9 | the engine's scan for `/([A-Z])([A-Z][a-z])/g`: at a capital-capital-small triple it writes a space after the first capital and resumes behind the triple; any other character is copied |
| CategoryName.SplitAcronym | src/Components/Products.jsx:9 | inserting a space before the last capital of every capital-capital-small triple adds one character per triple and leaves no such triple |
| CategoryName.SplitAcronymScanIsInsertion | src/Components/Products.jsx:9 | the engine's scan for `/([A-Z])([A-Z][a-z])/g` equals inserting a space at every acronym boundary |
| CategoryName.UnderscoresToSpaces | src/Components/Products.jsx:10 | `/_/g` to a space keeps the length, turns every `_` into a space, leaves no `_` and changes no other character |
| CategoryName.StartsWord | src/Components/Products.jsx:12 | where `\b\w` matches: a word character at the start of the text or after a non-word character |
| CategoryName.TitleCased | src/Components/Products.jsx:11-12 | the shape the last two passes promise: the first character of every word-character run is not a lowercase letter, and no other character is an uppercase letter |
| CategoryName.CapitalizeWords | src/Components/Products.jsx:12 | `\b\w` upper-casing keeps the length |
| CategoryName.CapitalizeWordsKeepsLetters | src/Components/Products.jsx:11-12 | on text without capitals, upper-casing word starts changes letter case only: lower-casing the result gives the input back |
| CategoryName.TitleCasedUnique | src/Components/Products.jsx:11-12 | two title-cased texts that agree up to letter case are equal |
| CategoryName.CapitalizeWordsTitleCases | src/Components/Products.jsx:11-12 | on text without capitals, upper-casing the first character of every word-character run leaves the first of every run not lowercase and every other letter not uppercase |
| CategoryName.FormatCategoryName | src/Components/Products.jsx:6-13 | `formatCategoryName`: the pass 1 scan, the pass 2 scan, underscores to spaces, lower-casing and capitalizing word starts, in that order; its result is the one title-cased text whose letters, up to case, are the key with a space at every camel-case and acronym boundary and spaces for underscores (`FormatCategoryNameShape`, `FormatCategoryNameLetters`, `FormatCategoryNameIsTheTitleCasing`) |
| CategoryName.FormatCategoryNameShape | src/Components/Products.jsx:6-13 | the formatted category holds no `_`, is title-cased, and is as long as the input plus the spaces passes 1 and 2 inserted |
| CategoryName.FormatCategoryNameLetters | src/Components/Products.jsx:6-13 | up to letter case, the formatted category is the key with a space inserted at every camel-case and acronym boundary and every `_` turned into a space |
| CategoryName.FormatCategoryNameIsTheTitleCasing | src/Components/Products.jsx:6-13 | any title-cased text that agrees with that spaced key up to letter case is the formatted category, so the result is determined |
| CategoryName.TitleCasedHasNoBoundary | src/Components/Products.jsx:8-9 | title-cased text has neither a camel-case nor an acronym boundary, so passes 1 and 2 find nothing in it |
| CategoryName.SplitCamelFixes | src/Components/Products.jsx:8 | text without a camel-case boundary is left unchanged by pass 1 |
| CategoryName.SplitAcronymFixes | src/Components/Products.jsx:9 | text without an acronym boundary is left unchanged by pass 2 |
| CategoryName.SplitCamelScanFixes | src/Components/Products.jsx:8 | the engine's pass 1 scan leaves such text unchanged |
| CategoryName.SplitAcronymScanFixes | src/Components/Products.jsx:9 | the engine's pass 2 scan leaves such text unchanged |
| CategoryName.CapitalizeWordsRestoresTitleCased | src/Components/Products.jsx:11-12 | lower-casing title-cased text and capitalizing its words gives the text back |
| CategoryName.FormatCategoryNameFixesTitleCased | src/Components/Products.jsx:6-13 | title-cased text without `_` is its own formatted name |
| CategoryName.FormatCategoryNameIdempotent | src/Components/Products.jsx:6-13 | formatting a formatted category name changes nothing |
| CategoryNameExamples.FormatCamelCaseExample | src/Components/Products.jsx:6-13 | `indoorPlants` becomes `Indoor Plants` |
| CategoryNameExamples.FormatSnakeCaseExample | src/Components/Products.jsx:6-13 | `CLEARANCE_sale` becomes `Clearance Sale` |
| CategoryNameExamples.FormatOneWordExample | src/Components/Products.jsx:6-13 | `pots` becomes `Pots` |
| ProductSlug.SkipSpaces | src/Components/Products.jsx:16 | the greedy `\s+` from a position ends at the first non-whitespace character, and everything it passes over is whitespace |
| ProductSlug.HyphenateFrom | src/Components/Products.jsx:16 | the engine's scan for `/\s+/g` from a position: a whitespace character starts a run that the greedy `+` takes whole (up to SkipSpaces), one `-` is written for it and the scan resumes behind it; any other character is copied |
| ProductSlug.Hyphenate | src/Components/Products.jsx:16 | `.replace(/\s+/g, "-")`: the scan from the start of the text |
| ProductSlug.Slug | src/Components/Products.jsx:15-17 | `formatProductNameForURL`: lower-case the name, then hyphenate; its properties are the lemmas below |
| ProductSlug.HyphenateFromClean | src/Components/Products.jsx:16 | `/\s+/g` to `-` leaves no whitespace, and every other output character comes from the scanned input |
| ProductSlug.SlugClean | src/Components/Products.jsx:15-17 | a slug holds neither whitespace nor uppercase letters, only hyphens and characters of the lower-cased name |
| ProductSlug.HyphenateFromCopies | src/Components/Products.jsx:16 | a stretch without whitespace is copied unchanged |
| ProductSlug.HyphenateFromWithoutSpaces | src/Components/Products.jsx:16 | text without whitespace is unchanged by the hyphen replace |
| ProductSlug.SlugWithoutSpaces | src/Components/Products.jsx:15-17 | the slug of a name without whitespace is the name lower-cased |
| ProductSlug.SkipSpacesShift | src/Components/Products.jsx:16 | a whitespace run in the tail of a concatenation ends where it ends in the tail alone |
| ProductSlug.HyphenateFromShift | src/Components/Products.jsx:16 | scanning the tail of a concatenation is scanning the tail alone |
| ProductSlug.SkipSpacesPrefix | src/Components/Products.jsx:16 | a run inside text that ends in non-whitespace stops inside it, whatever follows |
| ProductSlug.HyphenateFromSplit | src/Components/Products.jsx:16 | text ending in non-whitespace is hyphenated on its own: the hyphenation of it followed by anything is its hyphenation followed by that of the rest |
| ProductSlug.SkipSpacesOver | src/Components/Products.jsx:16 | skipping whitespace from inside a run ends where skipping from later in the run does |
| ProductSlug.HyphenateLeadingRun | src/Components/Products.jsx:16 | a leading whitespace run becomes exactly one hyphen |
| ProductSlug.HyphenateRun | src/Components/Products.jsx:16 | a maximal whitespace run between two texts becomes exactly one hyphen, and each side is hyphenated on its own |
| ProductSlug.SlugRun | src/Components/Products.jsx:15-17 | the slug of a name with a maximal whitespace run is the slug of each side joined by one hyphen |
| ProductSlug.SlugIdempotent | src/Components/Products.jsx:15-17 | the slug of a slug is the slug itself |
| ProductSlug.SlugExample | src/Components/Products.jsx:15-17 | `Monstera   Deliciosa` becomes `monstera-deliciosa` |
| Products.Heading | src/Components/Products.jsx:28 | the grid heading: the formatted category when one is present and non-empty (JavaScript truthiness), else "All Products" |
| Products.AllProductsTitleCased | src/Components/Products.jsx:28 | the fallback heading "All Products" is title-cased and has no `_` |
| Products.HeadingShape | src/Components/Products.jsx:28 | the heading is the formatted category when one is present and non-empty, and "All Products" otherwise; either way it is non-empty, title-cased and has no `_` |
| Products.HeadingIsStable | src/Components/Products.jsx:28 | choosing the shown heading as the category shows the same heading |
| Products.ProductPath | src/Components/Products.jsx:41 | the card link is `/products/` followed by the slug of the product name |
| Products.ProductPathClean | src/Components/Products.jsx:41 | behind `/products/` the link holds neither whitespace nor uppercase letters |
| Products.ProductPathOfSlug | src/Components/Products.jsx:41 | a product named by its own slug links to the same page |
| Products.ProductPathIgnoresCase | src/Components/Products.jsx:41 | names differing only in letter case link to the same page |
| Products.CardOf | src/Components/Products.jsx:33-59 | a card is keyed by the product id, links to the product path, shows the image path, the name as caption and alt text, and the price |
| Products.Grid | src/Components/Products.jsx:32-61 | one card per product, in order |
| Products.GridAppend | src/Components/Products.jsx:32 | the grid of two product lists is the two grids one after the other |
| Products.GridKeys | src/Components/Products.jsx:34 | distinct product ids give distinct card keys |
| Cart.AddItemAction | src/Components/Cart.jsx:12-15 | increment dispatches `updateQuantity` with the same id and the quantity plus one |
| Cart.RemoveItemAction | src/Components/Cart.jsx:17-24 | decrement dispatches `updateQuantity(id, q - 1)` exactly when q > 1, so never below 1, and `removeItem(item)` exactly when q <= 1 |
| Cart.ClearCartAction | src/Components/Cart.jsx:26-28 | clear dispatches `clearCart()` whatever the cart holds |
| Cart.AddThenRemove | src/Components/Cart.jsx:12-24 | decrement after increment asks for the quantity the line had before |
| Cart.RemoveThenAdd | src/Components/Cart.jsx:12-24 | increment after a decrement that updated asks for the quantity the line had before |
| Cart.LineTotal | src/Components/Cart.jsx:30 | one line's contribution to the total: price times quantity |
| Cart.Sum | src/Components/Cart.jsx:30 | the reference total: 0 for no lines, else the first line total plus the sum of the rest |
| Cart.TotalFrom | src/Components/Cart.jsx:30 | the `reduce` callback folded left to right: the accumulator, plus each line total in turn |
| Cart.TotalFromIsSum | src/Components/Cart.jsx:30 | the `reduce` from an accumulator adds the sum of the line totals to it |
| Cart.TotalPrice | src/Components/Cart.jsx:30 | the total, folded from 0, is the sum of price times quantity over the lines |
| Cart.SumAppend | src/Components/Cart.jsx:30 | the sum over two lists of lines is the sum of their sums |
| Cart.TotalAppend | src/Components/Cart.jsx:30 | the empty cart totals 0, and the total of two carts is the sum of their totals |
| Cart.SumWithout | src/Components/Cart.jsx:30 | taking a line out of a cart takes its line total out of the sum |
| Cart.MultisetWithout | src/Components/Cart.jsx:30 | taking a line out of a cart takes one copy of it out of the cart's multiset |
| Cart.SumPermutation | src/Components/Cart.jsx:30 | carts with the same lines in any order have the same sum |
| Cart.TotalPermutation | src/Components/Cart.jsx:30 | carts with the same lines in any order have the same total |
| Cart.SumNonNegative | src/Components/Cart.jsx:30 | with no negative price or quantity the sum is not negative |
| Cart.TotalNonNegative | src/Components/Cart.jsx:30 | with no negative price or quantity the total is not negative |
| Cart.RowOf | src/Components/Cart.jsx:61-97 | a row is keyed by the line id and shows the image path, the name, the unit price and the quantity |
| Cart.Panel | src/Components/Cart.jsx:45-123 | an empty cart shows the empty-state message alone; otherwise one row per line in order, then the total, Clear Cart and Checkout |
| Cart.EmptyCartShowsOnlyMessage | src/Components/Cart.jsx:45-54 | the empty-state message shows exactly when the cart is empty, and then nothing else in the panel does; the total, Clear Cart and Checkout show exactly when it is not, and every line has its row |
| Cart.BubblePath | src/Components/Cart.jsx:126-150 | the handlers a click meets on its way up, innermost first: Checkout sets true; the backdrop sets false; the dialog body stops propagation before the backdrop; Close sets false, then the dialog body stops it; elsewhere meets none |
| Cart.Bubble | src/Components/Cart.jsx:132-144 | runs the handlers in order and stops at the first `stopPropagation`; the last value set wins |
| Cart.Step | src/Components/Cart.jsx:126-150 | `isPopupVisible` after one click: the handlers of its path applied to the current value |
| Cart.Run | src/Components/Cart.jsx:10 | `isPopupVisible` after a sequence of clicks, each step applied to the value the previous one left |
| Cart.StepOutcomes | src/Components/Cart.jsx:32-34 | Checkout shows the dialog, the backdrop and Close hide it, and a click in the dialog body or elsewhere leaves it as it was |
| Cart.OpenedAfterQuietClick | src/Components/Cart.jsx:139 | a click that reaches no state setter changes nothing about which click last opened or closed the dialog |
| Cart.NotOpenedAfterClosingClick | src/Components/Cart.jsx:132 | after a click on the backdrop or Close, no earlier Checkout keeps the dialog open |
| Cart.RunVisibleIff | src/Components/Cart.jsx:10 | after a run of clicks the dialog shows exactly when the last click that changed it was on Checkout, or no click changed it and it showed before |
| Cart.ShownOnlyAfterCheckout | src/Components/Cart.jsx:10 | the dialog, hidden at first, shows only after some click on Checkout |
| Cart.CheckoutPopup.constructor | src/Components/Cart.jsx:10 | the dialog starts hidden |
| Cart.CheckoutPopup.Checkout | src/Components/Cart.jsx:32-34 | `handleCheckout` makes the dialog visible, the same step as a click on the Checkout button |
| Cart.CheckoutPopup.Click | src/Components/Cart.jsx:126-150 | a click sets the dialog state through every handler it meets: Checkout shows it, backdrop and Close hide it, the dialog body and the rest of the page leave it unchanged |

## Left out

- Unicode case mapping: `toLowerCase` and `toUpperCase` change ASCII letters
  only. Other letters are left as they are.
- Strings are sequences of Unicode code points, not UTF-16 code units, so
  characters outside the Basic Multilingual Plane are one character here.
- Prices are whole cents, not JavaScript floating-point numbers. The total
  therefore has no rounding error, and the `toFixed(2)` rendering of it
  (src/Components/Cart.jsx:106) and the `$price` text of cards and rows are
  not modelled.
- Quantities are integers, as the store keeps them; JavaScript number
  arithmetic on them is not modelled. A fractional quantity such as 1.5,
  which the store never holds, would pass the `> 1` test of the decrement
  handler and ask for 0.5; beyond 2^53, adding 1 would round back.
- Cart.RemoveItemAction: its promise that an update never asks for fewer
  than one holds for integer quantities only, as above.
- Cart.AddThenRemove: the round trip holds for integer quantities, without
  the rounding of JavaScript numbers beyond 2^53.
- The redux store and its `cartSlice` reducers are not part of this model.
  Only the action each handler dispatches is modelled, not the cart that
  results.
- The `console.log` calls in the handlers are output only.
- Animation (`motion`, `AnimatePresence`), the `Helmet` page title and
  description, CSS classes (including the `uppercase` styling of names and
  headings), and the `state` payload of the product `Link` are presentation
  only.
- The "Cart" title and the dialog's fixed texts are constant markup.
- Event delivery is modelled only through the handlers a click meets on its
  way up. Focus, keyboard activation and React's batching of state updates
  are left out; with batching, the last value set wins, which is what the
  model computes.
