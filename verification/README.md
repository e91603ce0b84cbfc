# Astrea storefront: the pure decision logic, modelled in Dafny

The Astrea e-commerce site is a Next.js application over a MySQL catalog.
Once its network, database and rendering plumbing is set aside, four small
decision procedures remain. This project models them as pure Dafny
functions over immutable records and proves what the code promises.

- **Catalog view** (`Dashboard`). Each product gets the name of its
  category. The list is then narrowed by a case-insensitive search over
  name and description, narrowed again by the selected category id, and
  sorted by one of five modes.
- **Admin forms** (`Admin`, `Slug`). A slug left empty is derived from the
  name. Submit sends PUT when an entity is being edited and POST
  otherwise, then resets the form. Cancel also resets. Editing copies a
  product into the text fields of its form. The stock column shows a
  three-way badge.
- **Image upload** (`Upload`). The endpoint checks, in this order, that a
  file is present, that its MIME type is JPEG, PNG or WebP, and that it is
  at most 5 MiB. It then names the stored file from a timestamp, a random
  base-36 fragment and an extension chosen by type, and answers with
  `/uploads/<filename>`. The image endpoint that serves the file back
  (the guard on its name and the content type it picks by extension) is
  modelled as well, so that the extension chosen on upload can be checked
  against the content type the file is later served with. That endpoint is `src/app/api/uploads/[filename]/route.ts`: its name guard at
  line 16 is `Upload.NameAccepted` (with `Upload.NoDoubleDot`), and its
  content-type choice at lines 39-42 is `Upload.Extname` and
  `Upload.ContentTypeFor` (with `Upload.ContentTypeOfExtension`).
- **Product card** (`ProductCard`). A rating becomes exactly five star
  slots: full, half or empty. The card also decides when the
  struck-through original price is shown.

Representation choices:

- `price` and `originalPrice` are DECIMAL(10,2) columns, so money is an
  `int` number of cents. `rating` is DECIMAL(3,2), so it is an `int`
  number of hundredths.
- `Math.floor(rating)` is `rating / 100`. "Has a fractional part" is
  `rating % 100 != 0`.
- `Number.prototype.toString`, used wherever a number becomes form text
  or is compared with a select value, is written out by `Numerals` for
  integers of magnitude at most 2^53 and for two-decimal values with at
  most 15 significant digits. Every INT column, every DECIMAL(10,2) and
  DECIMAL(3,2) value and every `Date.now()` timestamp lies in that range.
  Parsers are provided beside it so that round trips can be stated.
- `toLowerCase` is modelled on the ASCII letters. The regular-expression
  class `\s` is the exact ECMAScript WhiteSpace and LineTerminator set.
  `includes` is a left-to-right substring search. `localeCompare` is
  code-point lexicographic order.
- `Array.prototype.sort` is stable (ECMA-262, 2019 and later), so sorting
  is a stable insertion sort. The comparator's sign becomes a total
  preorder `Le(mode, a, b)`. The source copies the list before sorting;
  the model's lists are values, so the input is never changed.
- `Date.now()`, `Math.random().toString(36)` and the outcome of the
  directory creation and file write are parameters of the upload handler.
  So is whether a submit's `fetch` resolved.

Modules: `Wrappers` (Option, Result), `Text`, `Numerals`, `Seqs` (filter and
subsequence), `Records`, `Sorting`, `Dashboard`, `Slug`, `Admin`, `Upload`,
`ProductCard`.

## Model

| member | source | states |
|---|---|---|
| Dashboard.FindCategory | src/components/Dashboard.tsx:51 | The lookup finds no category exactly when no id matches; otherwise it returns the index of the first category with the product's id. |
| Dashboard.CategoryName | src/components/Dashboard.tsx:51 | The shown name is "Unknown" when no category matches, and also when the first match's name is empty (the `||` fallback); otherwise it is the first match's name. It is never empty. |
| Dashboard.Enrich | src/components/Dashboard.tsx:49-52 | One listing per product, in the same order; each product is kept unchanged and paired with its category name. |
| Dashboard.SearchFilter | src/components/Dashboard.tsx:68-73 | An empty query returns the list unchanged. Otherwise a listing keeps exactly its multiplicity when it matches and is dropped when it does not. The result is an order-preserving subsequence of the input. |
| Dashboard.SearchFilterMeaning | src/components/Dashboard.tsx:68-73 | For a non-empty query, a listing is in the result iff it is in the input and the lower-cased query occurs at some position of the lower-cased name or the lower-cased description. |
| Dashboard.CategoryFilter | src/components/Dashboard.tsx:75-79 | An empty selection returns the list unchanged. Otherwise exactly the listings whose category id prints as the selected text are kept, each with its full multiplicity and in its original order. |
| Dashboard.CategoryFilterById | src/components/Dashboard.tsx:76-78 | Selecting the text of id `c` keeps exactly the listings of category `c`. |
| Dashboard.CategoryFilterNonNumeric | src/components/Dashboard.tsx:76-78 | A non-empty selected value that is not the decimal text of any integer matches nothing. |
| Dashboard.UnparsableSelectsNothing | src/components/Dashboard.tsx:76-78 | A non-empty selected value that does not parse as an integer matches nothing. |
| Dashboard.PaddedIdSelectsNothing | src/components/Dashboard.tsx:76-78 | "007" and "-0" parse as integers, yet they match nothing, because the filter compares printed text rather than numbers. |
| Dashboard.DisplayProducts | src/components/Dashboard.tsx:66-91 | The list shown has, for every listing, its input multiplicity when it passes both filters and zero otherwise. It is no longer than the input, and it is sorted under the mode chosen by the sort select. |
| Dashboard.NoFilterShowsAll | src/components/Dashboard.tsx:66-91 | With no query and no category, every listing is shown, and the displayed count equals the number of products. |
| Dashboard.FilterLength | src/components/Dashboard.tsx:107 | The count of shown products never exceeds the number of products, so the two filters never add entries. |
| Seqs.FilterCounts | src/components/Dashboard.tsx:69 | A filter keeps each passing element as often as it occurs and drops the rest, so it never lengthens its input. |
| Seqs.FilterIsSubseq | src/components/Dashboard.tsx:69 | A filter's result is a subsequence of its input: relative order is preserved. |
| Seqs.SubseqLength | src/components/Dashboard.tsx:107 | A subsequence is never longer than the sequence it comes from. |
| Seqs.FilterAppend | src/components/Dashboard.tsx:76 | Filtering distributes over concatenation. |
| Sorting.ParseSortMode | src/components/Dashboard.tsx:81-91 | Each of "price-low", "price-high", "rating" and "popular" selects its own mode, and every other value sorts by name. |
| Sorting.LeTotal | src/components/Dashboard.tsx:82-90 | Under every mode, any two listings are comparable. |
| Sorting.LeTrans | src/components/Dashboard.tsx:82-90 | Every mode's "may come before" relation is transitive. |
| Sorting.InsertionSortCorrect | src/components/Dashboard.tsx:82-90 | The sort returns a sorted permutation of its input. |
| Sorting.SortListings | src/components/Dashboard.tsx:81-91 | The sorted list is a permutation of the input. Price-low is non-decreasing in price; price-high is non-increasing in price; rating is non-increasing in rating; popular is non-increasing in reviews; name is non-decreasing in name. |
| Sorting.SortSortedIsIdentity | src/components/Dashboard.tsx:82-90 | Sorting a list already in order leaves it unchanged. |
| Sorting.SortIdempotent | src/components/Dashboard.tsx:82-90 | Sorting twice under the same mode equals sorting once. |
| Sorting.SortStable | src/components/Dashboard.tsx:82-90 | The sort is stable: listings that compare equal keep their input order. |
| Sorting.InsertStable | src/components/Dashboard.tsx:82-90 | Inserting into a sorted list puts the new element after everything it ties with. |
| Text.IncludesMeansOccurs | src/components/Dashboard.tsx:70-71 | `includes` succeeds exactly when the needle occurs at some index of the text. |
| Text.StrLeTotal | src/components/Dashboard.tsx:90 | Any two names are ordered one way or the other. |
| Text.StrLeTrans | src/components/Dashboard.tsx:90 | Name order is transitive. |
| Admin.EffectiveSlug | src/app/admin/page.tsx:126-128 | A non-empty slug field is submitted unchanged. An empty one is replaced by the slug derived from the name, which holds no whitespace. |
| Slug.DeriveSlug | src/app/admin/page.tsx:127 | A derived slug contains no whitespace character. |
| Slug.CollapseMatchesReference | src/app/admin/page.tsx:127 | The replacement agrees with an independent definition: a whitespace character after another whitespace character emits nothing; one that starts a run emits a single '-'; any other character is copied. |
| Slug.CollapseNoSpaces | src/app/admin/page.tsx:127 | Text without whitespace passes through the replacement unchanged. |
| Slug.CollapseIdempotent | src/app/admin/page.tsx:127 | Replacing whitespace runs a second time changes nothing. |
| Admin.SubmitProduct | src/app/admin/page.tsx:122-149 | The body is the form with its effective slug. The call is PUT to "/api/products/" followed by the product id exactly when a product is being edited, and POST to "/api/products" otherwise. A resolved call clears the edit target and empties every field; a failed call leaves the state as it was. |
| Admin.SubmitCategory | src/app/admin/page.tsx:151-178 | The same rule for categories, under "/api/categories". |
| Admin.CancelProduct | src/app/admin/page.tsx:229-232 | Cancel clears the product edit target and empties every product field, and leaves the category form alone. |
| Admin.CancelCategory | src/app/admin/page.tsx:224-227 | Cancel clears the category edit target and empties both category fields, and leaves the product form alone. |
| Admin.EditProduct | src/app/admin/page.tsx:180-195 | Editing sets the product as the edit target and fills the form from it, without touching the category form. |
| Admin.ProductToForm | src/app/admin/page.tsx:182-194 | Every form field reads back as the product's value: text fields are copied, and numbers parse back to the same value. The original-price field is empty exactly when the product has none. An absent badge becomes the empty string, and a present badge is copied, so a present empty badge also gives an empty field. |
| Admin.EditThenSubmit | src/app/admin/page.tsx:122-195 | Editing a product that has a slug and then submitting PUTs exactly that product's fields to its own URL, and then resets the form. |
| Admin.ResetMeansCreate | src/app/admin/page.tsx:143-144 | After a successful submit, or after cancel, the next submit creates (POST) rather than updates, for products and for categories. |
| Admin.EditCategory | src/app/admin/page.tsx:197-203 | Editing sets the category as the edit target and copies its name and slug into the form, without touching the product form. |
| Admin.BadgeFor | src/app/admin/page.tsx:639-645 | The badge is green iff stock > 10, yellow iff 0 < stock <= 10, and red iff stock <= 0; exactly one applies. |
| Admin.BadgeMonotone | src/app/admin/page.tsx:639-645 | More stock never gives a more severe badge. |
| Numerals.IntToString | src/app/admin/page.tsx:187-190 | An integer prints as an optional '-' (present exactly for negatives) followed by digits with no leading zero; "-0" never appears. IntRoundTrip is its inverse. |
| Numerals.ShowHundredths | src/app/admin/page.tsx:185-189 | A two-decimal value prints with a leading '-' exactly when negative. Its whole part starts with a digit and has no leading zero (a '0' there is the whole part). It contains a '.' exactly when it is not a whole number, and then never ends in '0'. HundredthsRoundTrip is its inverse. |
| Numerals.ParseNatToString | src/app/admin/page.tsx:187 | Reading back the decimal text of a non-negative integer gives that integer. |
| Numerals.IntRoundTrip | src/app/admin/page.tsx:187-190 | The text of any integer, negative ones included, parses back to it. |
| Numerals.IntToStringInjective | src/components/Dashboard.tsx:77 | Distinct category ids print differently, so the text comparison tells ids apart. |
| Numerals.HundredthsRoundTrip | src/app/admin/page.tsx:185-189 | The text of a two-decimal price or rating, trailing fraction zeros dropped as the number formatter does, parses back to the same number of hundredths. |
| Upload.Validate | src/app/api/upload/route.ts:11-32 | A missing or non-file field gives "no file". A file of another type gives "bad type". An allowed type above 5 MiB gives "too large". Success happens exactly when the type is allowed and the size is at most 5 MiB, and it yields the file itself. The first failing check wins. |
| Upload.SizeBoundary | src/app/api/upload/route.ts:27-32 | A file of exactly 5242880 bytes is accepted and one of 5242881 bytes is rejected as too large. |
| Text.Substring | src/app/api/upload/route.ts:36 | Within bounds the result is the usual slice. An end past the string is clamped to the string's length, a negative start is clamped to 0, and indices past the end give the empty string. The result never exceeds the string's length. |
| Text.SubstringSwap | src/app/api/upload/route.ts:36 | Reversed bounds give the same text as the bounds in order. |
| Upload.ExtensionFor | src/app/api/upload/route.ts:37-39 | The extension is one of ".jpg", ".png" and ".webp": a '.' followed by letters, with no further '.'. ExtensionRoundTrip pairs it with the served content type. |
| Upload.StoredName | src/app/api/upload/route.ts:40 | The name starts with the timestamp's digits and a '-', and ends with the extension. Between them come characters 2 to 14 of the random text, or all of it from index 2 when it is shorter, and nothing when it is shorter than 2. |
| Upload.HandleUpload | src/app/api/upload/route.ts:5-66 | An unreadable form gives 500 "Failed to upload file". Each validation failure gives 400 with its message. A failed directory creation gives 500 with its own message, and a failed write gives the generic 500. Success happens exactly when the file is valid and stored; the URL is "/uploads/" followed by the filename, and the filename is timestamp, dash, random fragment and the type's extension. |
| Upload.StoredNameServed | src/app/api/upload/route.ts:34-40 | A name the upload endpoint builds passes the image endpoint's guard, and is served with the MIME type that produced its extension. |
| Upload.UploadThenServe | src/app/api/upload/route.ts:34-62 | After a successful upload, the returned filename is accepted by the image endpoint and served with the uploaded file's own MIME type. |
| Upload.ExtensionRoundTrip | src/app/api/upload/route.ts:37-39 | Each accepted type's extension maps back to the same type, so the ".jpg" fallback is never needed after validation. |
| ProductCard.RenderStars | src/components/ProductCard.tsx:49-64 | There are always five slots. Slot i is full iff i is below the floor of the rating. It is a half star iff i equals that floor and the rating has a fractional part. |
| ProductCard.StarsApproximateRating | src/components/ProductCard.tsx:49-64 | For a rating between 0 and 5, at most one half star appears, and the stars (counting a half as 0.5) differ from the rating by less than half a star. |
| ProductCard.StarsAtTheEnds | src/components/ProductCard.tsx:49-64 | Five full stars appear exactly when the rating is at least 5, and a rating of 0 shows five empty stars. |
| ProductCard.StarsMonotone | src/components/ProductCard.tsx:49-64 | A higher rating never shows a lesser star in any slot. |
| ProductCard.ShownPriceIsDiscount | src/components/ProductCard.tsx:116 | For a non-negative price, the struck-through original price shows exactly when it is present and above the price; the zero test never changes the outcome. |

## Left out

- The cart store (add, update, remove, clear, totals, local storage): its implementation, `src/app/context/CartContext`, is not part of this model. The cart and checkout pages only call it.
- Checkout and cart money arithmetic (tax, service fee): floating-point values passed to a locale formatter.
- Database access and schema setup, and the products and categories endpoints: thin wrappers over the MySQL driver.
- Every `fetch`, the refresh of the lists after a submit, the delete handlers, the field-by-field input handlers and the client-side image upload helper: I/O and per-keystroke UI state. A submit's outcome is the `delivered` parameter.
- Browser-side `required` validation of the admin forms: not part of the scripts.
- The upload handler's `mkdir` and `writeFile`: the outcome is the `Storage` parameter. `Date.now()` and `Math.random().toString(36)` are the `timestamp` and `random36` parameters.
- The image endpoint's existence check and file read: I/O. Only its name guard and content-type choice are modelled.
- Rendering, styles, scrolling, timers and toasts: UI.
- Text.Lower: covers the ASCII letters only, not the full Unicode case mapping of `toLowerCase`.
- Text.StrLeTotal: `localeCompare` is locale-aware collation; the model orders names by code point, as the plain string comparison operators do.
- Strings are sequences of code points; UTF-16 surrogate pairs are not modelled.
- Numerals.IntToString: matches `Number.prototype.toString` only for integers of magnitude at most 2^53. Above that, the Number::toString operation of ECMA-262 prints the shortest digit string that rounds to the same double and pads it with zeros, so `(2**60).toString()` is "1152921504606847000" while the model prints all 19 digits of 1152921504606846976; from 1e21 upwards it switches to exponent notation. Numerals.ShowHundredths likewise matches only for values with at most 15 significant digits. Every value the program prints lies in range: the INT id, stock and review columns, DECIMAL(10,2) prices, DECIMAL(3,2) ratings and `Date.now()` (at most 8.64e15).
- Numerals.HundredthsRoundTrip: states the round trip for the model's two-decimal text; the range limit above applies to it as well.
- The database connection (`src/lib/db.ts:3-8`) sets no option for decimal columns, so the MySQL driver's default applies and DECIMAL columns arrive as text. The model assumes numbers throughout. The sort comparators subtract, which converts text to numbers, so the sorts are unaffected. The card's `>` at `src/components/ProductCard.tsx:116`, however, compares the two prices as strings, and an original price of "0.00" counts as present. The edit form also shows the column's own text, such as "1000.00" or "4.50", rather than what `Numerals.ShowHundredths` produces.
- Null values in the nullable columns `category`, `rating`, `reviews`, `description` and `img` (`src/lib/db.ts:47-51`): the model's product record requires all of them. With a null description, the search throws for every product whose name does not match (`src/components/Dashboard.tsx:71`). With a null `reviews`, opening the edit form throws at `src/app/admin/page.tsx:190`, after the edit target has already been set.
- Admin.SubmitProduct: a submit is one atomic step. In the source the handler awaits `fetch` (`src/app/admin/page.tsx:130-141`). During that wait a second submit can send another request, and the reset at lines 143-144 then overwrites any edits made meanwhile.
- Admin.SubmitCategory: the same interleaving at `src/app/admin/page.tsx:159-173` is not modelled.
- ProductCard.ShowsOriginalPrice carries no contract of its own; its meaning is stated by ShownPriceIsDiscount.
