/**
  The admin panel's form logic: the product and category forms, the choice
  between creating and updating on submit, the reset after submit or cancel,
  the mapping from a product to its edit form, and the stock badge.
*/
module Admin {
  import opened Wrappers
  import opened Numerals
  import opened Records
  import opened Slug
  import opened Text

  /** The product form: every field is the text of an input element. */
  datatype ProductForm = ProductForm(
    name: string, slug: string, price: string, originalPrice: string, stock: string,
    category: string, rating: string, reviews: string, description: string,
    img: string, badge: string)

  datatype CategoryForm = CategoryForm(name: string, slug: string)

  const EmptyProductForm := ProductForm("", "", "", "", "", "", "", "", "", "", "")
  const EmptyCategoryForm := CategoryForm("", "")

  /** The panel's state: which record, if any, is being edited, and the two forms. */
  datatype AdminState = AdminState(
    editingProduct: Option<Product>,
    productForm: ProductForm,
    editingCategory: Option<Category>,
    categoryForm: CategoryForm)

  const InitialState := AdminState(None, EmptyProductForm, None, EmptyCategoryForm)

  datatype HttpMethod = Post | Put

  /** A request the panel sends: HTTP verb, path and JSON body. */
  datatype ApiCall<B> = ApiCall(verb: HttpMethod, path: string, body: B)

  /** What a submit sends, and the state it leaves behind. */
  datatype Submission<B> = Submission(call: ApiCall<B>, next: AdminState)

  /** A non-empty slug field is kept; an empty one is derived from the name. */
  function EffectiveSlug(name: string, slug: string): (r: string)
    ensures slug != "" ==> r == slug
    ensures slug == "" ==> r == DeriveSlug(name)
    ensures slug == "" ==> forall i :: 0 <= i < |r| ==> !IsSpace(r[i])
  {
    if slug != "" then slug else DeriveSlug(name)
  }

  /**
    `handleProductSubmit`: PUT to the edited product's URL, or POST to the
    collection. `delivered` is whether `fetch` resolved; when it throws, the
    panel only alerts and keeps its state.
  */
  function SubmitProduct(st: AdminState, delivered: bool): (s: Submission<ProductForm>)
    ensures s.call.body == st.productForm.(slug := EffectiveSlug(st.productForm.name, st.productForm.slug))
    ensures s.call.verb == Put <==> st.editingProduct.Some?
    ensures st.editingProduct.Some? ==> s.call.path == "/api/products/" + IntToString(st.editingProduct.value.id)
    ensures st.editingProduct.None? ==> s.call.path == "/api/products"
    ensures delivered ==> s.next == st.(editingProduct := None, productForm := EmptyProductForm)
    ensures !delivered ==> s.next == st
  {
    var body := st.productForm.(slug := EffectiveSlug(st.productForm.name, st.productForm.slug));
    var call := match st.editingProduct
      case Some(p) => ApiCall(Put, "/api/products/" + IntToString(p.id), body)
      case None => ApiCall(Post, "/api/products", body);
    var next := if delivered then st.(editingProduct := None, productForm := EmptyProductForm) else st;
    Submission(call, next)
  }

  /** `handleCategorySubmit`: the same rule for categories. */
  function SubmitCategory(st: AdminState, delivered: bool): (s: Submission<CategoryForm>)
    ensures s.call.body == st.categoryForm.(slug := EffectiveSlug(st.categoryForm.name, st.categoryForm.slug))
    ensures s.call.verb == Put <==> st.editingCategory.Some?
    ensures st.editingCategory.Some? ==> s.call.path == "/api/categories/" + IntToString(st.editingCategory.value.id)
    ensures st.editingCategory.None? ==> s.call.path == "/api/categories"
    ensures delivered ==> s.next == st.(editingCategory := None, categoryForm := EmptyCategoryForm)
    ensures !delivered ==> s.next == st
  {
    var body := st.categoryForm.(slug := EffectiveSlug(st.categoryForm.name, st.categoryForm.slug));
    var call := match st.editingCategory
      case Some(c) => ApiCall(Put, "/api/categories/" + IntToString(c.id), body)
      case None => ApiCall(Post, "/api/categories", body);
    var next := if delivered then st.(editingCategory := None, categoryForm := EmptyCategoryForm) else st;
    Submission(call, next)
  }

  /** `handleProductCancel`. */
  function CancelProduct(st: AdminState): (next: AdminState)
    ensures next.editingProduct.None? && next.productForm == EmptyProductForm
    ensures next.editingCategory == st.editingCategory && next.categoryForm == st.categoryForm
  {
    st.(editingProduct := None, productForm := EmptyProductForm)
  }

  /** `handleCategoryCancel`. */
  function CancelCategory(st: AdminState): (next: AdminState)
    ensures next.editingCategory.None? && next.categoryForm == EmptyCategoryForm
    ensures next.editingProduct == st.editingProduct && next.productForm == st.productForm
  {
    st.(editingCategory := None, categoryForm := EmptyCategoryForm)
  }

  /**
    `handleProductEdit`: the form shows the product's fields as text. The
    form reads back as the product: text fields are copied, every number
    parses to its value, and an absent original price or badge shows as the
    empty string. An empty form field for the original price means it was
    absent; an empty badge field may also come from a present empty badge.
  */
  function ProductToForm(p: Product): (f: ProductForm)
    ensures f.name == p.name && f.slug == p.slug
    ensures f.description == p.description && f.img == p.img
    ensures ParseHundredths(f.price) == Some(p.price)
    ensures ParseHundredths(f.rating) == Some(p.rating)
    ensures ParseInt(f.stock) == Some(p.stock)
    ensures ParseInt(f.category) == Some(p.category)
    ensures ParseInt(f.reviews) == Some(p.reviews)
    ensures p.originalPrice.None? <==> f.originalPrice == ""
    ensures p.originalPrice.Some? ==> ParseHundredths(f.originalPrice) == p.originalPrice
    ensures p.badge.None? ==> f.badge == ""
    ensures p.badge.Some? ==> f.badge == p.badge.value
  {
    HundredthsRoundTrip(p.price);
    HundredthsRoundTrip(p.rating);
    IntRoundTrip(p.stock);
    IntRoundTrip(p.category);
    IntRoundTrip(p.reviews);
    ProductForm(
      p.name, p.slug, ShowHundredths(p.price),
      match p.originalPrice {
        case Some(v) => HundredthsRoundTrip(v); ShowHundredths(v)
        case None => ""
      },
      IntToString(p.stock), IntToString(p.category), ShowHundredths(p.rating),
      IntToString(p.reviews), p.description, p.img,
      match p.badge { case Some(b) => b case None => "" })
  }

  function EditProduct(st: AdminState, p: Product): (next: AdminState)
    ensures next.editingProduct == Some(p) && next.productForm == ProductToForm(p)
    ensures next.editingCategory == st.editingCategory && next.categoryForm == st.categoryForm
  {
    st.(editingProduct := Some(p), productForm := ProductToForm(p))
  }

  /** `handleCategoryEdit`. */
  function EditCategory(st: AdminState, c: Category): (next: AdminState)
    ensures next.editingCategory == Some(c) && next.categoryForm == CategoryForm(c.name, c.slug)
    ensures next.editingProduct == st.editingProduct && next.productForm == st.productForm
  {
    st.(editingCategory := Some(c), categoryForm := CategoryForm(c.name, c.slug))
  }

  /**
    Editing a product and submitting the form untouched updates that very
    product, sends its own values back, and returns the panel to create mode.
  */
  lemma EditThenSubmit(st: AdminState, p: Product)
    requires p.slug != ""
    ensures var s := SubmitProduct(EditProduct(st, p), true);
      && s.call.verb == Put
      && s.call.path == "/api/products/" + IntToString(p.id)
      && s.call.body == ProductToForm(p)
      && s.next.editingProduct.None? && s.next.productForm == EmptyProductForm
  {
  }

  /** After a delivered submit or a cancel, the next product submit creates. */
  lemma ResetMeansCreate(st: AdminState, delivered: bool)
    ensures SubmitProduct(SubmitProduct(st, true).next, delivered).call.verb == Post
    ensures SubmitProduct(CancelProduct(st), delivered).call.verb == Post
    ensures SubmitCategory(SubmitCategory(st, true).next, delivered).call.verb == Post
    ensures SubmitCategory(CancelCategory(st), delivered).call.verb == Post
  {
  }

  datatype StockBadge = Plenty | Low | Out

  /** The colour of the stock cell: green above 10, yellow from 1 to 10, red otherwise. */
  function BadgeFor(stock: int): (b: StockBadge)
    ensures b == Plenty <==> stock > 10
    ensures b == Low <==> 0 < stock <= 10
    ensures b == Out <==> stock <= 0
  {
    if stock > 10 then Plenty else if stock > 0 then Low else Out
  }

  function Severity(b: StockBadge): nat {
    match b
    case Plenty => 0
    case Low => 1
    case Out => 2
  }

  /** More stock never shows a more alarming badge. */
  lemma BadgeMonotone(a: int, b: int)
    requires a <= b
    ensures Severity(BadgeFor(b)) <= Severity(BadgeFor(a))
  {
  }
}
