/**
  The catalog records as the browser receives them from the products and
  categories endpoints. Money is held in cents, since `price` and
  `originalPrice` are DECIMAL(10,2) columns, and `rating` in hundredths,
  since it is a DECIMAL(3,2) column; both are exact.
*/
module Records {
  import opened Wrappers

  datatype Category = Category(id: int, name: string, slug: string)

  datatype Product = Product(
    id: int,
    name: string,
    slug: string,
    price: int,                 // cents
    originalPrice: Option<int>, // cents; absent when the column is NULL
    stock: int,
    category: int,              // id of a Category
    rating: int,                // hundredths of a star
    reviews: int,
    description: string,
    img: string,
    badge: Option<string>)

  /**
    A product as the storefront lists it: the record plus the display name of
    its category (`category_name`), attached on the client.
  */
  datatype Listing = Listing(product: Product, categoryName: string)
}
