/**
 * The product records the catalog endpoint returns, as the controller reads
 * them.
 */
module Products {

  datatype Option<T> = None | Some(value: T)

  /** One entry of an `images` array: a string, or a value treated as
      empty. Null and undefined are empty in the code itself. Any other
      non-string value is treated as empty too, on the assumption that its
      text does not pass the URL filter; a nested array of URLs breaks that
      assumption. */
  datatype RawImage = Absent | Url(text: string)

  /** The `images` field: an array, a single string, or anything else. */
  datatype ImagesField = ImageList(entries: seq<RawImage>) | ImageText(text: string) | NoImages

  /** A catalog record. `price` is whole-valued here; `category` holds the
      category's name when the record has one. */
  datatype Product = Product(
    id: int,
    title: string,
    price: int,
    category: Option<string>,
    description: Option<string>,
    images: ImagesField)
}
