/** The records the scraper harvests and the shapes of what it reads from the site. */
module Catalog {
  import opened Wrappers

  type byte = b: int | 0 <= b < 256

  /** The site's address, prefixed to every relative link the scraper follows. */
  const BaseURL: string := "https://www.stanki.ru"
  /** Default pause, in milliseconds, before every page request. */
  const DefaultDelayMs: nat := 500

  /** One catalog item; `id` is its identity. */
  datatype Product = Product(
    id: string,
    name: string,
    url: string,
    description: string,
    price: string,
    imageURL: string,
    category: string,
    features: seq<string>)

  /** A catalog category; `url` is its identity. */
  datatype Category = Category(name: string, url: string)

  /** An element of a parsed page: its text content and its attributes. */
  datatype Element = Element(text: string, attrs: map<string, string>)

  /** goquery's `Attr`: the attribute's value, if the element has it. */
  function Attr(e: Element, name: string): Option<string> {
    if name in e.attrs then Some(e.attrs[name]) else None
  }

  /** `v, _ := s.Attr(name)`: the attribute's value, or "" when it is absent. */
  function AttrOrEmpty(e: Element, name: string): string {
    if name in e.attrs then e.attrs[name] else ""
  }

  /** Why fetching or reading a page failed. */
  datatype FetchError =
    | NetworkExhausted(attempts: int, cause: Option<string>)
    | BadStatus(code: int)
    /** The body could not be read or parsed as HTML: what the page readers the model takes as parameters report. */
    | ReadFailure(message: string)

  /** What one HTTP GET returned: a status code and the body's bytes. */
  datatype Response = Response(status: int, body: seq<byte>)
}
