/** The parsed page as the extractors see it: the elements of interest in document order,
    plus the library functions the scraper calls but that are not part of this model. */
module Html {
  import opened Text

  datatype Tag = H1 | H2 | H3 | H4 | P | Li | Tr | Img | A | Other

  /** One element of the parse tree, in the order a tree search by tag name returns it.
      Nested elements appear after their parent, and the parent's text includes theirs. */
  datatype Element = Element(
    tag: Tag,
    text: string,                // the concatenated raw text of the element and its descendants
    src: string,                 // the element's own "src" attribute, "" when absent
    alt: string,                 // the element's own "alt" attribute, "" when absent
    innerImg: Option<string>,    // "src" of the first img inside the element ("" when it has none)
    innerHref: Option<string>,   // "href" of the first a inside the element ("" when it has none)
    innerMailto: Option<string>  // "href" of the first a inside the element whose href begins with "mailto:"
  )

  /** Library functions treated as opaque: Unicode NFKC normalisation, URL joining, percent-decoding. */
  datatype Externals = Externals(
    nfkc: string -> string,
    urljoin: (string, string) -> string,
    unquote: string -> string
  )

  const BaseUrl: string := "https://sbl.csie.org/JuanLab"

  predicate IsH1To3(t: Tag) { t == H1 || t == H2 || t == H3 }

  predicate IsH1To4(t: Tag) { t == H1 || t == H2 || t == H3 || t == H4 }

  predicate IsH2To4(t: Tag) { t == H2 || t == H3 || t == H4 }
}
