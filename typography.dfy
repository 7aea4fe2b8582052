/** The `Typography` component of the theme-provider module: which element a variant renders as. */
module Typography {
  import opened Wrappers

  /** `variantMapping`: headings keep their own tag, body text is a paragraph and the small
      variants are inline spans. */
  const VariantMapping: map<string, string> := map[
    "h1" := "h1", "h2" := "h2", "h3" := "h3", "h4" := "h4", "h5" := "h5", "h6" := "h6",
    "body1" := "p", "caption" := "span", "overline" := "span"]

  const DefaultVariant := "body1"
  const FallbackTag := "p"

  /** What reaches `StyledTypography`: the element it renders as and the variant it styles. */
  datatype Rendered = Rendered(element: string, variant: string)

  /** `as || variantMapping[variant] || 'p'` with `variant = 'body1'` when not given; an empty
      `as` is falsy and does not count. */
  function Render(variant: Option<string>, element: Option<string>): (r: Rendered)
    ensures r.variant == variant.GetOr(DefaultVariant)
    ensures element.Some? && element.value != "" ==> r.element == element.value
    ensures (element.None? || element.value == "") && r.variant in VariantMapping ==>
      r.element == VariantMapping[r.variant]
    ensures (element.None? || element.value == "") && r.variant !in VariantMapping ==> r.element == FallbackTag
  {
    var v := variant.GetOr(DefaultVariant);
    if element.Some? && element.value != "" then Rendered(element.value, v)
    else if v in VariantMapping then Rendered(VariantMapping[v], v)
    else Rendered(FallbackTag, v)
  }

  /** Without `as`, the element is always one of the mapped tags or the fallback paragraph. */
  lemma RenderedTags(variant: Option<string>)
    ensures Render(variant, None).element in {"h1", "h2", "h3", "h4", "h5", "h6", "p", "span"}
  {
    var v := variant.GetOr(DefaultVariant);
    if v in VariantMapping {
      assert v == "h1" || v == "h2" || v == "h3" || v == "h4" || v == "h5" || v == "h6"
        || v == "body1" || v == "caption" || v == "overline";
    }
  }

  /** The variant table itself: headings map to themselves, `body1` (the default) to `p`,
      `caption` and `overline` to `span`. */
  lemma MappingTable()
    ensures forall h :: h in {"h1", "h2", "h3", "h4", "h5", "h6"} ==> Render(Some(h), None).element == h
    ensures Render(None, None) == Rendered("p", "body1")
    ensures Render(Some("caption"), None).element == "span" && Render(Some("overline"), None).element == "span"
  {
  }
}
