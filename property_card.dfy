/** The description excerpt a property card shows: the first 80 characters of
    the description, followed by an ellipsis when something was cut off.
    Lengths count characters of the model's strings. */
module PropertyCard {
  import opened JsValues

  /** How many characters of the description the card shows. */
  const ShownLength: nat := 80

  const Ellipsis: string := "..."

  /** `{description?.slice(0, 80)}{description?.length > 80 ? "..." : ""}`.
      Optional chaining turns a missing description into empty text; calling
      `slice` on any other non-string value throws. */
  function Excerpt(description: JsValue): (r: Completion<string>)
    ensures r.Normal? <==> description.Undefined? || description.Null? || description.Str?
    ensures description.Undefined? || description.Null? ==> r == Normal("")
    ensures description.Str? && |description.s| <= ShownLength ==> r == Normal(description.s)
    ensures description.Str? && |description.s| > ShownLength ==>
      r.Normal? && |r.value| == ShownLength + |Ellipsis|
      && r.value[..ShownLength] == description.s[..ShownLength]
      && r.value[ShownLength..] == Ellipsis
    ensures r.Normal? ==> |r.value| <= ShownLength + |Ellipsis|
  {
    match description
    case Undefined => Normal("")
    case Null => Normal("")
    case Str(d) =>
      if |d| > ShownLength then Normal(d[..ShownLength] + Ellipsis) else Normal(d)
    case _ => ThrowTypeError
  }

  /** The card shows a description unchanged exactly when it is short enough,
      or when its 81st to 83rd characters are themselves "..." and nothing
      follows them, so that the excerpt reproduces it. */
  lemma ExcerptUnchanged(d: string)
    ensures Excerpt(Str(d)) == Normal(d) <==>
      |d| <= ShownLength || (|d| == ShownLength + |Ellipsis| && d[ShownLength..] == Ellipsis)
  {
    if |d| > ShownLength && Excerpt(Str(d)) == Normal(d) {
      assert |d| == ShownLength + |Ellipsis|;
      assert d[ShownLength..] == Excerpt(Str(d)).value[ShownLength..];
    }
    if |d| == ShownLength + |Ellipsis| && d[ShownLength..] == Ellipsis {
      assert d == d[..ShownLength] + d[ShownLength..];
    }
  }
}
