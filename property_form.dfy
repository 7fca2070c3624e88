/** The "Add Property" form: the validation rules declared on its fields, the
    payload `handleFinish` builds from the validated values (price coerced to a
    number, a placeholder image when none is given), and what a finished
    submission does: call `onSubmit` once and show a success or an error toast. */
module PropertyForm {
  import opened JsStrings
  import opened JsValues

  /** The fields whose rule says `required: true`, in form order. */
  const RequiredFields: seq<string> := ["name", "type", "price", "location", "description"]

  /** The prefix of the placeholder image URL; the type (or "house") follows it. */
  const FallbackImageBase: string := "https://source.unsplash.com/400x300/?"

  const SuccessMessage: string := "Property added successfully!"
  const FailureMessage: string := "Failed to add property. Please try again."

  /** A `required` rule accepts a value unless it is missing, null or the empty
      string; a whitespace-only string is accepted. */
  predicate Provided(v: JsValue) {
    v != Undefined && v != Null && v != Str("")
  }

  /** The price input is an `InputNumber` with `min={0}`: it holds a number that
      is not below 0. */
  predicate PriceInRange(v: JsValue) {
    v.Num? && v.n >= 0
  }

  /** Whether the rules declared on field `f` accept the form values. The
      image field has no rule. */
  predicate FieldPasses(values: Record, f: string) {
    var v := Get(values, f);
    (f in RequiredFields ==> Provided(v)) && (f == "price" ==> PriceInRange(v))
  }

  /** The fields whose rules reject the values, in form order; the form calls
      `onFinish` only when there is none. */
  function FailingFields(values: Record): (r: seq<string>)
    ensures forall f :: f in r <==> f in RequiredFields && !FieldPasses(values, f)
    ensures r == [] <==> forall f | f in RequiredFields :: FieldPasses(values, f)
  {
    FailingAmong(values, RequiredFields)
  }

  function FailingAmong(values: Record, fs: seq<string>): (r: seq<string>)
    ensures forall f :: f in r <==> f in fs && !FieldPasses(values, f)
    ensures r == [] <==> forall f | f in fs :: FieldPasses(values, f)
  {
    if fs == [] then []
    else
      var rest := FailingAmong(values, fs[1..]);
      if FieldPasses(values, fs[0]) then rest else [fs[0]] + rest
  }

  /** `values.image && values.image.trim() !== "" ? values.image : `...${values.type || "house"}``.
      A truthy image that is not a string has no `trim` and throws. */
  function PayloadImage(values: Record): (r: Completion<JsValue>)
    ensures var image := Get(values, "image");
      && (image.Str? && !AllWhitespace(image.s) ==> r == Normal(image))
      && (!Truthy(image) || (image.Str? && AllWhitespace(image.s)) ==>
            r == Normal(Str(FallbackImageBase + DefaultImageTopic(Get(values, "type")))))
      && (r == ThrowTypeError <==> Truthy(image) && !image.Str?)
  {
    var image := Get(values, "image");
    if !Truthy(image) then Normal(Str(FallbackImageBase + DefaultImageTopic(Get(values, "type"))))
    else if !image.Str? then ThrowTypeError
    else if Trim(image.s) != "" then Normal(image)
    else Normal(Str(FallbackImageBase + DefaultImageTopic(Get(values, "type"))))
  }

  /** `${values.type || "house"}`. */
  function DefaultImageTopic(t: JsValue): (r: string)
    ensures !Truthy(t) ==> r == "house"
    ensures t.Str? && t.s != "" ==> r == t.s
  {
    if Truthy(t) then ToString(t) else "house"
  }

  /** `{ ...values, price: Number(values.price), image: ... }`. */
  function Payload(values: Record): (r: Completion<Record>)
    ensures r.Normal? <==> PayloadImage(values).Normal?
    ensures r.Normal? ==>
      && r.value.Keys == values.Keys + {"price", "image"}
      && r.value["price"] == ToNumber(Get(values, "price"))
      && r.value["image"] == PayloadImage(values).value
      && forall k | k in values && k != "price" && k != "image" :: r.value[k] == values[k]
  {
    match PayloadImage(values)
    case ThrowTypeError => ThrowTypeError
    case Normal(image) =>
      Normal(values["price" := ToNumber(Get(values, "price"))]["image" := image])
  }

  datatype Toast = SuccessToast(text: string) | ErrorToast(text: string)

  /** What pressing "Add Property" leads to: the rules reject some fields, or
      `handleFinish` runs, passing payloads to `onSubmit` (the sequence of its
      calls) and ending with a toast. */
  datatype Outcome =
    | Rejected(fields: seq<string>)
    | Finished(onSubmitCalls: seq<Record>, toast: Toast)

  /** `handleFinish(values)`; `onSubmitRejects` says whether the promise
      returned by `onSubmit` rejects. An exception while building the payload
      and a rejection both end in the error toast. */
  function HandleFinish(values: Record, onSubmitRejects: bool): (r: Outcome)
    ensures r.Finished? && |r.onSubmitCalls| <= 1
    ensures r.onSubmitCalls != [] <==> Payload(values).Normal?
    ensures r.onSubmitCalls != [] ==> r.onSubmitCalls[0] == Payload(values).value
    ensures r.toast == SuccessToast(SuccessMessage) <==> Payload(values).Normal? && !onSubmitRejects
    ensures r.toast.SuccessToast? || r.toast == ErrorToast(FailureMessage)
  {
    match Payload(values)
    case ThrowTypeError => Finished([], ErrorToast(FailureMessage))
    case Normal(payload) =>
      Finished([payload], if onSubmitRejects then ErrorToast(FailureMessage) else SuccessToast(SuccessMessage))
  }

  /** Submitting the form: validation first, then `handleFinish`. */
  function Submit(values: Record, onSubmitRejects: bool): (r: Outcome)
    ensures r.Rejected? <==> FailingFields(values) != []
    ensures r.Rejected? ==> r.fields == FailingFields(values)
    ensures r.Finished? ==> r == HandleFinish(values, onSubmitRejects)
  {
    var failing := FailingFields(values);
    if failing != [] then Rejected(failing) else HandleFinish(values, onSubmitRejects)
  }

  /** The form reaches `onSubmit` exactly when every required field is
      provided, the price is a number not below 0 and the image, if truthy, is
      a string. */
  lemma SubmitCallsOnSubmitExactlyWhenValid(values: Record, onSubmitRejects: bool)
    ensures Submit(values, onSubmitRejects).Finished?
            && Submit(values, onSubmitRejects).onSubmitCalls != []
      <==> (forall f | f in RequiredFields :: Provided(Get(values, f)))
           && PriceInRange(Get(values, "price"))
           && (Truthy(Get(values, "image")) ==> Get(values, "image").Str?)
  {
    var r := Submit(values, onSubmitRejects);
    if (forall f | f in RequiredFields :: Provided(Get(values, f))) && PriceInRange(Get(values, "price")) {
      assert forall f | f in RequiredFields :: FieldPasses(values, f);
    }
    if r.Finished? {
      assert forall f | f in RequiredFields :: FieldPasses(values, f);
      assert "price" in RequiredFields && FieldPasses(values, "price");
    }
  }

  /** The image field carries no rule: whatever it holds, validation rejects
      the same fields. */
  lemma ImageIsOptional(values: Record, image: JsValue)
    ensures FailingFields(values["image" := image]) == FailingFields(values)
  {
    assert forall f | f in RequiredFields :: Get(values["image" := image], f) == Get(values, f);
    FailingAmongIgnoresOtherFields(values, values["image" := image], RequiredFields);
  }

  lemma {:induction false} FailingAmongIgnoresOtherFields(a: Record, b: Record, fs: seq<string>)
    requires forall f | f in fs :: Get(a, f) == Get(b, f)
    ensures FailingAmong(a, fs) == FailingAmong(b, fs)
  {
    if fs != [] {
      FailingAmongIgnoresOtherFields(a, b, fs[1..]);
    }
  }

  /** A payload handed to `onSubmit` has a price that is a number not below 0,
      the one entered, and carries an `id` only if the values already had one. */
  lemma SubmittedPayloadIsNormalised(values: Record, onSubmitRejects: bool, payload: Record)
    requires Submit(values, onSubmitRejects).Finished?
    requires payload in Submit(values, onSubmitRejects).onSubmitCalls
    ensures payload["price"] == Get(values, "price") && PriceInRange(payload["price"])
    ensures "id" in payload <==> "id" in values
    ensures "id" in values ==> payload["id"] == values["id"]
  {
    assert "price" in RequiredFields && FieldPasses(values, "price");
  }
}
