/**
 * The content elements of a chat message: ContentElementUnion.create picks
 * the element class by the element's type tag and copies the element's
 * fields onto a new instance of it.
 */
module ContentElements {
  import opened Wrappers
  import opened Json

  /** The thirteen element classes. */
  datatype ElementClass =
    | Text | Code | Image | File | ActionRequest | ActionStatus | ActionResult
    | Reference | UIControl | StatusUpdate | ErrorElement | InteractionResponse | Custom

  /** The type tag of each class. */
  function Tag(c: ElementClass): string
  {
    match c
    case Text => "text"
    case Code => "code"
    case Image => "image"
    case File => "file"
    case ActionRequest => "action_request"
    case ActionStatus => "action_status"
    case ActionResult => "action_result"
    case Reference => "reference"
    case UIControl => "ui_control"
    case StatusUpdate => "status_update"
    case ErrorElement => "error"
    case InteractionResponse => "interaction_response"
    case Custom => "custom"
  }

  /** The switch of create: the class whose tag the type is, None for any other value. */
  function ClassOf(tag: string): (r: Option<ElementClass>)
    ensures r.Some? ==> Tag(r.value) == tag
  {
    match tag
    case "text" => Some(Text)
    case "code" => Some(Code)
    case "image" => Some(Image)
    case "file" => Some(File)
    case "action_request" => Some(ActionRequest)
    case "action_status" => Some(ActionStatus)
    case "action_result" => Some(ActionResult)
    case "reference" => Some(Reference)
    case "ui_control" => Some(UIControl)
    case "status_update" => Some(StatusUpdate)
    case "error" => Some(ErrorElement)
    case "interaction_response" => Some(InteractionResponse)
    case "custom" => Some(Custom)
    case _ => None
  }

  /** Every class is reached by its own tag, so the thirteen tags are distinct. */
  lemma ClassOfTag(c: ElementClass)
    ensures ClassOf(Tag(c)) == Some(c)
  {
  }

  lemma TagInjective(c: ElementClass, d: ElementClass)
    ensures Tag(c) == Tag(d) ==> c == d
  {
    ClassOfTag(c);
    ClassOfTag(d);
  }

  const AllClasses: seq<ElementClass> :=
    [Text, Code, Image, File, ActionRequest, ActionStatus, ActionResult, Reference, UIControl, StatusUpdate, ErrorElement, InteractionResponse, Custom]

  /** There are thirteen classes, each listed once. */
  lemma ThirteenClasses(c: ElementClass)
    ensures |AllClasses| == 13 && c in AllClasses
    ensures forall i, j :: 0 <= i < j < |AllClasses| ==> Tag(AllClasses[i]) != Tag(AllClasses[j])
  {
  }

  /** An instance of a class with the fields copied onto it. */
  datatype Element = Element(cls: ElementClass, fields: map<string, Json>)

  datatype CreateError =
    | TypeRequired                          // 'Invalid content element: type is required'
    | UnknownType(tag: Json)                // `Unknown content element type: …`

  /**
   * create: a missing element or a falsy type throws 'type is required',
   * a known tag gives an instance of its class carrying every field of
   * the element, and any other type value throws 'Unknown content element
   * type'.
   */
  function Create(element: Json): (r: Result<Element, CreateError>)
    ensures !Truthy(Get(element, "type")) ==> r == Err(TypeRequired)
    ensures r.Ok? ==> element.JObject? && r.value.fields == element.fields
    ensures r.Ok? ==> Get(element, "type") == Some(JString(Tag(r.value.cls)))
    ensures Truthy(Get(element, "type")) && (forall c :: Get(element, "type") != Some(JString(Tag(c)))) ==>
      r == Err(UnknownType(Get(element, "type").value))
  {
    var t := Get(element, "type");
    if !Truthy(t) then Err(TypeRequired)
    else if t.value.JString? && ClassOf(t.value.s).Some? then Ok(Element(ClassOf(t.value.s).value, element.fields))
    else Err(UnknownType(t.value))
  }

  /** Every known tag is accepted: an object tagged with a class's tag becomes an instance of that class. */
  lemma KnownTagAccepted(c: ElementClass, fields: map<string, Json>)
    requires "type" in fields && fields["type"] == JString(Tag(c))
    ensures Create(JObject(fields)) == Ok(Element(c, fields))
  {
    ClassOfTag(c);
  }

  /** The element as sent on: its fields. */
  function ToJson(e: Element): Json
  {
    JObject(e.fields)
  }

  /** Creating again from a created element gives the same element. */
  lemma CreateRoundTrip(element: Json)
    requires Create(element).Ok?
    ensures Create(ToJson(Create(element).value)) == Create(element)
  {
  }
}
