/**
 * The lesson interaction service: which events are lesson events, how the
 * item an event refers to is found in the lesson body, and how the event is
 * appended to the user's interaction body.
 */
module LessonInteraction {
  import opened Wrappers
  import opened Json
  import Content

  /** The event types the service tells apart; the rest are carried by name. */
  datatype EventType = QuizAnswer | QuestionSubmit | OtherEvent(name: string)

  /** An incoming event: its type and its payload, undefined when absent. */
  datatype EventDto = EventDto(eventType: EventType, payload: Option<Json>)

  /** The exception a property read of null or undefined raises, or a call of a missing method. */
  datatype JsError = TypeError

  datatype Error =
    | ItemNotFound(itemId: Option<Json>, eventType: EventType)   // `Invalid interaction: item … not found for event type …`
    | InvalidEventType(eventType: EventType)                     // `Invalid event type: …`
    | Thrown(error: JsError)

  /** isLessonInteractionEvent: quiz answers and question submissions only. */
  predicate IsLessonEvent(t: EventType)
  {
    t == QuizAnswer || t == QuestionSubmit
  }

  /**
   * extractItemIdFromEvent: the quiz id of a quiz answer, the question id of
   * a question submission, undefined when the payload lacks the field; a
   * missing or null payload throws; any other type is a BadRequest.
   */
  function ExtractItemId(dto: EventDto): (r: Result<Option<Json>, Error>)
    ensures r.Ok? ==> IsLessonEvent(dto.eventType)
    ensures !IsLessonEvent(dto.eventType) ==> r == Err(InvalidEventType(dto.eventType))
    ensures IsLessonEvent(dto.eventType) && dto.payload.Some? && !dto.payload.value.JNull? ==>
      r == Ok(Get(dto.payload.value, if dto.eventType == QuizAnswer then "quizId" else "questionId"))
  {
    if !IsLessonEvent(dto.eventType) then Err(InvalidEventType(dto.eventType))
    else if dto.payload.None? || dto.payload.value.JNull? then Err(Thrown(TypeError))
    else if dto.eventType == QuizAnswer then Ok(Get(dto.payload.value, "quizId"))
    else Ok(Get(dto.payload.value, "questionId"))
  }

  /** JavaScript `===` on values read from JSON: undefined equals undefined, primitives compare by value, two parsed arrays or objects are never the same reference. */
  predicate StrictEquals(a: Option<Json>, b: Option<Json>)
  {
    match (a, b)
    case (None, None) => true
    case (Some(x), Some(y)) => x == y && !x.JArray? && !x.JObject?
    case _ => false
  }

  /** `content?.some(item => item.id === itemId)` over the items of one chunk. */
  function SomeItem(items: seq<Json>, itemId: Option<Json>): Result<bool, JsError>
  {
    if |items| == 0 then Ok(false)
    else if items[0].JNull? then Err(TypeError)
    else if StrictEquals(Get(items[0], "id"), itemId) then Ok(true)
    else SomeItem(items[1..], itemId)
  }

  /** `chunk.content?.some(…)`: no content is false, content that is not an array throws. */
  function InChunk(chunk: Json, itemId: Option<Json>): Result<bool, JsError>
  {
    if chunk.JNull? then Err(TypeError)
    else
      match Get(chunk, "content")
      case None => Ok(false)
      case Some(JNull) => Ok(false)
      case Some(JArray(items)) => SomeItem(items, itemId)
      case Some(_) => Err(TypeError)
  }

  /** `chunks?.some(…)` over the chunks in order. */
  function SomeChunk(chunks: seq<Json>, itemId: Option<Json>): Result<bool, JsError>
  {
    if |chunks| == 0 then Ok(false)
    else
      var r := InChunk(chunks[0], itemId);
      if r == Ok(false) then SomeChunk(chunks[1..], itemId) else r
  }

  /** itemExistsInLessonBody: a null body throws, a body without chunks holds nothing, chunks that are not an array throw. */
  function ItemExists(body: Json, itemId: Option<Json>): Result<bool, JsError>
  {
    if body.JNull? then Err(TypeError)
    else
      match Get(body, "chunks")
      case None => Ok(false)
      case Some(JNull) => Ok(false)
      case Some(JArray(chunks)) => SomeChunk(chunks, itemId)
      case Some(_) => Err(TypeError)
  }

  /** The items of a chunk: its content array, none otherwise. */
  function ItemsOf(chunk: Json): seq<Json>
  {
    var c := Get(chunk, "content");
    if c.Some? && c.value.JArray? then c.value.elems else []
  }

  /** Some chunk holds an item whose id is itemId. */
  predicate Holds(chunks: seq<Json>, itemId: Option<Json>)
  {
    exists i, j :: 0 <= i < |chunks| && 0 <= j < |ItemsOf(chunks[i])| && StrictEquals(Get(ItemsOf(chunks[i])[j], "id"), itemId)
  }

  /** The shape the search does not throw on: non-null chunks whose content is absent, null or an array of non-null items. */
  predicate WellShaped(chunks: seq<Json>)
  {
    forall i :: 0 <= i < |chunks| ==>
      && !chunks[i].JNull?
      && (var c := Get(chunks[i], "content"); c.None? || c.value.JNull? || c.value.JArray?)
      && forall j :: 0 <= j < |ItemsOf(chunks[i])| ==> !ItemsOf(chunks[i])[j].JNull?
  }

  /** A body whose chunks field is absent or null holds no item. */
  lemma NoChunksNoItem(body: Json, itemId: Option<Json>)
    requires !body.JNull? && (Get(body, "chunks").None? || Get(body, "chunks").value.JNull?)
    ensures ItemExists(body, itemId) == Ok(false)
  {
  }

  lemma {:induction false} SomeItemMeaning(items: seq<Json>, itemId: Option<Json>)
    ensures SomeItem(items, itemId) == Ok(true) ==> exists j :: 0 <= j < |items| && StrictEquals(Get(items[j], "id"), itemId)
    ensures (forall j :: 0 <= j < |items| ==> !items[j].JNull?) ==>
      SomeItem(items, itemId) == Ok(exists j :: 0 <= j < |items| && StrictEquals(Get(items[j], "id"), itemId))
  {
    if |items| > 0 {
      SomeItemMeaning(items[1..], itemId);
      assert forall j :: 1 <= j < |items| ==> items[j] == items[1..][j - 1];
    }
  }

  /** Found means some chunk holds the item; on well-shaped chunks the search answers exactly that. */
  lemma {:induction false} SomeChunkMeaning(chunks: seq<Json>, itemId: Option<Json>)
    ensures SomeChunk(chunks, itemId) == Ok(true) ==> Holds(chunks, itemId)
    ensures WellShaped(chunks) ==> SomeChunk(chunks, itemId) == Ok(Holds(chunks, itemId))
  {
    if |chunks| > 0 {
      SomeChunkMeaning(chunks[1..], itemId);
      SomeItemMeaning(ItemsOf(chunks[0]), itemId);
      HoldsFirstOrRest(chunks, itemId);
      if InChunk(chunks[0], itemId) == Ok(true) {
        assert SomeItem(ItemsOf(chunks[0]), itemId) == Ok(true);
      }
      if WellShaped(chunks) {
        WellShapedFirst(chunks, itemId);
      }
    }
  }

  /** Some chunk holds the item exactly when the first one does or one of the rest does. */
  lemma HoldsFirstOrRest(chunks: seq<Json>, itemId: Option<Json>)
    requires |chunks| > 0
    ensures Holds(chunks, itemId) <==>
      (exists j :: 0 <= j < |ItemsOf(chunks[0])| && StrictEquals(Get(ItemsOf(chunks[0])[j], "id"), itemId))
      || Holds(chunks[1..], itemId)
  {
    if Holds(chunks[1..], itemId) {
      var i, j :| 0 <= i < |chunks[1..]| && 0 <= j < |ItemsOf(chunks[1..][i])| && StrictEquals(Get(ItemsOf(chunks[1..][i])[j], "id"), itemId);
      assert chunks[1..][i] == chunks[i + 1];
    }
    if Holds(chunks, itemId) {
      var i, j :| 0 <= i < |chunks| && 0 <= j < |ItemsOf(chunks[i])| && StrictEquals(Get(ItemsOf(chunks[i])[j], "id"), itemId);
      if i > 0 {
        assert chunks[1..][i - 1] == chunks[i];
      }
    }
  }

  /** On well-shaped chunks the first chunk's search is the search of its items, and the rest stay well-shaped. */
  lemma WellShapedFirst(chunks: seq<Json>, itemId: Option<Json>)
    requires |chunks| > 0 && WellShaped(chunks)
    ensures WellShaped(chunks[1..])
    ensures InChunk(chunks[0], itemId) == SomeItem(ItemsOf(chunks[0]), itemId)
    ensures forall j :: 0 <= j < |ItemsOf(chunks[0])| ==> !ItemsOf(chunks[0])[j].JNull?
  {
    assert forall i :: 1 <= i < |chunks| ==> chunks[i] == chunks[1..][i - 1];
  }

  /**
   * The two lesson-body searches of the code base agree on a lesson whose
   * chunks and contents are arrays without nulls and a string item id.
   */
  lemma SearchesAgree(body: Json, itemId: string)
    requires body.JObject? && Get(body, "chunks").Some? && Get(body, "chunks").value.JArray?
    requires var cs := Get(body, "chunks").value.elems;
      forall i :: 0 <= i < |cs| ==>
        && cs[i].JObject? && Get(cs[i], "content").Some? && Get(cs[i], "content").value.JArray?
        && forall j :: 0 <= j < |ItemsOf(cs[i])| ==> !ItemsOf(cs[i])[j].JNull?
    ensures ItemExists(body, Some(JString(itemId))) == Ok(true) <==> Content.LessonBodyHolds(body, itemId) == Ok(true)
  {
    var cs := Get(body, "chunks").value.elems;
    assert WellShaped(cs);
    assert Content.ChunksOf(body) == cs;
    assert forall i :: 0 <= i < |cs| ==> Content.ItemsOf(cs[i]) == ItemsOf(cs[i]);
    assert Content.NoNulls(cs);
    SomeChunkMeaning(cs, Some(JString(itemId)));
    Content.ChunkScanMeaning(cs, itemId);
    if Holds(cs, Some(JString(itemId))) {
      var i, j :| 0 <= i < |cs| && 0 <= j < |ItemsOf(cs[i])| && StrictEquals(Get(ItemsOf(cs[i])[j], "id"), Some(JString(itemId)));
      assert Get(Content.ItemsOf(cs[i])[j], "id") == Some(JString(itemId));
    }
    if Content.HasItem(cs, itemId) {
      var i, j :| 0 <= i < |cs| && 0 <= j < |Content.ItemsOf(cs[i])| && Get(Content.ItemsOf(cs[i])[j], "id") == Some(JString(itemId));
      assert StrictEquals(Get(ItemsOf(cs[i])[j], "id"), Some(JString(itemId)));
    }
  }

  /** isInteractionBody: an object whose version is '1.0' and whose events are an array. */
  predicate IsInteractionBody(body: Json)
  {
    body.JObject? && Get(body, "version") == Some(JString("1.0")) && Get(body, "events").Some? && Get(body, "events").value.JArray?
  }

  const EmptyBody := JObject(map["version" := JString("1.0"), "events" := JArray([])])

  /** getOrCreateInteractionBody: a well-formed body is kept, anything else becomes an empty one. */
  function GetOrCreateBody(body: Json): (r: Json)
    ensures IsInteractionBody(r)
    ensures IsInteractionBody(body) ==> r == body
    ensures !IsInteractionBody(body) ==> r == EmptyBody
  {
    if IsInteractionBody(body) then body else EmptyBody
  }

  /** The events of a body, none when it has no events array. */
  function Events(body: Json): seq<Json>
  {
    var e := Get(body, "events");
    if e.Some? && e.value.JArray? then e.value.elems else []
  }

  /** `{...body, events: [...body.events, event]}`. */
  function Append(body: Json, event: Json): (r: Json)
    requires IsInteractionBody(body)
    ensures IsInteractionBody(r)
    ensures Events(r) == Events(body) + [event]
    ensures forall k :: k != "events" ==> Get(r, k) == Get(body, k)
  {
    JObject(body.fields["events" := JArray(Events(body) + [event])])
  }

  /**
   * handleLessonInteraction: the stored body (or an empty one) gets the new
   * event appended, after the event's item has been found in the lesson
   * body. The new event, with its fresh id and time, is a parameter.
   */
  function HandleLessonInteraction(lessonBody: Json, stored: Json, dto: EventDto, event: Json): (r: Result<Json, Error>)
    ensures r.Ok? ==> var id := ExtractItemId(dto); id.Ok? && ItemExists(lessonBody, id.value) == Ok(true)
    ensures r.Ok? ==> r.value == Append(GetOrCreateBody(stored), event)
    ensures r.Ok? ==> Events(r.value) == Events(GetOrCreateBody(stored)) + [event]
    ensures !IsLessonEvent(dto.eventType) ==> r == Err(InvalidEventType(dto.eventType))
    ensures var id := ExtractItemId(dto); id.Ok? && ItemExists(lessonBody, id.value) == Ok(false) ==>
      r == Err(ItemNotFound(id.value, dto.eventType))
    ensures ExtractItemId(dto).Err? ==> r == Err(ExtractItemId(dto).error)
    ensures var id := ExtractItemId(dto); id.Ok? && ItemExists(lessonBody, id.value).Err? ==>
      r == Err(Thrown(ItemExists(lessonBody, id.value).error))
    ensures var id := ExtractItemId(dto); id.Ok? && ItemExists(lessonBody, id.value) == Ok(true) ==>
      r == Ok(Append(GetOrCreateBody(stored), event))
    ensures r.Ok? <==> (ExtractItemId(dto).Ok? && ItemExists(lessonBody, ExtractItemId(dto).value) == Ok(true))
  {
    var current := GetOrCreateBody(stored);
    var id := ExtractItemId(dto);
    if id.Err? then Err(id.error)
    else
      var found := ItemExists(lessonBody, id.value);
      if found.Err? then Err(Thrown(found.error))
      else if !found.value then Err(ItemNotFound(id.value, dto.eventType))
      else Ok(Append(current, event))
  }

  /** A valid event on a well-formed body keeps every earlier event, and two events are logged in order. */
  lemma TwoInteractions(lessonBody: Json, stored: Json, d1: EventDto, d2: EventDto, e1: Json, e2: Json)
    requires HandleLessonInteraction(lessonBody, stored, d1, e1).Ok?
    requires HandleLessonInteraction(lessonBody, HandleLessonInteraction(lessonBody, stored, d1, e1).value, d2, e2).Ok?
    ensures Events(HandleLessonInteraction(lessonBody, HandleLessonInteraction(lessonBody, stored, d1, e1).value, d2, e2).value)
      == Events(GetOrCreateBody(stored)) + [e1, e2]
  {
    var mid := HandleLessonInteraction(lessonBody, stored, d1, e1).value;
    assert GetOrCreateBody(mid) == mid;
    assert Events(GetOrCreateBody(stored)) + [e1] + [e2] == Events(GetOrCreateBody(stored)) + [e1, e2];
  }
}
