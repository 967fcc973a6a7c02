/**
 * Content nodes (modules, lessons, exercises): the search of a lesson body
 * for an item, the validity test of an interaction, the logging of a lesson
 * interaction, the editing of a node, the replacement of a module's lessons
 * and the ordering of the lessons of a module.
 */
module Content {
  import opened Wrappers
  import opened Json

  datatype ContentType = ModuleType | LessonType | ExerciseType

  datatype Status = Draft | Created | Archived

  datatype LinkType = Dependency | Extends

  /** A row of the ContentNode table. */
  datatype Node = Node(kind: ContentType, status: Status, body: Json, metadata: Json, isPublic: bool, createdAt: int)

  /** A row of the ContentLink table: fromId is the parent. */
  datatype Link = Link(fromId: string, toId: string, linkType: LinkType)

  /** The exception a property read of null raises, or a write to a property of a primitive. */
  datatype JsError = TypeError

  datatype Error =
    | NotFound(message: string)
    | Forbidden(message: string)
    | BadRequest(message: string)
    | Thrown(error: JsError)
    | Failed(message: string)

  // ---------------------------------------------------------------------
  // itemExistsInLessonBody
  // ---------------------------------------------------------------------

  /** The items of a chunk the search looks at: its content when that is a non-empty value and an array. */
  function ItemsOf(chunk: Json): seq<Json>
  {
    var c := Get(chunk, "content");
    if Truthy(c) && c.value.JArray? then c.value.elems else []
  }

  /** The inner loop: items in order; a null item throws, an item whose id is itemId ends the search. */
  function ItemScan(items: seq<Json>, itemId: string): Result<bool, JsError>
  {
    if |items| == 0 then Ok(false)
    else if items[0].JNull? then Err(TypeError)
    else if Get(items[0], "id") == Some(JString(itemId)) then Ok(true)
    else ItemScan(items[1..], itemId)
  }

  /** The outer loop: chunks in order; a null chunk throws, a found item ends the search. */
  function ChunkScan(chunks: seq<Json>, itemId: string): Result<bool, JsError>
  {
    if |chunks| == 0 then Ok(false)
    else if chunks[0].JNull? then Err(TypeError)
    else
      var r := ItemScan(ItemsOf(chunks[0]), itemId);
      if r == Ok(false) then ChunkScan(chunks[1..], itemId) else r
  }

  /** The chunks of a body, when the body is truthy and its chunks field an array. */
  function ChunksOf(body: Json): seq<Json>
  {
    var c := Get(body, "chunks");
    if Truthy(Some(body)) && Truthy(c) && c.value.JArray? then c.value.elems else []
  }

  /** The search of itemExistsInLessonBody in content.service. */
  function LessonBodyHolds(body: Json, itemId: string): Result<bool, JsError>
  {
    ChunkScan(ChunksOf(body), itemId)
  }

  /** Some chunk holds an item with that id. */
  predicate HasItem(chunks: seq<Json>, itemId: string)
  {
    exists i, j :: 0 <= i < |chunks| && 0 <= j < |ItemsOf(chunks[i])| && Get(ItemsOf(chunks[i])[j], "id") == Some(JString(itemId))
  }

  /** No chunk and no item is null. */
  predicate NoNulls(chunks: seq<Json>)
  {
    forall i :: 0 <= i < |chunks| ==> chunks[i] != JNull && forall j :: 0 <= j < |ItemsOf(chunks[i])| ==> ItemsOf(chunks[i])[j] != JNull
  }

  lemma {:induction false} ItemScanMeaning(items: seq<Json>, itemId: string)
    ensures ItemScan(items, itemId) == Ok(true) ==> exists j :: 0 <= j < |items| && Get(items[j], "id") == Some(JString(itemId))
    ensures (forall j :: 0 <= j < |items| ==> items[j] != JNull) ==>
      ItemScan(items, itemId) == Ok(exists j :: 0 <= j < |items| && Get(items[j], "id") == Some(JString(itemId)))
  {
    if |items| > 0 {
      ItemScanMeaning(items[1..], itemId);
      assert forall j :: 1 <= j < |items| ==> items[j] == items[1..][j - 1];
    }
  }

  /**
   * Found means some chunk holds the item; without nulls, the search
   * answers exactly whether one does.
   */
  lemma {:induction false} ChunkScanMeaning(chunks: seq<Json>, itemId: string)
    ensures ChunkScan(chunks, itemId) == Ok(true) ==> HasItem(chunks, itemId)
    ensures NoNulls(chunks) ==> ChunkScan(chunks, itemId) == Ok(HasItem(chunks, itemId))
  {
    if |chunks| > 0 {
      ChunkScanMeaning(chunks[1..], itemId);
      ItemScanMeaning(ItemsOf(chunks[0]), itemId);
      assert forall i :: 1 <= i < |chunks| ==> chunks[i] == chunks[1..][i - 1];
      if HasItem(chunks[1..], itemId) {
        var i, j :| 0 <= i < |chunks[1..]| && 0 <= j < |ItemsOf(chunks[1..][i])| && Get(ItemsOf(chunks[1..][i])[j], "id") == Some(JString(itemId));
        assert Get(ItemsOf(chunks[i + 1])[j], "id") == Some(JString(itemId));
      }
      if ChunkScan(chunks, itemId) == Ok(true) && ItemScan(ItemsOf(chunks[0]), itemId) == Ok(true) {
        var j :| 0 <= j < |ItemsOf(chunks[0])| && Get(ItemsOf(chunks[0])[j], "id") == Some(JString(itemId));
        assert Get(ItemsOf(chunks[0])[j], "id") == Some(JString(itemId));
      }
      if NoNulls(chunks) {
        assert NoNulls(chunks[1..]);
        if HasItem(chunks, itemId) {
          var i, j :| 0 <= i < |chunks| && 0 <= j < |ItemsOf(chunks[i])| && Get(ItemsOf(chunks[i])[j], "id") == Some(JString(itemId));
          if i > 0 {
            assert Get(ItemsOf(chunks[1..][i - 1])[j], "id") == Some(JString(itemId));
          }
        }
      }
    }
  }

  /** A body without a chunks array holds no item. */
  lemma NoChunksNoItem(body: Json, itemId: string)
    requires !Truthy(Get(body, "chunks")) || !Get(body, "chunks").value.JArray?
    ensures LessonBodyHolds(body, itemId) == Ok(false)
  {
  }

  /**
   * itemExistsInLessonBody (content.service): the two nested loops over
   * chunks and their content items, returning on the first match.
   */
  method ItemExistsInLessonBody(body: Json, itemId: string) returns (r: Result<bool, JsError>)
    ensures r == LessonBodyHolds(body, itemId)
  {
    var chunks := Get(body, "chunks");
    if !(Truthy(Some(body)) && Truthy(chunks) && chunks.value.JArray?) {
      return Ok(false);
    }
    var cs := chunks.value.elems;
    var i := 0;
    while i < |cs|
      invariant 0 <= i <= |cs|
      invariant ChunkScan(cs[i..], itemId) == ChunkScan(cs, itemId)
    {
      assert cs[i..][1..] == cs[i + 1..];
      var chunk := cs[i];
      if chunk.JNull? {
        return Err(TypeError);
      }
      var found := ItemInChunk(chunk, itemId);
      if found != Ok(false) {
        return found;
      }
      i := i + 1;
    }
    return Ok(false);
  }

  /** The inner loop of itemExistsInLessonBody over one chunk's content. */
  method ItemInChunk(chunk: Json, itemId: string) returns (r: Result<bool, JsError>)
    ensures r == ItemScan(ItemsOf(chunk), itemId)
  {
    var content := Get(chunk, "content");
    if !(Truthy(content) && content.value.JArray?) {
      return Ok(false);
    }
    var items := content.value.elems;
    var j := 0;
    while j < |items|
      invariant 0 <= j <= |items|
      invariant ItemScan(items[j..], itemId) == ItemScan(items, itemId)
    {
      assert items[j..][1..] == items[j + 1..];
      if items[j].JNull? {
        return Err(TypeError);
      }
      if Get(items[j], "id") == Some(JString(itemId)) {
        return Ok(true);
      }
      j := j + 1;
    }
    return Ok(false);
  }

  // ---------------------------------------------------------------------
  // isInteractiveItemPresent
  // ---------------------------------------------------------------------

  /**
   * isInteractiveItemPresent: false for a body that is not a non-null object,
   * for a lesson event without an item id, and for anything but a lesson
   * event on a lesson; otherwise the search of the body. The list of lesson
   * events is a parameter.
   */
  function IsInteractiveItemPresent(node: Node, eventType: string, itemId: Option<string>, lessonEvents: set<string>): (r: Result<bool, JsError>)
    ensures !node.body.JArray? && !node.body.JObject? ==> r == Ok(false)
    ensures eventType in lessonEvents && !(itemId.Some? && itemId.value != "") ==> r == Ok(false)
    ensures eventType !in lessonEvents || node.kind != LessonType ==> r == Ok(false)
    ensures r == Ok(true) ==> eventType in lessonEvents && itemId.Some? && HasItem(ChunksOf(node.body), itemId.value)
    ensures (&& eventType in lessonEvents && node.kind == LessonType && itemId.Some? && itemId.value != ""
             && (node.body.JArray? || node.body.JObject?) && NoNulls(ChunksOf(node.body))) ==>
      r == Ok(HasItem(ChunksOf(node.body), itemId.value))
  {
    if !Truthy(Some(node.body)) || !IsObjectType(node.body) then Ok(false)
    else
      var isLessonEvent := eventType in lessonEvents;
      if isLessonEvent && !(itemId.Some? && itemId.value != "") then Ok(false)
      else if isLessonEvent && node.kind == LessonType then
        ChunkScanMeaning(ChunksOf(node.body), itemId.value);
        LessonBodyHolds(node.body, itemId.value)
      else Ok(false)
  }

  // ---------------------------------------------------------------------
  // handleLessonInteraction (content.service)
  // ---------------------------------------------------------------------

  /**
   * The event appended to the log. The identifier (a fresh UUID) and the
   * time stamp (the current time, stored as its ISO text) are parameters; a
   * missing payload is undefined and left out of the stored object.
   */
  function NewEvent(eventId: string, timestamp: string, eventType: string, payload: Option<Json>): (r: Json)
    ensures r.JObject? && r.fields.Keys <= {"eventId", "timestamp", "type", "payload"}
    ensures Get(r, "eventId") == Some(JString(eventId)) && Get(r, "timestamp") == Some(JString(timestamp))
    ensures Get(r, "type") == Some(JString(eventType))
    ensures Get(r, "payload") == payload
  {
    var base := map["eventId" := JString(eventId), "timestamp" := JString(timestamp), "type" := JString(eventType)];
    JObject(if payload.Some? then base["payload" := payload.value] else base)
  }

  /** A stored interaction body is kept when it is an object with items and version '1.0'. */
  predicate Kept(body: Json)
  {
    body.JObject? && Truthy(Get(body, "items")) && Get(body, "version") == Some(JString("1.0"))
  }

  const EmptyInteraction := JObject(map["version" := JString("1.0"), "items" := JObject(map[])])

  /** The body the event is logged into: the stored one when kept, else a fresh empty one. */
  function Current(body: Json): (r: Json)
    ensures r.JObject? && "items" in r.fields && Get(r, "version") == Some(JString("1.0"))
  {
    if Kept(body) then body else EmptyInteraction
  }

  /** The index below n whose key is itemId, as a property name reads an array element. */
  function IndexKey(n: nat, itemId: string): (r: Option<nat>)
    ensures r.Some? ==> r.value < n && Digits(r.value) == itemId
    ensures r.None? ==> forall i :: 0 <= i < n ==> Digits(i) != itemId
  {
    if n == 0 then None
    else if Digits(n - 1) == itemId then Some(n - 1)
    else IndexKey(n - 1, itemId)
  }

  /** items[itemId]: the field of an object, the element of an array at that index, undefined otherwise. */
  function LogOf(items: Json, itemId: string): Option<Json>
  {
    match items
    case JArray(es) =>
      var k := IndexKey(|es|, itemId);
      if k.Some? then Some(es[k.value]) else None
    case _ => Get(items, itemId)
  }

  /** The events logged for an item: those of its log, none when it has none. */
  function EventsOf(items: Json, itemId: string): seq<Json>
  {
    var log := LogOf(items, itemId);
    if Truthy(log) && IsLog(log.value) then log.value.fields["events"].elems else []
  }

  /** A value whose events can be pushed to: an object with an events array. */
  predicate IsLog(v: Json)
  {
    v.JObject? && "events" in v.fields && v.fields["events"].JArray?
  }

  /** `items[itemId] || { events: [] }`. */
  function LogFor(items: Json, itemId: string): Json
  {
    var found := LogOf(items, itemId);
    if Truthy(found) then found.value else JObject(map["events" := JArray([])])
  }

  /**
   * The write `items[itemId] = log` is one that the stored JSON keeps: any
   * key of an object, or the key of an element of an array.
   */
  predicate Logged(items: Json, itemId: string)
  {
    items.JObject? || (items.JArray? && IndexKey(|items.elems|, itemId).Some?)
  }

  /** `items[itemId] = log` for a write the stored JSON keeps. */
  function Write(items: Json, itemId: string, log: Json): (r: Json)
    requires Logged(items, itemId)
    ensures LogOf(r, itemId) == Some(log)
    ensures forall k :: k != itemId ==> LogOf(r, k) == LogOf(items, k)
  {
    match items
    case JObject(m) => JObject(m[itemId := log])
    case JArray(es) =>
      var i := IndexKey(|es|, itemId).value;
      var es' := es[i := log];
      assert forall k :: k != itemId ==> IndexKey(|es'|, k) == IndexKey(|es|, k) && (IndexKey(|es|, k).Some? ==> IndexKey(|es|, k).value != i);
      JArray(es')
  }

  /**
   * The update of handleLessonInteraction: the item's log (created when
   * missing) gets the event pushed onto its events. A log without an events
   * array throws, and so does an items value that is a primitive. On an
   * array of items, a key that is not the index of an element becomes a
   * named property, which the stored JSON drops.
   */
  function LogEvent(body: Json, itemId: string, event: Json): (r: Result<Json, JsError>)
    ensures r.Ok? ==> r.value.JObject? && Get(r.value, "version") == Some(JString("1.0")) && "items" in r.value.fields
    ensures var items := Current(body).fields["items"];
      r.Err? <==> (!items.JArray? && !items.JObject?) || (Logged(items, itemId) && !IsLog(LogFor(items, itemId)))
    ensures var items := Current(body).fields["items"];
      r.Ok? && Logged(items, itemId) ==>
      && EventsOf(r.value.fields["items"], itemId) == EventsOf(items, itemId) + [event]
      && (forall k :: k != itemId ==> LogOf(r.value.fields["items"], k) == LogOf(items, k))
      && (forall k :: k != "items" ==> Get(r.value, k) == Get(Current(body), k))
    ensures var items := Current(body).fields["items"];
      items.JArray? && !Logged(items, itemId) ==> r == Ok(Current(body))
    ensures !Kept(body) ==> r == Ok(JObject(map["version" := JString("1.0"),
                                              "items" := JObject(map[itemId := JObject(map["events" := JArray([event])])])]))
  {
    var cur := Current(body);
    var items := cur.fields["items"];
    if !(items.JArray? || items.JObject?) then Err(TypeError)
    else if !Logged(items, itemId) then Ok(cur)
    else
      var log := LogFor(items, itemId);
      if !IsLog(log) then Err(TypeError)
      else
        var log' := JObject(log.fields["events" := JArray(log.fields["events"].elems + [event])]);
        assert log'.fields["events"].elems == EventsOf(items, itemId) + [event];
        var items' := Write(items, itemId, log');
        assert !Kept(body) ==> (JObject(cur.fields["items" := items']) ==
          JObject(map["version" := JString("1.0"), "items" := JObject(map[itemId := JObject(map["events" := JArray([event])])])])) by {
          if !Kept(body) {
            assert cur == EmptyInteraction;
            assert items == JObject(map[]);
            assert log == JObject(map["events" := JArray([])]);
            assert [] + [event] == [event];
            assert log' == JObject(map["events" := JArray([event])]);
            assert items' == JObject(map[itemId := log']);
            assert cur.fields["items" := items'] ==
              map["version" := JString("1.0"), "items" := JObject(map[itemId := log'])];
          }
        }
        Ok(JObject(cur.fields["items" := items']))
  }

  /**
   * On an array of items, the key "0" reads and writes the first element
   * (a null there is replaced by a fresh log), while a key that names no
   * element is written as a property the stored JSON drops.
   */
  lemma ArrayItemsLog(e: Json)
    ensures var body := JObject(map["version" := JString("1.0"), "items" := JArray([JNull])]);
      && LogEvent(body, "0", e) ==
         Ok(JObject(map["version" := JString("1.0"), "items" := JArray([JObject(map["events" := JArray([e])])])]))
      && LogEvent(body, "x", e) == Ok(body)
  {
    var body := JObject(map["version" := JString("1.0"), "items" := JArray([JNull])]);
    assert Digits(0) == "0";
    assert IndexKey(1, "0") == Some(0);
    assert IndexKey(1, "x") == None;
    assert [] + [e] == [e];
    var blank := JObject(map["events" := JArray([])]);
    assert LogFor(body.fields["items"], "0") == blank;
    var log' := JObject(blank.fields["events" := JArray([] + [e])]);
    assert log'.fields == map["events" := JArray([e])];
    assert Write(body.fields["items"], "0", log') == JArray([log']);
    assert body.fields["items" := JArray([log'])] == map["version" := JString("1.0"), "items" := JArray([log'])];
    var r := LogEvent(body, "0", e).value;
    assert r.fields == map["version" := JString("1.0"), "items" := JArray([JObject(map["events" := JArray([e])])])];
  }

  /** Two events for two items land in their own logs, in the order they came. */
  lemma TwoEvents(body: Json, a: string, b: string, e1: Json, e2: Json)
    requires Kept(body) && Get(body, "items").value.JObject? && a != b
    requires LogEvent(body, a, e1).Ok? && LogEvent(LogEvent(body, a, e1).value, b, e2).Ok?
    ensures var after := LogEvent(LogEvent(body, a, e1).value, b, e2).value.fields["items"];
      && EventsOf(after, a) == EventsOf(body.fields["items"], a) + [e1]
      && EventsOf(after, b) == EventsOf(body.fields["items"], b) + [e2]
  {
    var mid := LogEvent(body, a, e1).value;
    assert Kept(mid);
  }

  /**
   * A permitted lesson event on a lesson, with a non-empty item id, whose
   * body is an object with no null chunk or item: the validity test
   * answers whether the body holds the item.
   */
  predicate LessonItemRequest(nodes: map<string, Node>, nodeId: string, hasPermission: bool, eventType: string,
                              itemId: Option<string>, lessonEvents: set<string>)
  {
    && hasPermission && nodeId in nodes && nodes[nodeId].kind == LessonType && eventType in lessonEvents
    && itemId.Some? && itemId.value != ""
    && (nodes[nodeId].body.JArray? || nodes[nodeId].body.JObject?) && NoNulls(ChunksOf(nodes[nodeId].body))
  }

  /**
   * addUserInteraction: the INTERACT check's answer (a parameter), the
   * node, the validity test, then the logging of a lesson event into the
   * stored interaction body the repository found or created. The event
   * carries the interaction's type and data; its identifier and time stamp
   * are parameters.
   */
  function AddUserInteraction(nodes: map<string, Node>, nodeId: string, hasPermission: bool, eventType: string,
                              itemId: Option<string>, payload: Option<Json>, lessonEvents: set<string>, stored: Json,
                              eventId: string, timestamp: string): (r: Result<Json, Error>)
    ensures !hasPermission ==> r == Err(Forbidden("You do not have permission to interact with this content"))
    ensures hasPermission && nodeId !in nodes ==> r == Err(NotFound("Node with ID " + nodeId + " not found"))
    ensures r.Ok? ==>
      && nodeId in nodes && nodes[nodeId].kind == LessonType && eventType in lessonEvents && itemId.Some?
      && HasItem(ChunksOf(nodes[nodeId].body), itemId.value)
      && Ok(r.value) == LogEvent(stored, itemId.value, NewEvent(eventId, timestamp, eventType, payload))
    ensures LessonItemRequest(nodes, nodeId, hasPermission, eventType, itemId, lessonEvents) ==>
      if HasItem(ChunksOf(nodes[nodeId].body), itemId.value) then
        var logged := LogEvent(stored, itemId.value, NewEvent(eventId, timestamp, eventType, payload));
        r == if logged.Err? then Err(Thrown(logged.error)) else Ok(logged.value)
      else r == Err(BadRequest("Invalid interaction type: " + eventType))
  {
    if !hasPermission then Err(Forbidden("You do not have permission to interact with this content"))
    else if nodeId !in nodes then Err(NotFound("Node with ID " + nodeId + " not found"))
    else
      var valid := IsInteractiveItemPresent(nodes[nodeId], eventType, itemId, lessonEvents);
      if valid.Err? then Err(Thrown(valid.error))
      else if !valid.value then Err(BadRequest("Invalid interaction type: " + eventType))
      else if eventType in lessonEvents then
        var logged := LogEvent(stored, itemId.value, NewEvent(eventId, timestamp, eventType, payload));
        if logged.Err? then Err(Thrown(logged.error)) else Ok(logged.value)
      else Err(BadRequest("Invalid interaction type: " + eventType + ". Not implemented."))
  }

  // ---------------------------------------------------------------------
  // editContentNode
  // ---------------------------------------------------------------------

  /** The optional fields of an edit; a given null is Some(JNull). */
  datatype Edit = Edit(status: Option<Status>, body: Option<Json>, metadata: Option<Json>)

  /**
   * editContentNode: NotFound, then Forbidden without EDIT permission (a
   * parameter); the status is replaced when given, body and metadata are
   * merged with the edit's fields winning, and absent fields stay.
   */
  function EditContentNode(nodes: map<string, Node>, id: string, edit: Edit, hasPermission: bool): (r: Result<(Node, map<string, Node>), Error>)
    ensures id !in nodes ==> r == Err(NotFound("Content node with ID " + id + " not found"))
    ensures id in nodes && !hasPermission ==> r == Err(Forbidden("You do not have permission to edit this content"))
    ensures r.Ok? <==> id in nodes && hasPermission
    ensures r.Ok? ==> r.value.1 == nodes[id := r.value.0]
    ensures r.Ok? ==> var n, e := nodes[id], r.value.0;
      && e.kind == n.kind && e.isPublic == n.isPublic && e.createdAt == n.createdAt
      && e.status == (if edit.status.Some? then edit.status.value else n.status)
      && (edit.body.None? ==> e.body == n.body)
      && (edit.body.Some? ==> e.body == Merge(n.body, edit.body.value))
      && (edit.metadata.None? ==> e.metadata == n.metadata)
      && (edit.metadata.Some? ==> e.metadata == Merge(n.metadata, edit.metadata.value))
  {
    if id !in nodes then Err(NotFound("Content node with ID " + id + " not found"))
    else if !hasPermission then Err(Forbidden("You do not have permission to edit this content"))
    else
      var n := nodes[id];
      var e := n.(status := if edit.status.Some? then edit.status.value else n.status,
                  body := if edit.body.Some? then Merge(n.body, edit.body.value) else n.body,
                  metadata := if edit.metadata.Some? then Merge(n.metadata, edit.metadata.value) else n.metadata);
      Ok((e, nodes[id := e]))
  }

  /** An edit with no fields changes nothing; editing twice with the same object body is editing once. */
  lemma EditIdempotent(nodes: map<string, Node>, id: string, b: map<string, Json>)
    requires id in nodes && nodes[id].body.JObject?
    ensures EditContentNode(nodes, id, Edit(None, None, None), true) == Ok((nodes[id], nodes))
    ensures var once := EditContentNode(nodes, id, Edit(None, Some(JObject(b)), None), true).value.1;
      EditContentNode(once, id, Edit(None, Some(JObject(b)), None), true).value.1 == once
  {
    assert nodes[id := nodes[id]] == nodes;
    var n := nodes[id];
    assert n.body.fields + b + b == n.body.fields + b;
  }

  // ---------------------------------------------------------------------
  // getModule's lesson order
  // ---------------------------------------------------------------------

  predicate SortedByCreation(ls: seq<Node>)
  {
    forall i, j :: 0 <= i < j < |ls| ==> ls[i].createdAt <= ls[j].createdAt
  }

  /** Insert a lesson after every lesson created no later than it. */
  function Insert(n: Node, ls: seq<Node>): (r: seq<Node>)
    ensures |r| == |ls| + 1 && (r[0] == n || (|ls| > 0 && r[0] == ls[0]))
  {
    if |ls| == 0 then [n]
    else if n.createdAt < ls[0].createdAt then [n] + ls
    else [ls[0]] + Insert(n, ls[1..])
  }

  /** Inserting a lesson into sorted lessons keeps them sorted and adds just that lesson. */
  lemma InsertKeeps(n: Node, ls: seq<Node>)
    requires SortedByCreation(ls)
    ensures SortedByCreation(Insert(n, ls)) && multiset(Insert(n, ls)) == multiset(ls) + multiset{n}
  {
    InsertSorted(n, ls);
    InsertMultiset(n, ls);
  }

  lemma {:induction false} InsertSorted(n: Node, ls: seq<Node>)
    requires SortedByCreation(ls)
    ensures SortedByCreation(Insert(n, ls))
  {
    if |ls| > 0 && n.createdAt >= ls[0].createdAt {
      var t := Insert(n, ls[1..]);
      InsertSorted(n, ls[1..]);
      assert ls[0].createdAt <= t[0].createdAt;
      var r := [ls[0]] + t;
      forall i, j | 0 <= i < j < |r|
        ensures r[i].createdAt <= r[j].createdAt
      {
        if i > 0 {
          assert r[i] == t[i - 1] && r[j] == t[j - 1];
        } else {
          assert r[j] == t[j - 1];
        }
      }
    }
  }

  lemma {:induction false} InsertMultiset(n: Node, ls: seq<Node>)
    ensures multiset(Insert(n, ls)) == multiset(ls) + multiset{n}
  {
    if |ls| > 0 && n.createdAt >= ls[0].createdAt {
      InsertMultiset(n, ls[1..]);
      assert ls == [ls[0]] + ls[1..];
    }
  }

  /** The sort of getModule: the lessons from oldest to newest. */
  function SortByCreation(ls: seq<Node>): (r: seq<Node>)
    ensures SortedByCreation(r) && multiset(r) == multiset(ls)
  {
    if |ls| == 0 then []
    else
      assert ls == ls[..|ls| - 1] + [ls[|ls| - 1]];
      InsertKeeps(ls[|ls| - 1], SortByCreation(ls[..|ls| - 1]));
      Insert(ls[|ls| - 1], SortByCreation(ls[..|ls| - 1]))
  }

  datatype ModuleView = ModuleView(moduleNode: Node, lessons: seq<Node>, grantsDefault: bool)

  /**
   * getModule: a falsy user id is a plain error; the node must be a module;
   * without a permission (a parameter) a private module is Forbidden and a
   * public one grants its default permission (grantsDefault); the lessons
   * the repository found are ordered by creation time.
   */
  function GetModule(nodes: map<string, Node>, id: string, userId: string, hasPermission: bool, children: seq<Node>): (r: Result<ModuleView, Error>)
    ensures userId == "" ==> r == Err(Failed("User ID is required"))
    ensures r.Ok? ==> id in nodes && nodes[id].kind == ModuleType && (hasPermission || nodes[id].isPublic)
    ensures r.Ok? ==> r.value.grantsDefault == !hasPermission && r.value.moduleNode == nodes[id]
    ensures r.Ok? ==> SortedByCreation(r.value.lessons) && multiset(r.value.lessons) == multiset(children)
    ensures userId != "" && id in nodes && nodes[id].kind == ModuleType && !hasPermission && !nodes[id].isPublic ==>
      r == Err(Forbidden("You do not have permission to view this module"))
    ensures userId != "" && (id !in nodes || nodes[id].kind != ModuleType) ==>
      r == Err(NotFound("Module with ID " + id + " not found"))
    ensures r.Ok? <==> (userId != "" && id in nodes && nodes[id].kind == ModuleType && (hasPermission || nodes[id].isPublic))
  {
    if userId == "" then Err(Failed("User ID is required"))
    else if id !in nodes || nodes[id].kind != ModuleType then Err(NotFound("Module with ID " + id + " not found"))
    else if !hasPermission && !nodes[id].isPublic then Err(Forbidden("You do not have permission to view this module"))
    else Ok(ModuleView(nodes[id], SortByCreation(children), !hasPermission))
  }

  // ---------------------------------------------------------------------
  // upsertLessons
  // ---------------------------------------------------------------------

  /** The fields of a lesson to create; absent or falsy status and metadata default. */
  datatype LessonInput = LessonInput(status: Option<Status>, body: Json, metadata: Option<Json>)

  /** The lesson a new input becomes: status DRAFT unless given, metadata {} unless truthy. */
  function NewLesson(l: LessonInput, now: int): Node
  {
    Node(LessonType, if l.status.Some? then l.status.value else Draft, l.body,
         if Truthy(l.metadata) then l.metadata.value else JObject(map[]), false, now)
  }

  datatype LessonEntity = LessonEntity(id: string, moduleId: string, node: Node)

  /** A link from the parent to a lesson. */
  predicate LessonLink(nodes: map<string, Node>, l: Link, parent: string)
  {
    l.fromId == parent && l.toId in nodes && nodes[l.toId].kind == LessonType
  }

  /** The lessons below a module: nodes of type LESSON with a link from it. */
  function ChildLessons(nodes: map<string, Node>, links: seq<Link>, parent: string): set<string>
  {
    set l | l in links && LessonLink(nodes, l, parent) :: l.toId
  }

  /** One more link adds its lesson, if it is a link from the parent to a lesson. */
  lemma ChildLessonsSnoc(nodes: map<string, Node>, links: seq<Link>, l: Link, parent: string)
    ensures ChildLessons(nodes, links + [l], parent) ==
      ChildLessons(nodes, links, parent) + (if LessonLink(nodes, l, parent) then {l.toId} else {})
  {
    forall x | x in ChildLessons(nodes, links + [l], parent)
      ensures x in ChildLessons(nodes, links, parent) + (if LessonLink(nodes, l, parent) then {l.toId} else {})
    {
      var m :| m in links + [l] && LessonLink(nodes, m, parent) && x == m.toId;
      if m != l {
        assert m in links;
      }
    }
  }

  /** Every node of s archived, the rest as before. */
  function ArchiveAll(nodes: map<string, Node>, s: set<string>): (r: map<string, Node>)
    ensures r.Keys == nodes.Keys
    ensures forall k :: k in nodes && k in s ==> r[k] == nodes[k].(status := Archived)
    ensures forall k :: k in nodes && k !in s ==> r[k] == nodes[k]
  {
    map k | k in nodes :: if k in s then nodes[k].(status := Archived) else nodes[k]
  }

  /** The new lessons added, one per input, under the given ids. */
  function AddLessons(nodes: map<string, Node>, ids: seq<string>, ls: seq<LessonInput>, now: int): (r: map<string, Node>)
    requires |ids| == |ls|
    ensures r.Keys == nodes.Keys + set i | 0 <= i < |ids| :: ids[i]
  {
    if |ids| == 0 then nodes
    else AddLessons(nodes, ids[..|ids| - 1], ls[..|ls| - 1], now)[ids[|ids| - 1] := NewLesson(ls[|ls| - 1], now)]
  }

  /** The links from the module to each new lesson. */
  function LinksTo(moduleId: string, ids: seq<string>): (r: seq<Link>)
    ensures |r| == |ids|
  {
    if |ids| == 0 then [] else LinksTo(moduleId, ids[..|ids| - 1]) + [Link(moduleId, ids[|ids| - 1], Dependency)]
  }

  /** The OWNER grants of the new lessons to their creator. */
  function OwnerGrants(ids: seq<string>, userId: string): (r: seq<(string, string)>)
    ensures |r| == |ids|
  {
    if |ids| == 0 then [] else OwnerGrants(ids[..|ids| - 1], userId) + [(ids[|ids| - 1], userId)]
  }

  /** The entities returned, in input order. */
  function Entities(moduleId: string, ids: seq<string>, ls: seq<LessonInput>, now: int): (r: seq<LessonEntity>)
    requires |ids| == |ls|
    ensures |r| == |ls|
  {
    if |ids| == 0 then [] else Entities(moduleId, ids[..|ids| - 1], ls[..|ls| - 1], now) + [LessonEntity(ids[|ids| - 1], moduleId, NewLesson(ls[|ls| - 1], now))]
  }

  /** The i-th link goes from the module to the i-th new lesson. */
  lemma {:induction false} LinksToEach(moduleId: string, ids: seq<string>)
    ensures forall i :: 0 <= i < |ids| ==> LinksTo(moduleId, ids)[i] == Link(moduleId, ids[i], Dependency)
  {
    if |ids| > 0 {
      var init := ids[..|ids| - 1];
      LinksToEach(moduleId, init);
      assert forall i :: 0 <= i < |init| ==> init[i] == ids[i];
    }
  }

  /** The i-th grant gives the i-th new lesson to its creator. */
  lemma {:induction false} OwnerGrantsEach(ids: seq<string>, userId: string)
    ensures forall i :: 0 <= i < |ids| ==> OwnerGrants(ids, userId)[i] == (ids[i], userId)
  {
    if |ids| > 0 {
      var init := ids[..|ids| - 1];
      OwnerGrantsEach(init, userId);
      assert forall i :: 0 <= i < |init| ==> init[i] == ids[i];
    }
  }

  /** The i-th entity is the i-th input stored under the i-th id in the module. */
  lemma {:induction false} EntitiesEach(moduleId: string, ids: seq<string>, ls: seq<LessonInput>, now: int)
    requires |ids| == |ls|
    ensures forall i :: 0 <= i < |ls| ==> Entities(moduleId, ids, ls, now)[i] == LessonEntity(ids[i], moduleId, NewLesson(ls[i], now))
  {
    if |ids| > 0 {
      var n := |ids| - 1;
      EntitiesEach(moduleId, ids[..n], ls[..n], now);
      assert forall i :: 0 <= i < n ==> ids[..n][i] == ids[i] && ls[..n][i] == ls[i];
    }
  }

  /** One more input extends each of the four results by that input's lesson, link, grant and entity. */
  lemma CreateStep(nodes: map<string, Node>, moduleId: string, userId: string, ids: seq<string>, ls: seq<LessonInput>, now: int, i: nat)
    requires |ids| == |ls| && i < |ids|
    ensures AddLessons(nodes, ids[..i + 1], ls[..i + 1], now) == AddLessons(nodes, ids[..i], ls[..i], now)[ids[i] := NewLesson(ls[i], now)]
    ensures LinksTo(moduleId, ids[..i + 1]) == LinksTo(moduleId, ids[..i]) + [Link(moduleId, ids[i], Dependency)]
    ensures OwnerGrants(ids[..i + 1], userId) == OwnerGrants(ids[..i], userId) + [(ids[i], userId)]
    ensures Entities(moduleId, ids[..i + 1], ls[..i + 1], now) == Entities(moduleId, ids[..i], ls[..i], now) + [LessonEntity(ids[i], moduleId, NewLesson(ls[i], now))]
  {
    assert ids[..i + 1][..i] == ids[..i] && ls[..i + 1][..i] == ls[..i];
  }

  predicate DistinctIds(ids: seq<string>)
  {
    forall i, j :: 0 <= i < j < |ids| ==> ids[i] != ids[j]
  }

  /** The nodes and links the content repository stands for. */
  class ContentStore {
    var nodes: map<string, Node>
    var links: seq<Link>
    /** The OWNER permissions createNodeWithPermission grants, as (node, user). */
    var owners: seq<(string, string)>

    constructor(nodes0: map<string, Node>, links0: seq<Link>)
      ensures nodes == nodes0 && links == links0 && owners == []
    {
      nodes := nodes0;
      links := links0;
      owners := [];
    }

    /** findChildNodes(parent, LESSON): each lesson below the parent once. */
    method FindChildLessons(parent: string) returns (ids: seq<string>)
      ensures DistinctIds(ids) && forall x :: x in ids <==> x in ChildLessons(nodes, links, parent)
    {
      ids := [];
      var i := 0;
      while i < |links|
        invariant 0 <= i <= |links| && DistinctIds(ids)
        invariant forall x :: x in ids <==> x in ChildLessons(nodes, links[..i], parent)
      {
        var l := links[i];
        assert links[..i + 1] == links[..i] + [l];
        ChildLessonsSnoc(nodes, links[..i], l, parent);
        if LessonLink(nodes, l, parent) && l.toId !in ids {
          ids := ids + [l.toId];
        }
        i := i + 1;
      }
      assert links[..|links|] == links;
    }

    /** The first loop of upsertLessons: archive each old lesson that is not archived yet. */
    method ArchiveLessons(olds: seq<string>)
      modifies this
      ensures nodes == ArchiveAll(old(nodes), set x | x in olds)
      ensures links == old(links) && owners == old(owners)
    {
      var i := 0;
      while i < |olds|
        invariant 0 <= i <= |olds|
        invariant nodes == ArchiveAll(old(nodes), set x | x in olds[..i])
        invariant links == old(links) && owners == old(owners)
      {
        var id := olds[i];
        ghost var done := set x | x in olds[..i];
        assert olds[..i + 1] == olds[..i] + [id];
        if id in nodes && nodes[id].status != Archived {
          nodes := nodes[id := nodes[id].(status := Archived)];
        }
        assert nodes == ArchiveAll(old(nodes), done + {id});
        i := i + 1;
      }
      assert olds[..|olds|] == olds;
    }

    /** The second loop of upsertLessons: create, grant and link one lesson per input, in order. */
    method CreateLessons(moduleId: string, userId: string, ls: seq<LessonInput>, ids: seq<string>, now: int) returns (created: seq<LessonEntity>)
      requires |ids| == |ls|
      modifies this
      ensures nodes == AddLessons(old(nodes), ids, ls, now)
      ensures links == old(links) + LinksTo(moduleId, ids)
      ensures owners == old(owners) + OwnerGrants(ids, userId)
      ensures created == Entities(moduleId, ids, ls, now)
    {
      var n0, l0, o0 := nodes, links, owners;
      var n, l, o := n0, l0, o0;
      created := [];
      var i := 0;
      while i < |ls|
        invariant 0 <= i <= |ls|
        invariant n == AddLessons(n0, ids[..i], ls[..i], now)
        invariant l == l0 + LinksTo(moduleId, ids[..i])
        invariant o == o0 + OwnerGrants(ids[..i], userId)
        invariant created == Entities(moduleId, ids[..i], ls[..i], now)
      {
        CreateStep(n0, moduleId, userId, ids, ls, now, i);
        n := n[ids[i] := NewLesson(ls[i], now)];
        l := l + [Link(moduleId, ids[i], Dependency)];
        o := o + [(ids[i], userId)];
        created := created + [LessonEntity(ids[i], moduleId, NewLesson(ls[i], now))];
        i := i + 1;
      }
      assert ids[..|ids|] == ids && ls[..|ls|] == ls;
      nodes, links, owners := n, l, o;
    }

    /**
     * upsertLessons: NotFound unless the id names a module, Forbidden
     * without EDIT permission (a parameter); every old lesson of the module
     * archived, then one new lesson per input, linked to the module and
     * owned by the user. The database draws the new ids; they are parameters.
     */
    method UpsertLessons(moduleId: string, userId: string, hasPermission: bool, ls: seq<LessonInput>, ids: seq<string>, now: int)
      returns (r: Result<seq<LessonEntity>, Error>)
      requires |ids| == |ls|
      modifies this
      ensures (moduleId !in old(nodes) || old(nodes)[moduleId].kind != ModuleType) ==>
        r == Err(NotFound("Module with ID " + moduleId + " not found")) && nodes == old(nodes) && links == old(links)
      ensures moduleId in old(nodes) && old(nodes)[moduleId].kind == ModuleType && !hasPermission ==>
        r == Err(Forbidden("You do not have permission to upsert lessons for this module")) && nodes == old(nodes) && links == old(links)
      ensures r.Ok? <==> (moduleId in old(nodes) && old(nodes)[moduleId].kind == ModuleType && hasPermission)
      ensures r.Ok? ==> r.value == Entities(moduleId, ids, ls, now)
      ensures r.Ok? ==> nodes == AddLessons(ArchiveAll(old(nodes), ChildLessons(old(nodes), old(links), moduleId)), ids, ls, now)
      ensures r.Ok? ==> links == old(links) + LinksTo(moduleId, ids)
      ensures r.Ok? ==> owners == old(owners) + OwnerGrants(ids, userId)
      ensures r.Err? ==> owners == old(owners)
    {
      if moduleId !in nodes || nodes[moduleId].kind != ModuleType {
        return Err(NotFound("Module with ID " + moduleId + " not found"));
      }
      if !hasPermission {
        return Err(Forbidden("You do not have permission to upsert lessons for this module"));
      }
      var olds := FindChildLessons(moduleId);
      assert (set x | x in olds) == ChildLessons(nodes, links, moduleId);
      ArchiveLessons(olds);
      var created := CreateLessons(moduleId, userId, ls, ids, now);
      return Ok(created);
    }
  }

  /**
   * After an upsert with fresh, distinct ids, the old lessons of the module
   * are all archived, nothing else old changes, and each new lesson is
   * stored as created from its input.
   */
  lemma UpsertOutcome(nodes: map<string, Node>, links: seq<Link>, moduleId: string, ids: seq<string>, ls: seq<LessonInput>, now: int)
    requires |ids| == |ls| && DistinctIds(ids) && forall i :: 0 <= i < |ids| ==> ids[i] !in nodes
    ensures var after := AddLessons(ArchiveAll(nodes, ChildLessons(nodes, links, moduleId)), ids, ls, now);
      && (forall k :: k in ChildLessons(nodes, links, moduleId) ==> after[k].status == Archived && after[k].body == nodes[k].body)
      && (forall k :: k in nodes && k !in ChildLessons(nodes, links, moduleId) ==> after[k] == nodes[k])
      && (forall i :: 0 <= i < |ids| ==> after[ids[i]] == NewLesson(ls[i], now))
  {
    var base := ArchiveAll(nodes, ChildLessons(nodes, links, moduleId));
    AddLessonsLookup(base, ids, ls, now);
    forall k | k in ChildLessons(nodes, links, moduleId)
      ensures k in nodes
    {
      var l :| l in links && LessonLink(nodes, l, moduleId) && k == l.toId;
    }
  }

  /** AddLessons stores each new lesson under its id and keeps every other node. */
  lemma {:induction false} AddLessonsLookup(nodes: map<string, Node>, ids: seq<string>, ls: seq<LessonInput>, now: int)
    requires |ids| == |ls| && DistinctIds(ids)
    ensures forall i :: 0 <= i < |ids| ==> AddLessons(nodes, ids, ls, now)[ids[i]] == NewLesson(ls[i], now)
    ensures forall k :: k in nodes && (forall i :: 0 <= i < |ids| ==> ids[i] != k) ==> AddLessons(nodes, ids, ls, now)[k] == nodes[k]
  {
    if |ids| > 0 {
      var n := |ids| - 1;
      var ids', ls' := ids[..n], ls[..n];
      assert DistinctIds(ids');
      AddLessonsLookup(nodes, ids', ls', now);
      var prev := AddLessons(nodes, ids', ls', now);
      assert AddLessons(nodes, ids, ls, now) == prev[ids[n] := NewLesson(ls[n], now)];
      forall i | 0 <= i < n
        ensures prev[ids[i]] == NewLesson(ls[i], now) && ids[i] != ids[n]
      {
        assert ids'[i] == ids[i] && ls'[i] == ls[i];
      }
      forall k | k in nodes && (forall i :: 0 <= i < |ids| ==> ids[i] != k)
        ensures prev[k] == nodes[k]
      {
        assert forall i :: 0 <= i < n ==> ids'[i] == ids[i];
      }
    }
  }
}
