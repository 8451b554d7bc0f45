/**
  v1/webhooks.php: the POST endpoint Trados Cloud delivers webhook batches to.
  OPTIONS and GET are answered at once, other non-POST methods get 405; a
  POST body that is not JSON gets 400; a missing or invalid `x-lc-signature`
  JWS gets 401 before any event is looked at.  An authenticated batch is
  walked event by event: everything but a PROJECT.TASK.CREATED event for a
  `file-delivery` task is recorded as skipped, and each file-delivery task is
  stored and handed to the deployment hook.

  The decoded body, the request headers, the deployment hook
  (`processFileDeliveryTask`) and what the key-set download would return are
  parameters; storing an event (`storeWebhookEvent`) is modelled by the list
  of rows the batch stores.
*/
module Webhooks {
  import opened Json
  import opened Wrappers
  import opened KeySource
  import opened Jws

  const TaskCreated: JsonValue := JStr("PROJECT.TASK.CREATED")
  const FileDeliveryTask: JsonValue := JStr("file-delivery")
  const NotTaskCreatedReason: string := "Not a PROJECT.TASK.CREATED event"
  const NotFileDeliveryReason: string := "Not a file-delivery task"

  /** What `processFileDeliveryTask($accountId, $data)` returns. */
  datatype Delivery = Delivery(success: bool, message: string)

  type DeliveryHook = (JsonValue, JsonValue) -> Delivery

  /** One entry of the response's `results` list. */
  datatype EventResult =
    | NotTaskCreated(eventType: JsonValue)
    | NotFileDelivery(eventType: JsonValue, taskType: JsonValue)
    | Handled(eventType: JsonValue, taskType: JsonValue, processed: bool, message: string,
              projectId: JsonValue, taskId: JsonValue)

  /** The row `storeWebhookEvent` inserts for a file-delivery event. */
  datatype StoredEvent = StoredEvent(accountId: JsonValue, eventType: JsonValue, payload: JsonValue, taskType: JsonValue)

  /** The `status` field of a result. */
  function Status(r: EventResult): (s: string)
    ensures s == "skipped" <==> !r.Handled?
  {
    match r
    case Handled(_, _, processed, _, _, _) => if processed then "processed" else "failed"
    case _ => "skipped"
  }

  /** The `reason` field of a skipped result. */
  function Reason(r: EventResult): string
    requires !r.Handled?
  {
    if r.NotTaskCreated? then NotTaskCreatedReason else NotFileDeliveryReason
  }

  function TaskType(event: JsonValue): JsonValue
  {
    Lookup(Lookup(Lookup(event, "data"), "taskType"), "key")
  }

  /** The events the batch handler acts on. */
  predicate IsFileDelivery(event: JsonValue)
  {
    Lookup(event, "eventType") == TaskCreated && TaskType(event) == FileDeliveryTask
  }

  /** `$payload['events'] ?? [$payload]`, then what `foreach` visits. */
  function EventsOf(payload: JsonValue): (events: seq<JsonValue>)
    ensures Lookup(payload, "events") == JNull ==> events == [payload]
    ensures Lookup(payload, "events").JList? ==> events == Lookup(payload, "events").items
  {
    var listed := Lookup(payload, "events");
    if listed == JNull then [payload] else Elements(listed)
  }

  /** The body of the loop for one event: its result entry. */
  function ClassifyEvent(event: JsonValue, deliver: DeliveryHook): (r: EventResult)
    ensures r.NotTaskCreated? <==> Lookup(event, "eventType") != TaskCreated
    ensures r.Handled? <==> IsFileDelivery(event)
    ensures r.eventType == Lookup(event, "eventType")
    ensures r.Handled? ==> r.processed == deliver(Lookup(event, "accountId"), Lookup(event, "data")).success
  {
    var eventType := Lookup(event, "eventType");
    var data := Lookup(event, "data");
    if eventType != TaskCreated then NotTaskCreated(eventType)
    else
      var taskType := TaskType(event);
      if taskType != FileDeliveryTask then NotFileDelivery(eventType, taskType)
      else
        var outcome := deliver(Lookup(event, "accountId"), data);
        Handled(eventType, taskType, outcome.success, outcome.message, Lookup(data, "projectId"), Lookup(data, "id"))
  }

  /** The file-delivery events of a batch, in order. */
  function FileDeliveries(events: seq<JsonValue>): (r: seq<JsonValue>)
    ensures |r| <= |events|
  {
    if events == [] then []
    else
      var last := events[|events| - 1];
      FileDeliveries(events[..|events| - 1]) + (if IsFileDelivery(last) then [last] else [])
  }

  /** Exactly the file-delivery events of the batch are kept. */
  lemma {:induction false} FileDeliveriesExactly(events: seq<JsonValue>)
    ensures forall e :: e in FileDeliveries(events) <==> e in events && IsFileDelivery(e)
  {
    if events != [] {
      var init := events[..|events| - 1];
      FileDeliveriesExactly(init);
      assert events == init + [events[|events| - 1]];
    }
  }

  /** The rows `storeWebhookEvent($accountId, $eventType, $event)` inserts
      for those events: instance_id is the event's accountId, event_type its
      eventType, payload the event itself, task_type its data.taskType.key.
      (The constant columns `processed` = 1 and `source` = 'trados-cloud',
      and the insertion time, are not modelled.) */
  function StoredRows(events: seq<JsonValue>): (rows: seq<StoredEvent>)
    ensures |rows| == |events|
    ensures forall i :: 0 <= i < |events| ==>
              && rows[i].accountId == Lookup(events[i], "accountId")
              && rows[i].eventType == Lookup(events[i], "eventType")
              && rows[i].payload == events[i]
              && rows[i].taskType == TaskType(events[i])
  {
    seq(|events|, i requires 0 <= i < |events| =>
      StoredEvent(Lookup(events[i], "accountId"), Lookup(events[i], "eventType"), events[i], TaskType(events[i])))
  }

  /** Every row a batch stores holds one of its events, with event type
      PROJECT.TASK.CREATED and task type file-delivery. */
  lemma StoredRowsAreFileDeliveries(events: seq<JsonValue>)
    ensures forall row :: row in StoredRows(FileDeliveries(events)) ==>
              && row.payload in events
              && row.eventType == TaskCreated
              && row.taskType == FileDeliveryTask
              && row.accountId == Lookup(row.payload, "accountId")
  {
    var deliveries := FileDeliveries(events);
    FileDeliveriesExactly(events);
    forall row | row in StoredRows(deliveries)
      ensures row.payload in events && row.eventType == TaskCreated && row.taskType == FileDeliveryTask
    {
      var i :| 0 <= i < |deliveries| && StoredRows(deliveries)[i] == row;
      assert deliveries[i] in deliveries;
    }
  }

  /** How many results report a handled (processed or failed) event. */
  function HandledCount(results: seq<EventResult>): (n: nat)
    ensures n <= |results|
  {
    if results == [] then 0
    else HandledCount(results[..|results| - 1]) + (if results[|results| - 1].Handled? then 1 else 0)
  }

  /** What the batch loop reports for a whole batch. */
  function BatchResults(events: seq<JsonValue>, deliver: DeliveryHook): (results: seq<EventResult>)
    ensures |results| == |events|
    ensures forall i :: 0 <= i < |events| ==> results[i] == ClassifyEvent(events[i], deliver)
  {
    seq(|events|, i requires 0 <= i < |events| => ClassifyEvent(events[i], deliver))
  }

  /** One more event adds its own result. */
  lemma BatchResultsStep(events: seq<JsonValue>, i: nat, deliver: DeliveryHook)
    requires i < |events|
    ensures BatchResults(events[..i + 1], deliver) == BatchResults(events[..i], deliver) + [ClassifyEvent(events[i], deliver)]
  {
  }

  /** One more event extends the file deliveries and their rows by at most
      that event. */
  lemma FileDeliveriesStep(events: seq<JsonValue>, i: nat)
    requires i < |events|
    ensures FileDeliveries(events[..i + 1])
         == FileDeliveries(events[..i]) + (if IsFileDelivery(events[i]) then [events[i]] else [])
    ensures StoredRows(FileDeliveries(events[..i + 1]))
         == StoredRows(FileDeliveries(events[..i])) + StoredRows(if IsFileDelivery(events[i]) then [events[i]] else [])
  {
    assert events[..i + 1][..i] == events[..i];
  }

  /** v1/webhooks.php lines 82-151: the loop over a batch.  It reports every
      event, in order; it counts, stores and delivers exactly the
      file-delivery tasks. */
  method ProcessBatch(events: seq<JsonValue>, deliver: DeliveryHook)
    returns (processedEvents: nat, fileDeliveryEvents: nat, results: seq<EventResult>, stored: seq<StoredEvent>)
    ensures processedEvents == |events| == |results|
    ensures forall i :: 0 <= i < |events| ==> results[i] == ClassifyEvent(events[i], deliver)
    ensures fileDeliveryEvents == |FileDeliveries(events)| == HandledCount(results)
    ensures fileDeliveryEvents <= processedEvents
    ensures stored == StoredRows(FileDeliveries(events))
  {
    processedEvents, fileDeliveryEvents, results, stored := 0, 0, [], [];
    for i := 0 to |events|
      invariant processedEvents == i
      invariant results == BatchResults(events[..i], deliver)
      invariant fileDeliveryEvents == |FileDeliveries(events[..i])|
      invariant stored == StoredRows(FileDeliveries(events[..i]))
    {
      FileDeliveriesStep(events, i);
      BatchResultsStep(events, i, deliver);
      var event := events[i];
      processedEvents := processedEvents + 1;
      var eventType := Lookup(event, "eventType");
      var accountId := Lookup(event, "accountId");
      var data := Lookup(event, "data");
      if eventType != TaskCreated {
        results := results + [NotTaskCreated(eventType)];
        continue;
      }
      var taskType := Lookup(Lookup(data, "taskType"), "key");
      if taskType != FileDeliveryTask {
        results := results + [NotFileDelivery(eventType, taskType)];
        continue;
      }
      fileDeliveryEvents := fileDeliveryEvents + 1;
      stored := stored + [StoredEvent(accountId, eventType, event, TaskType(event))];
      var processingResult := deliver(accountId, data);
      results := results + [Handled(eventType, taskType, processingResult.success, processingResult.message,
                                    Lookup(data, "projectId"), Lookup(data, "id"))];
    }
    HandledCountIsFileDeliveries(events, deliver);
    assert events[..|events|] == events;
  }


  /** The handled results are exactly the file deliveries, counted. */
  lemma {:induction false} HandledCountIsFileDeliveries(events: seq<JsonValue>, deliver: DeliveryHook)
    ensures HandledCount(BatchResults(events, deliver)) == |FileDeliveries(events)|
  {
    if events != [] {
      var init := events[..|events| - 1];
      HandledCountIsFileDeliveries(init, deliver);
      assert BatchResults(events, deliver)[..|events| - 1] == BatchResults(init, deliver);
    }
  }

  // ---------------------------------------------------------------------
  // The request

  /** The response the endpoint sends, one alternative per exit. */
  datatype Response =
    | Preflight
    | EndpointActive
    | MethodNotAllowed
    | InvalidJsonPayload
    | MissingSignature
    | InvalidSignature
    | BatchProcessed(totalEvents: nat, fileDeliveryEvents: nat, results: seq<EventResult>)

  function StatusCode(r: Response): (code: int)
    ensures code in {200, 400, 401, 405}
    ensures code == 401 <==> r.MissingSignature? || r.InvalidSignature?
  {
    match r
    case MethodNotAllowed => 405
    case InvalidJsonPayload => 400
    case MissingSignature => 401
    case InvalidSignature => 401
    case _ => 200
  }

  /** `$headers['x-lc-signature'] ?? $headers['X-LC-Signature'] ?? null`. */
  function SignatureHeader(headers: map<string, string>): (token: Option<string>)
    ensures token.Some? <==> "x-lc-signature" in headers || "X-LC-Signature" in headers
    ensures "x-lc-signature" in headers ==> token == Some(headers["x-lc-signature"])
    ensures "x-lc-signature" !in headers && "X-LC-Signature" in headers ==> token == Some(headers["X-LC-Signature"])
  {
    if "x-lc-signature" in headers then Some(headers["x-lc-signature"])
    else if "X-LC-Signature" in headers then Some(headers["X-LC-Signature"])
    else None
  }

  /** PHP truthiness of a string: "" and "0" are false. */
  predicate TruthyString(s: string)
  {
    s != "" && s != "0"
  }

  /** A request that gets as far as the signature check: a POST with a JSON
      body and a truthy signature header. */
  predicate ReachesValidation(requestMethod: string, payload: Option<JsonValue>, headers: map<string, string>)
  {
    requestMethod == "POST" && payload.Some? && SignatureHeader(headers).Some? && TruthyString(SignatureHeader(headers).value)
  }

  /** The whole of v1/webhooks.php for one request: its response and the
      events it stores.  `payload` is None when the body is not JSON. */
  function WebhookResponse(requestMethod: string, payload: Option<JsonValue>, headers: map<string, string>,
                           cached: Option<JsonValue>, fetched: Option<JsonValue>, env: Crypto, now: int,
                           deliver: DeliveryHook): (r: (Response, seq<StoredEvent>))
    ensures r.1 != [] ==> r.0.BatchProcessed?
    ensures requestMethod == "OPTIONS" ==> r == (Preflight, [])
    ensures requestMethod == "GET" ==> r == (EndpointActive, [])
    ensures requestMethod !in {"OPTIONS", "GET", "POST"} ==> r == (MethodNotAllowed, [])
    ensures requestMethod == "POST" && payload.None? ==> r == (InvalidJsonPayload, [])
    ensures requestMethod == "POST" && payload.Some? && !ReachesValidation(requestMethod, payload, headers) ==>
              r == (MissingSignature, [])
    ensures ReachesValidation(requestMethod, payload, headers) ==>
              var token := SignatureHeader(headers).value;
              var events := EventsOf(payload.value);
              && (JwsVerdict(token, cached, fetched, env, now) != Accepted ==> r == (InvalidSignature, []))
              && (JwsVerdict(token, cached, fetched, env, now) == Accepted ==>
                    r == (BatchProcessed(|events|, |FileDeliveries(events)|, BatchResults(events, deliver)),
                          StoredRows(FileDeliveries(events))))
  {
    if requestMethod == "OPTIONS" then (Preflight, [])
    else if requestMethod == "GET" then (EndpointActive, [])
    else if requestMethod != "POST" then (MethodNotAllowed, [])
    else if payload.None? then (InvalidJsonPayload, [])
    else
      var token := SignatureHeader(headers);
      if token.None? || !TruthyString(token.value) then (MissingSignature, [])
      else if JwsVerdict(token.value, cached, fetched, env, now) != Accepted then (InvalidSignature, [])
      else
        var events := EventsOf(payload.value);
        var deliveries := FileDeliveries(events);
        (BatchProcessed(|events|, |deliveries|, BatchResults(events, deliver)), StoredRows(deliveries))
  }

  /** v1/webhooks.php.  `rawPayload` is the body as received, `payload` its
      decoding; `cache` is the key cache `getTradosPublicKey` keeps. */
  method HandleWebhook(cache: KeyCache, requestMethod: string, rawPayload: string, payload: Option<JsonValue>,
                       headers: map<string, string>, fetched: Option<JsonValue>, env: Crypto, now: int,
                       deliver: DeliveryHook)
    returns (response: Response, stored: seq<StoredEvent>)
    modifies cache
    ensures (response, stored) == WebhookResponse(requestMethod, payload, headers, old(cache.keys), fetched, env, now, deliver)
    ensures old(cache.keys).Some? ==> cache.keys == old(cache.keys)
    ensures cache.keys == if ReachesValidation(requestMethod, payload, headers)
                          then CacheAfterValidation(SignatureHeader(headers).value, old(cache.keys), fetched, env)
                          else old(cache.keys)
  {
    if requestMethod == "OPTIONS" {
      return Preflight, [];
    }
    if requestMethod == "GET" {
      return EndpointActive, [];
    }
    if requestMethod != "POST" {
      return MethodNotAllowed, [];
    }
    if payload.None? {
      return InvalidJsonPayload, [];
    }
    var jwsToken := SignatureHeader(headers);
    if jwsToken.None? || !TruthyString(jwsToken.value) {
      return MissingSignature, [];
    }
    var valid := ValidateJwsSignature(cache, jwsToken.value, rawPayload, fetched, env, now);
    if !valid {
      return InvalidSignature, [];
    }
    var events := EventsOf(payload.value);
    var processedEvents, fileDeliveryEvents, results;
    processedEvents, fileDeliveryEvents, results, stored := ProcessBatch(events, deliver);
    assert results == BatchResults(events, deliver);
    response := BatchProcessed(processedEvents, fileDeliveryEvents, results);
  }

  /** A request that is not authenticated is answered 401 before any event
      is looked at: nothing is stored or delivered. */
  lemma UnauthenticatedStoresNothing(payload: JsonValue, headers: map<string, string>,
                                     cached: Option<JsonValue>, fetched: Option<JsonValue>, env: Crypto, now: int,
                                     deliver: DeliveryHook)
    requires var token := SignatureHeader(headers);
             token.None? || !TruthyString(token.value) || JwsVerdict(token.value, cached, fetched, env, now) != Accepted
    ensures var r := WebhookResponse("POST", Some(payload), headers, cached, fetched, env, now, deliver);
            StatusCode(r.0) == 401 && r.1 == []
  {
  }

  /** A processed batch reports one result per event, and its file-delivery
      count is both the number of handled results and the number of rows
      stored, never more than the total. */
  lemma BatchSummaryConsistent(requestMethod: string, payload: Option<JsonValue>, headers: map<string, string>,
                               cached: Option<JsonValue>, fetched: Option<JsonValue>, env: Crypto, now: int,
                               deliver: DeliveryHook)
    requires WebhookResponse(requestMethod, payload, headers, cached, fetched, env, now, deliver).0.BatchProcessed?
    ensures var (r, stored) := WebhookResponse(requestMethod, payload, headers, cached, fetched, env, now, deliver);
            && requestMethod == "POST" && payload.Some?
            && r.totalEvents == |r.results| == |EventsOf(payload.value)|
            && r.fileDeliveryEvents == HandledCount(r.results) == |stored| <= r.totalEvents
  {
    HandledCountIsFileDeliveries(EventsOf(payload.value), deliver);
  }

  /** A single event posted without an `events` member is processed as a
      batch of one. */
  lemma SingleEventBatch(payload: JsonValue, headers: map<string, string>,
                         cached: Option<JsonValue>, fetched: Option<JsonValue>, env: Crypto, now: int,
                         deliver: DeliveryHook)
    requires Lookup(payload, "events") == JNull
    requires WebhookResponse("POST", Some(payload), headers, cached, fetched, env, now, deliver).0.BatchProcessed?
    ensures WebhookResponse("POST", Some(payload), headers, cached, fetched, env, now, deliver).0.results
         == [ClassifyEvent(payload, deliver)]
  {
  }
}
