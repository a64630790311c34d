/** The `POST /{integration}` handler `index`: authenticate, read the event
    type, find or create the topic `<integration>_<event>`, publish. */
module Webhook {
  import opened Signature
  import opened Topics
  import opened Sns

  const EventHeader: string := "X-GitHub-Event"

  /** What the handler reads of the current request; `jsonBody` is the
      parsed payload, forwarded opaquely. */
  datatype Request = Request(headers: map<string, string>, rawBody: string, jsonBody: string)

  /** The handler's return value or the Chalice error it raises. */
  datatype Response =
    | Acknowledged(code: string, message: string)
    | BadRequestError
    | UnauthorizedError

  /** The fixed reply to every accepted webhook. */
  const Ack: Response := Acknowledged("Ok", "Webhook received.")

  /** `f'{integration}_{event}'`: the integration, an underscore, then the
      event type. */
  function TopicName(integration: string, event: string): (name: string)
    ensures |name| == |integration| + 1 + |event|
    ensures name[..|integration|] == integration && name[|integration|] == '_'
    ensures name[|integration| + 1..] == event
  {
    integration + "_" + event
  }

  /** The error a failed signature check raises: BadRequestError for a
      missing or malformed header, UnauthorizedError for a wrong digest. */
  function Rejection(verdict: Verdict): (response: Response)
    requires verdict != Accepted
    ensures !response.Acknowledged?
    ensures response == BadRequestError <==> verdict == BadRequest
  {
    match verdict
    case BadRequest => BadRequestError
    case _ => UnauthorizedError
  }

  /** `index(integration)` against the backend `sns`. A request that fails
      the signature check, or then lacks `X-GitHub-Event`, is rejected before
      any backend call. Otherwise the backend sees exactly one listing, a
      creation only when no listed ARN ends in the topic name, and one
      publish of the payload, under the event as subject, to the ARN found
      or created; the reply is always the fixed acknowledgement. */
  method Index(sns: SnsClient, secret: Option<string>, hmacSha1Hex: (string, string) -> string,
               integration: string, request: Request) returns (response: Response)
    modifies sns
    ensures var verdict := ValidateSignature(secret, request.headers, request.rawBody, hmacSha1Hex);
      verdict != Accepted ==>
        response == Rejection(verdict) && sns.log == old(sns.log) && sns.topics == old(sns.topics)
    ensures (ValidateSignature(secret, request.headers, request.rawBody, hmacSha1Hex) == Accepted
             && EventHeader !in request.headers) ==>
        response == BadRequestError && sns.log == old(sns.log) && sns.topics == old(sns.topics)
    ensures (ValidateSignature(secret, request.headers, request.rawBody, hmacSha1Hex) == Accepted
             && EventHeader in request.headers) ==>
        var event := request.headers[EventHeader];
        var topic := TopicName(integration, event);
        var known := TopicMap(old(sns.topics));
        var target := if topic in known then known[topic] else sns.arnFor(topic);
        && response == Ack
        && sns.log == old(sns.log) + [ListTopics]
                      + (if topic in known then [] else [CreateTopic(topic)])
                      + [Publish(target, event, DefaultEnvelope(request.jsonBody), "json")]
        && sns.topics == if topic in known then old(sns.topics) else Registered(old(sns.topics), target)
  {
    var verdict := ValidateSignature(secret, request.headers, request.rawBody, hmacSha1Hex);
    if verdict != Accepted {
      return Rejection(verdict);
    }
    if EventHeader !in request.headers {
      return BadRequestError;
    }
    var event := request.headers[EventHeader];

    var snsTopics := sns.ListTopicArns();
    var topicArns := BuildTopicMap(snsTopics);
    var topic := TopicName(integration, event);
    if topic !in topicArns {
      var arn := sns.CreateTopicArn(topic);
      topicArns := topicArns[topic := arn];
    }

    sns.PublishMessage(topicArns[topic], event, DefaultEnvelope(request.jsonBody), "json");
    response := Ack;
  }

  /** When the backend names a created topic's ARN after the topic, a topic
      created by one delivery is found by the next delivery of the same
      integration and event, so it is created at most once. */
  lemma CreatedTopicIsFoundNextTime(topics: seq<string>, topic: string, arn: string)
    requires topic !in TopicMap(topics)
    requires LastSegment(arn) == topic
    ensures topic in TopicMap(Registered(topics, arn))
    ensures TopicMap(Registered(topics, arn))[topic] == arn
  {
    TopicMapKeys(topics, topic);
    assert arn !in topics;
    assert (topics + [arn])[..|topics|] == topics;
  }

  /** A delivery with no secret configured, an unparsable signature header
      and the topic already listed: no creation, and the publish goes to the
      listed ARN. */
  method KnownTopicDelivery(hmacSha1Hex: (string, string) -> string, arnFor: string -> string)
  {
    var topic := TopicName("123", "push");
    var listed := "arn:foo:bar" + ":" + topic;
    var sns := new SnsClient([listed], arnFor);
    var request := Request(map[EventHeader := "push", SignatureHeader := "whatever"], "{}", "{}");
    LastSegmentAfterColon("arn:foo:bar", topic);
    assert [listed][..0] == [];
    var response := Index(sns, None, hmacSha1Hex, "123", request);
    assert response == Ack;
    assert sns.log == [ListTopics, Publish(listed, "push", DefaultEnvelope("{}"), "json")];
  }

  /** A delivery whose topic is not listed: one creation, and the publish
      goes to the ARN the creation returned, whatever its last segment. */
  method MissingTopicDelivery(hmacSha1Hex: (string, string) -> string)
  {
    var topic := TopicName("123", "comment");
    var listed := "arn:foo:bar" + ":" + "push";
    var created := "arn:foo:baz" + ":" + TopicName("123", "push");
    var sns := new SnsClient([listed], (name: string) => created);
    var request := Request(map[EventHeader := "comment", SignatureHeader := "sha=whatever"], "{}", "{}");
    LastSegmentAfterColon("arn:foo:bar", "push");
    assert [listed][..0] == [];
    assert topic != "push" by {
      assert |topic| != |"push"|;
    }
    assert topic !in TopicMap(sns.topics);
    assert sns.arnFor(topic) == created;
    var response := Index(sns, None, hmacSha1Hex, "123", request);
    assert response == Ack;
    assert |sns.log| == 3 && sns.log[0] == ListTopics;
    assert sns.log[1] == CreateTopic(topic);
    assert sns.log[2] == Publish(created, "comment", DefaultEnvelope("{}"), "json");
  }
}
