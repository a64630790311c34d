# GitHub webhook receiver: signature check and SNS topic routing

A Dafny model of `app.py` of github-webhook-lambda, an AWS Lambda function
(Chalice) that receives GitHub webhooks on `POST /{integration}`,
authenticates them with the shared-secret `X-Hub-Signature` header, and
republishes the payload to the SNS topic `<integration>_<event>`. The topic
is created on first use.

- `strings.dfy` (module `Strings`): Python's `str.split` on a one-character
  separator, with `Join` as its inverse. The header parse (`split('=')`) and
  the ARN keying (`rsplit(':')[-1]`) both use it.
- `signature.dfy` (module `Signature`): `validate_signature` as the pure
  function `ValidateSignature`. The configured secret is an `Option<string>`.
  HMAC-SHA1 hex digests are a function-valued parameter
  `hmacSha1Hex(key, message)`, so every result holds for any digest function.
  `hmac.compare_digest` is string equality.
- `topics.dfy` (module `Topics`): the key of an ARN (its last
  colon-separated segment) and the ARN dictionary the handler builds. The
  dictionary is the function `TopicMap` plus the loop `BuildTopicMap` that
  computes it.
- `sns.dfy` (module `Sns`): the SNS client as the class `SnsClient`. It
  holds the listed topic ARNs and a log of the calls made to it
  (`ListTopics`, `CreateTopic(name)`, `Publish(...)`). `create_topic`
  returns `arnFor(name)` for a backend-chosen function `arnFor`. The same
  name always gets the same ARN, so creation is idempotent.
- `webhook.dfy` (module `Webhook`): `index` as the method `Index` over an
  `SnsClient`. Two client methods replay the repository's two success
  scenarios: topic already listed, and topic missing.

The model keeps `app.py`'s behaviour where its tests expect otherwise or a
reader might:
- There is no digest-algorithm blacklist and no `parse_hashlib_blacklist`.
  The tests import both, but `app.py` defines neither. A header
  `crc32=whatever` passes the format check and is judged on its digest, so
  it is Unauthorized unless the digest matches (`ChecksumAlgorithmNotRefused`).
- The algorithm name is thrown away, and HMAC-SHA1 is always used.
- Empty parts are accepted. `=` and `sha1=` split into two pieces and are
  well formed (`EmptyPartsWellFormed`).
- The signature is checked before the `X-GitHub-Event` header is read.

## Model

| member | source | states |
|---|---|---|
| Strings.Split | app.py:34 | a split has one more piece than the string has separators, no piece contains the separator, and joining the pieces with the separator gives the input back |
| Strings.SplitJoin | app.py:34 | splitting a join of separator-free pieces returns those pieces, so the split is the only separator-free decomposition of the string |
| Signature.ValidateSignature | app.py:28-40 | with no secret every request is accepted, even with a missing or malformed header; with a secret the result is BadRequest exactly when the header is missing or does not contain exactly one `=`, whatever the digest function; a well-formed header is accepted exactly when the text after `=` equals the HMAC-SHA1 hex of the raw body under the secret, and is Unauthorized otherwise |
| Signature.WellFormed | app.py:34-36 | a header value is well formed (the two-name unpack of its split succeeds) exactly when splitting it on `=` gives two pieces, i.e. it holds exactly one `=` |
| Signature.HeaderShapes | app.py:32-36 | `whatever` (no `=`) and `a=b=c` (two `=`) are malformed |
| Signature.EmptyPartsWellFormed | app.py:34 | `=` and `sha1=` are well formed: they split into `["", ""]` and `["sha1", ""]` |
| Signature.WellFormedVerdict | app.py:34-40 | for a header `<algorithm>=<digest>` the verdict is Accepted if the digest equals the HMAC-SHA1 hex of the body and Unauthorized otherwise; the algorithm does not appear in the result |
| Signature.AlgorithmIgnored | app.py:34 | two headers that differ only in the algorithm name get the same verdict, with or without a secret |
| Signature.ChecksumAlgorithmNotRefused | app.py:32-40 | with a secret, `crc32=whatever` is not a BadRequest: it is Accepted exactly when the HMAC-SHA1 hex of the body is `whatever`, and Unauthorized otherwise |
| Topics.LastSegment | app.py:56 | `rsplit(':')[-1]`: the key of an ARN contains no colon and is no longer than the ARN |
| Topics.LastSegmentIsFinalSuffix | app.py:56 | the key ends the ARN and is either the whole ARN or preceded by a colon, so with the colon-free guarantee of `LastSegment` it is the longest colon-free suffix |
| Topics.LastSegmentAfterColon | app.py:56 | whatever precedes the last colon, the key is the text after it |
| Topics.ColonFreeArnIsOwnKey | app.py:56 | an ARN without a colon is its own key |
| Topics.TopicMap | app.py:55-58 | the dict comprehension over the listed ARNs: at most one key per listed ARN, and the last listed ARN always owns its key |
| Topics.TopicMapKeys | app.py:55-58 | a name is a key of the ARN dictionary exactly when some listed ARN has that name as its key |
| Topics.TopicMapLaterWins | app.py:55-58 | every key maps to a listed ARN with that key, and no ARN listed after it has the same key, so a later ARN overwrites an earlier one |
| Topics.BuildTopicMap | app.py:54-58 | the loop over the listed ARNs builds exactly the dictionary `TopicMap` describes |
| Sns.Registered | app.py:61 | after a creation the topic list contains the created ARN and nothing else new, and it keeps the old list as a prefix |
| Sns.SnsClient.constructor | app.py:25 | a new client lists the given ARNs, uses the given naming function for created topics, and has an empty call log |
| Sns.SnsClient.ListTopicArns | app.py:54 | `list_topics` returns the listed ARNs, logs one `ListTopics` call, and changes no topic |
| Sns.SnsClient.CreateTopicArn | app.py:61 | `create_topic(Name=name)` returns `arnFor(name)`, registers that ARN once, and logs `CreateTopic(name)` |
| Sns.SnsClient.PublishMessage | app.py:63-68 | `publish` logs one `Publish` call with its target, subject, message and structure, and changes no topic |
| Webhook.TopicName | app.py:59 | `f'{integration}_{event}'`: the name is the integration, then one underscore, then the event, and nothing else |
| Webhook.Rejection | app.py:35-40 | a failed signature check is never acknowledged; it raises BadRequestError exactly when the verdict is BadRequest (missing or malformed header), and UnauthorizedError otherwise (digest mismatch) |
| Webhook.Index | app.py:44-70 | a failed signature check returns its error (BadRequest or Unauthorized) before the event header is read, with no backend call; a missing `X-GitHub-Event` then gives BadRequest with no backend call; otherwise the log gains exactly `ListTopics`, then `CreateTopic(integration_event)` only if no listed ARN is keyed by that name, then one `Publish` with subject = event, message = the body wrapped under `default`, structure `json`, to the mapped ARN or else to exactly the ARN the creation returned; the reply is `{'Code': 'Ok', 'Message': 'Webhook received.'}` |
| Webhook.CreatedTopicIsFoundNextTime | app.py:54-61 | if the created ARN is keyed by the topic name, the next listing maps that name to the created ARN, so a repeated delivery of the same integration and event creates nothing |

## Left out

- Chalice wiring (`app`, routing, `app.current_request`): the request is passed to `Index` as a value, and the route's `integration` is a parameter. The parsed payload `request.json_body`, which the source reads only when it publishes (after listing and any creation), is assumed always available; a failure while producing it, which would leave the backend calls made and nothing published, is not modelled.
- Environment configuration (`DEBUG`, `S3_REGION`) and boto3 client construction: process setup. `SECRET` is the `secret` parameter.
- HMAC-SHA1, hex encoding and `.encode()` (UTF-8) are foreign cryptography. They are abstracted as the parameter `hmacSha1Hex`.
- `compare_digest` runs in constant time. That is a timing property, and the model treats the comparison as plain equality.
- JSON serialisation of the published message is not modelled. `DefaultEnvelope(body)` records only that the payload is wrapped under the `default` key; no JSON round-trip is stated.
- The algorithm blacklist and `parse_hashlib_blacklist`: tests/test_app.py refers to them, but `app.py` has neither.
- Header lookup in Chalice is case-insensitive. The model uses an exact-key `map<string, string>`. The `X-GitHub-Delivery` header is never read.
- Backend failures (network, permission, throttling) are not modelled: the client's calls always succeed. In the source, the boto3 exception simply propagates, and calls logged before the failure stay made.
- `list_topics` pagination is not modelled. The source reads only the first page (`NextToken` is ignored), while the model's listing returns every topic. With many topics the source may call `create_topic` for an existing topic, which the backend answers with the existing ARN.
- Concurrent deliveries racing to create the same topic are not modelled, because concurrency is out of scope.
